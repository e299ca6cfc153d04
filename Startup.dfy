/**
 * Start-up: choosing the metadata connector from the `--db` option,
 * resolving the data directory, and creating the conversion queue.
 */
module Startup {
  import opened Wrappers
  import opened Text
  import opened Paths
  import opened Queue
  import opened Db
  import opened Worker
  import opened HttpHandler

  /** The command-line options. */
  datatype Opt = Opt(
    metaDataDb: string,
    staticPath: string,
    cachePath: string,
    dataPath: Option<string>,
    converterBin: string,
    verbosity: nat,
    appPrefix: string,
    bindTo: string,
    s3Region: string)

  /** Why the server does not start. */
  datatype StartupError =
    | MissingDataPath   // S3 metadata without `--data-root-dir`
    | InvalidDbUri      // an `s3://` URI without a host

  /** The bound of the conversion queue. */
  const ConversionQueueCapacity: nat := 100

  const S3Scheme: string := "s3://"

  /**
   * An `s3://` database is mirrored from S3 and needs an explicit data
   * directory; any other is a local file whose directory is the default
   * data directory.
   */
  function MakeAppConfig(opt: Opt, tx: Channel<Job>): (r: Result<AppConfig, StartupError>)
    ensures r.Ok? ==> r.value.staticPath == opt.staticPath && r.value.cachePath == opt.cachePath
    ensures r.Ok? ==> r.value.appPrefix == opt.appPrefix && r.value.convTaskTx == tx
    ensures r.Ok? && opt.dataPath.Some? ==> r.value.dataPath == opt.dataPath.value
    ensures StartsWith(opt.metaDataDb, S3Scheme) ==>
      (r == Err(MissingDataPath) <==> opt.dataPath.None?) &&
      (r.Ok? <==> opt.dataPath.Some? && ParseS3Location(opt.metaDataDb).Some?)
    ensures StartsWith(opt.metaDataDb, S3Scheme) && r.Ok? ==>
      r.value.dbConnector == RemoteSource(ParseS3Location(opt.metaDataDb).value, opt.s3Region)
    ensures !StartsWith(opt.metaDataDb, S3Scheme) ==>
      r.Ok? && r.value.dbConnector == LocalSource(LocalDBConnector(opt.metaDataDb))
    ensures !StartsWith(opt.metaDataDb, S3Scheme) && opt.dataPath.None? ==>
      r.value.dataPath == Pop(opt.metaDataDb)
  {
    if StartsWith(opt.metaDataDb, S3Scheme) then
      match opt.dataPath
      case None => Err(MissingDataPath)
      case Some(dataPath) =>
        match ParseS3Location(opt.metaDataDb)
        case None => Err(InvalidDbUri)
        case Some(loc) =>
          Ok(AppConfig(RemoteSource(loc, opt.s3Region), opt.staticPath, opt.cachePath, dataPath, opt.appPrefix, tx))
    else
      var dataPath := match opt.dataPath case Some(p) => p case None => Pop(opt.metaDataDb);
      Ok(AppConfig(LocalSource(LocalDBConnector(opt.metaDataDb)), opt.staticPath, opt.cachePath, dataPath, opt.appPrefix, tx))
  }

  /** Without `--data-root-dir` the books are looked for next to a local database file. */
  lemma DefaultDataPathIsDbDirectory(opt: Opt, tx: Channel<Job>, dir: string, file: string)
    requires opt.dataPath.None?
    requires file != [] && '/' !in file
    requires dir == [] || dir == "/" || dir[|dir| - 1] != '/'
    requires opt.metaDataDb == Push(dir, file)
    requires !StartsWith(opt.metaDataDb, S3Scheme)
    ensures MakeAppConfig(opt, tx).Ok? && MakeAppConfig(opt, tx).value.dataPath == dir
  {
    PopPush(dir, file);
  }

  /** An `s3://bucket/key` database is mirrored from that bucket and key. */
  lemma S3UriSelectsMirror(opt: Opt, tx: Channel<Job>, loc: S3Location)
    requires opt.metaDataDb == S3Uri(loc) && opt.dataPath.Some?
    requires loc.bucket != [] && PlainHost(loc.bucket)
    requires '?' !in loc.key && '#' !in loc.key
    requires loc.key == [] || loc.key[0] != '/'
    ensures MakeAppConfig(opt, tx) ==
      Ok(AppConfig(RemoteSource(loc, opt.s3Region), opt.staticPath, opt.cachePath, opt.dataPath.value, opt.appPrefix, tx))
  {
    ParseS3Uri(loc);
    S3UriHasScheme(loc);
  }

  lemma S3UriHasScheme(loc: S3Location)
    ensures StartsWith(S3Uri(loc), S3Scheme)
  {
    assert S3Uri(loc)[..5] == S3Scheme;
  }

  /** Creates the conversion queue the worker drains and the handlers feed, then the configuration. */
  method Start(opt: Opt) returns (tx: Channel<Job>, config: Result<AppConfig, StartupError>)
    ensures fresh(tx) && tx.Valid() && tx.capacity == ConversionQueueCapacity && tx.buffer == []
    ensures config == MakeAppConfig(opt, tx)
  {
    tx := new Channel<Job>(ConversionQueueCapacity);
    config := MakeAppConfig(opt, tx);
  }
}
