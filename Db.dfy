/**
 * Access to the Calibre metadata database: a connector that opens a local
 * SQLite file, a connector that mirrors the file from S3 with conditional
 * requests, and the book rows read from it.
 */
module Db {
  import opened Wrappers
  import opened Text
  import opened Numbers
  import opened Host
  import Json

  /** Where the S3 connector keeps its local copy of the database. */
  const LocalCachePath: string := "/tmp/cached_metadata.db"

  /** A read-only SQLite connection; only the file it was opened on matters here. */
  datatype Connection = Connection(path: string)

  /** Why `get_connection` panics. */
  datatype Abort =
    | OpenFailed(path: string)          // opening the database file failed
    | PoisonedLock                      // the mirror's lock was poisoned by an earlier panic
    | NoSuchKeyPanic(key: string)       // "No such key: {}"
    | CredentialsPanic                  // "credential"
    | OtherPanic(description: string)   // "Other error" and the Debug text of the cause
    | MissingBody                       // a successful response without a body
    | CreateFailed(path: string)        // "Failed to open local cache file"

  /** Opening `path` read-only: it succeeds exactly when the file exists. */
  function OpenReadOnly(fs: FileSystem, path: string): (r: Result<Connection, Abort>)
    ensures r.Ok? <==> path in fs && fs[path].File?
    ensures r.Ok? ==> r.value.path == path
    ensures r.Err? ==> r.error == OpenFailed(path)
  {
    if path in fs && fs[path].File? then Ok(Connection(path)) else Err(OpenFailed(path))
  }

  /** A connector to a database file on the local file system. */
  datatype LocalDBConnector = LocalDBConnector(dbpath: string) {
    /** Every call opens the configured file afresh and fails only when it is missing. */
    function GetConnection(fs: FileSystem): (r: Result<Connection, Abort>)
      ensures r.Ok? <==> dbpath in fs && fs[dbpath].File?
      ensures r.Ok? ==> r.value == Connection(dbpath)
      ensures r.Err? ==> r.error == OpenFailed(dbpath)
    {
      OpenReadOnly(fs, dbpath)
    }
  }

  // ---------------------------------------------------------------------------
  // S3 locations
  // ---------------------------------------------------------------------------

  datatype S3Location = S3Location(bucket: string, key: string)

  /** The characters that end or split the host part of a URI. */
  predicate PlainHost(s: string) {
    forall i :: 0 <= i < |s| ==> s[i] !in {'/', '?', '#', '@', ':'}
  }

  /** The host of a URI authority: after any user information, before any port. */
  function AuthorityHost(authority: string): string {
    var hostPort := authority[LastIndexOf(authority, '@') + 1..];
    hostPort[..IndexOfAny(hostPort, {':'})]
  }

  /** The URI `s3://bucket/key`. */
  function S3Uri(loc: S3Location): string {
    "s3://" + loc.bucket + "/" + loc.key
  }

  /**
   * The bucket is the URI's host and the key its path without leading
   * slashes; a URI without a host names no location.
   */
  function ParseS3Location(uri: string): (r: Option<S3Location>)
    requires StartsWith(uri, "s3://")
    ensures r.Some? ==> r.value.bucket != [] && (r.value.key == [] || r.value.key[0] != '/')
  {
    var rest := uri[5..];
    var a := IndexOfAny(rest, {'/', '?', '#'});
    var host := AuthorityHost(rest[..a]);
    var after := rest[a..];
    var path := after[..IndexOfAny(after, {'?', '#'})];
    if host == [] then None else Some(S3Location(host, TrimStart(path, '/')))
  }

  lemma TrimOneSlash(key: string)
    requires key == [] || key[0] != '/'
    ensures TrimStart("/" + key, '/') == key
  {
    var s := "/" + key;
    assert |s| >= 2 ==> s[1] == key[0];
  }

  /** Reading back a location from its URI gives the location. */
  /** A plain host is its own authority. */
  lemma PlainAuthorityHost(b: string)
    requires PlainHost(b)
    ensures AuthorityHost(b) == b
  {
    LastIndexOfUnique(b, '@', -1);
    assert b[0..] == b;
    assert IndexOfAny(b, {':'}) == |b|;
  }

  /** The first stop character of `s`, when `s[k]` is one and nothing before it is. */
  lemma FirstStop(s: string, stops: set<char>, k: nat)
    requires k <= |s| && (k < |s| ==> s[k] in stops)
    requires forall j :: 0 <= j < k ==> s[j] !in stops
    ensures IndexOfAny(s, stops) == k
  {
  }

  /** A URI whose text after the scheme is a plain host, "/", and the key parses to them. */
  lemma ParseAfterScheme(uri: string, b: string, key: string)
    requires StartsWith(uri, "s3://") && uri[5..] == b + ("/" + key)
    requires b != [] && PlainHost(b)
    requires '?' !in key && '#' !in key
    requires key == [] || key[0] != '/'
    ensures ParseS3Location(uri) == Some(S3Location(b, key))
  {
    var rest := uri[5..];
    FirstStop(rest, {'/', '?', '#'}, |b|);
    assert rest[..|b|] == b;
    PlainAuthorityHost(b);
    var after := rest[|b|..];
    assert after == "/" + key;
    FirstStop(after, {'?', '#'}, |after|);
    assert after[..|after|] == after;
    TrimOneSlash(key);
  }

  lemma ParseS3Uri(loc: S3Location)
    requires loc.bucket != [] && PlainHost(loc.bucket)
    requires '?' !in loc.key && '#' !in loc.key
    requires loc.key == [] || loc.key[0] != '/'
    ensures ParseS3Location(S3Uri(loc)) == Some(loc)
  {
    var uri := S3Uri(loc);
    assert uri[..5] == "s3://";
    assert uri[5..] == loc.bucket + ("/" + loc.key);
    ParseAfterScheme(uri, loc.bucket, loc.key);
  }

  // ---------------------------------------------------------------------------
  // The S3 mirror
  // ---------------------------------------------------------------------------

  /** The part of a GetObject request the connector fills in. */
  datatype GetObjectRequest = GetObjectRequest(bucket: string, key: string, ifModifiedSince: Option<string>)

  /** What GetObject can answer, as far as the connector tells the answers apart. */
  datatype GetObjectResponse =
    | Fetched(lastModified: Option<string>, body: Option<seq<byte>>)
    | NoSuchKey(key: string)
    | Credentials
    | Unknown                     // taken to be "304 Not Modified"
    | OtherError(description: string)

  /** The S3 service: the answer it gives to each request. */
  type S3Remote = GetObjectRequest -> GetObjectResponse

  function RequestFor(loc: S3Location, lastUpdate: Option<string>): (req: GetObjectRequest)
    ensures req.bucket == loc.bucket && req.key == loc.key
    ensures req.ifModifiedSince == lastUpdate
  {
    GetObjectRequest(loc.bucket, loc.key, lastUpdate)
  }

  /**
   * The state a mirror call depends on: the remembered `Last-Modified`, whether
   * its lock is poisoned, and the file system holding the local copy.
   */
  datatype MirrorState = MirrorState(lastUpdate: Option<string>, poisoned: bool, fs: FileSystem)

  /**
   * One `get_connection` of the S3 connector given the answer to its request.
   * A panic while the lock is held poisons it; the database is opened after
   * the lock is released, so a failed open does not.
   */
  function Refresh(path: string, st: MirrorState, resp: GetObjectResponse): (Result<Connection, Abort>, MirrorState) {
    if st.poisoned then (Err(PoisonedLock), st)
    else match resp
      case NoSuchKey(k) => (Err(NoSuchKeyPanic(k)), st.(poisoned := true))
      case Credentials => (Err(CredentialsPanic), st.(poisoned := true))
      case OtherError(d) => (Err(OtherPanic(d)), st.(poisoned := true))
      case Unknown => (OpenReadOnly(st.fs, path), st)
      case Fetched(lm, body) =>
        if body.None? then (Err(MissingBody), st.(poisoned := true))
        else if path in st.fs && st.fs[path].Directory? then (Err(CreateFailed(path)), st.(poisoned := true))
        else
          var fs' := st.fs[path := File(body.value)];
          (OpenReadOnly(fs', path), MirrorState(lm, false, fs'))
  }

  /** Once the lock is poisoned every call fails and nothing changes. */
  lemma PoisonIsPermanent(path: string, st: MirrorState, resp: GetObjectResponse)
    requires st.poisoned
    ensures Refresh(path, st, resp) == (Err(PoisonedLock), st)
  {
  }

  /** A fetched object replaces the local copy, and its date becomes the one to ask with next. */
  lemma FetchedReplacesCopy(path: string, st: MirrorState, lm: Option<string>, data: seq<byte>)
    requires !st.poisoned
    requires !(path in st.fs && st.fs[path].Directory?)
    ensures var (r, st') := Refresh(path, st, Fetched(lm, Some(data)));
      r == Ok(Connection(path)) && st'.lastUpdate == lm && !st'.poisoned &&
      st'.fs[path] == File(data) && st'.fs - {path} == st.fs - {path}
  {
  }

  /** "Not modified" keeps the state and opens whatever copy is there. */
  lemma NotModifiedKeepsCopy(path: string, st: MirrorState)
    requires !st.poisoned
    ensures var (r, st') := Refresh(path, st, Unknown);
      st' == st && (r.Ok? <==> path in st.fs && st.fs[path].File?)
  {
  }

  /** An error answer aborts the call and poisons the lock, leaving copy and date alone. */
  lemma ErrorAnswersPoison(path: string, st: MirrorState, resp: GetObjectResponse)
    requires !st.poisoned
    requires resp.NoSuchKey? || resp.Credentials? || resp.OtherError? || (resp.Fetched? && resp.body.None?)
    ensures var (r, st') := Refresh(path, st, resp);
      r.Err? && st' == st.(poisoned := true)
  {
  }

  /**
   * The local copy and the remembered date only ever change together, to a
   * fetched body and its date, and no other file is touched.
   */
  lemma CopyAndDateChangeTogether(path: string, st: MirrorState, resp: GetObjectResponse)
    ensures var (r, st') := Refresh(path, st, resp);
      st'.fs - {path} == st.fs - {path} &&
      ((st'.fs == st.fs && st'.lastUpdate == st.lastUpdate) ||
       (resp.Fetched? && resp.body.Some? && r.Ok? &&
        st'.lastUpdate == resp.lastModified && st'.fs == st.fs[path := File(resp.body.value)]))
  {
  }

  /** A remote whose object, dated `lm`, has not changed: asked with that date it answers "not modified". */
  function UnchangedRemote(lm: string, data: seq<byte>): S3Remote {
    (req: GetObjectRequest) => if req.ifModifiedSince == Some(lm) then Unknown else Fetched(Some(lm), Some(data))
  }

  /** Against an unchanged object the first call downloads it and the second reuses the copy. */
  lemma SecondCallReusesCopy(loc: S3Location, path: string, st: MirrorState, lm: string, data: seq<byte>)
    requires !st.poisoned && st.lastUpdate != Some(lm)
    requires !(path in st.fs && st.fs[path].Directory?)
    ensures var remote := UnchangedRemote(lm, data);
      var (r1, st1) := Refresh(path, st, remote(RequestFor(loc, st.lastUpdate)));
      var (r2, st2) := Refresh(path, st1, remote(RequestFor(loc, st1.lastUpdate)));
      r1 == Ok(Connection(path)) && r2 == Ok(Connection(path)) &&
      st1.fs[path] == File(data) && st2 == st1
  {
  }

  /** Which connector the server was configured with. */
  datatype ConnectorConfig =
    | LocalSource(local: LocalDBConnector)
    | RemoteSource(location: S3Location, region: string)

  /** The S3 connector: its location and local copy are fixed, its date and lock change. */
  class S3DBConnector {
    const location: S3Location
    const region: string
    const localDbPath: string
    var lastUpdate: Option<string>
    var poisoned: bool

    constructor (location: S3Location, region: string)
      ensures this.location == location && this.region == region
      ensures localDbPath == LocalCachePath && lastUpdate == None && !poisoned
    {
      this.location := location;
      this.region := region;
      localDbPath := LocalCachePath;
      lastUpdate := None;
      poisoned := false;
    }

    function Mirror(m: Machine): MirrorState
      reads this, m
    {
      MirrorState(lastUpdate, poisoned, m.fs)
    }

    /** Asks S3 for the object if it changed since the remembered date, then opens the local copy. */
    method GetConnection(m: Machine, remote: S3Remote) returns (r: Result<Connection, Abort>)
      modifies this, m`fs
      ensures (r, Mirror(m)) == Refresh(localDbPath, old(Mirror(m)), remote(RequestFor(location, old(lastUpdate))))
    {
      if poisoned {
        return Err(PoisonedLock);
      }
      var resp := remote(RequestFor(location, lastUpdate));
      match resp {
        case NoSuchKey(k) =>
          poisoned := true;
          return Err(NoSuchKeyPanic(k));
        case Credentials =>
          poisoned := true;
          return Err(CredentialsPanic);
        case OtherError(d) =>
          poisoned := true;
          return Err(OtherPanic(d));
        case Unknown =>
        case Fetched(lm, body) =>
          if body.None? {
            poisoned := true;
            return Err(MissingBody);
          }
          if localDbPath in m.fs && m.fs[localDbPath].Directory? {
            poisoned := true;
            return Err(CreateFailed(localDbPath));
          }
          m.fs := m.fs[localDbPath := File(body.value)];
          lastUpdate := lm;
      }
      r := OpenReadOnly(m.fs, localDbPath);
    }
  }

  // ---------------------------------------------------------------------------
  // Books
  // ---------------------------------------------------------------------------

  /** One row of the book query: the formats come as one comma-separated column. */
  datatype BookRow = BookRow(id: int, title: string, authorSort: string, uuid: string, formats: string)

  datatype Book = Book(id: int, title: string, authorSort: string, uuid: string, availableData: seq<string>)

  /** The book a row describes; its formats are the column split at commas. */
  function BookFromRow(row: BookRow): (b: Book)
    ensures b.id == row.id && b.title == row.title && b.authorSort == row.authorSort && b.uuid == row.uuid
    ensures b.availableData != []
    ensures forall k :: 0 <= k < |b.availableData| ==> ',' !in b.availableData[k]
    ensures Join(b.availableData, ",") == row.formats
  {
    JoinSplit(row.formats, ',');
    Book(row.id, row.title, row.authorSort, row.uuid, Split(row.formats, ','))
  }

  function QuoteAll(xs: seq<string>): seq<string> {
    seq(|xs|, i requires 0 <= i < |xs| => Json.Quote(xs[i]))
  }

  /** The JSON object a `Book` serialises to, fields in declaration order. */
  function BookJson(b: Book): string {
    Json.Object([("id", Decimal(b.id)), ("title", Json.Quote(b.title)), ("author_sort", Json.Quote(b.authorSort)),
                 ("uuid", Json.Quote(b.uuid)), ("available_data", Json.Array(QuoteAll(b.availableData)))])
  }
}
