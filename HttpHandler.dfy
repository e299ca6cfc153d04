/**
 * The request logic of the HTTP handlers once the database rows are given:
 * choosing the source file to convert, building paths, file names and URIs,
 * reading the `enqueue` flag, and the exact JSON text of the answers.
 */
module HttpHandler {
  import opened Wrappers
  import opened Text
  import opened Numbers
  import opened Paths
  import opened Host
  import opened Cache
  import opened Queue
  import opened Db
  import opened Worker
  import Json

  /** Shared by all handlers; fixed once the server starts. */
  datatype AppConfig = AppConfig(
    dbConnector: ConnectorConfig,
    staticPath: string,
    cachePath: string,
    dataPath: string,
    appPrefix: string,
    convTaskTx: Channel<Job>)

  /** The supported formats, most preferred first. */
  const PreferredFormat: seq<string> := ["EPUB", "HTMLZ", "AZW3", "AZW4", "MOBI", "PDF"]

  /** Index of the first `x` in `list`, or `|list|` when it is absent. */
  function Position(list: seq<string>, x: string): (i: nat)
    ensures i <= |list|
    ensures i < |list| ==> list[i] == x
    ensures forall j :: 0 <= j < i ==> list[j] != x
  {
    if list == [] || list[0] == x then 0 else 1 + Position(list[1..], x)
  }

  /** How little a format is wanted: its rank, or one past the last for an unknown format. */
  function Cost(format: string): (c: nat)
    ensures c <= |PreferredFormat|
  {
    Position(PreferredFormat, format)
  }

  /** A known format costs its rank in the list; an unknown one costs one past the last. */
  lemma CostRank(format: string)
    ensures Cost(format) < |PreferredFormat| <==> format in PreferredFormat
    ensures Cost(format) < |PreferredFormat| ==> PreferredFormat[Cost(format)] == format
  {
  }

  /** One row of the formats query: the book's directory, the file's base name and its format. */
  datatype SourceRow = SourceRow(dir: string, name: string, format: string)

  /** The first position of the smallest cost. */
  function ArgMin(costs: seq<nat>): (k: nat)
    requires costs != []
    ensures k < |costs|
    ensures forall j :: 0 <= j < |costs| ==> costs[k] <= costs[j]
    ensures forall j :: 0 <= j < k ==> costs[j] > costs[k]
    decreases |costs|
  {
    if |costs| == 1 then 0
    else
      var k := ArgMin(costs[..|costs| - 1]);
      if costs[|costs| - 1] < costs[k] then |costs| - 1 else k
  }

  /** Extending the costs by one keeps the old minimum unless the new cost is strictly smaller. */
  lemma ArgMinStep(costs: seq<nat>, i: nat)
    requires 0 < i < |costs|
    ensures ArgMin(costs[..i + 1]) == if costs[i] < costs[ArgMin(costs[..i])] then i else ArgMin(costs[..i])
  {
    assert costs[..i + 1][..i] == costs[..i];
  }

  function Costs(rows: seq<SourceRow>): (cs: seq<nat>)
    ensures |cs| == |rows|
    ensures forall i :: 0 <= i < |rows| ==> cs[i] == Cost(rows[i].format)
  {
    seq(|rows|, i requires 0 <= i < |rows| => Cost(rows[i].format))
  }

  /** The row the scan keeps: the cheapest, and the first one among equally cheap rows. */
  function BestIndex(rows: seq<SourceRow>): (k: nat)
    requires rows != []
    ensures k < |rows|
    ensures forall j :: 0 <= j < |rows| ==> Cost(rows[k].format) <= Cost(rows[j].format)
    ensures forall j :: 0 <= j < k ==> Cost(rows[j].format) > Cost(rows[k].format)
  {
    ArgMin(Costs(rows))
  }

  /** A book that has an EPUB is converted from it. */
  lemma EpubPreferred(rows: seq<SourceRow>, j: nat)
    requires j < |rows| && rows[j].format == "EPUB"
    ensures rows[BestIndex(rows)].format == "EPUB"
  {
    CostRank(rows[j].format);
    assert Cost(rows[j].format) == 0;
  }

  /** With no known format at all the first row is kept. */
  lemma UnknownFormatsKeepFirst(rows: seq<SourceRow>)
    requires rows != []
    requires forall j :: 0 <= j < |rows| ==> rows[j].format !in PreferredFormat
    ensures BestIndex(rows) == 0
  {
    var k := BestIndex(rows);
    CostRank(rows[0].format);
    CostRank(rows[k].format);
    assert Cost(rows[0].format) == |PreferredFormat| && Cost(rows[k].format) == |PreferredFormat|;
  }

  /**
   * The selection loop: a row replaces the kept one only when it is strictly
   * cheaper; the initial cost is beaten by every row.
   */
  method SelectSource(rows: seq<SourceRow>) returns (dirname: string, filename: string, minFormat: string)
    ensures rows == [] ==> dirname == "" && filename == "" && minFormat == ""
    ensures rows != [] ==> SourceRow(dirname, filename, minFormat) == rows[BestIndex(rows)]
  {
    dirname, filename, minFormat := "", "", "";
    var minCost := |PreferredFormat| + 1;
    ghost var costs := Costs(rows);
    ghost var best: nat := 0;
    for i := 0 to |rows|
      invariant i == 0 ==> minCost == |PreferredFormat| + 1
      invariant i == 0 ==> dirname == "" && filename == "" && minFormat == ""
      invariant i > 0 ==> best == ArgMin(costs[..i]) && best < i
      invariant i > 0 ==> SourceRow(dirname, filename, minFormat) == rows[best] && minCost == costs[best]
    {
      var cost := Cost(rows[i].format);
      if i > 0 {
        ArgMinStep(costs, i);
      }
      if cost < minCost {
        minCost := cost;
        minFormat := rows[i].format;
        dirname := rows[i].dir;
        filename := rows[i].name;
        best := i;
      }
    }
    assert costs[..|rows|] == costs;
  }

  /** `data_path / dir / name.format`, the format lower-cased. */
  function SourceFilePath(dataPath: string, dir: string, name: string, format: string): string {
    Push(Push(dataPath, dir), name + "." + Lowercase(format))
  }

  /** The file a conversion is asked for; the empty selection gives the file name ".". */
  function EnqueuedSource(dataPath: string, rows: seq<SourceRow>): string {
    if rows == [] then SourceFilePath(dataPath, "", "", "")
    else
      var best := rows[BestIndex(rows)];
      SourceFilePath(dataPath, best.dir, best.name, best.format)
  }

  /** Without any row the source is the data directory followed by ".". */
  lemma NoRowsSource(dataPath: string)
    ensures EnqueuedSource(dataPath, []) ==
      (if dataPath == [] || dataPath[|dataPath| - 1] == '/' then dataPath else dataPath + "/") + "."
  {
  }

  lemma PushTwice(base: string, dir: string, fileName: string)
    requires base != [] && base[|base| - 1] != '/'
    requires dir != [] && !IsAbsolute(dir) && dir[|dir| - 1] != '/'
    requires IsNormalComponent(fileName)
    ensures Push(Push(base, dir), fileName) == base + "/" + dir + "/" + fileName
    ensures FileName(Push(Push(base, dir), fileName)) == Some(fileName)
    ensures Pop(Push(Push(base, dir), fileName)) == base + "/" + dir
  {
    var b := Push(base, dir);
    assert b == base + "/" + dir;
    PushFileName(b, fileName);
    PopPush(b, fileName);
  }

  /** Under a plain data directory and book directory the source path is laid out component by component. */
  lemma SourceFilePathShape(dataPath: string, dir: string, name: string, format: string)
    requires dataPath != [] && dataPath[|dataPath| - 1] != '/'
    requires dir != [] && !IsAbsolute(dir) && dir[|dir| - 1] != '/'
    requires IsNormalComponent(name + "." + Lowercase(format))
    ensures var fileName := name + "." + Lowercase(format);
      var p := SourceFilePath(dataPath, dir, name, format);
      p == dataPath + "/" + dir + "/" + fileName && FileName(p) == Some(fileName) && Pop(p) == dataPath + "/" + dir
  {
    PushTwice(dataPath, dir, name + "." + Lowercase(format));
  }

  /** `?enqueue=`: absent or not an `i32` counts as 1; only zero turns enqueueing off. */
  function EnqueueFlag(query: Option<string>): bool {
    var v := match query
      case Some(s) => (match ParseI32(s) case Some(n) => n case None => 1)
      case None => 1;
    v != 0
  }

  /** The digits of a numeral: the text after an optional sign. */
  function Unsigned(s: string): string {
    if |s| > 0 && (s[0] == '+' || s[0] == '-') then s[1..] else s
  }

  predicate AllZero(d: string) {
    forall i :: 0 <= i < |d| ==> d[i] == '0'
  }

  /** A numeral for zero: an optional sign and one or more '0' digits. */
  predicate IsZeroNumeral(s: string) {
    Unsigned(s) != [] && AllZero(Unsigned(s))
  }

  /** Enqueueing is off exactly when the query gives a numeral for zero. */
  lemma EnqueueFlagOffIff(query: Option<string>)
    ensures !EnqueueFlag(query) <==> query.Some? && IsZeroNumeral(query.value)
  {
    if query.Some? {
      var s := query.value;
      var d := Unsigned(s);
      if d != [] && AllZero(d) {
        assert AllDigits(d);
      }
      if d != [] && AllDigits(d) {
        DigitsValueZero(d);
        var v: int := DigitsValue(d);
        assert ParseInt(s) == Some(if s[0] == '-' then -v else v);
      } else {
        assert ParseInt(s) == None;
      }
    }
  }

  /** The directory a book's rendition is unpacked into: `cache_path / <id>`. */
  function ReaderPath(cachePath: string, bookId: int): string {
    Push(cachePath, Decimal(bookId))
  }

  /** Where the reader for a book is served. */
  function ReaderUri(appPrefix: string, bookId: int): string {
    appPrefix + "/reader/" + Decimal(bookId)
  }

  /** Different books never share a rendition directory. */
  lemma ReaderPathsDistinct(cachePath: string, id1: int, id2: int)
    requires ReaderPath(cachePath, id1) == ReaderPath(cachePath, id2)
    ensures id1 == id2
  {
    var d1, d2 := Decimal(id1), Decimal(id2);
    assert !IsAbsolute(d1) && !IsAbsolute(d2);
    var pre := if cachePath == [] || cachePath[|cachePath| - 1] == '/' then cachePath else cachePath + "/";
    assert Push(cachePath, d1) == pre + d1 && Push(cachePath, d2) == pre + d2;
    assert d1 == (pre + d1)[|pre|..] && d2 == (pre + d2)[|pre|..];
    DecimalInjective(id1, id2);
  }

  const StatusOpen: string := "{\"is_ready\": "
  const StatusMid: string := ", \"uri\": \""
  const StatusClose: string := "\"}"

  /** The readiness answer, written out by `format!` without JSON escaping. */
  function StatusBody(isReady: bool, uri: string): string {
    StatusOpen + (if isReady then "true" else "false") + StatusMid + uri + StatusClose
  }

  /** Reads a readiness answer back; `None` when the text has another shape. */
  function ParseStatusBody(body: string): Option<(bool, string)> {
    if !StartsWith(body, StatusOpen) then None
    else
      var rest := body[|StatusOpen|..];
      var ready := StartsWith(rest, "true");
      if !ready && !StartsWith(rest, "false") then None
      else
        var rest2 := rest[if ready then 4 else 5..];
        if !StartsWith(rest2, StatusMid) then None
        else
          var tail := rest2[|StatusMid|..];
          if !EndsWith(tail, StatusClose) then None
          else
            var uri := tail[..|tail| - |StatusClose|];
            if '"' in uri then None else Some((ready, uri))
  }

  /** A URI without quotes comes back out of the answer together with the readiness. */
  lemma StatusBodyRoundTrip(isReady: bool, uri: string)
    requires '"' !in uri
    ensures ParseStatusBody(StatusBody(isReady, uri)) == Some((isReady, uri))
  {
    var word := if isReady then "true" else "false";
    var body := StatusBody(isReady, uri);
    assert body == StatusOpen + (word + (StatusMid + (uri + StatusClose)));
    var rest := body[|StatusOpen|..];
    assert rest == word + (StatusMid + (uri + StatusClose));
    assert rest[..|word|] == word;
    assert rest[3] == word[3];
    var rest2 := rest[|word|..];
    assert rest2 == StatusMid + (uri + StatusClose);
    var tail := rest2[|StatusMid|..];
    assert tail == uri + StatusClose;
    assert tail[..|tail| - |StatusClose|] == uri;
  }

  /**
   * `GET .../status/<id>`: answers whether the rendition is unpacked and, when
   * it is not and enqueueing is on, queues its conversion from the preferred
   * source file.
   */
  method GetReaderStatus(config: AppConfig, fs: FileSystem, query: Option<string>, bookId: int, rows: seq<SourceRow>)
    returns (body: string)
    requires config.convTaskTx.Valid()
    requires !CheckCacheAvailability(fs, ReaderPath(config.cachePath, bookId)) && EnqueueFlag(query) ==>
               |config.convTaskTx.buffer| < config.convTaskTx.capacity
    modifies config.convTaskTx
    ensures config.convTaskTx.Valid()
    ensures var readerPath := ReaderPath(config.cachePath, bookId);
      var ready := CheckCacheAvailability(fs, readerPath);
      body == StatusBody(ready, ReaderUri(config.appPrefix, bookId)) &&
      config.convTaskTx.buffer == old(config.convTaskTx.buffer) +
        (if !ready && EnqueueFlag(query) then [Job(EnqueuedSource(config.dataPath, rows), readerPath)] else [])
  {
    var doEnqueue := EnqueueFlag(query);
    var readerPath := Push(config.cachePath, Decimal(bookId));
    var readerUri := config.appPrefix + "/reader/" + Decimal(bookId);
    var isReady := "true";
    if !CheckCacheAvailability(fs, readerPath) {
      if doEnqueue {
        var dirname, filename, minFormat := SelectSource(rows);
        filename := filename + "." + Lowercase(minFormat);
        var srcPath := Push(Push(config.dataPath, dirname), filename);
        config.convTaskTx.Send(Job(srcPath, readerPath));
      }
      isReady := "false";
    }
    body := StatusOpen + isReady + StatusMid + readerUri + StatusClose;
  }

  /** The items of the book list, one JSON object per row, in row order. */
  function BookItems(rows: seq<BookRow>): (items: seq<string>)
    ensures |items| == |rows|
  {
    if rows == [] then []
    else BookItems(rows[..|rows| - 1]) + [BookJson(BookFromRow(rows[|rows| - 1]))]
  }

  /** The list keeps the rows' order: item `i` is the object for row `i`. */
  lemma {:induction false} BookItemsAt(rows: seq<BookRow>, i: nat)
    requires i < |rows|
    ensures BookItems(rows)[i] == BookJson(BookFromRow(rows[i]))
  {
    if i < |rows| - 1 {
      var init := rows[..|rows| - 1];
      BookItemsAt(init, i);
      assert init[i] == rows[i];
    }
  }

  /**
   * The string `get_book_list` builds: "[", then each item with a "," before
   * every item but the first, then "]".
   */
  method PushArray(items: seq<string>) returns (list: string)
    ensures list == Json.Array(items)
  {
    list := "[";
    var isFirst := true;
    for i := 0 to |items|
      invariant isFirst <==> i == 0
      invariant list == "[" + Join(items[..i], ",")
    {
      assert items[..i + 1] == items[..i] + [items[i]];
      if isFirst {
        isFirst := false;
      } else {
        JoinSnoc(items[..i], ",", items[i]);
        list := list + ",";
      }
      list := list + items[i];
    }
    assert items[..|items|] == items;
    list := list + "]";
  }

  /** `get_book_list`: the JSON array of every book, in the rows' order. */
  method GetBookList(rows: seq<BookRow>) returns (list: string)
    ensures list == Json.Array(BookItems(rows))
    ensures rows == [] ==> list == "[]"
  {
    list := PushArray(BookItems(rows));
  }

  /** One row of the data query: the book's title and directory and the file's base name. */
  datatype DataRow = DataRow(title: string, dir: string, name: string)

  /** The file to serve for `GET .../data/<id>/<format>` and the name to offer for download. */
  datatype DataTarget = DataTarget(path: string, downloadName: string)

  /** `None` is the 404 answer; otherwise the first row names the file. */
  function BookDataTarget(dataPath: string, format: string, rows: seq<DataRow>): (r: Option<DataTarget>)
    ensures r.None? <==> rows == []
    ensures r.Some? ==> r.value.path == SourceFilePath(dataPath, rows[0].dir, rows[0].name, format)
    ensures r.Some? ==> r.value.downloadName == rows[0].title + "." + Lowercase(format)
  {
    if rows == [] then None
    else
      Some(DataTarget(SourceFilePath(dataPath, rows[0].dir, rows[0].name, format),
                      rows[0].title + "." + Lowercase(format)))
  }

  /** The file served for a format is the one a conversion would start from when that format is chosen. */
  lemma ServedFileIsConversionSource(dataPath: string, format: string, rows: seq<DataRow>, srcRows: seq<SourceRow>)
    requires rows != [] && srcRows != []
    requires srcRows[BestIndex(srcRows)] == SourceRow(rows[0].dir, rows[0].name, format)
    ensures BookDataTarget(dataPath, format, rows).value.path == EnqueuedSource(dataPath, srcRows)
  {
  }
}
