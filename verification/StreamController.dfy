/** The response computed by `streamMovie` and `getMovieThumbnail`
    (server/src/controllers/streamController.ts): the catalog lookup, the
    MIME type, the loose parse of the `Range` header, the 10 MiB cap and the
    headers written before the bytes are piped; and the icon chosen for a
    movie's thumbnail. File existence, file sizes and the presence of icon
    files are inputs. */
module StreamController {
  import opened JsText
  import opened MovieTypes
  import NodePath
  import FileScanner

  /** `1024 * 1024 * 10`: the most bytes one partial response serves. */
  const MaxChunk: int := 10485760

  /** The headers passed to `res.writeHead`; `contentRange` is absent on a
      full-file response. */
  datatype Headers = Headers(
    contentRange: Option<string>,
    acceptRanges: string,
    contentLength: Num,
    contentType: string,
    cacheControl: string)

  /** What is piped after the headers: the whole file, or the bytes from
      `start` to `end` inclusive as handed to `fs.createReadStream`. */
  datatype Body = WholeFile | Bytes(start: Num, end: Num)

  datatype Missing = UnknownMovie | MissingFile

  datatype StreamReply =
    | Failure(status: int, reason: Missing)
    | Stream(status: int, headers: Headers, body: Body)

  /** The interval a `Range` header asks for, before the cap. */
  datatype Range = Range(start: Num, end: Num)

  // ---------------------------------------------------------------------
  // MIME type

  const VideoMimeTypes: set<string> :=
    {"video/mp4", "video/x-matroska", "video/x-msvideo", "video/quicktime", "video/x-ms-wmv", "video/x-flv"}

  /** `mimeTypes[ext.toLowerCase()] || "application/octet-stream"`. */
  function MimeOf(ext: string): (t: string)
    ensures t in VideoMimeTypes || t == "application/octet-stream"
    ensures t == "application/octet-stream" <==> ToLower(ext) !in FileScanner.VideoFormats
    ensures ToLower(ext) == "mp4" ==> t == "video/mp4"
    ensures ToLower(ext) == "mkv" ==> t == "video/x-matroska"
    ensures ToLower(ext) == "avi" ==> t == "video/x-msvideo"
    ensures ToLower(ext) == "mov" ==> t == "video/quicktime"
    ensures ToLower(ext) == "wmv" ==> t == "video/x-ms-wmv"
    ensures ToLower(ext) == "flv" ==> t == "video/x-flv"
  {
    var e := ToLower(ext);
    if e == "mp4" then "video/mp4"
    else if e == "mkv" then "video/x-matroska"
    else if e == "avi" then "video/x-msvideo"
    else if e == "mov" then "video/quicktime"
    else if e == "wmv" then "video/x-ms-wmv"
    else if e == "flv" then "video/x-flv"
    else "application/octet-stream"
  }

  /** `path.extname(p).slice(1)`: the extension without its dot, or empty
      when the path has no extension. */
  function ExtensionOf(p: string): (e: string)
    ensures '.' !in e && '/' !in e
    ensures NodePath.ExtName(p) == [] ==> e == []
    ensures NodePath.ExtName(p) != [] ==> |e| == |NodePath.ExtName(p)| - 1 && e == NodePath.ExtName(p)[1..]
  {
    var x := NodePath.ExtName(p);
    if x == [] then [] else x[1..]
  }

  /** The Content-Type of the file at `p`: a video type exactly when the
      path's extension is one of the six video formats in any letter case. */
  function MimeType(p: string): (t: string)
    ensures t != "application/octet-stream" <==> ToLower(ExtensionOf(p)) in FileScanner.VideoFormats
    ensures t == "application/octet-stream" || t in VideoMimeTypes
  {
    MimeOf(ExtensionOf(p))
  }

  /** The MIME table ignores the case of the extension. */
  lemma MimeOfIgnoresCase(ext: string)
    ensures MimeOf(ToLower(ext)) == MimeOf(ext)
  {
    ToLowerIdempotent(ext);
  }

  /** The file of a scanned record, at any depth below the media root, is
      served with the video type of the record's format: the path's extension
      is the file name's, which the scanner lower-cased into the format. */
  lemma ScannedRecordMime(parentDir: string, rel: seq<string>, name: string, size: nat)
    requires FileScanner.IsVideo(name) && '/' !in name
    ensures var r := FileScanner.MakeRecord(parentDir, rel, name, size);
      MimeType(r.path) == MimeOf(r.format) && MimeType(r.path) in VideoMimeTypes
  {
    var r := FileScanner.MakeRecord(parentDir, rel, name, size);
    assert name != [] by {
      if name == [] { NodePath.ExtNameEmpty(name); }
    }
    FileScanner.RecordPathExtName(rel, name);
    MimeTypeOfFormat(r.path, r.format);
  }

  /** A path whose lower-cased extension is a dot and a video format is
      served with that format's video type. */
  lemma MimeTypeOfFormat(p: string, format: string)
    requires format in FileScanner.VideoFormats && "." + format == ToLower(NodePath.ExtName(p))
    ensures MimeType(p) == MimeOf(format) && MimeType(p) in VideoMimeTypes
  {
    var x := NodePath.ExtName(p);
    assert ToLower(x[1..]) == ToLower(x)[1..] == format;
    MimeOfIgnoresCase(ExtensionOf(p));
    ScannedFormatsHaveVideoMime(format);
  }

  /** Every extension the scanner accepts has a video MIME type. */
  lemma ScannedFormatsHaveVideoMime(format: string)
    requires format in FileScanner.VideoFormats
    ensures MimeOf(format) in VideoMimeTypes
  {
    assert ToLower(format) == format;
  }

  // ---------------------------------------------------------------------
  // The Range header

  /** `range.replace(/bytes=/, "").split("-")`, then `parseInt` of the first
      part, and of the second part when it is present and non-empty;
      otherwise the end defaults to `fileSize - 1`. */
  function RequestedRange(header: string, fileSize: nat): (r: Range)
    ensures var parts := Split(RemoveFirst(header, "bytes="), '-');
      r.start == ParseInt(parts[0]) &&
      (|parts| == 1 || parts[1] == [] ==> r.end == Finite(fileSize - 1)) &&
      (|parts| > 1 && parts[1] != [] ==> r.end == ParseInt(parts[1]))
  {
    var parts := Split(RemoveFirst(header, "bytes="), '-');
    var start := ParseInt(parts[0]);
    var end := if |parts| > 1 && parts[1] != [] then ParseInt(parts[1]) else Finite(fileSize - 1);
    Range(start, end)
  }

  /** `Math.min(end, start + maxChunk - 1)`. */
  function CapEnd(start: Num, end: Num): (finalEnd: Num)
    ensures finalEnd.Finite? <==> start.Finite? && end.Finite?
    ensures finalEnd.Finite? ==>
      finalEnd.value <= end.value &&
      finalEnd.value - start.value + 1 <= MaxChunk &&
      (finalEnd == end || finalEnd.value - start.value + 1 == MaxChunk)
    ensures finalEnd.Finite? && end.value - start.value + 1 <= MaxChunk ==> finalEnd == end
  {
    Min(end, Sub(Add(start, Finite(MaxChunk)), Finite(1)))
  }

  /** `finalEnd - start + 1`. */
  function ChunkSize(start: Num, finalEnd: Num): (n: Num)
    ensures n.Finite? <==> start.Finite? && finalEnd.Finite?
    ensures n.Finite? ==> n.value == finalEnd.value - start.value + 1
  {
    Add(Sub(finalEnd, start), Finite(1))
  }

  /** `` `bytes ${start}-${finalEnd}/${fileSize}` ``. */
  function ContentRange(start: Num, finalEnd: Num, fileSize: nat): string {
    "bytes " + NumToString(start) + "-" + NumToString(finalEnd) + "/" + IntToString(fileSize)
  }

  /** For a finite interval, a client reading the header back finds the
      start, the end and the size: after `bytes `, a `/` separates the
      interval from the size and a `-` separates the two ends. */
  lemma ContentRangeReadBack(start: nat, finalEnd: nat, fileSize: nat)
    ensures var r := ContentRange(Finite(start), Finite(finalEnd), fileSize);
      |r| > 6 && r[..6] == "bytes " &&
      var halves := Split(r[6..], '/');
      |halves| == 2 && ParseInt(halves[1]) == Finite(fileSize) &&
      var ends := Split(halves[0], '-');
      |ends| == 2 && ParseInt(ends[0]) == Finite(start) && ParseInt(ends[1]) == Finite(finalEnd)
  {
    var a, b, c := NatToString(start), NatToString(finalEnd), NatToString(fileSize);
    var r := ContentRange(Finite(start), Finite(finalEnd), fileSize);
    assert r == "bytes " + (a + "-" + b + "/" + c);
    assert r[6..] == a + "-" + b + "/" + c;
    SplitNumerals(a, b, c);
    ParseIntOfNatToString(start);
    ParseIntOfNatToString(finalEnd);
    ParseIntOfNatToString(fileSize);
  }

  /** `<a>-<b>/<c>` with digit strings splits on `/` and then on `-` into its
      three numerals. */
  lemma SplitNumerals(a: string, b: string, c: string)
    requires AllDigits(a) && AllDigits(b) && AllDigits(c)
    ensures Split(a + "-" + b + "/" + c, '/') == [a + "-" + b, c]
    ensures Split(a + "-" + b, '-') == [a, b]
  {
    var ab := a + "-" + b;
    assert ab + "/" + c == Join([ab, c], '/');
    assert ab == Join([a, b], '-');
    assert forall k :: 0 <= k < |ab| ==> ab[k] == '-' || IsDigit(ab[k]);
    assert '/' !in c && '-' !in a && '-' !in b by {
      assert forall k :: 0 <= k < |c| ==> IsDigit(c[k]);
    }
    assert forall k :: 0 <= k < 2 ==> '/' !in [ab, c][k];
    assert forall k :: 0 <= k < 2 ==> '-' !in [a, b][k];
    SplitJoin([ab, c], '/');
    SplitJoin([a, b], '-');
  }

  // ---------------------------------------------------------------------
  // streamMovie

  /** The reply for a catalogued movie whose file exists and has `fileSize`
      bytes: 206 with a capped interval when a non-empty `Range` header was
      sent, 200 with the whole file otherwise. */
  function StreamFile(moviePath: string, fileSize: nat, range: Option<string>): (r: StreamReply)
    ensures r.Stream?
    ensures r.headers.acceptRanges == "bytes" && r.headers.cacheControl == "max-age=3600"
    ensures r.headers.contentType == MimeType(moviePath)
    ensures r.status == 206 || r.status == 200
    ensures r.status == 206 <==> range.Some? && range.value != []
    ensures r.status == 200 ==>
      r.headers.contentRange == None && r.headers.contentLength == Finite(fileSize) && r.body == WholeFile
    ensures r.status == 206 ==>
      var asked := RequestedRange(range.value, fileSize);
      r.body == Bytes(asked.start, CapEnd(asked.start, asked.end)) &&
      r.headers.contentRange == Some(ContentRange(r.body.start, r.body.end, fileSize)) &&
      r.headers.contentLength == ChunkSize(r.body.start, r.body.end)
  {
    var contentType := MimeType(moviePath);
    if range.Some? && range.value != [] then
      var asked := RequestedRange(range.value, fileSize);
      var finalEnd := CapEnd(asked.start, asked.end);
      Stream(206,
        Headers(Some(ContentRange(asked.start, finalEnd, fileSize)), "bytes",
                ChunkSize(asked.start, finalEnd), contentType, "max-age=3600"),
        Bytes(asked.start, finalEnd))
    else
      Stream(200, Headers(None, "bytes", Finite(fileSize), contentType, "max-age=3600"), WholeFile)
  }

  /** GET /api/stream/:id. `files` maps each existing movie path to its size. */
  function StreamMovie(idParam: string, movies: seq<Movie>, files: map<string, nat>, range: Option<string>): (r: StreamReply)
    ensures FindById(movies, ParseInt(idParam)).None? <==> r == Failure(404, UnknownMovie)
    ensures r == Failure(404, MissingFile) <==>
      FindById(movies, ParseInt(idParam)).Some? && FindById(movies, ParseInt(idParam)).value.path !in files
  {
    var found := FindById(movies, ParseInt(idParam));
    match found
    case None => Failure(404, UnknownMovie)
    case Some(m) =>
      if m.path !in files then Failure(404, MissingFile)
      else StreamFile(m.path, files[m.path], range)
  }

  /** A catalogued movie whose file exists gets the reply for that file. */
  lemma StreamMovieServesFile(idParam: string, movies: seq<Movie>, files: map<string, nat>, range: Option<string>, m: Movie)
    requires FindById(movies, ParseInt(idParam)) == Some(m) && m.path in files
    ensures StreamMovie(idParam, movies, files, range) == StreamFile(m.path, files[m.path], range)
  {
  }

  /** The served length never exceeds 10 MiB, and the Content-Length agrees
      with the interval named in Content-Range. */
  lemma PartialContentHeaders(moviePath: string, fileSize: nat, header: string)
    requires header != []
    ensures var r := StreamFile(moviePath, fileSize, Some(header));
      r.status == 206 &&
      (r.headers.contentLength.Finite? ==>
        r.headers.contentLength.value <= MaxChunk &&
        r.headers.contentLength.value == r.body.end.value - r.body.start.value + 1) &&
      (r.headers.contentLength.NaN? <==> r.body.start.NaN? || r.body.end.NaN?)
  {
  }

  /** `bytes=<a>-<b>` with no dash in `a` splits into `a` followed by the
      pieces of `b`. */
  lemma HeaderParts(a: string, b: string)
    requires '-' !in a
    ensures Split(RemoveFirst("bytes=" + a + "-" + b, "bytes="), '-') == [a] + Split(b, '-')
  {
    var h := "bytes=" + a + "-" + b;
    assert OccursAt(h, "bytes=", 0);
    assert RemoveFirst(h, "bytes=") == a + ['-'] + b;
    SplitAtFirst(a, '-', b);
  }

  /** A header with an empty end part, `bytes=<a>-`, asks for everything up to
      the last byte of the file. */
  lemma OpenEndedRange(a: string, fileSize: nat)
    requires '-' !in a
    ensures RequestedRange("bytes=" + a + "-", fileSize) == Range(ParseInt(a), Finite(fileSize - 1))
  {
    HeaderParts(a, []);
    assert "bytes=" + a + "-" + [] == "bytes=" + a + "-";
  }

  /** Decimal numerals contain no dash. */
  lemma NoDashInNumeral(n: nat)
    ensures '-' !in NatToString(n)
  {
    var a := NatToString(n);
    assert forall k :: 0 <= k < |a| ==> IsDigit(a[k]);
  }

  /** With both ends written as decimal numbers, the interval is exactly the
      one asked for: an end beyond the file is not clamped to the file, and
      an end before the start is not rejected. */
  lemma ExplicitRange(s: nat, e: nat, fileSize: nat)
    ensures RequestedRange("bytes=" + NatToString(s) + "-" + NatToString(e), fileSize) == Range(Finite(s), Finite(e))
  {
    NoDashInNumeral(s);
    NoDashInNumeral(e);
    RangeOfParts(NatToString(s), NatToString(e), fileSize);
    ParseIntOfNatToString(s);
    ParseIntOfNatToString(e);
  }

  /** `bytes=<a>-<b>` with no further dash asks for `parseInt(a)` to `parseInt(b)`. */
  lemma RangeOfParts(a: string, b: string, fileSize: nat)
    requires '-' !in a && '-' !in b && b != []
    ensures RequestedRange("bytes=" + a + "-" + b, fileSize) == Range(ParseInt(a), ParseInt(b))
  {
    HeaderParts(a, b);
    SplitNoSeparator(b, '-');
    assert [a] + [b] == [a, b];
  }

  /** The reply for a header that asks for the interval `[s, e]`: at most
      10 MiB of it is served, from `s` on, whatever the file size; a short
      interval is served exactly, and a reversed one is not rejected but
      gets a Content-Length of zero or less. */
  lemma ServedInterval(moviePath: string, h: string, s: int, e: int, fileSize: nat)
    requires h != [] && RequestedRange(h, fileSize) == Range(Finite(s), Finite(e))
    ensures var finalEnd := if e - s + 1 <= MaxChunk then e else s + MaxChunk - 1;
      var r := StreamFile(moviePath, fileSize, Some(h));
      r.body == Bytes(Finite(s), Finite(finalEnd)) &&
      r.headers.contentLength == Finite(finalEnd - s + 1) &&
      r.headers.contentRange == Some(ContentRange(Finite(s), Finite(finalEnd), fileSize)) &&
      (s > e ==> r.headers.contentLength.value <= 0)
  {
    CapOfInterval(s, e);
  }

  /** The cap on a finite interval `[s, e]`. */
  lemma CapOfInterval(s: int, e: int)
    ensures var finalEnd := if e - s + 1 <= MaxChunk then e else s + MaxChunk - 1;
      CapEnd(Finite(s), Finite(e)) == Finite(finalEnd) &&
      ChunkSize(Finite(s), Finite(finalEnd)) == Finite(finalEnd - s + 1)
  {
  }

  /** `bytes=<s>-` on a file of `fileSize` bytes serves from `s` to the end
      of the file, or the first 10 MiB of that when it is longer. */
  lemma OpenEndedServed(moviePath: string, h: string, s: nat, fileSize: nat)
    requires h == "bytes=" + NatToString(s) + "-"
    ensures var r := StreamFile(moviePath, fileSize, Some(h));
      var finalEnd := if fileSize - s <= MaxChunk then fileSize - 1 else s + MaxChunk - 1;
      r.body == Bytes(Finite(s), Finite(finalEnd)) &&
      r.headers.contentLength == Finite(finalEnd - s + 1)
  {
    assert h != [] by { assert h[0] == 'b'; }
    NoDashInNumeral(s);
    OpenEndedRange(NatToString(s), fileSize);
    ParseIntOfIntToString(s, []);
    assert IntToString(s) + [] == NatToString(s);
    ServedInterval(moviePath, h, s, fileSize - 1, fileSize);
  }

  /** `${NaN}` renders as `NaN`. */
  lemma ContentRangeOfNaN(fileSize: nat)
    ensures ContentRange(NaN, NaN, fileSize) == "bytes NaN-NaN/" + IntToString(fileSize)
  {
    assert "bytes " + "NaN" + "-" + "NaN" + "/" == "bytes NaN-NaN/";
  }

  /** A start that is not a number propagates: the interval and the
      Content-Length are NaN and the Content-Range reads `bytes NaN-NaN/size`. */
  lemma MalformedStart(moviePath: string, a: string, b: string, fileSize: nat)
    requires '-' !in a
    requires a == [] || (!IsWhite(a[0]) && !IsDigit(a[0]) && a[0] != '+')
    ensures var r := StreamFile(moviePath, fileSize, Some("bytes=" + a + "-" + b));
      r.body == Bytes(NaN, NaN) && r.headers.contentLength == NaN &&
      r.headers.contentRange == Some("bytes NaN-NaN/" + IntToString(fileSize))
  {
    var h := "bytes=" + a + "-" + b;
    assert h != [] by { assert h[0] == 'b'; }
    MalformedStartParse(a, b, fileSize);
    NaNStart(moviePath, h, fileSize);
  }

  /** The start part of `bytes=<a>-<b>` is `a`, so it parses to NaN when `a`
      does not begin with a number. */
  lemma MalformedStartParse(a: string, b: string, fileSize: nat)
    requires '-' !in a
    requires a == [] || (!IsWhite(a[0]) && !IsDigit(a[0]) && a[0] != '+')
    ensures RequestedRange("bytes=" + a + "-" + b, fileSize).start == NaN
  {
    HeaderParts(a, b);
  }

  /** The reply for a header whose start is not a number. */
  lemma NaNStart(moviePath: string, h: string, fileSize: nat)
    requires h != [] && RequestedRange(h, fileSize).start == NaN
    ensures var r := StreamFile(moviePath, fileSize, Some(h));
      r.body == Bytes(NaN, NaN) && r.headers.contentLength == NaN &&
      r.headers.contentRange == Some("bytes NaN-NaN/" + IntToString(fileSize))
  {
    ContentRangeOfNaN(fileSize);
  }

  /** Without a header, or with an empty one, the whole file is sent with its
      size as Content-Length. */
  lemma WholeFileWithoutRange(moviePath: string, fileSize: nat, range: Option<string>)
    requires range == None || range == Some([])
    ensures StreamFile(moviePath, fileSize, range) ==
      Stream(200, Headers(None, "bytes", Finite(fileSize), MimeType(moviePath), "max-age=3600"), WholeFile)
  {
  }

  // ---------------------------------------------------------------------
  // getMovieThumbnail

  /** The keys every plain JavaScript object inherits from `Object.prototype`;
      looking one of them up in the icon table yields a non-string. */
  const PrototypeKeys: set<string> := {
    "constructor", "__proto__", "__defineGetter__", "__defineSetter__",
    "__lookupGetter__", "__lookupSetter__", "hasOwnProperty", "isPrototypeOf",
    "propertyIsEnumerable", "toString", "toLocaleString", "valueOf"}

  /** `formatIcons[format] || formatIcons["default"]`; `None` when the lookup
      hits an inherited member, which `path.join` then refuses. */
  function IconFor(format: string): (icon: Option<string>)
    ensures icon.None? <==> format in PrototypeKeys
    ensures format == "mp4" ==> icon == Some("mp4_icon.png")
    ensures format == "mkv" ==> icon == Some("mkv_icon.jpg")
    ensures format == "avi" ==> icon == Some("avi_icon.jpg")
    ensures format !in PrototypeKeys && format !in {"mp4", "mkv", "avi"} ==> icon == Some("video_icon.jpg")
  {
    if format in PrototypeKeys then None
    else if format == "mp4" then Some("mp4_icon.png")
    else if format == "mkv" then Some("mkv_icon.jpg")
    else if format == "avi" then Some("avi_icon.jpg")
    else Some("video_icon.jpg")
  }

  datatype ThumbnailReply =
    | MovieNotFound   // 404 with a JSON message
    | SendIcon(icon: string)
    | IconMissing     // 404 "Thumbnail not available"
    | ServerError     // 500 from the framework's error handler

  /** GET /api/stream/thumbnail/:id. `icons` holds the icon files present. */
  function GetMovieThumbnail(idParam: string, movies: seq<Movie>, icons: set<string>): (r: ThumbnailReply)
    ensures r == MovieNotFound <==> FindById(movies, ParseInt(idParam)).None?
    ensures r.SendIcon? ==>
      (r.icon in icons && r.icon in {"mp4_icon.png", "mkv_icon.jpg", "avi_icon.jpg", "video_icon.jpg"})
    ensures r == ServerError <==>
      FindById(movies, ParseInt(idParam)).Some? && FindById(movies, ParseInt(idParam)).value.format in PrototypeKeys
    ensures var found := FindById(movies, ParseInt(idParam));
      found.Some? && IconFor(found.value.format).Some? ==>
        var icon := IconFor(found.value.format).value;
        r == if icon in icons then SendIcon(icon) else IconMissing
  {
    match FindById(movies, ParseInt(idParam))
    case None => MovieNotFound
    case Some(m) =>
      match IconFor(m.format)
      case None => ServerError
      case Some(icon) => if icon in icons then SendIcon(icon) else IconMissing
  }

  /** A movie found by a scan always gets an icon name, never the error. */
  lemma ScannedFormatsHaveIcons(format: string)
    requires format in FileScanner.VideoFormats
    ensures IconFor(format).Some?
  {
  }
}
