/** The directory scanner (server/src/utils/fileScanner.ts): walks a directory
    tree in listing order and turns every file with a video extension into a
    ScanResult with a cleaned-up title, a format and a poster path. The file
    system is given as a tree of entries. */
module FileScanner {
  import opened JsText
  import opened NodePath
  import opened MovieTypes

  /** A directory entry as `readdir` lists it and `stat` classifies it:
      anything that is not a directory counts as a file. */
  datatype Entry =
    | File(name: string, size: nat)
    | Directory(name: string, entries: seq<Entry>)

  /** `VIDEO_EXTENSIONS` of server/src/config.ts. */
  const VideoExtensions: seq<string> := [".mp4", ".mkv", ".avi", ".mov", ".wmv", ".flv"]

  /** The formats a scanned record can carry: the extensions without the dot. */
  const VideoFormats: set<string> := {"mp4", "mkv", "avi", "mov", "wmv", "flv"}

  /** `path.extname(file).toLowerCase()`: a dot and the extension's letters
      lower-cased, or empty. */
  function VideoExt(name: string): (e: string)
    ensures |e| == |ExtName(name)|
    ensures e == [] || e[0] == '.'
  {
    ToLower(ExtName(name))
  }

  /** `VIDEO_EXTENSIONS.includes(ext)`: the lower-cased extension is a dot
      followed by one of the six video formats. */
  predicate IsVideo(name: string)
    ensures IsVideo(name) <==>
      |VideoExt(name)| == 4 && VideoExt(name)[0] == '.' && VideoExt(name)[1..] in VideoFormats
  {
    VideoExtensionIff(VideoExt(name));
    VideoExt(name) in VideoExtensions
  }

  /** The video extensions are exactly a dot and one of the formats. */
  lemma VideoExtensionIff(e: string)
    ensures e in VideoExtensions <==> |e| == 4 && e[0] == '.' && e[1..] in VideoFormats
  {
    if e in VideoExtensions {
      VideoExtensionFormat(e);
    }
    if |e| == 4 && e[0] == '.' && e[1..] in VideoFormats {
      var f := e[1..];
      assert e == "." + f;
      if f == "mp4" { assert e == ".mp4"; }
      else if f == "mkv" { assert e == ".mkv"; }
      else if f == "avi" { assert e == ".avi"; }
      else if f == "mov" { assert e == ".mov"; }
      else if f == "wmv" { assert e == ".wmv"; }
      else { assert e == ".flv"; }
    }
  }

  // ---------------------------------------------------------------------
  // Title clean-up: the global, case-insensitive release-tag replace

  /** `s` starts with `lit`, letters compared without regard to case
      (the `i` flag; non-ASCII letters never fold onto ASCII ones). */
  predicate StartsWithIgnoringCase(s: string, lit: string) {
    |lit| <= |s| && forall k :: 0 <= k < |lit| ==> LowerChar(s[k]) == LowerChar(lit[k])
  }

  /** The case-insensitive comparison is `toLowerCase` on both sides. */
  lemma StartsWithIgnoringCaseLower(s: string, lit: string)
    ensures StartsWithIgnoringCase(s, lit) <==> |lit| <= |s| && ToLower(s[..|lit|]) == ToLower(lit)
  {
    if |lit| <= |s| && ToLower(s[..|lit|]) == ToLower(lit) {
      assert forall k :: 0 <= k < |lit| ==> ToLower(s[..|lit|])[k] == LowerChar(s[k]);
    }
  }

  /** Index of the first `]` at or after `i`, provided no line terminator
      comes first (what the lazy `.*?\]` reaches); -1 otherwise. */
  function BracketClose(s: string, i: nat): (j: int)
    requires i <= |s|
    ensures j == -1 || (i <= j < |s| && s[j] == ']')
    ensures j != -1 ==> forall k :: i <= k < j ==> s[k] != ']' && !IsLineTerminator(s[k])
    decreases |s| - i
  {
    if i == |s| then -1
    else if s[i] == ']' then i
    else if IsLineTerminator(s[i]) then -1
    else BracketClose(s, i + 1)
  }

  /** When no `]` is found, every `]` after `i` lies beyond a line terminator. */
  lemma {:induction false} BracketCloseNone(s: string, i: nat)
    requires i <= |s| && BracketClose(s, i) == -1
    ensures forall k :: i <= k < |s| && s[k] == ']' ==> exists m :: i <= m < k && IsLineTerminator(s[m])
    decreases |s| - i
  {
    if i < |s| && s[i] != ']' && !IsLineTerminator(s[i]) {
      BracketCloseNone(s, i + 1);
    }
  }

  /** The first `]` at or after `i`, with no line terminator before it, is
      the one found. */
  lemma {:induction false} BracketCloseAt(s: string, i: nat, j: nat)
    requires i <= j < |s| && s[j] == ']'
    requires forall k :: i <= k < j ==> s[k] != ']' && !IsLineTerminator(s[k])
    ensures BracketClose(s, i) == j
    decreases j - i
  {
    if i < j {
      BracketCloseAt(s, i + 1, j);
    }
  }

  /** `\.\d{4}\.` */
  predicate DotYear(s: string) {
    |s| >= 6 && s[0] == '.' && AllDigits(s[1..5]) && s[5] == '.'
  }

  /** `\.\w{3}$`, for a suffix of the input. */
  predicate TrailingWord(s: string) {
    |s| == 4 && s[0] == '.' && IsWordChar(s[1]) && IsWordChar(s[2]) && IsWordChar(s[3])
  }

  /** Length of the release tag that the pattern
      `\(\d{4}\)|\.\d{4}\.|\.720p\.|\.1080p\.|\.HDTV\.|\[.*?\]|\.DVDRip\.|\.\w{3}$`
      matches at the start of `s` (with the `i` flag; `$` is the end of the
      whole input, and `s` is always a suffix of it), or 0 for no match.
      Only the alternatives that can start with `s[0]` are tried. */
  function TagLength(s: string): (n: nat)
    ensures n <= |s|
    ensures n > 0 ==> n >= 2 && (s[0] == '(' || s[0] == '.' || s[0] == '[')
  {
    if s == [] then 0
    else if s[0] == '(' then YearInParensLength(s)
    else if s[0] == '.' then DotTagLength(s)
    else if s[0] == '[' then BracketTagLength(s)
    else 0
  }

  /** `\(\d{4}\)`: six characters, a year in parentheses. */
  function YearInParensLength(s: string): (n: nat)
    ensures n == 0 || (n == 6 && n <= |s|)
  {
    if |s| >= 6 && s[0] == '(' && AllDigits(s[1..5]) && s[5] == ')' then 6 else 0
  }

  /** `\.\d{4}\.|\.720p\.|\.1080p\.|\.HDTV\.|\.DVDRip\.|\.\w{3}$`, in that order. */
  function DotTagLength(s: string): (n: nat)
    ensures n == 0 || (4 <= n <= 8 && n <= |s|)
  {
    if DotYear(s) then 6
    else if StartsWithIgnoringCase(s, ".720p.") then 6
    else if StartsWithIgnoringCase(s, ".1080p.") then 7
    else if StartsWithIgnoringCase(s, ".HDTV.") then 6
    else if StartsWithIgnoringCase(s, ".DVDRip.") then 8
    else if TrailingWord(s) then 4
    else 0
  }

  /** `\[.*?\]`: a `[`, then the shortest run without a line terminator up to
      the first `]`. */
  function BracketTagLength(s: string): (n: nat)
    ensures n == 0 || (2 <= n <= |s|)
  {
    if s != [] && s[0] == '[' && BracketClose(s, 1) != -1 then BracketClose(s, 1) + 1 else 0
  }

  /** The `replace(..., " ")` with the global flag: left to right, each
      non-overlapping tag becomes one space. */
  function StripTags(s: string): (r: string)
    ensures |r| <= |s|
    decreases |s|
  {
    if s == [] then []
    else
      var n := TagLength(s);
      if n > 0 then " " + StripTags(s[n..]) else [s[0]] + StripTags(s[1..])
  }

  /** `replace(/\./g, " ")`. */
  function DotsToSpaces(s: string): (r: string)
    ensures |r| == |s| && '.' !in r
    ensures forall k :: 0 <= k < |s| ==> r[k] == (if s[k] == '.' then ' ' else s[k])
  {
    seq(|s|, k requires 0 <= k < |s| => if s[k] == '.' then ' ' else s[k])
  }

  lemma DotsToSpacesWithoutDots(s: string)
    requires '.' !in s
    ensures DotsToSpaces(s) == s
  {
    var r := DotsToSpaces(s);
    assert forall k :: 0 <= k < |s| ==> r[k] == s[k];
  }

  /** The title the scanner derives from a video file name: the name without
      its extension (cut only when the name ends with the lower-cased
      extension exactly), release tags replaced by spaces, dots turned into
      spaces, and white space trimmed. */
  function Title(name: string): (t: string)
    ensures '.' !in t
    ensures t != [] ==> !IsWhite(t[0]) && !IsWhite(t[|t| - 1])
  {
    Trim(DotsToSpaces(StripTags(BasenameWithout(name, VideoExt(name)))))
  }

  /** `/movies/thumbnails/<p>.webp`, where `p` is the parent directory's name
      unless that is `Movies` or `movies`, in which case it is the title. */
  function Poster(parentDir: string, title: string): string {
    "/movies/thumbnails/" + (if parentDir != "Movies" && parentDir != "movies" then parentDir else title) + ".webp"
  }

  /** A poster path is the thumbnails prefix, a name and the `.webp` suffix;
      the name is the directory's, or the title's inside `Movies`/`movies`. */
  lemma PosterLayout(parentDir: string, title: string)
    ensures var r := Poster(parentDir, title);
      |r| >= 24 && r[..19] == "/movies/thumbnails/" && r[|r| - 5..] == ".webp" &&
      r[19..|r| - 5] == if parentDir != "Movies" && parentDir != "movies" then parentDir else title
  {
    var p := if parentDir != "Movies" && parentDir != "movies" then parentDir else title;
    var r := Poster(parentDir, title);
    assert r[19..|r| - 5] == p;
  }

  /** Outside a directory named `Movies` or `movies`, the poster names the
      directory: every video file in it shares one poster, whatever its title,
      and files in differently named directories get different posters. */
  lemma PosterNamesDirectory(d1: string, t1: string, d2: string, t2: string)
    requires d1 != "Movies" && d1 != "movies" && d2 != "Movies" && d2 != "movies"
    ensures Poster(d1, t1) == Poster(d2, t2) <==> d1 == d2
  {
    var r1, r2 := Poster(d1, t1), Poster(d2, t2);
    PosterLayout(d1, t1);
    PosterLayout(d2, t2);
    if r1 == r2 {
      assert d1 == r1[19..|r1| - 5] == r2[19..|r2| - 5] == d2;
    }
  }

  /** Inside `Movies` or `movies` the poster names the title: two files get the
      same poster exactly when their titles agree. */
  lemma PosterNamesTitleAtRoot(d: string, t1: string, t2: string)
    requires d == "Movies" || d == "movies"
    ensures Poster(d, t1) == Poster(d, t2) <==> t1 == t2
  {
    var r1, r2 := Poster(d, t1), Poster(d, t2);
    PosterLayout(d, t1);
    PosterLayout(d, t2);
    if r1 == r2 {
      assert t1 == r1[19..|r1| - 5] == r2[19..|r2| - 5] == t2;
    }
  }

  /** Each video extension is a dot followed by one of the video formats. */
  lemma VideoExtensionFormat(ext: string)
    requires ext in VideoExtensions
    ensures |ext| == 4 && ext[1..] in VideoFormats && "." + ext[1..] == ext
  {
    if ext == ".mp4" { assert ext[1..] == "mp4"; }
    else if ext == ".mkv" { assert ext[1..] == "mkv"; }
    else if ext == ".avi" { assert ext[1..] == "avi"; }
    else if ext == ".mov" { assert ext[1..] == "mov"; }
    else if ext == ".wmv" { assert ext[1..] == "wmv"; }
    else { assert ext[1..] == "flv"; }
  }

  /** The record for a video file `name` of `size` bytes found in the
      directory `parentDir`, whose path below the media root is `rel`. */
  function MakeRecord(parentDir: string, rel: seq<string>, name: string, size: nat): (r: ScanResult)
    requires IsVideo(name)
    ensures r.format in VideoFormats && "." + r.format == VideoExt(name)
    ensures r.title == Title(name) && '.' !in r.title
    ensures r.path == Join(rel + [name], '/') && r.size == size && r.parentDir == parentDir
    ensures r.poster == Poster(parentDir, r.title)
  {
    var ext := VideoExt(name);
    VideoExtensionFormat(ext);
    var title := Title(name);
    ScanResult(title, Join(rel + [name], '/'), ext[1..], size, parentDir, Poster(parentDir, title))
  }

  /** `path.relative(MOVIES_DIR, filePath)`: when no directory or file name
      holds a `/`, splitting a record's path on `/` gives back the directory
      names from the root down and then the file name. */
  lemma RecordPathSegments(parentDir: string, rel: seq<string>, name: string, size: nat)
    requires IsVideo(name)
    requires '/' !in name && forall k :: 0 <= k < |rel| ==> '/' !in rel[k]
    ensures Split(MakeRecord(parentDir, rel, name, size).path, '/') == rel + [name]
  {
    var segs := rel + [name];
    forall k | 0 <= k < |segs|
      ensures '/' !in segs[k]
    {
      if k < |rel| { assert segs[k] == rel[k]; }
    }
    SplitJoin(segs, '/');
  }

  /** A record's path has the extension of its file name, whatever the
      directories above it. */
  lemma RecordPathExtName(rel: seq<string>, name: string)
    requires name != [] && '/' !in name
    ensures ExtName(Join(rel + [name], '/')) == ExtName(name)
  {
    if rel == [] {
      assert rel + [name] == [name];
    } else {
      JoinSnoc(rel, name, '/');
      ExtNameBelowDirectory(Join(rel, '/'), name);
    }
  }

  // ---------------------------------------------------------------------
  // The traversal

  /** What scanning the entries of directory `dirName` (at `rel` below the
      root) yields: each entry's records in listing order. */
  function ScanEntries(dirName: string, rel: seq<string>, entries: seq<Entry>): (r: seq<ScanResult>)
    ensures forall x :: x in r ==> x.format in VideoFormats && '.' !in x.title
    decreases entries
  {
    if entries == [] then []
    else
      var last := entries[|entries| - 1];
      ScanEntryRecords(dirName, rel, last);
      ScanEntries(dirName, rel, entries[..|entries| - 1]) + ScanEntry(dirName, rel, last)
  }

  /** Every record one entry contributes carries a video format and a title
      without dots. */
  lemma ScanEntryRecords(dirName: string, rel: seq<string>, e: Entry)
    ensures forall x :: x in ScanEntry(dirName, rel, e) ==> x.format in VideoFormats && '.' !in x.title
    decreases e, 1
  {
    match e
    case Directory(name, entries) =>
      assert ScanEntry(dirName, rel, e) == ScanEntries(name, rel + [name], entries);
    case File(name, size) =>
      var l := Listed(dirName, rel, name, size);
      RecordsFormats([l]);
      assert [l][..0] == [];
      assert FlatMap(RecordOf, [l]) == RecordOf(l);
      assert ScanEntry(dirName, rel, e) == RecordOf(l);
  }

  /** A subdirectory contributes its whole scan; a file contributes its record
      when its extension is a video extension, and nothing otherwise. */
  function ScanEntry(dirName: string, rel: seq<string>, e: Entry): (r: seq<ScanResult>)
    ensures e.File? ==> |r| <= 1 && (r != [] <==> IsVideo(e.name))
    decreases e, 0
  {
    match e
    case Directory(name, entries) => ScanEntries(name, rel + [name], entries)
    case File(name, size) =>
      if IsVideo(name) then
        [MakeRecord(dirName, rel, name, size)]
      else []
  }

  /** `scanDirectoryForMovies`: a loop over the listing that appends each
      file's record and splices in each subdirectory's recursive result. */
  method ScanDirectoryForMovies(dirName: string, rel: seq<string>, entries: seq<Entry>)
    returns (movies: seq<ScanResult>)
    ensures movies == ScanEntries(dirName, rel, entries)
    decreases entries
  {
    movies := [];
    for i := 0 to |entries|
      invariant movies == ScanEntries(dirName, rel, entries[..i])
    {
      assert entries[..i + 1][..i] == entries[..i];
      assert ScanEntries(dirName, rel, entries[..i + 1])
          == ScanEntries(dirName, rel, entries[..i]) + ScanEntry(dirName, rel, entries[i]);
      match entries[i]
      case Directory(name, subEntries) =>
        var subDirMovies := ScanDirectoryForMovies(name, rel + [name], subEntries);
        movies := movies + subDirMovies;
      case File(name, size) =>
        var ext := ToLower(ExtName(name));
        if ext in VideoExtensions {
          movies := movies + [MakeRecord(dirName, rel, name, size)];
        }
    }
    assert entries[..|entries|] == entries;
  }

  // ---------------------------------------------------------------------
  // A reference definition: list every file, then keep the video files

  /** A non-directory entry together with where it was listed. */
  datatype Listed = Listed(parentDir: string, rel: seq<string>, name: string, size: nat)

  /** Every non-directory entry of the tree, depth first in listing order. */
  function AllFiles(dirName: string, rel: seq<string>, entries: seq<Entry>): seq<Listed>
    decreases entries
  {
    if entries == [] then []
    else AllFiles(dirName, rel, entries[..|entries| - 1]) + EntryFiles(dirName, rel, entries[|entries| - 1])
  }

  function EntryFiles(dirName: string, rel: seq<string>, e: Entry): seq<Listed>
    decreases e
  {
    match e
    case Directory(name, entries) => AllFiles(name, rel + [name], entries)
    case File(name, size) => [Listed(dirName, rel, name, size)]
  }

  /** The record of one listed file, if it is a video file. */
  function RecordOf(f: Listed): (r: seq<ScanResult>)
    ensures |r| <= 1
  {
    if IsVideo(f.name) then [MakeRecord(f.parentDir, f.rel, f.name, f.size)] else []
  }

  /** `xs.flatMap(f)`, in order. */
  function FlatMap<A, B>(f: A -> seq<B>, xs: seq<A>): seq<B> {
    if xs == [] then [] else FlatMap(f, xs[..|xs| - 1]) + f(xs[|xs| - 1])
  }

  lemma {:induction false} FlatMapAppend<A, B>(f: A -> seq<B>, a: seq<A>, b: seq<A>)
    ensures FlatMap(f, a + b) == FlatMap(f, a) + FlatMap(f, b)
    decreases |b|
  {
    if b == [] {
      assert a + b == a;
    } else {
      var ab := a + b;
      assert ab[..|ab| - 1] == a + b[..|b| - 1];
      assert ab[|ab| - 1] == b[|b| - 1];
      FlatMapAppend(f, a, b[..|b| - 1]);
    }
  }

  /** The records of the video files of a listing, in order. */
  function VideoRecords(files: seq<Listed>): seq<ScanResult> {
    FlatMap(RecordOf, files)
  }

  /** The scan is exactly "list every file, keep those with a video
      extension, make their records": directories yield no record of their
      own, and the order is the listing order with subdirectories spliced in
      at their position. */
  lemma {:induction false} ScanIsFilteredListing(dirName: string, rel: seq<string>, entries: seq<Entry>)
    ensures ScanEntries(dirName, rel, entries) == VideoRecords(AllFiles(dirName, rel, entries))
    decreases entries
  {
    if entries != [] {
      var init, last := entries[..|entries| - 1], entries[|entries| - 1];
      ScanIsFilteredListing(dirName, rel, init);
      EntryScanIsFilteredListing(dirName, rel, last);
      FlatMapAppend(RecordOf, AllFiles(dirName, rel, init), EntryFiles(dirName, rel, last));
    }
  }

  lemma {:induction false} EntryScanIsFilteredListing(dirName: string, rel: seq<string>, e: Entry)
    ensures ScanEntry(dirName, rel, e) == VideoRecords(EntryFiles(dirName, rel, e))
    decreases e
  {
    match e
    case Directory(name, entries) =>
      ScanIsFilteredListing(name, rel + [name], entries);
    case File(name, size) =>
      var l := Listed(dirName, rel, name, size);
      assert [l][..0] == [];
      assert FlatMap(RecordOf, [l]) == RecordOf(l);
  }

  /** Every record of a listing carries one of the six video formats and a
      title without dots. */
  lemma {:induction false} RecordsFormats(files: seq<Listed>)
    ensures forall r :: r in VideoRecords(files) ==> r.format in VideoFormats && '.' !in r.title
  {
    if files != [] {
      var init, last := files[..|files| - 1], files[|files| - 1];
      RecordsFormats(init);
      assert VideoRecords(files) == VideoRecords(init) + RecordOf(last);
    }
  }

  // ---------------------------------------------------------------------
  // Tag removal, in isolation

  predicate Plain(s: string) {
    forall k :: 0 <= k < |s| ==> s[k] != '(' && s[k] != '.' && s[k] != '['
  }

  /** Text with no `(`, `.` or `[` holds no tag: it is copied through as is. */
  lemma {:induction false} StripTagsPlainPrefix(plain: string, rest: string)
    requires Plain(plain)
    ensures StripTags(plain + rest) == plain + StripTags(rest)
    decreases |plain|
  {
    if plain == [] {
      assert plain + rest == rest;
    } else {
      var c, tail := plain[0], plain[1..];
      assert plain + rest == [c] + (tail + rest);
      StripTagsNoTag(c, tail + rest);
      PlainTail(plain);
      StripTagsPlainPrefix(tail, rest);
      ConsAppend(plain, StripTags(rest));
    }
  }

  /** `Plain` holds for the tail of plain text. */
  lemma PlainTail(s: string)
    requires s != [] && Plain(s)
    ensures Plain(s[1..])
  {
    assert forall k :: 0 <= k < |s| - 1 ==> s[1..][k] == s[k + 1];
  }

  lemma ConsAppend(s: string, t: string)
    requires s != []
    ensures s + t == [s[0]] + (s[1..] + t)
  {
  }

  /** A character that cannot start a tag is copied through. */
  lemma StripTagsNoTag(c: char, s: string)
    requires c != '(' && c != '.' && c != '['
    ensures StripTags([c] + s) == [c] + StripTags(s)
  {
    var t := [c] + s;
    assert t[0] == c && t[1..] == s;
    assert TagLength(t) == 0;
  }

  /** A tag at the front becomes a single space and scanning resumes after it. */
  lemma StripTagsAtTag(tag: string, rest: string)
    requires tag != [] && TagLength(tag + rest) == |tag|
    ensures StripTags(tag + rest) == " " + StripTags(rest)
  {
    assert (tag + rest)[|tag|..] == rest;
  }

  /** The case-insensitive literal tags of the pattern, in its order. */
  const QualityTags: seq<string> := [".720p.", ".1080p.", ".HDTV.", ".DVDRip."]

  /** A year in parentheses, `(1999)`, becomes one space. */
  lemma StripYearInParens(s: string)
    requires |s| >= 6 && s[0] == '(' && AllDigits(s[1..5]) && s[5] == ')'
    ensures StripTags(s) == " " + StripTags(s[6..])
  {
    assert TagLength(s) == 6;
  }

  /** A year between dots, `.1999.`, becomes one space. */
  lemma StripDotYear(s: string)
    requires DotYear(s)
    ensures StripTags(s) == " " + StripTags(s[6..])
  {
    assert TagLength(s) == 6;
  }

  /** `.720p.`, `.1080p.`, `.HDTV.` and `.DVDRip.`, in any letter case,
      become one space. */
  lemma StripQualityTag(s: string, lit: string)
    requires lit in QualityTags && StartsWithIgnoringCase(s, lit)
    ensures StripTags(s) == " " + StripTags(s[|lit|..])
  {
    assert LowerChar(s[1]) == LowerChar(lit[1]) && LowerChar(s[5]) == LowerChar(lit[5]);
    assert TagLength(s) == |lit|;
  }

  /** A bracketed run such as `[YTS]`, up to the first `]` and with no line
      terminator inside, becomes one space. */
  lemma StripBracketTag(s: string, j: nat)
    requires 1 <= j < |s| && s[0] == '[' && s[j] == ']'
    requires forall k :: 1 <= k < j ==> s[k] != ']' && !IsLineTerminator(s[k])
    ensures StripTags(s) == " " + StripTags(s[j + 1..])
  {
    BracketCloseAt(s, 1, j);
    assert TagLength(s) == j + 1;
  }

  /** A dot and three word characters at the very end, `.mp4`, become one
      space. */
  lemma StripTrailingWord(s: string)
    requires TrailingWord(s)
    ensures StripTags(s) == " "
  {
    assert TagLength(s) == 4;
    assert s[4..] == [];
  }

  /** Where no alternative of the pattern matches, the first character is
      kept and scanning moves on by one. For a `[`, "no match" means that no
      `]` closes it before a line terminator (see BracketCloseNone). */
  lemma StripTagsUntagged(s: string)
    requires s != []
    requires !(|s| >= 6 && s[0] == '(' && AllDigits(s[1..5]) && s[5] == ')') && !DotYear(s)
    requires !StartsWithIgnoringCase(s, ".720p.") && !StartsWithIgnoringCase(s, ".1080p.")
    requires !StartsWithIgnoringCase(s, ".HDTV.") && !StartsWithIgnoringCase(s, ".DVDRip.")
    requires !TrailingWord(s)
    requires s[0] == '[' ==> BracketClose(s, 1) == -1
    ensures StripTags(s) == [s[0]] + StripTags(s[1..])
  {
    NoTagMatches(s);
  }

  /** When none of the pattern's alternatives fits at the front, the match
      length is 0. */
  lemma NoTagMatches(s: string)
    requires s != []
    requires !(|s| >= 6 && s[0] == '(' && AllDigits(s[1..5]) && s[5] == ')') && !DotYear(s)
    requires !StartsWithIgnoringCase(s, ".720p.") && !StartsWithIgnoringCase(s, ".1080p.")
    requires !StartsWithIgnoringCase(s, ".HDTV.") && !StartsWithIgnoringCase(s, ".DVDRip.")
    requires !TrailingWord(s)
    requires s[0] == '[' ==> BracketClose(s, 1) == -1
    ensures TagLength(s) == 0
  {
  }

  // ---------------------------------------------------------------------
  // Titles of video file names

  /** The six video extensions are already lower case. */
  lemma VideoExtensionLower(e: string)
    requires e in VideoExtensions
    ensures ToLower(e) == e
  {
    assert forall k :: 0 <= k < |e| ==> !('A' <= e[k] <= 'Z');
  }

  /** An extension whose lower-case form is a video extension is a dot and
      three word characters, in any letter case. */
  lemma VideoExtensionShape(e: string)
    requires ToLower(e) in VideoExtensions
    ensures TrailingWord(e) && '/' !in e && '.' !in e[1..]
  {
    var l := ToLower(e);
    assert forall k :: 1 <= k < |l| ==> 'a' <= l[k] <= 'z' || IsDigit(l[k]);
    assert LowerChar(e[0]) == '.';
  }

  /** A name that is a dot and a video extension, in any case, after some
      text has that extension, and its lower-cased form is what
      `VIDEO_EXTENSIONS.includes` is asked about. */
  lemma ExtNameOfVideoName(b: string, e: string)
    requires b != [] && '/' !in b && ToLower(e) in VideoExtensions
    ensures ExtName(b + e) == e && VideoExt(b + e) == ToLower(e)
  {
    VideoExtensionShape(e);
    var name := b + e;
    assert name[|b|..] == e && name[|b| + 1..] == e[1..];
    assert |name| > 2;
    ExtNameOfSegment(name, |b|);
  }

  /** With a lower-case video extension the title is built from the name
      without it: `Title("Heat.1995.mkv")` is the tag-stripped, dot-free,
      trimmed form of `Heat.1995`. */
  lemma TitleOfName(b: string, e: string)
    requires b != [] && '/' !in b && e in VideoExtensions
    ensures Title(b + e) == Trim(DotsToSpaces(StripTags(b)))
  {
    VideoExtensionLower(e);
    ExtNameOfVideoName(b, e);
    var name := b + e;
    assert name[|name| - |e|..] == e && name[..|name| - |e|] == b;
    assert BasenameWithout(name, VideoExt(name)) == b;
  }

  /** A plain, trimmed name keeps exactly its text as the title, whatever the
      case of its video extension: with `.mkv` the extension is cut off, and
      with `.MKV`, which the case-sensitive cut leaves in place, the trailing
      `\.\w{3}$` tag turns it into a space that trim removes. */
  lemma TitleOfPlainName(t: string, e: string)
    requires t != [] && Plain(t) && '/' !in t && !IsWhite(t[0]) && !IsWhite(t[|t| - 1])
    requires ToLower(e) in VideoExtensions
    ensures Title(t + e) == t
  {
    if ToLower(e) == e {
      TitleOfName(t, e);
      PlainTitleText(t);
      TrimOfTrimmed(t);
    } else {
      TitleOfUncutName(t, e);
      TrimDropsTrailingWhite(t, ' ');
    }
  }

  /** A name whose extension is not lower case is not cut, and its trailing
      extension is stripped as a tag. */
  lemma TitleOfUncutName(t: string, e: string)
    requires t != [] && Plain(t) && '/' !in t
    requires ToLower(e) in VideoExtensions && ToLower(e) != e
    ensures Title(t + e) == Trim(t + " ")
  {
    VideoExtensionShape(e);
    ExtNameOfVideoName(t, e);
    var name := t + e;
    assert name[|name| - |e|..] == e;
    assert BasenameWithout(name, VideoExt(name)) == name;
    PlainThenTrailingWord(t, e);
  }

  /** Plain text followed by a trailing `\.\w{3}` becomes the text and one
      space, which has no dot left to replace. */
  lemma PlainThenTrailingWord(t: string, e: string)
    requires Plain(t) && TrailingWord(e)
    ensures StripTags(t + e) == t + " " && DotsToSpaces(t + " ") == t + " "
  {
    StripTagsPlainPrefix(t, e);
    StripTrailingWord(e);
    assert '.' !in t + " ";
    DotsToSpacesWithoutDots(t + " ");
  }

  /** Plain text is left unchanged by tag stripping and dot replacement. */
  lemma PlainTitleText(s: string)
    requires Plain(s)
    ensures StripTags(s) == s && DotsToSpaces(s) == s
  {
    StripTagsPlainPrefix(s, []);
    assert s + [] == s;
    DotsToSpacesWithoutDots(s);
  }
}
