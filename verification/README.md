# Movie server core, modelled in Dafny

The project models the core of a home movie server written in TypeScript for
Node and Express. The server has three pieces of plain, sequential logic, and
each one is modelled here.

- **Catalog.** An in-memory list of movies plus an id counter. Handlers change
  it in place: look up, add, update, delete, and merge the result of a
  directory scan. Source: `server/src/controllers/movieController.ts`.
- **Streaming reply.** `GET /api/stream/:id` looks up the movie, picks a MIME
  type from the file extension, and parses the `Range` header loosely. It caps
  the served interval at 10 MiB and writes either a 206 reply with
  `Content-Range` or a 200 reply for the whole file. The thumbnail handler picks
  a static icon from the movie's format. Source:
  `server/src/controllers/streamController.ts`.
- **Directory scanner.** It walks the media directory in listing order and keeps
  the files with a video extension. For each one it builds a record with a
  cleaned-up title, the format, the path below the root, the parent directory
  and a poster path. Source: `server/src/utils/fileScanner.ts`.

The modules:

- `JsText` models the JavaScript built-ins this code depends on:
  - numbers that may be `NaN`;
  - `parseInt(s, 10)` and `String(n)`;
  - `split` on one character;
  - `trim`;
  - `toLowerCase`;
  - a non-global `replace` that deletes the first match.
- `NodePath` models `path.extname` and `path.basename`, with and without a
  suffix. The path of a scanned file below the media root is its directory
  names and file name joined with `/` (`JsText.Join`).
- `MovieTypes` holds the records of `server/src/types/movie.ts` and the id
  lookup `movies.find(m => m.id === id)`.
- `FileScanner` models the scanner. The file system is a tree of entries.
- `MovieController` models the catalog as a class `Catalog`:
  - a `movies: seq<Movie>` field and a `nextId` counter;
  - one method per handler, each stated against the pure functions beside it,
    such as `MergeScan` for the scan merge loop.
- `StreamController` models the streaming and thumbnail replies as pure
  functions. File existence, file sizes and the presence of icon files are
  inputs.

The handler does not follow the HTTP range rules of RFC 7233 (section 4.4
answers an unsatisfiable range with 416, and section 2.1 clamps an end past the
last byte and treats a start after the end as invalid). The model follows the
handler:

- a start or end that is not a number propagates as `NaN` into the interval
  and the headers;
- an end beyond the file is served as written;
- a reversed range gives a `Content-Length` of zero or less.

The lemmas `ServedInterval`, `ExplicitRange` and `MalformedStart` state these
behaviours.

## Model

| member | source | states |
|---|---|---|
| JsText.Add | server/src/controllers/streamController.ts:55-57 | `a + b` on numbers: finite exactly when both operands are, and then the exact sum |
| JsText.Sub | server/src/controllers/streamController.ts:55-57 | `a - b`: finite exactly when both operands are, and then the exact difference |
| JsText.Min | server/src/controllers/streamController.ts:55 | `Math.min`: NaN if either argument is NaN, otherwise one of the two arguments and no larger than either |
| JsText.LowerChar | server/src/utils/fileScanner.ts:22 | an ASCII capital maps to its small letter, 32 code points lower; every other character is unchanged |
| JsText.ToLower | server/src/utils/fileScanner.ts:22 | `toLowerCase` keeps the length and lower-cases each character in place |
| JsText.ToLowerIdempotent | server/src/controllers/streamController.ts:42 | lower-casing twice is the same as lower-casing once |
| JsText.LeadingDigits | server/src/controllers/streamController.ts:50-51 | the length of the run of digits at the front: every character before it is a digit, and the one after is not |
| JsText.TrimStart | server/src/utils/fileScanner.ts:33 | the result is a suffix, only white space was dropped, and the result does not start with white space |
| JsText.TrimEnd | server/src/utils/fileScanner.ts:33 | the result is a prefix, only white space was dropped, and the result does not end with white space |
| JsText.Trim | server/src/utils/fileScanner.ts:33 | `trim()` is the slice of the text between a run of white space at the front and one at the back, both dropped entirely; the result neither starts nor ends with white space |
| JsText.TrimOfTrimmed | server/src/utils/fileScanner.ts:33 | trimming text that has no white space at either end changes nothing |
| JsText.TrimDropsTrailingWhite | server/src/utils/fileScanner.ts:33 | one trailing white-space character, such as the space left where a tag was removed, is trimmed away |
| JsText.ParseInt | server/src/controllers/streamController.ts:50-51 | `parseInt(s, 10)` is NaN on empty input, and NaN when the first character is not white space, a sign or a digit |
| JsText.ParseSigned | server/src/controllers/streamController.ts:50-51 | after white space: NaN when nothing is left, when the first character is neither a sign nor a digit, and when a sign is not followed by a digit; a number comes only from a digit first or right after the sign |
| JsText.TrimStartSkipsWhite | server/src/controllers/streamController.ts:50-51 | leading white space of any length is skipped entirely |
| JsText.ParseIntSkipsWhite | server/src/controllers/streamController.ts:50-51 | `parseInt` ignores leading white space: `parseInt(w + s) == parseInt(s)` |
| JsText.SignWithoutDigits | server/src/controllers/streamController.ts:50-51 | a `+` or `-` not followed by a digit, at the end or before another character, gives NaN |
| JsText.NatToString | server/src/controllers/streamController.ts:60 | `String(n)` is a non-empty numeral whose digits denote `n`, without leading zeros |
| JsText.IntToString | server/src/controllers/streamController.ts:60 | `String(i)` starts with a digit or a minus sign |
| JsText.NumToString | server/src/controllers/streamController.ts:60 | `${x}` in a template renders `NaN` exactly for NaN |
| JsText.ParseIntOfNumToString | server/src/controllers/streamController.ts:50-60 | `parseInt` reads back every rendered number, NaN included |
| JsText.ParseIntOfIntToString | server/src/controllers/streamController.ts:50-60 | `parseInt` reads back the integer `String` wrote, whatever non-digit text follows |
| JsText.ParseIntOfNatToString | server/src/controllers/streamController.ts:50-51 | `parseInt(String(n)) == n` for every natural number |
| JsText.ParseIntOfDigits | server/src/controllers/streamController.ts:50-51 | an optional sign, digits, then a non-digit: `parseInt` gives the signed value of exactly those digits |
| JsText.ParseSignedOfDigits | server/src/controllers/streamController.ts:50-51 | the same, for the text after the skipped white space |
| JsText.LeadingDigitsOfDigits | server/src/controllers/streamController.ts:50-51 | the digit run of digits followed by a non-digit is exactly those digits |
| JsText.Split | server/src/controllers/streamController.ts:49 | `split(sep)` yields at least one part, and no part contains the separator |
| JsText.JoinSplit | server/src/controllers/streamController.ts:49 | joining the parts with the separator gives back the original text, so no character is lost |
| JsText.Join | server/src/utils/fileScanner.ts:44 | the relative path `path.relative(MOVIES_DIR, filePath)` is the directory names and the file name joined with `/`; the join starts with the first part, followed by the separator when there are more parts |
| JsText.JoinSnoc | server/src/utils/fileScanner.ts:44 | one more part adds the separator and that part at the end, so the file name ends the relative path |
| JsText.SplitJoin | server/src/utils/fileScanner.ts:44 | parts without the separator, joined and split again, come back unchanged: the joined path determines its segments |
| JsText.SplitNoSeparator | server/src/controllers/movieController.ts:37 | text without the separator splits into itself alone |
| JsText.SplitAtFirst | server/src/controllers/streamController.ts:49 | the first part is the text before the first separator, and the rest is the split of what follows it |
| JsText.SplitLast | server/src/controllers/movieController.ts:37 | the last part (`pop()`) is the whole text when there is no separator, otherwise exactly the text after the last separator |
| JsText.SplitLastWithSeparator | server/src/controllers/movieController.ts:37 | when the separator occurs, the last part is preceded by a separator and ends the text |
| JsText.SplitLastInTail | server/src/controllers/movieController.ts:37 | when the tail holds a separator, the last part is the tail's last part |
| JsText.SplitHasSeveralParts | server/src/controllers/streamController.ts:49 | text holding the separator splits into at least two parts |
| JsText.RemoveFirst | server/src/controllers/streamController.ts:49 | `replace(/bytes=/, "")` changes nothing when the pattern does not occur; otherwise it cuts out exactly the first occurrence, keeping the text before and after it; the length drops by the pattern's length at most once |
| NodePath.LastIndexOf | server/src/utils/fileScanner.ts:22 | the index of the last occurrence, or -1; no occurrence follows it |
| NodePath.LastIndexOfAt | server/src/utils/fileScanner.ts:22 | an occurrence with none after it is the last one |
| NodePath.LastIndexOfAbsent | server/src/utils/fileScanner.ts:22 | an absent character has index -1 |
| NodePath.StripTrailingSlashes | server/src/utils/fileScanner.ts:36 | the result is a prefix that does not end in `/`, and only slashes were dropped |
| NodePath.Basename | server/src/utils/fileScanner.ts:36 | `path.basename` contains no `/` |
| NodePath.BasenameIsLastSegment | server/src/utils/fileScanner.ts:36 | the basename is the last `/`-separated segment of the path without its trailing slashes: it ends that path and is preceded by a `/` or nothing |
| NodePath.ExtName | server/src/utils/fileScanner.ts:22 | `path.extname` is empty, or a dot followed by no dot and no slash; it is a proper suffix of the basename |
| NodePath.BasenameWithout | server/src/utils/fileScanner.ts:26 | `path.basename(name, ext)` is a prefix of the name; when it differs the name is it followed by `ext`; a non-empty `ext` that ends the name, or is the whole name, is always cut |
| NodePath.BasenameWithoutWhole | server/src/utils/fileScanner.ts:26 | a name equal to the suffix to cut gives the empty string, as `path.basename(".mp4", ".mp4")` does |
| NodePath.BasenameOfSegment | server/src/utils/fileScanner.ts:36 | a name without `/` is its own basename |
| NodePath.ExtNameIsSuffixOfName | server/src/utils/fileScanner.ts:22-26 | the extension of a file name ends that name |
| NodePath.ExtNameOfSegment | server/src/utils/fileScanner.ts:22 | for a file name, the extension runs from the last dot to the end, unless that dot comes first or the name is `..` |
| NodePath.ExtNameEmpty | server/src/utils/fileScanner.ts:22 | a file name without a dot, one whose only dot comes first, and `..` have the empty extension |
| NodePath.ExtNameOfPath | server/src/controllers/streamController.ts:42 | the extension of a path is the extension of its last segment |
| NodePath.ExtNameBelowDirectory | server/src/controllers/streamController.ts:42 | a file name below a directory keeps its basename and its extension |
| MovieTypes.IndexOfId | server/src/controllers/movieController.ts:47 | `findIndex`: the first index whose id equals the parsed id, or -1 exactly when there is none; NaN matches nothing |
| MovieTypes.FindById | server/src/controllers/movieController.ts:15 | `find`: the first movie of the list with that id, or none exactly when no movie has it, which is exactly when `findIndex` gives -1 |
| FileScanner.VideoExt | server/src/utils/fileScanner.ts:22 | `path.extname(file).toLowerCase()` has the extension's length and is empty or starts with a dot |
| FileScanner.IsVideo | server/src/utils/fileScanner.ts:24 | `VIDEO_EXTENSIONS.includes(ext)` holds exactly when the lower-cased extension is a dot and one of the six formats |
| FileScanner.VideoExtensionIff | server/src/config.ts:17 | a text is one of the six video extensions exactly when it is a dot followed by one of the six formats |
| FileScanner.StartsWithIgnoringCaseLower | server/src/utils/fileScanner.ts:30 | the `i` flag's comparison of a literal with the front of the text is equality after `toLowerCase` on both sides |
| FileScanner.BracketClose | server/src/utils/fileScanner.ts:30 | the first `]` reachable without crossing a line terminator, as the lazy `\[.*?\]` finds it; a found `]` has neither a `]` nor a line terminator before it |
| FileScanner.BracketCloseNone | server/src/utils/fileScanner.ts:30 | when the search gives -1, every `]` that follows lies beyond a line terminator |
| FileScanner.BracketCloseAt | server/src/utils/fileScanner.ts:30 | a `]` with no `]` and no line terminator before it is the one found |
| FileScanner.TagLength | server/src/utils/fileScanner.ts:29-32 | a match of the release-tag pattern is at least two characters long, lies within the text, and begins with `(`, `.` or `[` |
| FileScanner.YearInParensLength | server/src/utils/fileScanner.ts:30 | `\(\d{4}\)` matches six characters or none |
| FileScanner.DotTagLength | server/src/utils/fileScanner.ts:30 | the dot-led alternatives match four to eight characters or none |
| FileScanner.BracketTagLength | server/src/utils/fileScanner.ts:30 | `\[.*?\]` matches at least the two brackets, within the text, or none |
| FileScanner.StripTags | server/src/utils/fileScanner.ts:29-32 | replacing every tag with one space never lengthens the title |
| FileScanner.DotsToSpaces | server/src/utils/fileScanner.ts:33 | `replace(/\./g, " ")` keeps the length, leaves no dot, and changes only the dots |
| FileScanner.DotsToSpacesWithoutDots | server/src/utils/fileScanner.ts:33 | text without dots is unchanged |
| FileScanner.Title | server/src/utils/fileScanner.ts:26-33 | the final title contains no `.` and has no white space at either end |
| FileScanner.VideoExtensionLower | server/src/config.ts:17 | the six video extensions are already lower case |
| FileScanner.VideoExtensionShape | server/src/utils/fileScanner.ts:22-24 | an extension the scanner accepts is a dot and three word characters in any letter case |
| FileScanner.ExtNameOfVideoName | server/src/utils/fileScanner.ts:22 | a file name ending in a video extension, in any case, has that extension, and the scanner checks its lower-cased form |
| FileScanner.TitleOfName | server/src/utils/fileScanner.ts:26-33 | with a lower-case video extension the title is the name without that extension, tags replaced by spaces, dots turned into spaces, trimmed |
| FileScanner.TitleOfPlainName | server/src/utils/fileScanner.ts:26-33 | a trimmed name with no `(`, `.` or `[` is its own title, whatever the case of its video extension |
| FileScanner.TitleOfUncutName | server/src/utils/fileScanner.ts:26-33 | an extension that is not lower case is not cut by `basename`; the trailing `\.\w{3}$` tag turns it into one space |
| FileScanner.PlainTitleText | server/src/utils/fileScanner.ts:29-33 | text with no `(`, `.` or `[` passes the tag replace and the dot replace unchanged |
| FileScanner.PlainThenTrailingWord | server/src/utils/fileScanner.ts:29-33 | such text followed by a dot and three word characters becomes the text and one space |
| FileScanner.PosterLayout | server/src/utils/fileScanner.ts:38-40 | `/movies/thumbnails/<p>.webp`, where `p` is the parent directory unless that is exactly `Movies` or `movies`, in which case it is the title |
| FileScanner.PosterNamesDirectory | server/src/utils/fileScanner.ts:36-40 | outside `Movies`/`movies` the poster depends only on the directory: two files share a poster exactly when their directories have the same name |
| FileScanner.PosterNamesTitleAtRoot | server/src/utils/fileScanner.ts:36-40 | inside `Movies`/`movies` two files share a poster exactly when their titles are equal |
| FileScanner.VideoExtensionFormat | server/src/config.ts:17 | each video extension is a dot followed by one of the six formats |
| FileScanner.MakeRecord | server/src/utils/fileScanner.ts:42-50 | the record's format is the lower-cased extension without its dot and one of the six formats; its title is the cleaned-up title and has no dot; its path is the directory names and the file name joined with `/`; size and parent directory are the file's; the poster is the one for that directory and title |
| FileScanner.RecordPathExtName | server/src/utils/fileScanner.ts:44 | the record's path has the extension of its file name, at any depth below the root |
| FileScanner.RecordPathSegments | server/src/utils/fileScanner.ts:44 | with no `/` inside names, the record's path splits back into the directory names from the root down, then the file name |
| FileScanner.ScanEntries | server/src/utils/fileScanner.ts:10-20 | every record the scan of a listing yields carries one of the six video formats and a title without dots |
| FileScanner.ScanEntryRecords | server/src/utils/fileScanner.ts:17-50 | every record a single entry contributes, a file or a whole subdirectory, carries a video format and a title without dots |
| FileScanner.ScanEntry | server/src/utils/fileScanner.ts:17-24 | a file yields one record when it is a video file and none otherwise |
| FileScanner.ScanDirectoryForMovies | server/src/utils/fileScanner.ts:10-55 | the loop over the listing, recursing into subdirectories, returns exactly the specified scan of the tree |
| FileScanner.RecordOf | server/src/utils/fileScanner.ts:22-24 | a listed file contributes at most one record |
| FileScanner.ScanIsFilteredListing | server/src/utils/fileScanner.ts:12-50 | the scan equals "list every non-directory entry depth first in listing order, keep the video files, make their records"; directories produce no record of their own |
| FileScanner.EntryScanIsFilteredListing | server/src/utils/fileScanner.ts:17-20 | the same for one entry: a subdirectory's records are spliced in at its position |
| FileScanner.RecordsFormats | server/src/utils/fileScanner.ts:42-50 | the same for the records of any listing |
| FileScanner.StripTagsPlainPrefix | server/src/utils/fileScanner.ts:29-32 | text with no `(`, `.` or `[` holds no tag and passes through the tag replacement unchanged |
| FileScanner.StripTagsAtTag | server/src/utils/fileScanner.ts:29-32 | a tag at the front becomes one space, and scanning resumes right after it without overlap |
| FileScanner.StripTagsNoTag | server/src/utils/fileScanner.ts:29-32 | a character other than `(`, `.` and `[` is copied through and scanning moves on by one |
| FileScanner.StripYearInParens | server/src/utils/fileScanner.ts:30 | `(` four digits `)` becomes one space and scanning resumes after it |
| FileScanner.StripDotYear | server/src/utils/fileScanner.ts:30 | `.` four digits `.` becomes one space and scanning resumes after it |
| FileScanner.StripQualityTag | server/src/utils/fileScanner.ts:30 | `.720p.`, `.1080p.`, `.HDTV.` and `.DVDRip.`, in any letter case, become one space and scanning resumes after the whole literal |
| FileScanner.StripBracketTag | server/src/utils/fileScanner.ts:30 | `[`, a run with no `]` and no line terminator, then `]` becomes one space and scanning resumes after the first `]` |
| FileScanner.StripTrailingWord | server/src/utils/fileScanner.ts:30 | a dot and three word characters that end the title become one space |
| FileScanner.NoTagMatches | server/src/utils/fileScanner.ts:30 | when no alternative of the pattern fits at the front, nothing matches there |
| FileScanner.StripTagsUntagged | server/src/utils/fileScanner.ts:29-32 | where no alternative matches, the first character is kept and scanning moves on by one |
| MovieController.DefaultFormat | server/src/controllers/movieController.ts:37 | the guessed format contains no dot |
| MovieController.DefaultFormatAfterLastDot | server/src/controllers/movieController.ts:37 | the default format is the text after the last `.` of the path, or the whole path when it has no dot |
| MovieController.DefaultFormatWithDot | server/src/controllers/movieController.ts:37 | the same, for a path that holds a dot |
| MovieController.NewMovie | server/src/controllers/movieController.ts:33-39 | the new record has the given id, title and path; the body's format when it is present and non-empty, otherwise the text after the last `.` of the path; no scanner fields |
| MovieController.Merge | server/src/controllers/movieController.ts:54 | the merged record keeps the looked-up id; each field present in the body replaces the stored one, and every absent field keeps its stored value |
| MovieController.MergeIdempotent | server/src/controllers/movieController.ts:54 | applying the same body twice changes nothing more, and an empty body changes nothing |
| MovieController.FromScan | server/src/controllers/movieController.ts:88-92 | a scanned item enters the catalog under the given id with its own title, path, format, size, parent directory and poster |
| MovieController.Fresh | server/src/controllers/movieController.ts:86-87 | the new scanned items are at most as many as the scanned ones |
| MovieController.HasPathInPaths | server/src/controllers/movieController.ts:87 | `movies.some(m => m.path === path)` holds exactly for the paths of the catalog |
| MovieController.Catalog.constructor | server/src/controllers/movieController.ts:5-7 | the catalog starts from the stored list with the counter at 1 |
| MovieController.Catalog.FindIndex | server/src/controllers/movieController.ts:47 | the loop finds the first index whose id matches, or -1 exactly when no movie has the id |
| MovieController.Catalog.ContainsPath | server/src/controllers/movieController.ts:87 | `movies.some(m => m.path === path)`: true exactly when some catalog entry has that path |
| MovieController.Catalog.GetMovieById | server/src/controllers/movieController.ts:13-23 | 200 with the first movie whose id is the parsed id, otherwise 404; the catalog is not changed |
| MovieController.Catalog.AddMovie | server/src/controllers/movieController.ts:25-43 | a missing or empty title or path gives 400 with no change; otherwise exactly one record is appended under the old counter, the counter goes up by one, earlier entries stay as they were, and the id invariant is kept |
| MovieController.Catalog.UpdateMovie | server/src/controllers/movieController.ts:45-58 | an unknown id gives 404 with no change; otherwise only the entry at the found index is replaced, by its merge with the body; the length and the counter stay; the reply's id is the requested id; the id invariant is kept |
| MovieController.Catalog.DeleteMovie | server/src/controllers/movieController.ts:60-73 | an unknown id gives 404 with no change; otherwise exactly the first entry with the id is removed and returned, and the rest keep their order; with distinct ids no entry with that id is left |
| MovieController.Catalog.MergeScanned | server/src/controllers/movieController.ts:84-95 | the loop leaves the catalog, the counter and the count of new movies exactly as the merge specification gives them, and keeps the id invariant |
| MovieController.Catalog.ScanDirectory | server/src/controllers/movieController.ts:75-100 | reports how many files the scan found and merges exactly those records |
| MovieController.AppendKeepsIdsFresh | server/src/controllers/movieController.ts:33-41 | if every id is below the counter and all ids are distinct, appending a movie that carries the counter's id keeps that so once the counter moves on |
| MovieController.RemoveKeepsIdsFresh | server/src/controllers/movieController.ts:69-70 | under the id invariant, splicing one entry out keeps the invariant, and no remaining entry has the removed id |
| MovieController.MergeScanAppends | server/src/controllers/movieController.ts:84-95 | the merge keeps the catalog as a prefix, appends at most one entry per scanned item with consecutive ids from the counter, and the count equals the number appended |
| MovieController.MergeScanIsFreshNumbered | server/src/controllers/movieController.ts:84-95 | the merge appends exactly the scanned items whose path is neither in the catalog nor on an earlier item, in scan order, numbered from the counter; the counter and the count move on by their number |
| MovieController.MergeScanPaths | server/src/controllers/movieController.ts:86-94 | afterwards every scanned path is in the catalog, and no appended path repeats an earlier path or another appended one |
| MovieController.MergeScanAllPresent | server/src/controllers/movieController.ts:86-87 | when every scanned path is already present, the merge changes nothing and counts zero |
| MovieController.MergeScanTwice | server/src/controllers/movieController.ts:84-95 | merging the same scan a second time adds nothing |
| MovieController.MergeScanKeepsIdsFresh | server/src/controllers/movieController.ts:88-89 | under the id invariant, the merge keeps every id below the counter and all ids distinct |
| StreamController.MimeOf | server/src/controllers/streamController.ts:33-43 | each of the six extensions, in any letter case, gets its own type from the table; `application/octet-stream` exactly when the lower-cased extension is none of the six |
| StreamController.ExtensionOf | server/src/controllers/streamController.ts:42 | `path.extname(p).slice(1)` is empty when there is no extension and otherwise the extension without its dot; it contains no dot and no slash |
| StreamController.MimeType | server/src/controllers/streamController.ts:42-43 | the Content-Type is a video type exactly when the path's extension is one of the six formats in any letter case, and `application/octet-stream` otherwise |
| StreamController.MimeOfIgnoresCase | server/src/controllers/streamController.ts:42-43 | the MIME lookup does not depend on the case of the extension |
| StreamController.ScannedRecordMime | server/src/controllers/streamController.ts:42-43 | the file of any scanned record, in the root or in a subdirectory, is served with the video type of the record's format |
| StreamController.MimeTypeOfFormat | server/src/controllers/streamController.ts:42-43 | a path whose lower-cased extension is a dot and a video format is served with that format's type |
| StreamController.ScannedFormatsHaveVideoMime | server/src/controllers/streamController.ts:33-43 | every format the scanner records gets a video MIME type |
| StreamController.RequestedRange | server/src/controllers/streamController.ts:49-51 | the start is `parseInt` of the first `-`-separated part after `bytes=`; the end is `parseInt` of the second part when it is present and non-empty, and `fileSize - 1` otherwise |
| StreamController.CapEnd | server/src/controllers/streamController.ts:54-55 | NaN in, NaN out; otherwise the end is never past the requested end, the interval is at most 10485760 bytes, and a short enough request keeps its end |
| StreamController.ChunkSize | server/src/controllers/streamController.ts:57 | finite exactly when both ends are, and then the inclusive length `finalEnd - start + 1` |
| StreamController.ContentRangeReadBack | server/src/controllers/streamController.ts:60 | for a finite interval, `bytes <start>-<end>/<size>` reads back as the start, the end and the size: `/` separates the interval from the size and `-` separates the ends |
| StreamController.SplitNumerals | server/src/controllers/streamController.ts:60 | `<a>-<b>/<c>` of digit strings splits on `/` into `<a>-<b>` and `<c>`, and `<a>-<b>` splits on `-` into `<a>` and `<b>` |
| StreamController.StreamFile | server/src/controllers/streamController.ts:46-80 | both replies carry `Accept-Ranges: bytes`, `Cache-Control: max-age=3600` and the MIME type. A non-empty `Range` header gives 206 with the capped interval, a `Content-Range` naming it over the original size, and the matching length. Otherwise 200 with the whole file, its size as length, and no `Content-Range` |
| StreamController.StreamMovie | server/src/controllers/streamController.ts:13-26 | an unknown id gives 404 before any file is consulted; a known movie whose file is missing gives 404 |
| StreamController.StreamMovieServesFile | server/src/controllers/streamController.ts:13-30 | a catalogued movie whose file exists gets the file's reply |
| StreamController.PartialContentHeaders | server/src/controllers/streamController.ts:54-65 | a 206 reply never announces more than 10 MiB, its length agrees with the interval served, and the length is NaN exactly when an end is NaN |
| StreamController.HeaderParts | server/src/controllers/streamController.ts:49 | `bytes=<a>-<b>` with no dash in `a` splits into `a` followed by the parts of `b` |
| StreamController.OpenEndedRange | server/src/controllers/streamController.ts:49-51 | `bytes=<a>-` asks for `parseInt(a)` up to `fileSize - 1` |
| StreamController.NoDashInNumeral | server/src/controllers/streamController.ts:49 | a decimal numeral contains no dash |
| StreamController.ExplicitRange | server/src/controllers/streamController.ts:49-51 | `bytes=<s>-<e>` asks for exactly `s` to `e`, whatever the file size: no clamping to the file and no rejection of `s > e` |
| StreamController.RangeOfParts | server/src/controllers/streamController.ts:49-51 | `bytes=<a>-<b>` with no further dash asks for `parseInt(a)` to `parseInt(b)` |
| StreamController.ServedInterval | server/src/controllers/streamController.ts:54-68 | a request for `[s, e]` serves from `s` up to `e`, or `s + 10485759` when the interval is longer, with the matching `Content-Length` and `Content-Range`; a reversed interval gets a length of zero or less |
| StreamController.CapOfInterval | server/src/controllers/streamController.ts:55-57 | the capped end and the length for a finite interval |
| StreamController.OpenEndedServed | server/src/controllers/streamController.ts:49-68 | `bytes=<s>-` serves to the last byte of the file, or only the first 10 MiB from `s` when more remains |
| StreamController.ContentRangeOfNaN | server/src/controllers/streamController.ts:60 | a NaN interval renders as `bytes NaN-NaN/<size>` |
| StreamController.MalformedStart | server/src/controllers/streamController.ts:49-65 | a start that is not a number is not rejected: the interval and the length are NaN and the `Content-Range` reads `bytes NaN-NaN/<size>` |
| StreamController.MalformedStartParse | server/src/controllers/streamController.ts:49-50 | a start part that does not begin with a number parses to NaN |
| StreamController.NaNStart | server/src/controllers/streamController.ts:50-65 | a NaN start makes the whole 206 reply NaN-valued |
| StreamController.WholeFileWithoutRange | server/src/controllers/streamController.ts:70-80 | no `Range` header, or an empty one, gives 200 with the whole file and its size as `Content-Length` |
| StreamController.IconFor | server/src/controllers/streamController.ts:101-114 | `mp4`, `mkv` and `avi` select their own icons; an inherited object key yields no icon name; every other format selects `video_icon.jpg` |
| StreamController.GetMovieThumbnail | server/src/controllers/streamController.ts:91-121 | an unknown id gives 404; a format naming an inherited object key gives the framework's 500; otherwise the icon that `IconFor` picks is sent when its file exists, and 404 when it does not |
| StreamController.ScannedFormatsHaveIcons | server/src/controllers/streamController.ts:101-113 | every format the scanner records gets an icon name |

## Left out

- File I/O is not modelled. This covers `fs.createReadStream`, `pipe`, `fs.existsSync`, `stat` and `readdir`. The model takes the file map, the icon set and the directory tree as inputs.
- The read stream's own checks are not modelled. `createReadStream` refuses a NaN or reversed interval, but only after the 206 headers are written. The model stops at the headers and the interval handed to the stream.
- The `catch` blocks and their 500 replies are not modelled (streamController.ts:82-88, movieController.ts:101-107, fileScanner.ts:56-59). The same goes for the log lines and the JSON message bodies.
- `addedAt` and `lastModified` are not modelled, because they come from the clock and the file system.
- Numbers are unbounded integers. These are not modelled:
  - floating-point rounding above 2^53, including `parseInt` of very long digit strings;
  - `String(n)` switching to exponent notation at 1e21.
- FileScanner.TagLength: its own contract gives only the bounds of a match. Which texts match and how long each match is are stated by NoTagMatches and the lemmas StripYearInParens, StripDotYear, StripQualityTag, StripBracketTag and StripTrailingWord. Keeping those facts out of the function keeps every proof that unfolds the title cheap.
- FileScanner.YearInParensLength: bounds only; the match itself is stated by StripYearInParens.
- FileScanner.DotTagLength: bounds only; the matches are stated by StripDotYear, StripQualityTag and StripTrailingWord.
- FileScanner.BracketTagLength: bounds only; the match is stated by StripBracketTag and BracketCloseAt.
- FileScanner.BracketClose: the -1 case is characterised by the lemma BracketCloseNone, not by the function's own contract.
- NodePath.Basename: that the basename is the last segment is stated by the lemma BasenameIsLastSegment, not by the function's own contract.
- FileScanner.Poster: the layout of the poster path is stated by the lemma PosterLayout, not by the function's own contract.
- JsText.ToLower: lower-cases ASCII letters only. Unicode case mapping is not modelled.
- JsText.LowerChar: maps `A` to `Z` only. Capitals outside ASCII stay unchanged, for example U+212A KELVIN SIGN, which JavaScript lower-cases to `k`.
- NodePath.ExtName: its own contract gives the shape of the extension. The value is stated by the lemmas ExtNameOfSegment, ExtNameEmpty, ExtNameOfPath and ExtNameBelowDirectory.
- FileScanner.Title: its own contract gives the shape of the title. The value is stated by the lemmas TitleOfName and TitleOfPlainName.
- FileScanner.StartsWithIgnoringCase: compares ASCII letters only, which is what the `i` flag does for these ASCII patterns.
- StreamController.MimeType: the extension is taken from the movie's catalog path rather than from `path.join(MOVIES_DIR, path)`. The two differ only when `path.join` normalisation changes the last segment, for example for an empty path.
- StreamController.MimeOf: an extension naming an inherited object member (`constructor`, `__proto__`) is not modelled. It would make the Content-Type a non-string.
- StreamController.StreamMovie: the file map is keyed by the catalog path, so `path.join` normalisation is not modelled.
- Request bodies hold strings or nothing. Non-string, null or extra JSON fields are not modelled:
  - a non-string path would make `split` throw;
  - the update spread copies any key of the body, but `Patch` carries only the movie fields.
- getAllMovies (movieController.ts:9-11) answers the list as it is. Its state is the `movies` field.
- The stored initial list comes from `server/src/models/movie`, which is not part of this model. The constructor takes it as a parameter. The id invariant holds from the start only when that list is empty or all its ids are below 1.
- Handlers are modelled as atomic steps. Node runs each merge loop to completion, and the awaits inside the scanner are I/O.
- Not modelled: Express routing and the HTTPS bootstrap (`server/src/index.ts`, `server/src/routes/*.ts`), environment parsing in `server/src/config.ts` beyond `VIDEO_EXTENSIONS`, and the Android `DeviceMethodChannel.kt`.
- `server/src/routes/movies.ts:12` refers to a `getMovieThumbnail` that `movieController.ts` does not export. The thumbnail model follows the handler in `streamController.ts`.
