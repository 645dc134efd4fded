/** The in-memory movie catalog of server/src/controllers/movieController.ts:
    a list of movies and an id counter, changed in place by the add, update,
    delete and scan handlers. */
module MovieController {
  import opened JsText
  import opened MovieTypes
  import NodePath
  import FileScanner

  /** What a handler answers: a movie as JSON with a status, or an error
      status (the error message bodies are not modelled). */
  datatype Reply = Json(status: int, movie: Movie) | Failure(status: int)

  /** The outcome of merging a scan into the catalog. */
  datatype Merged = Merged(movies: seq<Movie>, nextId: int, added: nat)

  // ---------------------------------------------------------------------
  // Specification functions

  /** JavaScript falsiness of an optional string body field. */
  predicate Falsy(s: Option<string>) {
    s.None? || s.value == ""
  }

  /** `path.split(".").pop()`: the format guessed from a path. */
  function DefaultFormat(path: string): (f: string)
    ensures '.' !in f
  {
    var parts := Split(path, '.');
    parts[|parts| - 1]
  }

  /** The record `addMovie` creates: the body's title and path under the
      given id, the body's format or, when that is missing or empty, the text
      after the last dot of the path, and none of the scanner's fields. */
  function NewMovie(id: int, title: string, path: string, format: Option<string>): (m: Movie)
    ensures m.id == id && m.title == title && m.path == path
    ensures !Falsy(format) ==> m.format == format.value
    ensures Falsy(format) ==> m.format == path[NodePath.LastIndexOf(path, '.') + 1..]
    ensures m.size.None? && m.parentDir.None? && m.poster.None?
  {
    DefaultFormatAfterLastDot(path);
    Movie(id, title, path, if Falsy(format) then DefaultFormat(path) else format.value, None, None, None)
  }

  /** `{ ...m, ...body, id }`: each field present in the body overrides the
      stored one, and the id stays the one that was looked up. */
  function Merge(m: Movie, p: Patch): (r: Movie)
    ensures r.id == m.id
    ensures (p.title.Some? ==> r.title == p.title.value) && (p.title.None? ==> r.title == m.title)
    ensures (p.path.Some? ==> r.path == p.path.value) && (p.path.None? ==> r.path == m.path)
    ensures (p.format.Some? ==> r.format == p.format.value) && (p.format.None? ==> r.format == m.format)
    ensures (p.size.Some? ==> r.size == p.size) && (p.size.None? ==> r.size == m.size)
    ensures (p.parentDir.Some? ==> r.parentDir == p.parentDir) && (p.parentDir.None? ==> r.parentDir == m.parentDir)
    ensures (p.poster.Some? ==> r.poster == p.poster) && (p.poster.None? ==> r.poster == m.poster)
  {
    Movie(
      m.id,
      if p.title.Some? then p.title.value else m.title,
      if p.path.Some? then p.path.value else m.path,
      if p.format.Some? then p.format.value else m.format,
      if p.size.Some? then p.size else m.size,
      if p.parentDir.Some? then p.parentDir else m.parentDir,
      if p.poster.Some? then p.poster else m.poster)
  }

  /** `{ id, ...scanned }`: a scanned file turned into a catalog entry. */
  function FromScan(id: int, s: ScanResult): (m: Movie)
    ensures m.id == id && m.title == s.title && m.path == s.path && m.format == s.format
    ensures m.size == Some(s.size) && m.parentDir == Some(s.parentDir) && m.poster == Some(s.poster)
  {
    Movie(id, s.title, s.path, s.format, Some(s.size), Some(s.parentDir), Some(s.poster))
  }

  /** `movies.some(m => m.path === path)`. */
  predicate HasPath(ms: seq<Movie>, path: string) {
    exists k :: 0 <= k < |ms| && ms[k].path == path
  }

  /** The paths in a catalog. */
  function Paths(ms: seq<Movie>): set<string> {
    set m | m in ms :: m.path
  }

  /** The scanned items that are new, in scan order: those whose path is
      neither in `seen` nor on an earlier item. */
  function Fresh(seen: set<string>, scanned: seq<ScanResult>): (f: seq<ScanResult>)
    ensures |f| <= |scanned|
    decreases |scanned|
  {
    if scanned == [] then []
    else if scanned[0].path in seen then Fresh(seen, scanned[1..])
    else [scanned[0]] + Fresh(seen + {scanned[0].path}, scanned[1..])
  }

  /** Catalog entries for `items`, with consecutive ids from `next`. */
  function Numbered(next: int, items: seq<ScanResult>): (r: seq<Movie>)
    ensures |r| == |items|
  {
    seq(|items|, k requires 0 <= k < |items| => FromScan(next + k, items[k]))
  }

  /** The scan merge loop, one scanned item at a time: an item whose path is
      already in the (growing) catalog is skipped, any other is appended with
      the next id. */
  function MergeScan(ms: seq<Movie>, next: int, scanned: seq<ScanResult>): Merged
    decreases |scanned|
  {
    if scanned == [] then Merged(ms, next, 0)
    else if HasPath(ms, scanned[0].path) then MergeScan(ms, next, scanned[1..])
    else
      var r := MergeScan(ms + [FromScan(next, scanned[0])], next + 1, scanned[1..]);
      Merged(r.movies, r.nextId, r.added + 1)
  }

  /** The catalog invariant: every id is below the counter, and ids are distinct. */
  predicate IdsFreshIn(ms: seq<Movie>, next: int) {
    (forall k :: 0 <= k < |ms| ==> ms[k].id < next) &&
    (forall k, l :: 0 <= k < l < |ms| ==> ms[k].id != ms[l].id)
  }

  // ---------------------------------------------------------------------
  // The catalog

  class Catalog {
    var movies: seq<Movie>
    var nextId: int

    /** The catalog starts from the stored movie list with the counter at 1. */
    constructor (initial: seq<Movie>)
      ensures movies == initial && nextId == 1
    {
      movies := initial;
      nextId := 1;
    }

    predicate IdsFresh()
      reads this
    {
      IdsFreshIn(movies, nextId)
    }

    /** `movies.findIndex(m => m.id === id)`. */
    method FindIndex(id: Num) returns (i: int)
      ensures i == IndexOfId(movies, id)
      ensures i >= 0 ==> HasId(movies[i], id)
      ensures i == -1 <==> forall m :: m in movies ==> !HasId(m, id)
    {
      i := 0;
      while i < |movies|
        invariant 0 <= i <= |movies|
        invariant forall j :: 0 <= j < i ==> !HasId(movies[j], id)
      {
        if HasId(movies[i], id) {
          return;
        }
        i := i + 1;
      }
      i := -1;
    }

    /** `movies.some(m => m.path === path)`. */
    method ContainsPath(path: string) returns (b: bool)
      ensures b <==> HasPath(movies, path)
    {
      b := false;
      var k := 0;
      while k < |movies|
        invariant 0 <= k <= |movies|
        invariant forall j :: 0 <= j < k ==> movies[j].path != path
      {
        if movies[k].path == path {
          return true;
        }
        k := k + 1;
      }
    }

    /** GET /api/movies/:id: the first movie with the parsed id, otherwise 404. */
    method GetMovieById(idParam: string) returns (r: Reply)
      ensures FindById(movies, ParseInt(idParam)).Some? ==>
        r == Json(200, FindById(movies, ParseInt(idParam)).value)
      ensures FindById(movies, ParseInt(idParam)).None? <==> r == Failure(404)
    {
      var id := ParseInt(idParam);
      var i := FindIndex(id);
      assert FindById(movies, id) == if i == -1 then None else Some(movies[i]);
      if i == -1 {
        r := Failure(404);
      } else {
        r := Json(200, movies[i]);
      }
    }

    /** POST /api/movies: 400 without a title or a path, otherwise the new
        movie is appended under the next id. */
    method AddMovie(title: Option<string>, path: Option<string>, format: Option<string>) returns (r: Reply)
      modifies this
      ensures Falsy(title) || Falsy(path) ==>
        r == Failure(400) && movies == old(movies) && nextId == old(nextId)
      ensures !Falsy(title) && !Falsy(path) ==>
        r == Json(201, NewMovie(old(nextId), title.value, path.value, format)) &&
        movies == old(movies) + [r.movie] && nextId == old(nextId) + 1
      ensures old(IdsFresh()) ==> IdsFresh()
    {
      if Falsy(title) || Falsy(path) {
        return Failure(400);
      }
      var m := NewMovie(nextId, title.value, path.value, format);
      nextId := nextId + 1;
      AppendKeepsIdsFresh(movies, m);
      movies := movies + [m];
      r := Json(201, m);
    }

    /** PUT /api/movies/:id: the first movie with the parsed id is replaced by
        its merge with the body, keeping its id; otherwise 404. */
    method UpdateMovie(idParam: string, patch: Patch) returns (r: Reply)
      modifies this
      ensures nextId == old(nextId)
      ensures var i := IndexOfId(old(movies), ParseInt(idParam));
        (i == -1 ==> r == Failure(404) && movies == old(movies)) &&
        (i >= 0 ==> r == Json(200, Merge(old(movies)[i], patch)) &&
                    movies == old(movies)[i := r.movie])
      ensures r.Json? ==> ParseInt(idParam) == Finite(r.movie.id)
      ensures old(IdsFresh()) ==> IdsFresh()
    {
      var i := FindIndex(ParseInt(idParam));
      if i == -1 {
        return Failure(404);
      }
      var updated := Merge(movies[i], patch);
      ghost var before := movies;
      movies := movies[i := updated];
      assert forall k :: 0 <= k < |movies| ==> movies[k].id == before[k].id;
      r := Json(200, updated);
    }

    /** DELETE /api/movies/:id: the first movie with the parsed id is spliced
        out and returned; otherwise 404. */
    method DeleteMovie(idParam: string) returns (r: Reply)
      modifies this
      ensures nextId == old(nextId)
      ensures var i := IndexOfId(old(movies), ParseInt(idParam));
        (i == -1 ==> r == Failure(404) && movies == old(movies)) &&
        (i >= 0 ==> r == Json(200, old(movies)[i]) &&
                    movies == old(movies)[..i] + old(movies)[i + 1..])
      ensures old(IdsFresh()) ==> IdsFresh()
      ensures old(IdsFresh()) && r.Json? ==> FindById(movies, ParseInt(idParam)).None?
    {
      var i := FindIndex(ParseInt(idParam));
      if i == -1 {
        return Failure(404);
      }
      r := Json(200, movies[i]);
      RemoveKeepsIdsFresh(movies, nextId, i);
      movies := movies[..i] + movies[i + 1..];
    }

    /** The merge loop of POST /api/movies/scan: appends each scanned item whose
        path is not yet in the catalog and counts the additions. */
    method MergeScanned(scanned: seq<ScanResult>) returns (newCount: nat)
      modifies this
      ensures var m := MergeScan(old(movies), old(nextId), scanned);
        movies == m.movies && nextId == m.nextId && newCount == m.added
      ensures old(IdsFresh()) ==> IdsFresh()
    {
      ghost var total := MergeScan(movies, nextId, scanned);
      MergeScanKeepsIdsFresh(movies, nextId, scanned);
      newCount := 0;
      for k := 0 to |scanned|
        invariant var m := MergeScan(movies, nextId, scanned[k..]);
          m.movies == total.movies && m.nextId == total.nextId && newCount + m.added == total.added
      {
        assert scanned[k..][1..] == scanned[k + 1..];
        var present := ContainsPath(scanned[k].path);
        if !present {
          movies := movies + [FromScan(nextId, scanned[k])];
          nextId := nextId + 1;
          newCount := newCount + 1;
        }
      }
    }

    /** POST /api/movies/scan: scans the media root and merges the result;
        answers how many files were found and how many were new. */
    method ScanDirectory(rootName: string, entries: seq<FileScanner.Entry>) returns (found: nat, added: nat)
      modifies this
      ensures var scanned := FileScanner.ScanEntries(rootName, [], entries);
        var m := MergeScan(old(movies), old(nextId), scanned);
        found == |scanned| && movies == m.movies && nextId == m.nextId && added == m.added
      ensures old(IdsFresh()) ==> IdsFresh()
    {
      var scanned := FileScanner.ScanDirectoryForMovies(rootName, [], entries);
      found := |scanned|;
      added := MergeScanned(scanned);
    }
  }

  // ---------------------------------------------------------------------
  // Properties

  /** Appending a movie that carries the counter's id keeps the invariant
      once the counter moves on. */
  lemma AppendKeepsIdsFresh(ms: seq<Movie>, m: Movie)
    ensures IdsFreshIn(ms, m.id) ==> IdsFreshIn(ms + [m], m.id + 1)
  {
    var ms' := ms + [m];
    if IdsFreshIn(ms, m.id) {
      forall k, l | 0 <= k < l < |ms'|
        ensures ms'[k].id != ms'[l].id
      {
        if l == |ms| {
          assert ms'[k] == ms[k];
        }
      }
    }
  }

  /** Splicing one entry out keeps the invariant, and with distinct ids no
      entry with the removed id is left. */
  lemma RemoveKeepsIdsFresh(ms: seq<Movie>, next: int, i: nat)
    requires i < |ms|
    ensures IdsFreshIn(ms, next) ==> IdsFreshIn(ms[..i] + ms[i + 1..], next)
    ensures IdsFreshIn(ms, next) ==> forall m :: m in ms[..i] + ms[i + 1..] ==> m.id != ms[i].id
  {
    var r := ms[..i] + ms[i + 1..];
    assert forall k :: 0 <= k < |r| ==> r[k] == ms[if k < i then k else k + 1];
  }

  /** The default format is the text after the last dot of the path, or the
      whole path when it has none. */
  lemma DefaultFormatAfterLastDot(path: string)
    ensures DefaultFormat(path) == path[NodePath.LastIndexOf(path, '.') + 1..]
  {
    if '.' in path {
      DefaultFormatWithDot(path);
    } else {
      SplitNoSeparator(path, '.');
      NodePath.LastIndexOfAbsent(path, '.');
    }
  }

  lemma DefaultFormatWithDot(path: string)
    requires '.' in path
    ensures DefaultFormat(path) == path[NodePath.LastIndexOf(path, '.') + 1..]
  {
    SplitLast(path, '.');
    var f := DefaultFormat(path);
    var d := |path| - |f| - 1;
    assert path[d + 1..] == f;
    NodePath.LastIndexOfAt(path, '.', d);
  }

  /** Merging the same body twice changes nothing the second time, and an
      empty body changes nothing at all. */
  lemma MergeIdempotent(m: Movie, p: Patch)
    ensures Merge(Merge(m, p), p) == Merge(m, p)
    ensures p == Patch(None, None, None, None, None, None, None) ==> Merge(m, p) == m
  {
  }

  /** The merge keeps the catalog as a prefix, hands out consecutive ids from
      the counter, and counts exactly the appended entries. */
  lemma {:induction false} MergeScanAppends(ms: seq<Movie>, next: int, scanned: seq<ScanResult>)
    ensures var r := MergeScan(ms, next, scanned);
      |r.movies| == |ms| + r.added && r.movies[..|ms|] == ms && r.nextId == next + r.added &&
      r.added <= |scanned| &&
      forall k :: |ms| <= k < |r.movies| ==> r.movies[k].id == next + (k - |ms|)
    decreases |scanned|
  {
    if scanned != [] && !HasPath(ms, scanned[0].path) {
      var ms' := ms + [FromScan(next, scanned[0])];
      MergeScanAppends(ms', next + 1, scanned[1..]);
      var r := MergeScan(ms', next + 1, scanned[1..]);
      assert r.movies[..|ms|] == ms' [..|ms|];
    } else if scanned != [] {
      MergeScanAppends(ms, next, scanned[1..]);
    }
  }

  /** After the merge every scanned path is in the catalog, and no path
      occurs twice among the appended entries or between them and the
      entries that were already there. */
  lemma {:induction false} MergeScanPaths(ms: seq<Movie>, next: int, scanned: seq<ScanResult>)
    ensures var r := MergeScan(ms, next, scanned);
      (forall s :: s in scanned ==> HasPath(r.movies, s.path)) &&
      (forall k, l :: 0 <= k < l < |r.movies| && |ms| <= l ==> r.movies[k].path != r.movies[l].path)
    decreases |scanned|
  {
    var r := MergeScan(ms, next, scanned);
    MergeScanAppends(ms, next, scanned);
    if scanned != [] {
      var s0 := scanned[0];
      if HasPath(ms, s0.path) {
        MergeScanPaths(ms, next, scanned[1..]);
        var k :| 0 <= k < |ms| && ms[k].path == s0.path;
        assert r.movies[k] == ms[k];
      } else {
        var ms' := ms + [FromScan(next, s0)];
        MergeScanPaths(ms', next + 1, scanned[1..]);
        MergeScanAppends(ms', next + 1, scanned[1..]);
        assert r.movies[|ms|] == ms'[|ms|];
        forall k, l | 0 <= k < l < |r.movies| && |ms| <= l
          ensures r.movies[k].path != r.movies[l].path
        {
          if l == |ms| {
            assert r.movies[k] == ms[k];
          }
        }
      }
    }
  }

  /** Scanning the same files again adds nothing. */
  lemma {:induction false} MergeScanAllPresent(ms: seq<Movie>, next: int, scanned: seq<ScanResult>)
    requires forall s :: s in scanned ==> HasPath(ms, s.path)
    ensures MergeScan(ms, next, scanned) == Merged(ms, next, 0)
    decreases |scanned|
  {
    if scanned != [] {
      assert scanned[0] in scanned;
      MergeScanAllPresent(ms, next, scanned[1..]);
    }
  }

  lemma MergeScanTwice(ms: seq<Movie>, next: int, scanned: seq<ScanResult>)
    ensures var r := MergeScan(ms, next, scanned);
      MergeScan(r.movies, r.nextId, scanned) == Merged(r.movies, r.nextId, 0)
  {
    var r := MergeScan(ms, next, scanned);
    MergeScanPaths(ms, next, scanned);
    MergeScanAllPresent(r.movies, r.nextId, scanned);
  }

  /** The merge keeps the catalog invariant. */
  lemma {:induction false} MergeScanKeepsIdsFresh(ms: seq<Movie>, next: int, scanned: seq<ScanResult>)
    ensures var r := MergeScan(ms, next, scanned); IdsFreshIn(ms, next) ==> IdsFreshIn(r.movies, r.nextId)
    decreases |scanned|
  {
    if scanned != [] && IdsFreshIn(ms, next) {
      if HasPath(ms, scanned[0].path) {
        MergeScanKeepsIdsFresh(ms, next, scanned[1..]);
      } else {
        AppendKeepsIdsFresh(ms, FromScan(next, scanned[0]));
        MergeScanKeepsIdsFresh(ms + [FromScan(next, scanned[0])], next + 1, scanned[1..]);
      }
    }
  }

  /** `movies.some(m => m.path === path)` holds exactly for the catalog's paths. */
  lemma HasPathInPaths(ms: seq<Movie>, path: string)
    ensures HasPath(ms, path) <==> path in Paths(ms)
  {
    if path in Paths(ms) {
      var m :| m in ms && m.path == path;
      var k :| 0 <= k < |ms| && ms[k] == m;
      assert ms[k].path == path;
    }
  }

  /** The merge appends exactly the new scanned items, in scan order, numbered
      from the counter; the counter and the count move on by their number. */
  lemma {:induction false} MergeScanIsFreshNumbered(ms: seq<Movie>, next: int, scanned: seq<ScanResult>)
    ensures var r, f := MergeScan(ms, next, scanned), Fresh(Paths(ms), scanned);
      r.movies == ms + Numbered(next, f) && r.nextId == next + |f| && r.added == |f|
    decreases |scanned|
  {
    if scanned != [] {
      var s0 := scanned[0];
      HasPathInPaths(ms, s0.path);
      if HasPath(ms, s0.path) {
        MergeScanIsFreshNumbered(ms, next, scanned[1..]);
        assert Fresh(Paths(ms), scanned) == Fresh(Paths(ms), scanned[1..]);
        assert MergeScan(ms, next, scanned) == MergeScan(ms, next, scanned[1..]);
      } else {
        var x := FromScan(next, s0);
        PathsAppend(ms, x);
        MergeScanIsFreshNumbered(ms + [x], next + 1, scanned[1..]);
        var f' := Fresh(Paths(ms + [x]), scanned[1..]);
        NumberedCons(next, s0, f');
        assert Fresh(Paths(ms), scanned) == [s0] + f';
        assert ms + ([x] + Numbered(next + 1, f')) == (ms + [x]) + Numbered(next + 1, f');
      }
    }
  }

  lemma PathsAppend(ms: seq<Movie>, m: Movie)
    ensures Paths(ms + [m]) == Paths(ms) + {m.path}
  {
    assert forall x :: x in ms + [m] <==> x in ms || x == m;
  }

  lemma NumberedCons(next: int, s: ScanResult, items: seq<ScanResult>)
    ensures Numbered(next, [s] + items) == [FromScan(next, s)] + Numbered(next + 1, items)
  {
    var l, r := Numbered(next, [s] + items), [FromScan(next, s)] + Numbered(next + 1, items);
    assert forall k :: 1 <= k < |l| ==> l[k] == r[k];
  }
}
