/** The records the server keeps and exchanges (server/src/types/movie.ts),
    and the id lookup `movies.find(m => m.id === id)` every handler starts with. */
module MovieTypes {
  import opened JsText

  datatype Option<T> = None | Some(value: T)

  /** A catalog entry. `size`, `parentDir` and `poster` are present on the
      entries that came from a directory scan; `addedAt` and `lastModified`
      are clock and file-system values and are not modelled. */
  datatype Movie = Movie(
    id: int,
    title: string,
    path: string,
    format: string,
    size: Option<int>,
    parentDir: Option<string>,
    poster: Option<string>)

  /** What the directory scanner produces for one video file. */
  datatype ScanResult = ScanResult(
    title: string,
    path: string,
    format: string,
    size: nat,
    parentDir: string,
    poster: string)

  /** The JSON body of an update: each field that is present overrides the
      stored one. The body may carry an `id`; the handler overrides it. */
  datatype Patch = Patch(
    id: Option<int>,
    title: Option<string>,
    path: Option<string>,
    format: Option<string>,
    size: Option<int>,
    parentDir: Option<string>,
    poster: Option<string>)

  /** `m.id === id`: a NaN id equals nothing. */
  predicate HasId(m: Movie, id: Num) {
    id == Finite(m.id)
  }

  /** `movies.findIndex(m => m.id === id)`, with -1 for "absent". */
  function IndexOfId(movies: seq<Movie>, id: Num): (i: int)
    ensures -1 <= i < |movies|
    ensures i >= 0 ==> HasId(movies[i], id) && forall j :: 0 <= j < i ==> !HasId(movies[j], id)
    ensures i == -1 <==> forall j :: 0 <= j < |movies| ==> !HasId(movies[j], id)
  {
    if movies == [] then -1
    else if HasId(movies[0], id) then 0
    else
      var k := IndexOfId(movies[1..], id);
      if k == -1 then -1 else k + 1
  }

  /** `movies.find(m => m.id === id)`: the first movie with the id. */
  function FindById(movies: seq<Movie>, id: Num): (r: Option<Movie>)
    ensures r.Some? ==> r.value in movies && HasId(r.value, id)
    ensures r.Some? ==>
      exists i :: 0 <= i < |movies| && r.value == movies[i] && (forall j :: 0 <= j < i ==> !HasId(movies[j], id))
    ensures r.None? <==> forall m :: m in movies ==> !HasId(m, id)
    ensures r.None? <==> IndexOfId(movies, id) == -1
  {
    var i := IndexOfId(movies, id);
    if i == -1 then None else Some(movies[i])
  }
}
