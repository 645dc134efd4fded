/** The parts of Node's POSIX `path` module that the server uses:
    `extname` and `basename` (with and without a suffix). */
module NodePath {

  /** Index of the last occurrence of `c` in `s`, if any. */
  function LastIndexOf(s: string, c: char): (r: int)
    ensures -1 <= r < |s|
    ensures r >= 0 ==> s[r] == c
    ensures forall j :: r < j < |s| ==> s[j] != c
  {
    if s == [] then -1
    else if s[|s| - 1] == c then |s| - 1
    else LastIndexOf(s[..|s| - 1], c)
  }

  /** The last occurrence is the one with no occurrence after it. */
  lemma LastIndexOfAt(s: string, c: char, d: nat)
    requires d < |s| && s[d] == c && c !in s[d + 1..]
    ensures LastIndexOf(s, c) == d
  {
  }

  lemma LastIndexOfAbsent(s: string, c: char)
    requires c !in s
    ensures LastIndexOf(s, c) == -1
  {
  }

  /** `s` without its trailing `/` characters. */
  function StripTrailingSlashes(s: string): (r: string)
    ensures |r| <= |s| && r == s[..|r|]
    ensures r != [] ==> r[|r| - 1] != '/'
    ensures forall j :: |r| <= j < |s| ==> s[j] == '/'
  {
    if s != [] && s[|s| - 1] == '/' then StripTrailingSlashes(s[..|s| - 1]) else s
  }

  /** `path.basename(p)`: the last segment, trailing slashes ignored. */
  function Basename(p: string): (b: string)
    ensures '/' !in b
  {
    var q := StripTrailingSlashes(p);
    q[LastIndexOf(q, '/') + 1..]
  }

  /** The basename is the part of the path, trailing slashes dropped, that
      follows its last `/`: all of it when there is no `/`. */
  lemma BasenameIsLastSegment(p: string)
    ensures var q, b := StripTrailingSlashes(p), Basename(p);
      |b| <= |q| && q[|q| - |b|..] == b && (|b| == |q| || q[|q| - |b| - 1] == '/')
  {
  }

  /** `path.extname(p)`: from the last `.` of the last segment to its end;
      empty when that segment has no `.`, starts with its only run-ending
      `.` (a dot file such as `.bashrc`), or is `..`. */
  function ExtName(p: string): (e: string)
    ensures e == [] || (e[0] == '.' && '.' !in e[1..] && '/' !in e)
    ensures e != [] ==> |e| < |Basename(p)| && Basename(p)[|Basename(p)| - |e|..] == e
  {
    var b := Basename(p);
    var i := LastIndexOf(b, '.');
    if i <= 0 || b == ".." then ""
    else
      b[i..]
  }

  /** `path.basename(name, ext)` for a single path segment: a non-empty
      `ext` is cut off the end when the name ends with it (case-sensitively);
      a name equal to `ext` gives the empty string. */
  function BasenameWithout(name: string, ext: string): (r: string)
    ensures |r| <= |name| && r == name[..|r|]
    ensures ext != [] && |ext| <= |name| && name[|name| - |ext|..] == ext ==> r + ext == name
    ensures r != name ==> name == r + ext
  {
    if ext != [] && |ext| <= |name| && name[|name| - |ext|..] == ext
    then name[..|name| - |ext|]
    else name
  }

  /** A single segment is its own basename. */
  lemma BasenameOfSegment(name: string)
    requires '/' !in name
    ensures Basename(name) == name
  {
    assert StripTrailingSlashes(name) == name;
    LastIndexOfAbsent(name, '/');
  }

  /** The extension of a path is a suffix of the path itself. */
  lemma ExtNameIsSuffixOfName(name: string)
    requires '/' !in name
    ensures var e := ExtName(name); |e| <= |name| && name[|name| - |e|..] == e
  {
    BasenameOfSegment(name);
  }

  /** For a single segment, the extension is the text from its last dot,
      provided that dot is not the first character. */
  lemma ExtNameOfSegment(name: string, i: nat)
    requires '/' !in name
    requires 0 < i < |name| && name[i] == '.' && '.' !in name[i + 1..] && name != ".."
    ensures ExtName(name) == name[i..]
  {
    BasenameOfSegment(name);
    LastIndexOfAt(name, '.', i);
  }

  /** A name that is exactly the suffix to cut leaves nothing. */
  lemma BasenameWithoutWhole(name: string)
    requires name != []
    ensures BasenameWithout(name, name) == []
  {
    assert name[|name| - |name|..] == name;
  }

  /** The extension of a path is the extension of its last segment. */
  lemma ExtNameOfPath(p: string)
    ensures ExtName(p) == ExtName(Basename(p))
  {
    BasenameOfSegment(Basename(p));
  }

  /** A file name below a directory keeps its own basename and extension:
      `path.extname("Series/x.mkv")` is `.mkv`. */
  lemma ExtNameBelowDirectory(dir: string, name: string)
    requires name != [] && '/' !in name
    ensures Basename(dir + "/" + name) == name
    ensures ExtName(dir + "/" + name) == ExtName(name)
  {
    var q := dir + "/" + name;
    assert q[|q| - 1] == name[|name| - 1];
    assert StripTrailingSlashes(q) == q;
    assert q[|dir| + 1..] == name;
    LastIndexOfAt(q, '/', |dir|);
    ExtNameOfPath(q);
  }

  /** A segment without a dot, one whose only dot is its first character
      (`.bashrc`), and `..` have no extension. */
  lemma ExtNameEmpty(name: string)
    requires '/' !in name
    requires '.' !in name || name == ".." || (name != [] && name[0] == '.' && '.' !in name[1..])
    ensures ExtName(name) == []
  {
    BasenameOfSegment(name);
    if '.' !in name {
      LastIndexOfAbsent(name, '.');
    } else if name != ".." {
      LastIndexOfAt(name, '.', 0);
    }
  }
}
