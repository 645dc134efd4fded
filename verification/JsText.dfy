/** The JavaScript built-ins the server leans on, stated over Dafny values:
    numbers that may be NaN, `parseInt(s, 10)`, `String(n)`, `split`,
    `trim`, `toLowerCase` and a first-occurrence `replace`. */
module JsText {

  /** A JavaScript number as the server uses it: an integer, or NaN. */
  datatype Num = Finite(value: int) | NaN

  /** `a + b`: NaN is absorbing. */
  function Add(a: Num, b: Num): (r: Num)
    ensures r.Finite? <==> a.Finite? && b.Finite?
    ensures r.Finite? ==> r.value - b.value == a.value
  {
    if a.Finite? && b.Finite? then Finite(a.value + b.value) else NaN
  }

  /** `a - b`: NaN is absorbing. */
  function Sub(a: Num, b: Num): (r: Num)
    ensures r.Finite? <==> a.Finite? && b.Finite?
    ensures r.Finite? ==> r.value + b.value == a.value
  {
    if a.Finite? && b.Finite? then Finite(a.value - b.value) else NaN
  }

  /** `Math.min(a, b)`: NaN if either argument is NaN, otherwise the smaller one. */
  function Min(a: Num, b: Num): (r: Num)
    ensures r.Finite? <==> a.Finite? && b.Finite?
    ensures r.Finite? ==> r.value <= a.value && r.value <= b.value
    ensures r.Finite? ==> r == a || r == b
  {
    if a.Finite? && b.Finite? then
      (if a.value <= b.value then a else b)
    else NaN
  }

  // ---------------------------------------------------------------------
  // Characters

  predicate IsDigit(c: char) { '0' <= c <= '9' }

  /** Line terminators of ECMAScript (LF, CR, LINE SEPARATOR, PARAGRAPH SEPARATOR). */
  predicate IsLineTerminator(c: char) {
    c == '\n' || c == '\r' || c == '\U{2028}' || c == '\U{2029}'
  }

  /** ECMAScript white space or line terminator: what `trim` removes and
      what `parseInt` skips before the number. */
  predicate IsWhite(c: char) {
    || c == '\t' || c == '\U{000B}' || c == '\U{000C}' || c == ' '
    || c == '\U{00A0}' || c == '\U{FEFF}' || c == '\U{1680}'
    || ('\U{2000}' <= c <= '\U{200A}') || c == '\U{202F}' || c == '\U{205F}' || c == '\U{3000}'
    || IsLineTerminator(c)
  }

  /** A character of the regular-expression class `\w` (no `u` flag). */
  predicate IsWordChar(c: char) {
    ('a' <= c <= 'z') || ('A' <= c <= 'Z') || IsDigit(c) || c == '_'
  }

  /** Lower-case mapping of one character, for the ASCII letters. */
  function LowerChar(c: char): (r: char)
    ensures 'A' <= c <= 'Z' ==> 'a' <= r <= 'z' && r as int - c as int == 32
    ensures !('A' <= c <= 'Z') ==> r == c
  {
    if 'A' <= c <= 'Z' then (c as int + 32) as char else c
  }

  /** `s.toLowerCase()`, restricted to the ASCII letters. */
  function ToLower(s: string): (r: string)
    ensures |r| == |s|
    ensures forall i :: 0 <= i < |s| ==> r[i] == LowerChar(s[i])
  {
    seq(|s|, i requires 0 <= i < |s| => LowerChar(s[i]))
  }

  /** Lower-casing twice is lower-casing once. */
  lemma ToLowerIdempotent(s: string)
    ensures ToLower(ToLower(s)) == ToLower(s)
  {
    var t := ToLower(s);
    assert forall i :: 0 <= i < |t| ==> LowerChar(t[i]) == t[i];
  }

  // ---------------------------------------------------------------------
  // parseInt(s, 10)

  /** Length of the run of decimal digits at the start of `s`. */
  function LeadingDigits(s: string): (n: nat)
    ensures n <= |s|
    ensures forall i :: 0 <= i < n ==> IsDigit(s[i])
    ensures n < |s| ==> !IsDigit(s[n])
  {
    if s != [] && IsDigit(s[0]) then 1 + LeadingDigits(s[1..]) else 0
  }

  predicate AllDigits(s: string) {
    forall i :: 0 <= i < |s| ==> IsDigit(s[i])
  }

  /** The value of a string of decimal digits, most significant digit first. */
  function DigitsValue(ds: string): nat
    requires AllDigits(ds)
  {
    if ds == [] then 0
    else DigitsValue(ds[..|ds| - 1]) * 10 + (ds[|ds| - 1] as int - '0' as int)
  }

  /** `s` with the leading white space removed (what `trimStart` returns). */
  function TrimStart(s: string): (r: string)
    ensures |r| <= |s| && r == s[|s| - |r|..]
    ensures forall i :: 0 <= i < |s| - |r| ==> IsWhite(s[i])
    ensures r != [] ==> !IsWhite(r[0])
  {
    if s != [] && IsWhite(s[0]) then TrimStart(s[1..]) else s
  }

  /** `s` with the trailing white space removed (what `trimEnd` returns). */
  function TrimEnd(s: string): (r: string)
    ensures |r| <= |s| && r == s[..|r|]
    ensures forall i :: |r| <= i < |s| ==> IsWhite(s[i])
    ensures r != [] ==> !IsWhite(r[|r| - 1])
  {
    if s != [] && IsWhite(s[|s| - 1]) then TrimEnd(s[..|s| - 1]) else s
  }

  /** `s.trim()`: the slice of `s` from its first to its last character
      that is not white space, or empty when there is none. */
  function Trim(s: string): (r: string)
    ensures var lead := |s| - |TrimStart(s)|;
      lead + |r| <= |s| && r == s[lead..lead + |r|] &&
      (forall i :: 0 <= i < lead ==> IsWhite(s[i])) &&
      (forall i :: lead + |r| <= i < |s| ==> IsWhite(s[i]))
    ensures r != [] ==> !IsWhite(r[0]) && !IsWhite(r[|r| - 1])
  {
    TrimEnd(TrimStart(s))
  }

  /** Text that neither starts nor ends with white space is its own trim. */
  lemma TrimOfTrimmed(s: string)
    requires s != [] && !IsWhite(s[0]) && !IsWhite(s[|s| - 1])
    ensures Trim(s) == s
  {
  }

  /** Trailing white space is dropped by trim. */
  lemma TrimDropsTrailingWhite(s: string, w: char)
    requires s != [] && !IsWhite(s[0]) && !IsWhite(s[|s| - 1]) && IsWhite(w)
    ensures Trim(s + [w]) == s
  {
    assert (s + [w])[..|s|] == s;
  }

  /** `parseInt(s, 10)`: skip leading white space, take one optional sign,
      then the longest run of decimal digits; no digit at all gives NaN. */
  function ParseInt(s: string): (r: Num)
    ensures s == [] ==> r == NaN
    ensures s != [] && !IsWhite(s[0]) && !IsDigit(s[0]) && s[0] != '+' && s[0] != '-' ==> r == NaN
  {
    ParseSigned(TrimStart(s))
  }

  /** The part of `parseInt` after the white space: one optional sign, then digits. */
  function ParseSigned(t: string): (r: Num)
    ensures t == [] ==> r == NaN
    ensures t != [] && !IsDigit(t[0]) && t[0] != '+' && t[0] != '-' ==> r == NaN
    ensures t != [] && (t[0] == '+' || t[0] == '-') && (|t| == 1 || !IsDigit(t[1])) ==> r == NaN
    ensures r.Finite? ==> IsDigit(t[0]) || (|t| > 1 && IsDigit(t[1]))
  {
    var negative := t != [] && t[0] == '-';
    var u := if t != [] && (t[0] == '+' || t[0] == '-') then t[1..] else t;
    var n := LeadingDigits(u);
    if n == 0 then NaN
    else
      assert AllDigits(u[..n]);
      var v: int := DigitsValue(u[..n]);
      Finite(if negative then -v else v)
  }

  /** Leading white space is skipped whatever follows it. */
  lemma {:induction false} TrimStartSkipsWhite(w: string, s: string)
    requires forall i :: 0 <= i < |w| ==> IsWhite(w[i])
    ensures TrimStart(w + s) == TrimStart(s)
    decreases |w|
  {
    if w != [] {
      var ws := w + s;
      assert ws[0] == w[0] && ws[1..] == w[1..] + s;
      assert TrimStart(ws) == TrimStart(ws[1..]);
      TrimStartSkipsWhite(w[1..], s);
    } else {
      assert w + s == s;
    }
  }

  /** `parseInt` ignores white space in front of the number: `parseInt(" 5")`
      is 5. */
  lemma ParseIntSkipsWhite(w: string, s: string)
    requires forall c :: c in w ==> IsWhite(c)
    ensures ParseInt(w + s) == ParseInt(s)
  {
    assert forall i :: 0 <= i < |w| ==> w[i] in w;
    TrimStartSkipsWhite(w, s);
  }

  /** A sign with no digit after it is not a number: `parseInt("+")` and
      `parseInt("-x")` are NaN. */
  lemma SignWithoutDigits(sign: string, rest: string)
    requires sign == "+" || sign == "-"
    requires rest == [] || !IsDigit(rest[0])
    ensures ParseInt(sign + rest) == NaN
  {
    var t := sign + rest;
    assert t[0] == sign[0] && !IsWhite(t[0]);
    assert TrimStart(t) == t;
    assert |t| == 1 || t[1] == rest[0];
  }

  // ---------------------------------------------------------------------
  // String(n)

  function DigitChar(d: nat): (c: char)
    requires d < 10
    ensures IsDigit(c) && c as int - '0' as int == d
  {
    ('0' as int + d) as char
  }

  /** Decimal representation of a natural number, no leading zeros. */
  function NatToString(n: nat): (s: string)
    ensures s != [] && AllDigits(s)
    ensures DigitsValue(s) == n
    ensures |s| > 1 ==> s[0] != '0'
  {
    if n < 10 then [DigitChar(n)]
    else
      var s := NatToString(n / 10) + [DigitChar(n % 10)];
      assert s[..|s| - 1] == NatToString(n / 10);
      s
  }

  /** `String(i)` for an integer `i` (exponent notation above 1e21 is not modelled). */
  function IntToString(i: int): (s: string)
    ensures s != [] && (IsDigit(s[0]) || s[0] == '-')
  {
    if i < 0 then "-" + NatToString(-i) else NatToString(i)
  }

  /** Template-literal rendering of a number: `${x}`. */
  function NumToString(x: Num): (r: string)
    ensures x.NaN? <==> r == "NaN"
  {
    match x
    case Finite(v) => IntToString(v)
    case NaN => "NaN"
  }

  /** `parseInt` reads a rendered number back, `NaN` included. */
  lemma ParseIntOfNumToString(x: Num)
    ensures ParseInt(NumToString(x)) == x
  {
    match x
    case Finite(v) =>
      ParseIntOfIntToString(v, []);
      assert IntToString(v) + [] == IntToString(v);
    case NaN =>
  }

  /** parseInt reads back what String wrote, and stops at the first
      character that is not a digit. */
  lemma {:induction false} ParseIntOfIntToString(i: int, rest: string)
    requires rest == [] || !IsDigit(rest[0])
    ensures ParseInt(IntToString(i) + rest) == Finite(i)
  {
    var n: nat := if i < 0 then -i else i;
    var d := NatToString(n);
    var sign := if i < 0 then "-" else "";
    assert IntToString(i) == sign + d;
    ParseIntOfDigits(sign, d, rest);
  }

  /** parseInt reads back a decimal numeral. */
  lemma ParseIntOfNatToString(n: nat)
    ensures ParseInt(NatToString(n)) == Finite(n)
  {
    var d := NatToString(n);
    ParseIntOfDigits("", d, "");
    assert "" + d + "" == d;
  }

  /** An optional sign, digits, then a non-digit: parseInt reads exactly the digits. */
  lemma {:induction false} ParseIntOfDigits(sign: string, digits: string, rest: string)
    requires sign == "" || sign == "-" || sign == "+"
    requires digits != [] && AllDigits(digits)
    requires rest == [] || !IsDigit(rest[0])
    ensures ParseInt(sign + digits + rest) ==
      Finite(if sign == "-" then -(DigitsValue(digits) as int) else DigitsValue(digits))
  {
    var s := sign + digits + rest;
    assert s[0] == if sign == "" then digits[0] else sign[0];
    assert !IsWhite(s[0]);
    ParseSignedOfDigits(sign, digits, rest);
  }

  lemma {:induction false} ParseSignedOfDigits(sign: string, digits: string, rest: string)
    requires sign == "" || sign == "-" || sign == "+"
    requires digits != [] && AllDigits(digits)
    requires rest == [] || !IsDigit(rest[0])
    ensures ParseSigned(sign + digits + rest) ==
      Finite(if sign == "-" then -(DigitsValue(digits) as int) else DigitsValue(digits))
  {
    var s := sign + digits + rest;
    var u := digits + rest;
    assert u == if sign == "" then s else s[1..];
    assert sign == "" ==> s[0] == digits[0];
    LeadingDigitsOfDigits(digits, rest);
    assert u[..|digits|] == digits;
  }

  lemma {:induction false} LeadingDigitsOfDigits(digits: string, rest: string)
    requires AllDigits(digits)
    requires rest == [] || !IsDigit(rest[0])
    ensures LeadingDigits(digits + rest) == |digits|
  {
    if digits != [] {
      assert (digits + rest)[1..] == digits[1..] + rest;
      LeadingDigitsOfDigits(digits[1..], rest);
    }
  }

  // ---------------------------------------------------------------------
  // s.split(sep) for a one-character separator, and its inverse

  /** `s.split(sep)`: the maximal separator-free pieces, in order; never empty. */
  function Split(s: string, sep: char): (parts: seq<string>)
    ensures |parts| >= 1
    ensures forall i :: 0 <= i < |parts| ==> sep !in parts[i]
  {
    if s == [] then [[]]
    else
      var rest := Split(s[1..], sep);
      if s[0] == sep then [[]] + rest
      else [[s[0]] + rest[0]] + rest[1..]
  }

  /** `parts.join(sep)`. */
  function Join(parts: seq<string>, sep: char): (r: string)
    requires |parts| >= 1
    ensures |parts[0]| <= |r| && r[..|parts[0]|] == parts[0]
    ensures |parts| > 1 ==> |parts[0]| < |r| && r[|parts[0]|] == sep
  {
    if |parts| == 1 then parts[0] else parts[0] + [sep] + Join(parts[1..], sep)
  }

  /** Joining one more part appends the separator and that part. */
  lemma {:induction false} JoinSnoc(parts: seq<string>, x: string, sep: char)
    requires |parts| >= 1
    ensures Join(parts + [x], sep) == Join(parts, sep) + [sep] + x
    decreases |parts|
  {
    var ps := parts + [x];
    assert ps[0] == parts[0];
    if |parts| == 1 {
      assert ps[1..] == [x];
    } else {
      assert ps[1..] == parts[1..] + [x];
      JoinSnoc(parts[1..], x, sep);
    }
  }

  /** Splitting and joining back with the same separator gives the string again. */
  lemma {:induction false} JoinSplit(s: string, sep: char)
    ensures Join(Split(s, sep), sep) == s
  {
    if s != [] {
      var rest := Split(s[1..], sep);
      JoinSplit(s[1..], sep);
      if s[0] != sep && |rest| > 1 {
        assert Join(rest, sep) == rest[0] + [sep] + Join(rest[1..], sep);
      }
    }
  }

  /** Joining separator-free parts and splitting again gives the parts back. */
  lemma {:induction false} SplitJoin(parts: seq<string>, sep: char)
    requires |parts| >= 1
    requires forall i :: 0 <= i < |parts| ==> sep !in parts[i]
    ensures Split(Join(parts, sep), sep) == parts
    decreases |parts|
  {
    if |parts| == 1 {
      SplitNoSeparator(parts[0], sep);
    } else {
      SplitJoin(parts[1..], sep);
      SplitAtFirst(parts[0], sep, Join(parts[1..], sep));
      assert [parts[0]] + parts[1..] == parts;
    }
  }

  /** A separator-free string splits into itself alone. */
  lemma {:induction false} SplitNoSeparator(s: string, sep: char)
    requires sep !in s
    ensures Split(s, sep) == [s]
  {
    if s != [] {
      SplitNoSeparator(s[1..], sep);
      assert [s[0]] + s[1..] == s;
    }
  }

  /** A separator-free head followed by the separator splits off as the first part. */
  lemma {:induction false} SplitAtFirst(a: string, sep: char, b: string)
    requires sep !in a
    ensures Split(a + [sep] + b, sep) == [a] + Split(b, sep)
  {
    if a == [] {
      assert ([sep] + b)[1..] == b;
    } else {
      assert (a + [sep] + b)[1..] == a[1..] + [sep] + b;
      SplitAtFirst(a[1..], sep, b);
      assert [a[0]] + a[1..] == a;
    }
  }

  /** The last part of a split is the text after the last separator, or the
      whole string when there is no separator. */
  lemma SplitLast(s: string, sep: char)
    ensures var parts := Split(s, sep);
      var last := parts[|parts| - 1];
      (sep !in s ==> last == s) &&
      (sep in s ==> |last| < |s| && s[|s| - |last| - 1] == sep && s[|s| - |last|..] == last)
  {
    if sep !in s {
      SplitNoSeparator(s, sep);
    } else {
      SplitLastWithSeparator(s, sep);
    }
  }

  lemma {:induction false} SplitLastWithSeparator(s: string, sep: char)
    requires sep in s
    ensures var parts := Split(s, sep);
      var last := parts[|parts| - 1];
      |last| < |s| && s[|s| - |last| - 1] == sep && s[|s| - |last|..] == last
    decreases |s|, 1
  {
    if sep in s[1..] {
      SplitLastInTail(s, sep);
    } else {
      SplitNoSeparator(s[1..], sep);
      assert s[0] == sep;
    }
  }

  /** When the tail holds a separator, the last part is the tail's last part. */
  lemma {:induction false} SplitLastInTail(s: string, sep: char)
    requires s != [] && sep in s[1..]
    ensures var parts := Split(s, sep);
      var last := parts[|parts| - 1];
      |last| < |s| && s[|s| - |last| - 1] == sep && s[|s| - |last|..] == last
    decreases |s|, 0
  {
    var rest := Split(s[1..], sep);
    SplitLastWithSeparator(s[1..], sep);
    SplitHasSeveralParts(s[1..], sep);
    var last := rest[|rest| - 1];
    assert Split(s, sep)[|Split(s, sep)| - 1] == last;
    assert s[|s| - |last|..] == s[1..][|s| - 1 - |last|..];
  }

  /** A string holding the separator splits into at least two parts. */
  lemma {:induction false} SplitHasSeveralParts(s: string, sep: char)
    requires sep in s
    ensures |Split(s, sep)| > 1
  {
    if s[0] != sep {
      SplitHasSeveralParts(s[1..], sep);
    }
  }

  // ---------------------------------------------------------------------
  // s.replace(/pat/, "") : remove the first occurrence

  predicate OccursAt(s: string, pat: string, i: nat) {
    i + |pat| <= |s| && s[i..i + |pat|] == pat
  }

  /** `pat` occurs at `i` and nowhere before. */
  predicate FirstAt(s: string, pat: string, i: nat) {
    OccursAt(s, pat, i) && forall j: nat :: j < i ==> !OccursAt(s, pat, j)
  }

  /** `s.replace(pat, "")` with a non-global pattern: the first occurrence of
      `pat`, if any, is cut out. */
  function RemoveFirst(s: string, pat: string): (r: string)
    requires pat != []
    ensures (forall i: nat :: !OccursAt(s, pat, i)) ==> r == s
    ensures forall i: nat :: FirstAt(s, pat, i) ==> r == s[..i] + s[i + |pat|..]
    ensures |r| == |s| || |r| + |pat| == |s|
    decreases |s|
  {
    if |s| < |pat| then s
    else if s[..|pat|] == pat then
      assert OccursAt(s, pat, 0);
      assert forall i: nat :: FirstAt(s, pat, i) ==> i == 0;
      s[|pat|..]
    else
      var t := RemoveFirst(s[1..], pat);
      OccursInTail(s, pat);
      forall i: nat | FirstAt(s, pat, i)
        ensures [s[0]] + t == s[..i] + s[i + |pat|..]
      {
        FirstAtInTail(s, pat, i);
      }
      [s[0]] + t
  }

  /** An occurrence in the tail is an occurrence one place further on. */
  lemma OccursInTail(s: string, pat: string)
    requires s != []
    ensures forall i: nat :: OccursAt(s[1..], pat, i) <==> OccursAt(s, pat, i + 1)
  {
    forall i: nat
      ensures OccursAt(s[1..], pat, i) <==> OccursAt(s, pat, i + 1)
    {
      if i + |pat| <= |s| - 1 {
        assert s[1..][i..i + |pat|] == s[i + 1..i + 1 + |pat|];
      }
    }
  }

  /** A first occurrence past the front is the tail's first occurrence,
      one place earlier, with the same text around it. */
  lemma FirstAtInTail(s: string, pat: string, i: nat)
    requires s != [] && !OccursAt(s, pat, 0) && FirstAt(s, pat, i)
    ensures i > 0 && FirstAt(s[1..], pat, i - 1)
    ensures s[..i] == [s[0]] + s[1..][..i - 1] && s[i + |pat|..] == s[1..][i - 1 + |pat|..]
  {
    OccursInTail(s, pat);
  }
}
