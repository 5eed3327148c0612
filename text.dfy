/**
 * String helpers shared by the models: the whitespace sets of Python's
 * `str.strip` and JavaScript's `String.prototype.trim`, ASCII case mapping,
 * prefixes, and the decimal text of natural numbers together with Python's
 * `int()` parser.
 */
module Text {
  import opened Wrappers

  /** Python `str.isspace` for one character. */
  predicate PyIsSpace(c: char) {
    c == ' ' || ('\t' <= c <= '\r') || ('\U{1c}' <= c <= '\U{1f}') || c == '\U{85}' || c == '\U{a0}'
    || c == '\U{1680}' || ('\U{2000}' <= c <= '\U{200a}') || c == '\U{2028}' || c == '\U{2029}'
    || c == '\U{202f}' || c == '\U{205f}' || c == '\U{3000}'
  }

  /** The characters JavaScript's `trim` removes (WhiteSpace and LineTerminator). */
  predicate JsIsSpace(c: char) {
    c == ' ' || ('\t' <= c <= '\r') || c == '\U{a0}' || c == '\U{feff}'
    || c == '\U{1680}' || ('\U{2000}' <= c <= '\U{200a}') || c == '\U{2028}' || c == '\U{2029}'
    || c == '\U{202f}' || c == '\U{205f}' || c == '\U{3000}'
  }

  /** The two whitespace sets in use. */
  datatype Spaces = Python | JavaScript

  predicate IsSpace(sp: Spaces, c: char) {
    if sp.Python? then PyIsSpace(c) else JsIsSpace(c)
  }

  /** `s` without its leading characters of the set `sp`. */
  function TrimStart(s: string, sp: Spaces): (r: string)
    ensures |r| <= |s| && r == s[|s| - |r|..]
    ensures r == [] || !IsSpace(sp, r[0])
  {
    if s == [] || !IsSpace(sp, s[0]) then s else TrimStart(s[1..], sp)
  }

  /** `s` without its trailing characters of the set `sp`. */
  function TrimEnd(s: string, sp: Spaces): (r: string)
    ensures |r| <= |s| && r == s[..|r|]
    ensures r == [] || !IsSpace(sp, r[|r| - 1])
  {
    if s == [] || !IsSpace(sp, s[|s| - 1]) then s else TrimEnd(s[..|s| - 1], sp)
  }

  /** Python `s.strip()`. */
  function PyStrip(s: string): string {
    TrimEnd(TrimStart(s, Python), Python)
  }

  /** JavaScript `s.trim()`. */
  function JsTrim(s: string): string {
    TrimEnd(TrimStart(s, JavaScript), JavaScript)
  }

  /** What `strip()` leaves is a contiguous part of the input. */
  lemma PyStripInside(s: string)
    ensures var k := |s| - |TrimStart(s, Python)|;
      k + |PyStrip(s)| <= |s| && PyStrip(s) == s[k..k + |PyStrip(s)|]
  {
    var t := TrimStart(s, Python);
    var r := TrimEnd(t, Python);
    var k := |s| - |t|;
    SliceOfSuffix(s, k, |r|);
  }

  lemma SliceOfSuffix(s: string, k: nat, m: nat)
    requires k + m <= |s|
    ensures s[k..][..m] == s[k..k + m]
  {
  }

  /** What `strip()` leaves has no whitespace at either end. */
  lemma PyStripEnds(s: string)
    ensures var r := PyStrip(s); r == [] || (!PyIsSpace(r[0]) && !PyIsSpace(r[|r| - 1]))
  {
    var t := TrimStart(s, Python);
    var r := TrimEnd(t, Python);
    if r != [] {
      assert r[0] == t[0];
    }
  }

  /** `TrimStart` removes only characters of the set. */
  lemma {:induction false} TrimStartRemovesSpaces(s: string, sp: Spaces)
    ensures forall i :: 0 <= i < |s| - |TrimStart(s, sp)| ==> IsSpace(sp, s[i])
  {
    if s != [] && IsSpace(sp, s[0]) {
      var t := s[1..];
      TrimStartRemovesSpaces(t, sp);
      assert TrimStart(s, sp) == TrimStart(t, sp);
      forall i | 0 <= i < |s| - |TrimStart(s, sp)| ensures IsSpace(sp, s[i]) {
        if i > 0 {
          assert s[i] == t[i - 1];
        }
      }
    }
  }

  /** `TrimEnd` removes only characters of the set. */
  lemma {:induction false} TrimEndRemovesSpaces(s: string, sp: Spaces)
    ensures forall i :: |TrimEnd(s, sp)| <= i < |s| ==> IsSpace(sp, s[i])
  {
    if s != [] && IsSpace(sp, s[|s| - 1]) {
      TrimEndRemovesSpaces(s[..|s| - 1], sp);
    }
  }

  /** Only an all-whitespace string strips to nothing. */
  lemma PyStripEmpty(s: string)
    ensures PyStrip(s) == [] <==> forall i :: 0 <= i < |s| ==> PyIsSpace(s[i])
  {
    var t := TrimStart(s, Python);
    TrimStartRemovesSpaces(s, Python);
    if PyStrip(s) != [] {
      assert !PyIsSpace(t[0]) && s[|s| - |t|] == t[0];
    } else {
      assert t == [] by {
        TrimEndRemovesSpaces(t, Python);
      }
    }
  }

  /** A string with no whitespace at either end strips to itself. */
  lemma PyStripKeeps(s: string)
    requires s != [] && !PyIsSpace(s[0]) && !PyIsSpace(s[|s| - 1])
    ensures PyStrip(s) == s
  {
    assert TrimStart(s, Python) == s;
  }

  /**
   * A request value with a default, as the handlers write it for the
   * already-stripped defaults they use: the stripped value, or `d` when the
   * value is missing or blank.
   */
  function StripOr(v: Option<string>, d: string): string {
    if v.Some? && PyStrip(v.value) != [] then PyStrip(v.value) else d
  }

  /** For a default with no surrounding whitespace, `StripOr` is Python's `(v or d).strip() or d`. */
  lemma StripOrIsPython(v: Option<string>, d: string)
    requires PyStrip(d) == d
    ensures StripOr(v, d) == (var s := PyStrip(if v.Some? && v.value != [] then v.value else d); if s != [] then s else d)
  {
    if v.Some? && v.value == [] {
      assert PyStrip(v.value) == [];
    }
  }

  /** Stripping twice removes nothing more. */
  lemma {:induction false} PyStripIdempotent(s: string)
    ensures PyStrip(PyStrip(s)) == PyStrip(s)
  {
    var r := PyStrip(s);
    PyStripEnds(s);
    if r != [] {
      assert TrimStart(r, Python) == r;
      assert TrimEnd(r, Python) == r;
    }
  }

  /** The text after the last `c` of `s`, or all of `s` when it has none (`s.split(c).pop()`, `rsplit`). */
  function AfterLast(s: string, c: char): (r: string)
    ensures |r| <= |s| && r == s[|s| - |r|..]
    ensures forall i :: 0 <= i < |r| ==> r[i] != c
    ensures |r| == |s| || s[|s| - |r| - 1] == c
  {
    if s == [] || s[|s| - 1] == c then [] else AfterLast(s[..|s| - 1], c) + [s[|s| - 1]]
  }

  lemma {:induction false} AfterLastAbsent(s: string, c: char)
    requires c !in s
    ensures AfterLast(s, c) == s
  {
    if s != [] {
      AfterLastAbsent(s[..|s| - 1], c);
    }
  }

  predicate StartsWith(s: string, prefix: string) {
    |prefix| <= |s| && s[..|prefix|] == prefix
  }

  function AsciiLowerChar(c: char): char {
    if 'A' <= c <= 'Z' then (c as int + 32) as char else c
  }

  function AsciiUpperChar(c: char): char {
    if 'a' <= c <= 'z' then (c as int - 32) as char else c
  }

  /** `toLowerCase()` / `str.lower()` restricted to the ASCII letters. */
  function AsciiLower(s: string): (r: string)
    ensures |r| == |s| && forall i :: 0 <= i < |s| ==> r[i] == AsciiLowerChar(s[i])
  {
    seq(|s|, i requires 0 <= i < |s| => AsciiLowerChar(s[i]))
  }

  /** `toUpperCase()` restricted to the ASCII letters. */
  function AsciiUpper(s: string): (r: string)
    ensures |r| == |s| && forall i :: 0 <= i < |s| ==> r[i] == AsciiUpperChar(s[i])
  {
    seq(|s|, i requires 0 <= i < |s| => AsciiUpperChar(s[i]))
  }

  predicate IsDigit(c: char) {
    48 <= c as int <= 57
  }

  function DigitChar(d: nat): char
    requires d < 10
  {
    (48 + d) as char
  }

  /** The decimal text of `n`, as Python's `str(n)` and JavaScript's `String(n)` write it. */
  function NatToDecimal(n: nat): (r: string)
    ensures |r| >= 1 && forall i :: 0 <= i < |r| ==> IsDigit(r[i])
    ensures r[0] != '0' || n == 0
  {
    if n < 10 then [DigitChar(n)] else NatToDecimal(n / 10) + [DigitChar(n % 10)]
  }

  /** The value of a string of decimal digits, most significant first. */
  function DigitsValue(s: string): nat
    requires forall i :: 0 <= i < |s| ==> IsDigit(s[i])
  {
    if s == [] then 0
    else
      var last := s[|s| - 1];
      assert IsDigit(last);
      10 * DigitsValue(s[..|s| - 1]) + (last as int - 48)
  }

  lemma {:induction false} DecimalRoundTrip(n: nat)
    ensures DigitsValue(NatToDecimal(n)) == n
  {
    if n >= 10 {
      DecimalRoundTrip(n / 10);
      var s := NatToDecimal(n);
      assert s[..|s| - 1] == NatToDecimal(n / 10);
    }
  }

  /** The text Python's `int()` accepts after the sign: digits, single underscores only between digits. */
  predicate PyDigitGroups(s: string) {
    |s| > 0 && IsDigit(s[0]) && IsDigit(s[|s| - 1])
    && (forall i :: 0 <= i < |s| ==> IsDigit(s[i]) || s[i] == '_')
    && (forall i, j :: 0 <= i < |s| && 0 <= j < |s| && j == i + 1 ==> s[i] == '_' ==> s[j] != '_')
  }

  function DropUnderscores(s: string): (r: string)
    requires forall i :: 0 <= i < |s| ==> IsDigit(s[i]) || s[i] == '_'
    ensures forall i :: 0 <= i < |r| ==> IsDigit(r[i])
    ensures (forall i :: 0 <= i < |s| ==> IsDigit(s[i])) ==> r == s
  {
    if s == [] then [] else if s[0] == '_' then DropUnderscores(s[1..]) else [s[0]] + DropUnderscores(s[1..])
  }

  /** Python's `int(s)` on a string: surrounding whitespace, an optional sign, ASCII digits. */
  function PyInt(s: string): Option<int> {
    var t := PyStrip(s);
    if t == [] then None else PySigned(t)
  }

  /** The stripped, non-empty text of `int()`: an optional sign, then digit groups. */
  function PySigned(t: string): Option<int>
    requires t != []
  {
    var negative := t[0] == '-';
    var body := if t[0] == '-' || t[0] == '+' then t[1..] else t;
    if !PyDigitGroups(body) then None
    else
      var v: int := DigitsValue(DropUnderscores(body));
      Some(if negative then -v else v)
  }

  /** `int()` reads back every decimal text `str()` writes, with or without surrounding whitespace. */
  lemma PyIntReadsDecimal(n: nat, pad: string)
    requires forall i :: 0 <= i < |pad| ==> PyIsSpace(pad[i])
    ensures PyInt(pad + NatToDecimal(n) + pad) == Some(n)
  {
    var d := NatToDecimal(n);
    DigitNotSpace(d[0]);
    DigitNotSpace(d[|d| - 1]);
    PyStripPadded(pad, d);
    SignedDigits(d);
    DecimalRoundTrip(n);
  }

  /** Whitespace padding on both sides is exactly what `strip()` removes. */
  lemma PyStripPadded(pad: string, t: string)
    requires forall i :: 0 <= i < |pad| ==> PyIsSpace(pad[i])
    requires t != [] && !PyIsSpace(t[0]) && !PyIsSpace(t[|t| - 1])
    ensures PyStrip(pad + t + pad) == t
  {
    var s := pad + t + pad;
    assert s == pad + (t + pad);
    assert TrimStart(s, Python) == t + pad by {
      TrimStartPrefix(pad, t + pad);
    }
    TrimEndSuffix(t, pad);
  }

  /** `int()` reads back the decimal text of every natural number. */
  lemma PyIntOfDecimal(n: nat)
    ensures PyInt(NatToDecimal(n)) == Some(n)
  {
    PyIntOfDigits(NatToDecimal(n));
    DecimalRoundTrip(n);
  }

  lemma PyIntOfDigits(d: string)
    requires d != [] && forall i :: 0 <= i < |d| ==> IsDigit(d[i])
    ensures PyInt(d) == Some(DigitsValue(d))
  {
    DigitNotSpace(d[0]);
    DigitNotSpace(d[|d| - 1]);
    PyIntTrimmed(d);
    SignedDigits(d);
  }

  lemma DigitNotSpace(c: char)
    requires IsDigit(c)
    ensures !PyIsSpace(c)
  {
  }

  lemma PyIntTrimmed(t: string)
    requires t != [] && !PyIsSpace(t[0]) && !PyIsSpace(t[|t| - 1])
    ensures PyInt(t) == PySigned(t)
  {
    PyStripKeeps(t);
  }

  lemma SignedDigits(d: string)
    requires d != [] && forall i :: 0 <= i < |d| ==> IsDigit(d[i])
    ensures PySigned(d) == Some(DigitsValue(d))
  {
    assert d[0] != '-' && d[0] != '+' && PyDigitGroups(d);
    assert DropUnderscores(d) == d;
  }

  /** Decimal text holds digits only, so none of the given separator. */
  lemma DecimalHasNo(n: nat, c: char)
    requires !IsDigit(c)
    ensures c !in NatToDecimal(n)
  {
    var d := NatToDecimal(n);
    forall i | 0 <= i < |d| ensures d[i] != c {
      assert IsDigit(d[i]);
    }
  }

  lemma {:induction false} TrimStartPrefix(pad: string, rest: string)
    requires forall i :: 0 <= i < |pad| ==> PyIsSpace(pad[i])
    requires rest != [] && !PyIsSpace(rest[0])
    ensures TrimStart(pad + rest, Python) == rest
  {
    if pad != [] {
      assert (pad + rest)[1..] == pad[1..] + rest;
      TrimStartPrefix(pad[1..], rest);
    }
  }

  lemma {:induction false} TrimEndSuffix(body: string, pad: string)
    requires forall i :: 0 <= i < |pad| ==> PyIsSpace(pad[i])
    requires body != [] && !PyIsSpace(body[|body| - 1])
    ensures TrimEnd(body + pad, Python) == body
  {
    if pad == [] {
      assert body + pad == body;
    } else {
      assert (body + pad)[..|body + pad| - 1] == body + pad[..|pad| - 1];
      TrimEndSuffix(body, pad[..|pad| - 1]);
    }
  }
}
