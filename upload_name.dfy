/**
 * The file name an upload is stored under (`handle_files` in app.py): the
 * client's name is cut to its last path component, stripped of the
 * characters `\ / : * ? " < > |` and of surrounding whitespace, and a name
 * left blank (or `.`/`..`) is rebuilt from `splitext` and a millisecond
 * timestamp `file_<ms>`. Paths follow `posixpath`: the last path component
 * is the text after the last `/`.
 */
module UploadName {
  import opened Wrappers
  import opened Text

  /** The characters the upload handler removes from a name. */
  const Forbidden: string := "\\/:*?\"<>|"

  /** No character of `s` is one the handler removes. */
  predicate Clean(s: string) {
    forall i :: 0 <= i < |s| ==> s[i] !in Forbidden
  }

  /** `''.join(ch for ch in s if ch not in '\\/:*?"<>|')`. */
  function RemoveForbidden(s: string): (r: string)
    ensures Clean(r) && |r| <= |s|
    ensures forall c :: c in r ==> c in s
    ensures Clean(s) ==> r == s
  {
    if s == [] then []
    else
      var rest := RemoveForbidden(s[1..]);
      if s[0] in Forbidden then rest else [s[0]] + rest
  }

  /** `e.replace('.', '')`. */
  function RemoveDots(s: string): (r: string)
    ensures '.' !in r && |r| <= |s|
    ensures forall c :: c in r ==> c in s
  {
    if s == [] then [] else if s[0] == '.' then RemoveDots(s[1..]) else [s[0]] + RemoveDots(s[1..])
  }

  /** Only dots in `s` (the leading-dot part `splitext` does not treat as an extension). */
  predicate AllDots(s: string) {
    forall i :: 0 <= i < |s| ==> s[i] == '.'
  }

  /**
   * `posixpath.splitext` on a name without `/`: the extension starts at the
   * last dot, unless everything before that dot is dots.
   */
  function SplitExt(p: string): (r: (string, string))
    ensures r.0 + r.1 == p
    ensures r.1 == [] || (r.1[0] == '.' && '.' !in r.1[1..] && !AllDots(r.0))
  {
    var tail := AfterLast(p, '.');
    if |tail| == |p| then (p, [])
    else
      var k := |p| - |tail| - 1;
      if AllDots(p[..k]) then (p, [])
      else
        assert p[k..] == [p[k]] + tail;
        assert p[..k] + p[k..] == p;
        (p[..k], p[k..])
  }

  /** The cleaned last path component of the client's name. */
  function CleanBase(raw: string): (r: string)
    ensures Clean(r) && '/' !in r
  {
    RemoveForbidden(AfterLast(raw, '/'))
  }

  /** `s` is `.` or `..`. */
  predicate DotName(s: string) {
    1 <= |s| <= 2 && AllDots(s)
  }

  /** The cleaned name needs rebuilding: it strips to nothing, `.` or `..`. */
  predicate NeedsRebuild(base: string) {
    var s := PyStrip(base);
    s == [] || DotName(s)
  }

  /** The timestamp name `'file_' + ts`. */
  function Stamp(ms: nat): string {
    "file_" + NatToDecimal(ms)
  }

  /** `(b or 'file_' + ts).strip() or ('file_' + ts)`. */
  function SafeBase(b: string, ms: nat): string {
    var s := PyStrip(if b != [] then b else Stamp(ms));
    if s != [] then s else Stamp(ms)
  }

  /** `safe_base + ('.' + safe_ext if safe_ext else '')`. */
  function WithExt(safeBase: string, e: string): string {
    var ext := RemoveDots(e);
    safeBase + (if ext != [] then "." + ext else [])
  }

  /**
   * The stored name as the handler computes it; `None` for an empty client
   * name, which the handler skips.
   */
  function StoredName(raw: string, ms: nat): Option<string> {
    if raw == [] then None
    else
      var base := CleanBase(raw);
      if !NeedsRebuild(base) then Some(PyStrip(base))
      else
        var (b, e) := SplitExt(base);
        Some(WithExt(SafeBase(b, ms), e))
  }

  /** The name with `.` and `..` replaced as well: a stripped base equal to either becomes `file_<ms>`. */
  function StoredNameFixed(raw: string, ms: nat): Option<string> {
    if raw == [] then None
    else
      var base := CleanBase(raw);
      if !NeedsRebuild(base) then Some(PyStrip(base))
      else
        var (b, e) := SplitExt(base);
        var sb := SafeBase(b, ms);
        Some(WithExt(if DotName(sb) then Stamp(ms) else sb, e))
  }

  lemma StripClean(s: string)
    requires Clean(s)
    ensures Clean(PyStrip(s))
  {
    PyStripInside(s);
  }

  lemma StampClean(ms: nat)
    ensures Clean(Stamp(ms)) && Stamp(ms) != [] && !DotName(Stamp(ms))
  {
    var d := NatToDecimal(ms);
    forall i | 0 <= i < |Stamp(ms)| ensures Stamp(ms)[i] !in Forbidden {
      if i >= 5 {
        assert Stamp(ms)[i] == d[i - 5] && IsDigit(d[i - 5]);
      }
    }
  }

  lemma SafeBaseClean(b: string, ms: nat)
    requires Clean(b)
    ensures Clean(SafeBase(b, ms)) && SafeBase(b, ms) != []
  {
    StampClean(ms);
    StripClean(if b != [] then b else Stamp(ms));
  }

  lemma WithExtClean(sb: string, e: string)
    requires Clean(sb) && Clean(e) && sb != []
    ensures Clean(WithExt(sb, e)) && WithExt(sb, e) != []
  {
    var ext := RemoveDots(e);
    forall i | 0 <= i < |ext| ensures ext[i] !in Forbidden {
      assert ext[i] in ext;
    }
  }

  lemma SplitExtClean(p: string)
    requires Clean(p)
    ensures Clean(SplitExt(p).0) && Clean(SplitExt(p).1)
  {
    var (b, e) := SplitExt(p);
    forall i | 0 <= i < |b| ensures b[i] !in Forbidden {
      assert b[i] == p[i];
    }
    forall i | 0 <= i < |e| ensures e[i] !in Forbidden {
      assert e[i] == p[|b| + i];
    }
  }

  /** Every stored name is non-empty and holds none of the removed characters (so no `/` either). */
  lemma {:induction false} StoredNameIsSafe(raw: string, ms: nat)
    requires raw != []
    ensures StoredName(raw, ms).Some?
    ensures Clean(StoredName(raw, ms).value) && StoredName(raw, ms).value != []
  {
    var base := CleanBase(raw);
    if !NeedsRebuild(base) {
      StripClean(base);
    } else {
      SplitExtClean(base);
      var (b, e) := SplitExt(base);
      SafeBaseClean(b, ms);
      WithExtClean(SafeBase(b, ms), e);
    }
  }

  /** A name that is already clean, has no surrounding whitespace and is not `.`/`..` is kept as it is. */
  lemma CleanNameKept(raw: string, ms: nat)
    requires raw != [] && Clean(raw) && PyStrip(raw) == raw && raw != "." && raw != ".."
    ensures StoredName(raw, ms) == Some(raw)
  {
    assert '/' in Forbidden;
    AfterLastAbsent(raw, '/');
  }

  /** What a rebuilt name is made of. */
  lemma Rebuilt(raw: string, ms: nat)
    requires raw != [] && NeedsRebuild(CleanBase(raw))
    ensures var p := SplitExt(CleanBase(raw));
      StoredName(raw, ms) == Some(WithExt(SafeBase(p.0, ms), p.1))
  {
  }

  lemma RebuiltFixed(raw: string, ms: nat)
    requires raw != [] && NeedsRebuild(CleanBase(raw))
    ensures var p := SplitExt(CleanBase(raw)); var sb := SafeBase(p.0, ms);
      StoredNameFixed(raw, ms) == Some(WithExt(if DotName(sb) then Stamp(ms) else sb, p.1))
  {
  }

  lemma StampStripped(ms: nat)
    ensures PyStrip(Stamp(ms)) == Stamp(ms)
  {
    var st := Stamp(ms);
    var d := NatToDecimal(ms);
    assert st[0] == 'f' && !PyIsSpace(st[0]);
    assert st[|st| - 1] == d[|d| - 1] && IsDigit(d[|d| - 1]);
    assert TrimStart(st, Python) == st;
  }

  lemma SplitExtAllDots(p: string)
    requires AllDots(p)
    ensures SplitExt(p) == (p, [])
  {
    if p != [] {
      assert p[|p| - 1] == '.';
      assert AfterLast(p, '.') == [];
      assert AllDots(p[..|p| - 1]);
    }
  }

  lemma SplitExtNoDot(p: string)
    requires '.' !in p
    ensures SplitExt(p) == (p, [])
  {
    AfterLastAbsent(p, '.');
  }

  lemma SafeBaseOfBlank(b: string, ms: nat)
    requires PyStrip(b) == []
    ensures SafeBase(b, ms) == Stamp(ms)
  {
    if b == [] {
      StampStripped(ms);
    }
  }

  /** A name that is blank once cleaned and stripped is stored as `file_<ms>`. */
  lemma BlankNameStamped(raw: string, ms: nat)
    requires raw != [] && PyStrip(CleanBase(raw)) == []
    ensures StoredName(raw, ms) == Some(Stamp(ms))
  {
    var base := CleanBase(raw);
    PyStripEmpty(base);
    forall i | 0 <= i < |base| ensures base[i] != '.' {
      assert PyIsSpace(base[i]);
    }
    SplitExtNoDot(base);
    Rebuilt(raw, ms);
    SafeBaseOfBlank(base, ms);
    assert RemoveDots([]) == [];
    assert WithExt(Stamp(ms), []) == Stamp(ms);
  }

  /** A name made of dots only passes cleaning, stripping and `splitext` unchanged. */
  lemma DotsOnlyName(d: string)
    requires DotName(d)
    ensures CleanBase(d) == d && PyStrip(d) == d && SplitExt(d) == (d, [])
  {
    assert '.' !in Forbidden && !PyIsSpace('.');
    assert '/' !in d;
    AfterLastAbsent(d, '/');
    PyStripKeeps(d);
    SplitExtAllDots(d);
  }

  /** `DotName` holds of exactly `.` and `..`. */
  lemma DotNames(d: string)
    ensures DotName(d) <==> d == "." || d == ".."
  {
    if d == "." || d == ".." {
      assert |d| <= 2 && d[0] == '.' && d[|d| - 1] == '.';
    }
    if DotName(d) {
      if |d| == 1 {
        assert d == [d[0]];
      } else {
        assert d == [d[0], d[1]];
      }
    }
  }

  /** As written, a lone `.` or `..` is not replaced: `splitext` keeps it as the base, which strips to itself. */
  lemma DotNamesSurvive(d: string, ms: nat)
    requires DotName(d)
    ensures StoredName(d, ms) == Some(d)
  {
    DotsOnlyName(d);
    Rebuilt(d, ms);
    assert SafeBase(d, ms) == d;
    assert RemoveDots([]) == [];
    assert WithExt(d, []) == d;
  }

  /** With the replacement in place, `.` and `..` are stored as `file_<ms>`. */
  lemma FixedDotNames(d: string, ms: nat)
    requires DotName(d)
    ensures StoredNameFixed(d, ms) == Some(Stamp(ms))
  {
    DotsOnlyName(d);
    RebuiltFixed(d, ms);
    var p := SplitExt(CleanBase(d));
    assert p == (d, []);
    var sb := SafeBase(p.0, ms);
    assert sb == d;
    WithNoExt(Stamp(ms));
  }

  lemma WithNoExt(sb: string)
    ensures WithExt(sb, []) == sb
  {
    assert RemoveDots([]) == [];
  }

  /** With the replacement in place, no stored name is empty, `.` or `..`, and none holds a removed character. */
  lemma {:induction false} FixedNameIsSafe(raw: string, ms: nat)
    requires raw != []
    ensures StoredNameFixed(raw, ms).Some?
    ensures var n := StoredNameFixed(raw, ms).value; Clean(n) && n != [] && !DotName(n)
  {
    var base := CleanBase(raw);
    if !NeedsRebuild(base) {
      StripClean(base);
    } else {
      RebuiltFixed(raw, ms);
      SplitExtClean(base);
      var p := SplitExt(base);
      SafeBaseClean(p.0, ms);
      RebuiltIsSafe(SafeBase(p.0, ms), p.1, ms);
    }
  }

  /** A clean, non-empty base with `.`/`..` replaced, and a clean extension, make a safe name. */
  lemma RebuiltIsSafe(sb: string, e: string, ms: nat)
    requires Clean(sb) && Clean(e) && sb != []
    ensures var n := WithExt(if DotName(sb) then Stamp(ms) else sb, e); Clean(n) && n != [] && !DotName(n)
  {
    StampClean(ms);
    var sb' := if DotName(sb) then Stamp(ms) else sb;
    WithExtClean(sb', e);
    var n := WithExt(sb', e);
    if RemoveDots(e) != [] {
      assert |n| >= 3;
    } else {
      assert n == sb';
    }
  }
}
