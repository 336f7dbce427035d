/**
 * The string operations the checker relies on, written out over
 * `seq<char>`: `String.prototype.trim`, `split` on one separator character,
 * `startsWith`, the search for a character that the line pattern performs,
 * and the ordering that stands in for `localeCompare`.
 */
module Text {

  import Wrappers

  /** ECMAScript LineTerminator: the characters a regular expression `.` does not match. */
  predicate IsLineTerminator(c: char) {
    c == '\n' || c == '\r' || c == '\U{2028}' || c == '\U{2029}'
  }

  /** ECMAScript WhiteSpace: tab, vertical tab, form feed, the byte-order mark and the space separators (Zs). */
  predicate IsWhiteSpace(c: char) {
    || c == '\t' || c == '\U{B}' || c == '\U{C}' || c == ' ' || c == '\U{A0}' || c == '\U{FEFF}'
    || c == '\U{1680}' || ('\U{2000}' <= c <= '\U{200A}') || c == '\U{202F}' || c == '\U{205F}'
    || c == '\U{3000}'
  }

  /** The characters `trim` removes from both ends. */
  predicate IsTrimmable(c: char) {
    IsWhiteSpace(c) || IsLineTerminator(c)
  }

  predicate AllTrimmable(s: string) {
    forall i :: 0 <= i < |s| ==> IsTrimmable(s[i])
  }

  /** The first index at or after `i` whose character is not trimmable, or `|s|`. */
  function SkipForward(s: string, i: nat): (n: nat)
    requires i <= |s|
    ensures i <= n <= |s|
    ensures forall j :: i <= j < n ==> IsTrimmable(s[j])
    ensures n < |s| ==> !IsTrimmable(s[n])
    decreases |s| - i
  {
    if i < |s| && IsTrimmable(s[i]) then SkipForward(s, i + 1) else i
  }

  /** The least index `n`, not below `lo`, from which `s[n..e]` is all trimmable. */
  function SkipBackward(s: string, lo: nat, e: nat): (n: nat)
    requires lo <= e <= |s|
    ensures lo <= n <= e
    ensures forall j :: n <= j < e ==> IsTrimmable(s[j])
    ensures n > lo ==> !IsTrimmable(s[n - 1])
    decreases e
  {
    if e > lo && IsTrimmable(s[e - 1]) then SkipBackward(s, lo, e - 1) else e
  }

  /**
   * `String.prototype.trim`: `s` without its leading and trailing trimmable
   * characters; every character cut off is trimmable and what is left neither
   * starts nor ends with one.
   */
  function Trim(s: string): (r: string)
    ensures |r| <= |s|
    ensures r == [] || (!IsTrimmable(r[0]) && !IsTrimmable(r[|r| - 1]))
    ensures r == [] ==> AllTrimmable(s)
    ensures exists a, b :: 0 <= a <= b <= |s| && r == s[a..b] && AllTrimmable(s[..a]) && AllTrimmable(s[b..])
  {
    var a := SkipForward(s, 0);
    var b := SkipBackward(s, a, |s|);
    assert AllTrimmable(s[..a]) by {
      assert forall j :: 0 <= j < a ==> s[..a][j] == s[j];
    }
    assert AllTrimmable(s[b..]) by {
      assert forall j :: 0 <= j < |s| - b ==> s[b..][j] == s[b + j];
    }
    s[a..b]
  }

  /** Trimming removes exactly the trimmable padding around a string that has no trimmable ends. */
  lemma TrimAround(a: string, s: string, b: string)
    requires AllTrimmable(a) && AllTrimmable(b)
    requires s == [] || (!IsTrimmable(s[0]) && !IsTrimmable(s[|s| - 1]))
    ensures Trim(a + s + b) == s
  {
    var x := a + s + b;
    assert forall j :: 0 <= j < |a| ==> x[j] == a[j];
    assert forall j :: |a| + |s| <= j < |x| ==> x[j] == b[j - |a| - |s|];
    if s == [] {
      assert AllTrimmable(x);
      assert SkipForward(x, 0) == |x|;
    } else {
      assert x[|a|] == s[0] && x[|a| + |s| - 1] == s[|s| - 1];
      assert SkipForward(x, 0) == |a|;
      assert SkipBackward(x, |a|, |x|) == |a| + |s|;
      assert x[|a|..|a| + |s|] == s;
    }
  }

  /** Trimming twice is the same as trimming once. */
  lemma TrimIdempotent(s: string)
    ensures Trim(Trim(s)) == Trim(s)
  {
    var r := Trim(s);
    TrimAround([], r, []);
    assert [] + r + [] == r;
  }

  /** `s.startsWith(p)`. */
  predicate StartsWith(s: string, p: string) {
    |p| <= |s| && s[..|p|] == p
  }

  /**
   * The index of the first occurrence of `c` in `s`, if any: where `[^=]+` in
   * the line pattern of src/index.js:21 must stop.
   */
  function IndexOf(s: string, c: char): (r: Wrappers.Option<nat>)
    ensures r.None? <==> c !in s
    ensures r.Some? ==> r.value < |s| && s[r.value] == c && c !in s[..r.value]
  {
    if s == [] then Wrappers.None
    else if s[0] == c then Wrappers.Some(0)
    else
      var rest := IndexOf(s[1..], c);
      match rest
      case None => Wrappers.None
      case Some(i) =>
        assert s[..i + 1] == [s[0]] + s[1..][..i];
        Wrappers.Some(i + 1)
  }

  /** `s.split(sep)`: the pieces between separators, at least one, none containing `sep`. */
  function Split(s: string, sep: char): (r: seq<string>)
    ensures |r| >= 1
    ensures forall i :: 0 <= i < |r| ==> sep !in r[i]
    ensures Join(r, sep) == s
  {
    if s == [] then [""]
    else
      var rest := Split(s[1..], sep);
      if s[0] == sep then
        assert s == [sep] + s[1..];
        [""] + rest
      else
        var r := [[s[0]] + rest[0]] + rest[1..];
        assert r[1..] == rest[1..];
        r
  }

  /** The pieces put back together with `sep` between them (`Array.prototype.join`). */
  function Join(pieces: seq<string>, sep: char): string
    requires |pieces| >= 1
  {
    if |pieces| == 1 then pieces[0]
    else pieces[0] + [sep] + Join(pieces[1..], sep)
  }

  /** Splitting a joined sequence of separator-free pieces gives the pieces back. */
  lemma {:induction false} SplitJoin(pieces: seq<string>, sep: char)
    requires |pieces| >= 1
    requires forall i :: 0 <= i < |pieces| ==> sep !in pieces[i]
    ensures Split(Join(pieces, sep), sep) == pieces
  {
    if |pieces| == 1 {
      SplitNoSeparator(pieces[0], sep);
    } else {
      SplitJoin(pieces[1..], sep);
      SplitPiece(pieces[0], Join(pieces[1..], sep), sep);
      assert [pieces[0]] + pieces[1..] == pieces;
    }
  }

  lemma {:induction false} SplitNoSeparator(p: string, sep: char)
    requires sep !in p
    ensures Split(p, sep) == [p]
  {
    if p != [] {
      SplitNoSeparator(p[1..], sep);
      assert [p[0]] + p[1..] == p;
    }
  }

  lemma {:induction false} SplitPiece(p: string, rest: string, sep: char)
    requires sep !in p
    ensures Split(p + [sep] + rest, sep) == [p] + Split(rest, sep)
  {
    if p == [] {
      assert p + [sep] + rest == [sep] + rest;
      assert ([sep] + rest)[1..] == rest;
    } else {
      assert (p + [sep] + rest)[1..] == p[1..] + [sep] + rest;
      SplitPiece(p[1..], rest, sep);
      assert [p[0]] + p[1..] == p;
    }
  }

  /** Strict lexicographic order by character code; a proper prefix comes first. */
  predicate LexLess(a: string, b: string) {
    if b == [] then false
    else if a == [] then true
    else if a[0] != b[0] then a[0] < b[0]
    else LexLess(a[1..], b[1..])
  }

  /** The three-way comparison that stands in for `localeCompare`. */
  function LexCompare(a: string, b: string): (r: int)
    ensures r < 0 <==> LexLess(a, b)
    ensures r == 0 <==> a == b
  {
    LexIrreflexive(a);
    if a == b then 0 else if LexLess(a, b) then -1 else 1
  }

  lemma {:induction false} LexIrreflexive(a: string)
    ensures !LexLess(a, a)
  {
    if a != [] {
      LexIrreflexive(a[1..]);
    }
  }

  /** Any two different strings are ordered one way. */
  lemma {:induction false} LexTotal(a: string, b: string)
    requires a != b
    ensures LexLess(a, b) || LexLess(b, a)
  {
    if a != [] && b != [] && a[0] == b[0] {
      assert a == [a[0]] + a[1..] && b == [b[0]] + b[1..];
      LexTotal(a[1..], b[1..]);
    }
  }

  /** No two strings are ordered both ways. */
  lemma {:induction false} LexAsymmetric(a: string, b: string)
    ensures !(LexLess(a, b) && LexLess(b, a))
  {
    if a != [] && b != [] && a[0] == b[0] {
      LexAsymmetric(a[1..], b[1..]);
    }
  }

  lemma {:induction false} LexTransitive(a: string, b: string, c: string)
    requires LexLess(a, b) && LexLess(b, c)
    ensures LexLess(a, c)
  {
    if a != [] && a[0] == b[0] && b[0] == c[0] {
      LexTransitive(a[1..], b[1..], c[1..]);
    }
  }
}
