/**
 * The slice of Python's `str` semantics the document processor and the
 * upload handlers rely on: whitespace
 * stripping, substring search (`in`, `find`, `rfind` with slice bounds),
 * slicing with negative indices, `split`, `replace`, `startswith`,
 * `endswith` and ASCII `lower`.
 */
module PyStrings {

  /** The characters for which Python's `str.isspace()` holds, and so the
      ones a bare `str.strip()` removes. */
  predicate IsSpace(c: char) {
    || c == ' ' || ('\t' <= c <= '\r')
    || ('\U{1C}' <= c <= '\U{1F}')
    || c == '\U{85}' || c == '\U{A0}' || c == '\U{1680}'
    || ('\U{2000}' <= c <= '\U{200A}')
    || c == '\U{2028}' || c == '\U{2029}' || c == '\U{202F}'
    || c == '\U{205F}' || c == '\U{3000}'
  }

  /** The character sets `strip` is used with: Python whitespace (bare
      `strip()`) or one given character (`strip('"')`). */
  datatype CharClass = Whitespace | Only(c: char)

  predicate InClass(c: char, cls: CharClass) {
    match cls
    case Whitespace => IsSpace(c)
    case Only(d) => c == d
  }

  predicate AllWhere(s: string, cls: CharClass) {
    forall i :: 0 <= i < |s| ==> InClass(s[i], cls)
  }

  /** `s.strip(chars)` for the characters of class `drop`: leading
      characters of the class are removed, then trailing ones. */
  function StripBy(s: string, drop: CharClass): (r: string)
    ensures |r| <= |s|
    ensures r != [] ==> !InClass(r[0], drop) && !InClass(r[|r| - 1], drop)
    decreases |s|
  {
    if |s| > 0 && InClass(s[0], drop) then StripBy(s[1..], drop)
    else if |s| > 0 && InClass(s[|s| - 1], drop) then StripBy(s[..|s| - 1], drop)
    else s
  }

  /** `r` is the span `s[a..b]` and everything outside it is in `drop`. */
  predicate StripsTo(s: string, r: string, a: int, drop: CharClass) {
    && 0 <= a <= |s| - |r| && r == s[a..a + |r|]
    && AllWhere(s[..a], drop) && AllWhere(s[a + |r|..], drop)
  }

  /** What stripping leaves: the span of `s` between a leading and a
      trailing run of `drop`, with neither end in `drop`; nothing at all
      exactly when every character is in `drop`. */
  lemma {:induction false} StripByShape(s: string, drop: CharClass)
    ensures exists a :: StripsTo(s, StripBy(s, drop), a, drop)
    ensures StripBy(s, drop) == [] <==> AllWhere(s, drop)
    decreases |s|
  {
    var r := StripBy(s, drop);
    if |s| > 0 && InClass(s[0], drop) {
      StripByShape(s[1..], drop);
      var a :| StripsTo(s[1..], r, a, drop);
      ShapeAfterFirst(s, r, a, drop);
    } else if |s| > 0 && InClass(s[|s| - 1], drop) {
      StripByShape(s[..|s| - 1], drop);
      var a :| StripsTo(s[..|s| - 1], r, a, drop);
      ShapeBeforeLast(s, r, a, drop);
    } else {
      assert StripsTo(s, r, 0, drop);
    }
  }

  lemma ShapeAfterFirst(s: string, r: string, a: int, drop: CharClass)
    requires |s| > 0 && InClass(s[0], drop)
    requires StripsTo(s[1..], r, a, drop)
    requires r == [] <==> AllWhere(s[1..], drop)
    ensures StripsTo(s, r, a + 1, drop)
    ensures r == [] <==> AllWhere(s, drop)
  {
    var t := s[1..];
    assert s[a + 1..a + 1 + |r|] == t[a..a + |r|];
    assert s[a + 1 + |r|..] == t[a + |r|..];
    assert s[..a + 1] == [s[0]] + t[..a];
    if AllWhere(s, drop) {
      assert forall i :: 0 <= i < |t| ==> t[i] == s[i + 1];
    }
  }

  lemma ShapeBeforeLast(s: string, r: string, a: int, drop: CharClass)
    requires |s| > 0 && InClass(s[|s| - 1], drop)
    requires StripsTo(s[..|s| - 1], r, a, drop)
    requires r == [] <==> AllWhere(s[..|s| - 1], drop)
    ensures StripsTo(s, r, a, drop)
    ensures r == [] <==> AllWhere(s, drop)
  {
    var t := s[..|s| - 1];
    assert s[a..a + |r|] == t[a..a + |r|];
    assert s[..a] == t[..a];
    assert s == t + [s[|s| - 1]];
    DropAppend(t, s[|s| - 1], a + |r|);
    if AllWhere(s, drop) {
      assert forall i :: 0 <= i < |t| ==> t[i] == s[i];
    }
  }

  /** Dropping a prefix commutes with appending a character. */
  lemma DropAppend(t: string, c: char, m: int)
    requires 0 <= m <= |t|
    ensures (t + [c])[m..] == t[m..] + [c]
  {
  }

  /** Python's `str.strip()` with no argument. */
  function Strip(s: string): (r: string)
    ensures |r| <= |s|
    ensures r != [] ==> !IsSpace(r[0]) && !IsSpace(r[|r| - 1])
  {
    StripBy(s, Whitespace)
  }

  /** `sub` occurs in `s` starting at index `i`. */
  predicate IsAt(s: string, sub: string, i: int) {
    0 <= i && i + |sub| <= |s| && s[i..i + |sub|] == sub
  }

  /** Python's `sub in s`. */
  predicate Contains(s: string, sub: string) {
    exists k :: 0 <= k <= |s| && IsAt(s, sub, k)
  }

  /** The first index at or after `i` where `sub` occurs, or -1. */
  function FindFrom(s: string, sub: string, i: nat): (r: int)
    ensures r == -1 || (i <= r && IsAt(s, sub, r))
    ensures r == -1 <==> forall k :: i <= k ==> !IsAt(s, sub, k)
    ensures r >= 0 ==> forall k :: i <= k < r ==> !IsAt(s, sub, k)
    decreases |s| - i
  {
    if i + |sub| > |s| then -1
    else if IsAt(s, sub, i) then i
    else FindFrom(s, sub, i + 1)
  }

  /** Python's `s.find(sub)`. */
  function Find(s: string, sub: string): (r: int)
    ensures r >= 0 <==> Contains(s, sub)
    ensures r >= 0 ==> IsAt(s, sub, r) && forall k :: 0 <= k < r ==> !IsAt(s, sub, k)
  {
    FindFrom(s, sub, 0)
  }

  /** How Python reads a slice bound `i` against a string of length `n`:
      a negative bound counts from the end, and the result is clamped to
      `[0, n]`. */
  function NormIndex(i: int, n: nat): (k: nat)
    ensures k <= n
  {
    if i < 0 then (if i + n < 0 then 0 else i + n)
    else if i > n then n
    else i
  }

  /** Python's `s[lo:hi]`: the characters from the normalised `lo` up to
      the normalised `hi`, none when that range is empty. In-range bounds
      slice as written. */
  function Slice(s: string, lo: int, hi: int): (r: string)
    ensures |r| <= |s|
    ensures |r| == if NormIndex(lo, |s|) < NormIndex(hi, |s|) then NormIndex(hi, |s|) - NormIndex(lo, |s|) else 0
    ensures forall k :: 0 <= k < |r| ==> r[k] == s[NormIndex(lo, |s|) + k]
    ensures 0 <= lo <= hi <= |s| ==> r == s[lo..hi]
  {
    var a := NormIndex(lo, |s|);
    var b := NormIndex(hi, |s|);
    if a < b then s[a..b] else []
  }

  /** A negative bound counts from the end of the text, and a bound past
      the end is the end. */
  lemma SliceFromEnd(s: string, lo: int, hi: int)
    ensures -|s| <= lo < 0 ==> Slice(s, lo, hi) == Slice(s, lo + |s|, hi)
    ensures -|s| <= hi < 0 ==> Slice(s, lo, hi) == Slice(s, lo, hi + |s|)
    ensures hi > |s| ==> Slice(s, lo, hi) == Slice(s, lo, |s|)
  {
  }

  /** The largest `i` in `[lo, i]` (scanning down from `i`) where `sub`
      occurs, or -1. */
  function RFindDown(s: string, sub: string, lo: nat, i: int): (r: int)
    requires i + |sub| <= |s|
    ensures r == -1 || (lo <= r <= i && IsAt(s, sub, r))
    decreases i - lo
  {
    if i < lo then -1
    else if IsAt(s, sub, i) then i
    else RFindDown(s, sub, lo, i - 1)
  }

  /** The downward scan misses nothing: -1 means no occurrence in
      `[lo, i]`, and a hit is the last occurrence there. */
  lemma {:induction false} RFindDownMisses(s: string, sub: string, lo: nat, i: int)
    requires i + |sub| <= |s|
    ensures RFindDown(s, sub, lo, i) == -1 ==> forall k :: lo <= k <= i ==> !IsAt(s, sub, k)
    ensures RFindDown(s, sub, lo, i) >= 0 ==> forall k :: RFindDown(s, sub, lo, i) < k <= i ==> !IsAt(s, sub, k)
    decreases i - lo
  {
    if i >= lo && !IsAt(s, sub, i) {
      RFindDownMisses(s, sub, lo, i - 1);
    }
  }

  /** Python's `s.rfind(sub, lo, hi)` for a non-empty `sub`: the largest
      `i` with `lo' <= i` and `i + |sub| <= hi'`, where `lo'` and `hi'`
      are the bounds read as slice indices, at which `sub` occurs; -1 if
      none. `RFindMisses` states that nothing is missed. For an empty
      `sub` and `lo` past the end Python returns -1 where this returns
      `|s|`; the segmenter never searches for an empty pattern. */
  function RFind(s: string, sub: string, lo: int, hi: int): (r: int)
    ensures r == -1 || (NormIndex(lo, |s|) <= r && r + |sub| <= NormIndex(hi, |s|) && IsAt(s, sub, r))
  {
    RFindDown(s, sub, NormIndex(lo, |s|), NormIndex(hi, |s|) - |sub|)
  }

  /** `rfind` reports -1 only when there is no occurrence in the
      normalised range, and otherwise the last one. */
  lemma RFindMisses(s: string, sub: string, lo: int, hi: int)
    ensures var r := RFind(s, sub, lo, hi);
      && (r == -1 ==> forall k :: NormIndex(lo, |s|) <= k && k + |sub| <= NormIndex(hi, |s|) ==> !IsAt(s, sub, k))
      && (r >= 0 ==> forall k :: r < k && k + |sub| <= NormIndex(hi, |s|) ==> !IsAt(s, sub, k))
  {
    RFindDownMisses(s, sub, NormIndex(lo, |s|), NormIndex(hi, |s|) - |sub|);
  }

  /** Python's `s.startswith(p)`. */
  predicate StartsWith(s: string, p: string) {
    |p| <= |s| && s[..|p|] == p
  }

  /** Python's `s.endswith(q)`. */
  predicate EndsWith(s: string, q: string) {
    |q| <= |s| && s[|s| - |q|..] == q
  }

  /** Python's `sep.join(pieces)`. */
  function Join(pieces: seq<string>, sep: string): string {
    if |pieces| == 0 then []
    else if |pieces| == 1 then pieces[0]
    else pieces[0] + sep + Join(pieces[1..], sep)
  }

  /** Python's `s.split(sep)` for a non-empty separator. */
  function Split(s: string, sep: string): (r: seq<string>)
    requires sep != []
    ensures |r| >= 1
    ensures |r| >= 2 <==> Contains(s, sep)
    ensures forall k :: 0 <= k < |r| ==> !Contains(r[k], sep)
    ensures Join(r, sep) == s
    decreases |s|
  {
    var i := Find(s, sep);
    if i < 0 then [s]
    else
      PrefixBeforeFirstIsClean(s, sep, i);
      var rest := Split(s[i + |sep|..], sep);
      assert s == s[..i] + sep + s[i + |sep|..];
      [s[..i]] + rest
  }

  /** Without the separator, `split` returns the string itself. */
  lemma SplitNoSep(s: string, sep: string)
    requires sep != [] && !Contains(s, sep)
    ensures Split(s, sep) == [s]
  {
    var r := Split(s, sep);
    assert |r| == 1;
    assert Join(r, sep) == r[0];
  }

  /** Python's `s.split(sep)[-1]`: the piece after the last separator. */
  function LastPiece(s: string, sep: string): (r: string)
    requires sep != []
    ensures !Contains(r, sep)
  {
    Last(Split(s, sep))
  }

  /** The last element of a non-empty sequence (Python's `xs[-1]`). */
  function Last<T>(xs: seq<T>): T
    requires xs != []
  {
    xs[|xs| - 1]
  }

  lemma LastOfCons<T>(h: T, rest: seq<T>)
    requires rest != []
    ensures Last([h] + rest) == Last(rest)
  {
  }

  /** For a one-character separator, the last piece of `s + sep + t` is
      `t` when `t` holds no separator. */
  lemma SplitLast(s: string, sep: string, t: string)
    requires |sep| == 1 && !Contains(t, sep)
    ensures LastPiece(s + sep + t, sep) == t
  {
    var u := s + sep + t;
    assert u[|s|..|s| + 1] == sep;
    assert u[|s| + 1..] == t;
    LastPieceFrom(u, sep, |s|);
  }

  /** Once the separator occurs, the last piece is the last piece of what
      follows its first occurrence. */
  lemma LastPieceAfterFirst(u: string, sep: string)
    requires sep != [] && Find(u, sep) >= 0
    ensures LastPiece(u, sep) == LastPiece(u[Find(u, sep) + |sep|..], sep)
  {
    var i := Find(u, sep);
    SplitUnfold(u, sep);
    LastOfCons(u[..i], Split(u[i + |sep|..], sep));
  }

  /** `split` at an occurrence: the piece before the first one, then the
      pieces of the rest. */
  lemma SplitUnfold(u: string, sep: string)
    requires sep != [] && Find(u, sep) >= 0
    ensures Split(u, sep) == [u[..Find(u, sep)]] + Split(u[Find(u, sep) + |sep|..], sep)
  {
  }


  /** The last piece starts right after a separator with none after it. */
  lemma {:induction false} LastPieceFrom(u: string, sep: string, j: nat)
    requires |sep| == 1 && IsAt(u, sep, j) && !Contains(u[j + 1..], sep)
    ensures LastPiece(u, sep) == u[j + 1..]
    decreases |u|
  {
    var i := Find(u, sep);
    assert 0 <= i <= j;
    LastPieceAfterFirst(u, sep);
    assert u[i + |sep|..] == u[i + 1..];
    if i == j {
      SplitNoSep(u[j + 1..], sep);
    } else {
      var v := u[i + 1..];
      assert v[j - i - 1..j - i] == u[j..j + 1];
      assert v[j - i..] == u[j + 1..];
      LastPieceFrom(v, sep, j - i - 1);
    }
  }

  /** When no occurrence of `sep` in `a + sep` starts inside `a`,
      splitting `a + sep + t` gives `a` and then the pieces of `t`. */
  lemma SplitAfterFirst(a: string, sep: string, t: string)
    requires sep != [] && forall k :: 0 <= k < |a| ==> !IsAt(a + sep, sep, k)
    ensures |Split(a + sep + t, sep)| >= 2
    ensures Split(a + sep + t, sep)[0] == a
    ensures Split(a + sep + t, sep)[1..] == Split(t, sep)
  {
    var u := a + sep + t;
    assert u[|a|..|a| + |sep|] == sep;
    assert IsAt(u, sep, |a|);
    forall k | 0 <= k < |a| ensures !IsAt(u, sep, k) {
      if IsAt(u, sep, k) {
        assert (a + sep)[k..k + |sep|] == u[k..k + |sep|];
        assert IsAt(a + sep, sep, k);
      }
    }
    assert Find(u, sep) == |a|;
    assert u[|a| + |sep|..] == t;
    assert u[..|a|] == a;
  }

  /** A prefix of a string without `sub` has no `sub` either. */
  lemma PrefixAvoids(s: string, p: string, sub: string)
    requires |p| <= |s| && p == s[..|p|] && !Contains(s, sub)
    ensures !Contains(p, sub)
  {
    forall k | 0 <= k <= |p| && IsAt(p, sub, k) ensures IsAt(s, sub, k) {
      assert s[k..k + |sub|] == p[k..k + |sub|];
    }
  }

  /** The first piece of a split is the prefix up to the first separator,
      or the whole string. */
  lemma SplitHeadShape(s: string, sep: string)
    requires sep != []
    ensures var h := Split(s, sep)[0];
      && |h| <= |s| && h == s[..|h|]
      && (|h| == |s| || IsAt(s, sep, |h|))
      && forall k :: 0 <= k < |h| ==> !IsAt(s, sep, k)
  {
    var i := Find(s, sep);
    if i < 0 {
      assert Split(s, sep)[0] == s;
      forall k | 0 <= k < |s| ensures !IsAt(s, sep, k) {
        if IsAt(s, sep, k) { assert Contains(s, sep); }
      }
    }
  }

  /** A string with no `c` in it holds no occurrence of `[c]`, and no
      `[c]` in `a + [c]` starts inside `a`. */
  lemma NoCharBefore(a: string, c: char)
    requires forall i :: 0 <= i < |a| ==> a[i] != c
    ensures !Contains(a, [c])
    ensures forall k :: 0 <= k < |a| ==> !IsAt(a + [c], [c], k)
  {
    forall k | 0 <= k < |a| ensures !IsAt(a, [c], k) {
      assert a[k..k + 1][0] == a[k];
    }
    var u := a + [c];
    forall k | 0 <= k < |a| ensures !IsAt(u, [c], k) {
      assert u[k..k + 1][0] == a[k];
    }
  }

  /** `s.strip(q)` of a string wrapped in `q` characters whose own ends
      are not `q` is that string. */
  lemma StripWrapped(c: char, w: string)
    requires w == [] || (w[0] != c && w[|w| - 1] != c)
    ensures StripBy([c] + w + [c], Only(c)) == w
  {
    var s := [c] + w + [c];
    assert s[1..] == w + [c];
    assert (w + [c])[..|w|] == w;
    if w == [] {
      assert StripBy([c], Only(c)) == StripBy([], Only(c));
    } else {
      assert StripBy(w, Only(c)) == w;
    }
  }

  /** The part of `s` before the first occurrence of `sep` does not contain `sep`. */
  lemma PrefixBeforeFirstIsClean(s: string, sep: string, i: nat)
    requires sep != [] && i <= |s|
    requires forall k :: 0 <= k < i ==> !IsAt(s, sep, k)
    ensures !Contains(s[..i], sep)
  {
    forall k | 0 <= k <= i && IsAt(s[..i], sep, k)
      ensures false
    {
      assert s[..i][k..k + |sep|] == s[k..k + |sep|];
      assert IsAt(s, sep, k);
    }
  }

  /** Python's `s.replace(old, new)`: every non-overlapping occurrence of
      `pat`, found left to right, is replaced by `rep`. */
  function ReplaceAll(s: string, pat: string, rep: string): (r: string)
    requires pat != []
    ensures !Contains(s, pat) ==> r == s
    ensures Contains(s, pat) ==> Contains(r, rep)
    decreases |s|
  {
    if |s| < |pat| then
      s
    else if s[..|pat|] == pat then
      var r := rep + ReplaceAll(s[|pat|..], pat, rep);
      assert IsAt(s, pat, 0);
      assert IsAt(r, rep, 0);
      r
    else
      var tail := ReplaceAll(s[1..], pat, rep);
      assert !IsAt(s, pat, 0);
      ContainsTail(s, pat);
      ContainsUnderPrefix([s[0]], tail, rep);
      assert s == [s[0]] + s[1..];
      [s[0]] + tail
  }

  /** An occurrence in `s` that is not at index 0 is an occurrence in `s[1..]`. */
  lemma ContainsTail(s: string, sub: string)
    requires |s| > 0 && !IsAt(s, sub, 0)
    ensures Contains(s, sub) <==> Contains(s[1..], sub)
  {
    if Contains(s, sub) {
      var k :| 0 <= k <= |s| && IsAt(s, sub, k);
      assert s[1..][k - 1..k - 1 + |sub|] == s[k..k + |sub|];
      assert IsAt(s[1..], sub, k - 1);
    }
    if Contains(s[1..], sub) {
      var k :| 0 <= k <= |s[1..]| && IsAt(s[1..], sub, k);
      assert s[1..][k..k + |sub|] == s[k + 1..k + 1 + |sub|];
      assert IsAt(s, sub, k + 1);
    }
  }

  /** An occurrence of `sub` needs its first character: a prefix without
      that character starts no occurrence. */
  lemma NoStartIn(a: string, b: string, sub: string)
    requires sub != [] && forall i :: 0 <= i < |a| ==> a[i] != sub[0]
    ensures forall k :: 0 <= k < |a| ==> !IsAt(a + b, sub, k)
  {
    forall k | 0 <= k < |a| ensures !IsAt(a + b, sub, k) {
      if k + |sub| <= |a + b| {
        assert (a + b)[k..k + |sub|][0] == a[k];
      }
    }
  }

  /** Where no occurrence starts at index 0, `replace` keeps the first
      character and carries on with the rest. */
  lemma ReplaceSkipsFirst(s: string, pat: string, rep: string)
    requires pat != [] && s != [] && !IsAt(s, pat, 0)
    ensures ReplaceAll(s, pat, rep) == [s[0]] + ReplaceAll(s[1..], pat, rep)
  {
    if |s| < |pat| {
      assert !Contains(s[1..], pat);
      assert s == [s[0]] + s[1..];
    }
  }

  /** A clean prefix stays clean when its first character moves out. */
  lemma CleanShift(a: string, b: string, pat: string)
    requires a != [] && forall k :: 0 <= k < |a| ==> !IsAt(a + b, pat, k)
    ensures forall k :: 0 <= k < |a| - 1 ==> !IsAt(a[1..] + b, pat, k)
  {
    var s := a + b;
    assert s[1..] == a[1..] + b;
    forall k | 0 <= k < |a| - 1 ensures !IsAt(a[1..] + b, pat, k) {
      if k + |pat| <= |s| - 1 {
        assert (a[1..] + b)[k..k + |pat|] == s[k + 1..k + 1 + |pat|];
      }
      assert !IsAt(s, pat, k + 1);
    }
  }

  /** `replace` copies a prefix in which no occurrence starts. */
  lemma {:induction false} ReplaceAfterClean(a: string, b: string, pat: string, rep: string)
    requires pat != [] && forall k :: 0 <= k < |a| ==> !IsAt(a + b, pat, k)
    ensures ReplaceAll(a + b, pat, rep) == a + ReplaceAll(b, pat, rep)
    decreases |a|
  {
    if a == [] {
      assert a + b == b;
    } else {
      var s := a + b;
      assert ReplaceAll(s, pat, rep) == [a[0]] + ReplaceAll(a[1..] + b, pat, rep) by {
        assert !IsAt(s, pat, 0);
        ReplaceSkipsFirst(s, pat, rep);
        assert s[0] == a[0] && s[1..] == a[1..] + b;
      }
      assert ReplaceAll(a[1..] + b, pat, rep) == a[1..] + ReplaceAll(b, pat, rep) by {
        CleanShift(a, b, pat);
        ReplaceAfterClean(a[1..], b, pat, rep);
      }
      Recombine(a, ReplaceAll(s, pat, rep), ReplaceAll(a[1..] + b, pat, rep), ReplaceAll(b, pat, rep));
    }
  }

  /** Putting a first character back in front. */
  lemma Recombine(a: string, x: string, y: string, z: string)
    requires a != [] && x == [a[0]] + y && y == a[1..] + z
    ensures x == a + z
  {
    assert a == [a[0]] + a[1..];
  }

  /** `replace` on a string that starts with the pattern and has no
      other occurrence replaces just that one. */
  lemma ReplaceAtFront(pat: string, rest: string, rep: string)
    requires pat != [] && !Contains(rest, pat)
    ensures ReplaceAll(pat + rest, pat, rep) == rep + rest
  {
    var s := pat + rest;
    assert s[..|pat|] == pat;
    assert s[|pat|..] == rest;
  }

  /** When no occurrence starts inside `a`, the occurrences in `a + b` are
      those of `b`. */
  lemma ContainsPastPrefix(a: string, b: string, sub: string)
    requires forall k :: 0 <= k < |a| ==> !IsAt(a + b, sub, k)
    ensures Contains(a + b, sub) <==> Contains(b, sub)
  {
    ContainsUnderPrefix(a, b, sub);
    if Contains(a + b, sub) {
      var k :| 0 <= k <= |a + b| && IsAt(a + b, sub, k);
      assert (a + b)[k..k + |sub|] == b[k - |a|..k - |a| + |sub|];
      assert IsAt(b, sub, k - |a|);
    }
  }

  /** Appending text shorter than `sub` whose first character is not in
      `sub` creates no occurrence of `sub`. */
  lemma NoNewOccurrence(p: string, q: string, sub: string)
    requires !Contains(p, sub) && q != [] && |q| < |sub|
    requires forall i :: 0 <= i < |sub| ==> sub[i] != q[0]
    ensures !Contains(p + q, sub)
  {
    var s := p + q;
    forall k | 0 <= k <= |s| ensures !IsAt(s, sub, k) {
      if k + |sub| <= |p| {
        assert s[k..k + |sub|] == p[k..k + |sub|];
        assert !IsAt(p, sub, k);
      } else if k + |sub| <= |s| {
        assert s[k..k + |sub|][|p| - k] == q[0];
      }
    }
  }

  /** A string holding `sub` holds every part of `sub`. */
  lemma ContainsPart(s: string, sub: string, i: nat, j: nat)
    requires i <= j <= |sub| && Contains(s, sub)
    ensures Contains(s, sub[i..j])
  {
    var k :| 0 <= k <= |s| && IsAt(s, sub, k);
    var w := s[k..k + |sub|];
    assert w == sub;
    forall t | 0 <= t < j - i ensures s[k + i..k + j][t] == sub[i..j][t] {
      assert s[k + i..k + j][t] == w[i + t];
    }
    assert s[k + i..k + j] == sub[i..j];
    assert IsAt(s, sub[i..j], k + i);
  }

  /** `replace` on `pre + pat + rest`, where the pattern's first
      character is not in `pre` and `rest` has no occurrence, replaces
      exactly that one occurrence. */
  lemma ReplaceOnly(pre: string, pat: string, rest: string, rep: string)
    requires pat != [] && !Contains(rest, pat)
    requires forall i :: 0 <= i < |pre| ==> pre[i] != pat[0]
    ensures Contains(pre + pat + rest, pat)
    ensures ReplaceAll(pre + pat + rest, pat, rep) == pre + rep + rest
  {
    var s := pre + pat + rest;
    assert s[|pre|..|pre| + |pat|] == pat;
    assert IsAt(s, pat, |pre|);
    assert s == pre + (pat + rest);
    NoStartIn(pre, pat + rest, pat);
    ReplaceAfterClean(pre, pat + rest, pat, rep);
    ReplaceAtFront(pat, rest, rep);
  }

  /** Putting text in front of a string keeps its occurrences. */
  lemma ContainsUnderPrefix(p: string, t: string, sub: string)
    ensures Contains(t, sub) ==> Contains(p + t, sub)
  {
    if !Contains(t, sub) { return; }
    var k :| 0 <= k <= |t| && IsAt(t, sub, k);
    assert (p + t)[|p| + k..|p| + k + |sub|] == t[k..k + |sub|];
    assert IsAt(p + t, sub, |p| + k);
  }

  /** Putting text after a string keeps its occurrences. */
  lemma ContainsUnderSuffix(t: string, q: string, sub: string)
    ensures Contains(t, sub) ==> Contains(t + q, sub)
  {
    if !Contains(t, sub) { return; }
    var k :| 0 <= k <= |t| && IsAt(t, sub, k);
    assert (t + q)[k..k + |sub|] == t[k..k + |sub|];
    assert IsAt(t + q, sub, k);
  }

  function LowerChar(c: char): char {
    if 'A' <= c <= 'Z' then (c as int + 32) as char else c
  }

  /** Python's `s.lower()` on ASCII letters. */
  function Lower(s: string): (r: string)
    ensures |r| == |s|
    ensures forall i :: 0 <= i < |s| ==> r[i] == LowerChar(s[i])
  {
    seq(|s|, i requires 0 <= i < |s| => LowerChar(s[i]))
  }

}
