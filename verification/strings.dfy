/**
 * String helpers shared by the backend (Python `str`) and the frontend
 * (JavaScript `String`) parts of the model. Strings are `seq<char>`.
 */
module Strings {
  import opened Wrappers

  /** Characters Python's `str.isspace` accepts, which `str.strip()` removes. */
  predicate IsPythonSpace(c: char) {
    || ('\U{9}' <= c <= '\U{D}')
    || ('\U{1C}' <= c <= '\U{20}')
    || c == '\U{85}' || c == '\U{A0}' || c == '\U{1680}'
    || ('\U{2000}' <= c <= '\U{200A}')
    || c == '\U{2028}' || c == '\U{2029}' || c == '\U{202F}' || c == '\U{205F}'
    || c == '\U{3000}'
  }

  /** JavaScript's WhiteSpace and LineTerminator characters, skipped by `Number` and `parseInt`. */
  predicate IsJsSpace(c: char) {
    || ('\U{9}' <= c <= '\U{D}')
    || c == '\U{20}' || c == '\U{A0}' || c == '\U{1680}'
    || ('\U{2000}' <= c <= '\U{200A}')
    || c == '\U{2028}' || c == '\U{2029}' || c == '\U{202F}' || c == '\U{205F}'
    || c == '\U{3000}' || c == '\U{FEFF}'
  }

  /** Drops the longest prefix of characters satisfying `ws`. */
  function TrimStart(s: string, ws: char -> bool): (r: string)
    ensures |r| <= |s| && r == s[|s| - |r|..]
    ensures forall i :: 0 <= i < |s| - |r| ==> ws(s[i])
    ensures r == [] || !ws(r[0])
  {
    if |s| > 0 && ws(s[0]) then TrimStart(s[1..], ws) else s
  }

  /** Drops the longest suffix of characters satisfying `ws`. */
  function TrimEnd(s: string, ws: char -> bool): (r: string)
    ensures |r| <= |s| && r == s[..|r|]
    ensures forall i :: |r| <= i < |s| ==> ws(s[i])
    ensures r == [] || !ws(r[|r| - 1])
  {
    if |s| > 0 && ws(s[|s| - 1]) then TrimEnd(s[..|s| - 1], ws) else s
  }

  /** Python's `s.strip()` when `ws` is `IsPythonSpace`. */
  function Strip(s: string, ws: char -> bool): (r: string)
  {
    TrimEnd(TrimStart(s, ws), ws)
  }

  /** The stripped string neither starts nor ends with a character satisfying `ws`. */
  lemma StripIsClean(s: string, ws: char -> bool)
    ensures var r := Strip(s, ws); r == [] || (!ws(r[0]) && !ws(r[|r| - 1]))
  {
    var t := TrimStart(s, ws);
    var r := TrimEnd(t, ws);
    if r != [] {
      assert r[0] == t[0];
    }
  }

  /** Python's `str.strip()` with no argument. */
  function PyStrip(s: string): string {
    Strip(s, IsPythonSpace)
  }

  /** The stripped string is the piece of the input starting after the dropped prefix. */
  lemma StripIsInfix(s: string, ws: char -> bool)
    ensures var k := |s| - |TrimStart(s, ws)|;
      && k + |Strip(s, ws)| <= |s|
      && Strip(s, ws) == s[k..k + |Strip(s, ws)|]
  {
    var t := TrimStart(s, ws);
    var r := TrimEnd(t, ws);
    var k := |s| - |t|;
    assert t == s[k..];
    assert r == t[..|r|];
    SliceOfSlice(s, k, |s|, 0, |r|);
  }

  /** A slice of a slice is a slice of the original. */
  lemma SliceOfSlice<T>(s: seq<T>, lo: nat, hi: nat, a: nat, b: nat)
    requires lo <= hi <= |s| && a <= b <= hi - lo
    ensures s[lo..hi][a..b] == s[lo + a..lo + b]
  {
    var x, y := s[lo..hi][a..b], s[lo + a..lo + b];
    forall m | 0 <= m < |x| ensures x[m] == y[m] {
      assert x[m] == s[lo + a + m];
    }
  }

  /** An occurrence inside a piece `s[k..k + |r|]` is an occurrence in `s`, shifted by `k`. */
  lemma OccursInInfix(s: string, k: nat, r: string, pat: string, j: int)
    requires k + |r| <= |s| && r == s[k..k + |r|]
    ensures OccursAt(r, pat, j) ==> OccursAt(s, pat, j + k)
  {
    if 0 <= j && j + |pat| <= |r| {
      var a, b := r[j..j + |pat|], s[k + j..k + j + |pat|];
      forall m | 0 <= m < |pat| ensures a[m] == b[m] {
        assert r[j + m] == s[k + j + m];
      }
      assert a == b;
    }
  }

  /** Stripping twice is stripping once. */
  lemma {:induction false} StripIdempotent(s: string, ws: char -> bool)
    ensures Strip(Strip(s, ws), ws) == Strip(s, ws)
  {
    var r := Strip(s, ws);
    StripIsClean(s, ws);
    TrimStartOfClean(r, ws);
    TrimEndOfClean(r, ws);
  }

  lemma TrimStartOfClean(s: string, ws: char -> bool)
    requires s == [] || !ws(s[0])
    ensures TrimStart(s, ws) == s
  {
  }

  lemma TrimEndOfClean(s: string, ws: char -> bool)
    requires s == [] || !ws(s[|s| - 1])
    ensures TrimEnd(s, ws) == s
  {
  }

  /** `pat` occurs in `s` starting at index `i`. */
  predicate OccursAt(s: string, pat: string, i: int) {
    0 <= i && i + |pat| <= |s| && s[i..i + |pat|] == pat
  }

  /** Index of the first occurrence of `pat` in `s` at or after `from` (Python's `str.find`). */
  function FindFrom(s: string, pat: string, from: nat): (r: Option<nat>)
    decreases |s| - from
    ensures r.Some? ==> from <= r.value && OccursAt(s, pat, r.value)
    ensures r.Some? ==> forall j :: from <= j < r.value ==> !OccursAt(s, pat, j)
    ensures r.None? ==> forall j :: from <= j ==> !OccursAt(s, pat, j)
  {
    if from + |pat| > |s| then None
    else if s[from..from + |pat|] == pat then Some(from)
    else FindFrom(s, pat, from + 1)
  }

  function Find(s: string, pat: string): (r: Option<nat>)
  {
    FindFrom(s, pat, 0)
  }

  /** Python's `pat in s`. */
  predicate Contains(s: string, pat: string) {
    Find(s, pat).Some?
  }

  lemma ContainsIffOccurs(s: string, pat: string, i: int)
    requires OccursAt(s, pat, i)
    ensures Contains(s, pat)
  {
  }

  /**
   * JavaScript's `s.split(c)` for a one-character separator: the maximal
   * pieces between separators, always at least one (possibly empty) piece.
   */
  function Split(s: string, c: char): (r: seq<string>)
    ensures |r| >= 1
    ensures forall k :: 0 <= k < |r| ==> c !in r[k]
  {
    if c !in s then [s]
    else
      var i := IndexOfChar(s, c);
      [s[..i]] + Split(s[i + 1..], c)
  }

  /** First index of `c` in `s`. */
  function IndexOfChar(s: string, c: char): (i: nat)
    requires c in s
    ensures i < |s| && s[i] == c && c !in s[..i]
  {
    if s[0] == c then 0 else 1 + IndexOfChar(s[1..], c)
  }

  /** JavaScript's `pieces.join(c)`. */
  function Join(pieces: seq<string>, c: char): (r: string)
  {
    if |pieces| == 0 then ""
    else if |pieces| == 1 then pieces[0]
    else pieces[0] + [c] + Join(pieces[1..], c)
  }

  /** Splitting and joining again gives back the original string. */
  lemma {:induction false} JoinSplit(s: string, c: char)
    ensures Join(Split(s, c), c) == s
    decreases |s|
  {
    if c in s {
      var i := IndexOfChar(s, c);
      var rest := s[i + 1..];
      JoinSplit(rest, c);
      assert Split(s, c) == [s[..i]] + Split(rest, c);
      assert s == s[..i] + [c] + rest;
    }
  }

  /** Joining separator-free pieces and splitting again gives back the pieces. */
  lemma {:induction false} SplitJoin(pieces: seq<string>, c: char)
    requires |pieces| >= 1
    requires forall k :: 0 <= k < |pieces| ==> c !in pieces[k]
    ensures Split(Join(pieces, c), c) == pieces
    decreases |pieces|
  {
    if |pieces| > 1 {
      var rest := Join(pieces[1..], c);
      var s := pieces[0] + [c] + rest;
      assert s[|pieces[0]|] == c;
      assert c in s;
      IndexOfCharAfterFree(pieces[0], c, rest);
      assert s[..|pieces[0]|] == pieces[0];
      assert s[|pieces[0]| + 1..] == rest;
      SplitJoin(pieces[1..], c);
    }
  }

  lemma IndexOfCharAfterFree(a: string, c: char, b: string)
    requires c !in a
    ensures c in a + [c] + b
    ensures IndexOfChar(a + [c] + b, c) == |a|
  {
    var s := a + [c] + b;
    assert s[|a|] == c;
  }

  /** The first `c` of a string is still the first after anything is appended. */
  lemma {:induction false} IndexOfCharInPrefix(s: string, c: char, t: string)
    requires c in s
    ensures c in s + t && IndexOfChar(s + t, c) == IndexOfChar(s, c)
  {
    if s[0] != c {
      assert (s + t)[1..] == s[1..] + t;
      IndexOfCharInPrefix(s[1..], c, t);
    }
  }

  /** Appending a separator and a separator-free piece appends one piece to the split. */
  lemma {:induction false} SplitAppendPiece(s: string, c: char, p: string)
    requires c !in p
    ensures Split(s + [c] + p, c) == Split(s, c) + [p]
    decreases |s|
  {
    var whole := s + [c] + p;
    if c !in s {
      IndexOfCharAfterFree(s, c, p);
      assert whole[..|s|] == s;
      assert whole[|s| + 1..] == p;
      assert Split(whole, c) == [s] + Split(p, c);
    } else {
      var i := IndexOfChar(s, c);
      var tail := [c] + p;
      assert whole == s + tail;
      IndexOfCharInPrefix(s, c, tail);
      assert whole[..i] == s[..i];
      assert whole[i + 1..] == s[i + 1..] + [c] + p;
      assert Split(whole, c) == [s[..i]] + Split(s[i + 1..] + [c] + p, c);
      SplitAppendPiece(s[i + 1..], c, p);
    }
  }
}
