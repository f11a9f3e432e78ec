/**
 The three Python `str` methods the transliteration engine relies on:
 `lower()` (ASCII letters only), `strip()` with no argument, and
 `replace(old, new)` with its default count of "every occurrence".
 */
module PyStr {

  /** The characters Python's `str.isspace()` accepts, which are the ones
      `str.strip()` removes from both ends when given no argument. */
  predicate IsSpace(c: char) {
    || ('\t' <= c <= '\r')
    || ('\U{1C}' <= c <= '\U{1F}')
    || c == ' '
    || c == '\U{85}'
    || c == '\U{A0}'
    || c == '\U{1680}'
    || ('\U{2000}' <= c <= '\U{200A}')
    || c == '\U{2028}'
    || c == '\U{2029}'
    || c == '\U{202F}'
    || c == '\U{205F}'
    || c == '\U{3000}'
  }

  /** Neither the first nor the last character is whitespace. */
  predicate NoEdgeSpace(s: string) {
    s == [] || (!IsSpace(s[0]) && !IsSpace(s[|s| - 1]))
  }

  predicate IsUpper(c: char) {
    'A' <= c <= 'Z'
  }

  function LowerChar(c: char): (r: char)
    ensures !IsUpper(r)
    ensures IsUpper(c) ==> r as int == c as int + ('a' as int - 'A' as int)
    ensures !IsUpper(c) ==> r == c
  {
    if IsUpper(c) then (c as int + ('a' as int - 'A' as int)) as char else c
  }

  /** `s.lower()`, restricted to the ASCII letters A-Z. */
  function Lower(s: string): (r: string)
    ensures |r| == |s|
    ensures forall i :: 0 <= i < |r| ==> !IsUpper(r[i])
    ensures forall i :: 0 <= i < |s| && !IsUpper(s[i]) ==> r[i] == s[i]
    ensures forall i :: 0 <= i < |s| && IsUpper(s[i]) ==> r[i] == LowerChar(s[i])
  {
    if s == [] then [] else [LowerChar(s[0])] + Lower(s[1..])
  }

  /** A string without upper-case ASCII letters is its own lower-case form. */
  lemma LowerOfLowercase(s: string)
    requires forall i :: 0 <= i < |s| ==> !IsUpper(s[i])
    ensures Lower(s) == s
  {
  }

  /** Two strings that differ only in the case of ASCII letters. */
  predicate SameIgnoringCase(a: string, b: string) {
    |a| == |b| && forall i :: 0 <= i < |a| ==> LowerChar(a[i]) == LowerChar(b[i])
  }

  lemma {:induction false} LowerOfSameIgnoringCase(a: string, b: string)
    requires SameIgnoringCase(a, b)
    ensures Lower(a) == Lower(b)
  {
    forall i | 0 <= i < |a| ensures Lower(a)[i] == Lower(b)[i] {
      assert Lower(a)[i] == LowerChar(a[i]) && Lower(b)[i] == LowerChar(b[i]);
    }
  }

  /** `lower()` is idempotent: lowering an already lowered string changes nothing. */
  lemma {:induction false} LowerIdempotent(s: string)
    ensures Lower(Lower(s)) == Lower(s)
  {
    var l := Lower(s);
    forall i | 0 <= i < |l| ensures Lower(l)[i] == l[i] {
      assert !IsUpper(l[i]);
    }
  }

  /** `s.lstrip()`: drops the leading whitespace and nothing else. */
  function LStrip(s: string): (r: string)
    ensures |r| <= |s| && r == s[|s| - |r|..]
    ensures AllSpace(s[..|s| - |r|])
    ensures r == [] || !IsSpace(r[0])
  {
    if s != [] && IsSpace(s[0]) then
      var r := LStrip(s[1..]);
      LStripStep(s, r);
      r
    else
      s
  }

  /** `s.rstrip()`: drops the trailing whitespace and nothing else. */
  function RStrip(s: string): (r: string)
    ensures |r| <= |s| && r == s[..|r|]
    ensures AllSpace(s[|r|..])
    ensures r == [] || !IsSpace(r[|r| - 1])
  {
    if s != [] && IsSpace(s[|s| - 1]) then
      var r := RStrip(s[..|s| - 1]);
      RStripStep(s, r);
      r
    else
      s
  }

  /** Every character of `s` is whitespace. */
  predicate AllSpace(s: string) {
    forall i :: 0 <= i < |s| ==> IsSpace(s[i])
  }

  /** Whitespace followed by whitespace is whitespace. */
  lemma AllSpaceAppend(a: string, b: string)
    requires AllSpace(a) && AllSpace(b)
    ensures AllSpace(a + b)
  {
    forall i | 0 <= i < |a + b| ensures IsSpace((a + b)[i]) {
      if i < |a| {
        assert (a + b)[i] == a[i];
      } else {
        assert (a + b)[i] == b[i - |a|];
      }
    }
  }

  /** Dropping one more leading whitespace character keeps `LStrip`'s contract. */
  lemma LStripStep(s: string, r: string)
    requires s != [] && IsSpace(s[0])
    requires |r| <= |s| - 1 && r == s[1..][|s| - 1 - |r|..]
    requires AllSpace(s[1..][..|s| - 1 - |r|])
    ensures r == s[|s| - |r|..] && AllSpace(s[..|s| - |r|])
  {
    assert s[1..][|s| - 1 - |r|..] == s[|s| - |r|..];
    assert s[..|s| - |r|] == [s[0]] + s[1..][..|s| - 1 - |r|];
    AllSpaceAppend([s[0]], s[1..][..|s| - 1 - |r|]);
  }

  /** Dropping one more trailing whitespace character keeps `RStrip`'s contract. */
  lemma RStripStep(s: string, r: string)
    requires s != [] && IsSpace(s[|s| - 1])
    requires |r| <= |s| - 1 && r == s[..|s| - 1][..|r|]
    requires AllSpace(s[..|s| - 1][|r|..])
    ensures r == s[..|r|] && AllSpace(s[|r|..])
  {
    assert s[..|s| - 1][..|r|] == s[..|r|];
    assert s[|r|..] == s[..|s| - 1][|r|..] + [s[|s| - 1]];
    AllSpaceAppend(s[..|s| - 1][|r|..], [s[|s| - 1]]);
  }

  /** `r` is `s` with `k` whitespace characters dropped in front and only
      whitespace dropped at the back. */
  predicate TrimmedAt(s: string, r: string, k: int) {
    && 0 <= k <= |s| - |r|
    && r == s[k..k + |r|]
    && AllSpace(s[..k])
    && AllSpace(s[k + |r|..])
  }

  /** `s.strip()`: the longest infix of `s` without whitespace at either end,
      obtained by dropping only whitespace. */
  function Strip(s: string): (r: string)
    ensures NoEdgeSpace(r)
    ensures exists k :: TrimmedAt(s, r, k)
  {
    StripNoEdgeSpace(s);
    StripTrimmed(s);
    RStrip(LStrip(s))
  }

  /** Stripping the left end and then the right end leaves whitespace at
      neither end. */
  lemma StripNoEdgeSpace(s: string)
    ensures NoEdgeSpace(RStrip(LStrip(s)))
  {
    var l := LStrip(s);
    var r := RStrip(l);
    if r != [] {
      assert r[0] == l[0];
    }
  }

  /** Stripping the left end and then the right end trims `s` at the
      point where the left strip stopped. */
  lemma StripTrimmed(s: string)
    ensures TrimmedAt(s, RStrip(LStrip(s)), |s| - |LStrip(s)|)
  {
    TrimmedAtOfSuffixPrefix(s, LStrip(s), RStrip(LStrip(s)));
  }

  /** A prefix `r` of a suffix `l` of `s`, with whitespace only before `l`
      and after `r`, trims `s` where `l` starts. */
  lemma TrimmedAtOfSuffixPrefix(s: string, l: string, r: string)
    requires |l| <= |s| && l == s[|s| - |l|..] && AllSpace(s[..|s| - |l|])
    requires |r| <= |l| && r == l[..|r|] && AllSpace(l[|r|..])
    ensures TrimmedAt(s, r, |s| - |l|)
  {
    var k := |s| - |l|;
    assert r == s[k..k + |r|];
    assert s[k + |r|..] == l[|r|..];
  }

  /** `strip()` leaves a string alone exactly when it has no whitespace at its ends. */
  lemma {:induction false} StripFixedPoint(s: string)
    ensures Strip(s) == s <==> NoEdgeSpace(s)
  {
    if NoEdgeSpace(s) {
      assert LStrip(s) == s;
      assert RStrip(s) == s;
    }
  }

  /** `p` occurs in `s` starting at index `i`. */
  predicate MatchAt(s: string, p: string, i: int) {
    0 <= i && i + |p| <= |s| && s[i..i + |p|] == p
  }

  /** `s.startswith(p)`, compared character by character. */
  predicate StartsWith(s: string, p: string)
    decreases |p|
  {
    p == [] || (s != [] && s[0] == p[0] && StartsWith(s[1..], p[1..]))
  }

  lemma {:induction false} StartsWithMatchAt(s: string, p: string)
    ensures StartsWith(s, p) <==> MatchAt(s, p, 0)
    decreases |p|
  {
    if p != [] && s != [] {
      StartsWithMatchAt(s[1..], p[1..]);
      if |p| <= |s| {
        assert s[..|p|] == [s[0]] + s[1..][..|p| - 1];
        assert p == [p[0]] + p[1..];
      }
    }
  }

  /** `p in s`, Python's substring test. */
  predicate Occurs(s: string, p: string) {
    exists i :: 0 <= i <= |s| && MatchAt(s, p, i)
  }

  lemma MatchAtTail(s: string, p: string, i: int)
    requires s != [] && 0 <= i
    ensures MatchAt(s[1..], p, i) <==> MatchAt(s, p, i + 1)
  {
    if i + |p| <= |s| - 1 {
      assert s[1..][i..i + |p|] == s[i + 1..i + 1 + |p|];
    }
  }

  /** Matches in `s[1..]` are the matches in `s` shifted by one. */
  lemma MatchAtShift(s: string, p: string)
    requires s != []
    ensures forall j :: 0 <= j ==> (MatchAt(s[1..], p, j) <==> MatchAt(s, p, j + 1))
    ensures forall j :: 1 <= j ==> (MatchAt(s, p, j) <==> MatchAt(s[1..], p, j - 1))
  {
    forall j | 0 <= j ensures MatchAt(s[1..], p, j) <==> MatchAt(s, p, j + 1) {
      MatchAtTail(s, p, j);
    }
  }

  /** `s.find(p)`: the index of the leftmost occurrence of `p`, or -1. */
  function Find(s: string, p: string): (k: int)
    ensures k == -1 || (0 <= k && k + |p| <= |s|)
    decreases |s|
  {
    if |s| < |p| then -1
    else if StartsWith(s, p) then 0
    else
      var k := Find(s[1..], p);
      if k == -1 then -1 else k + 1
  }

  /** `Find` answers -1 exactly when `p` does not occur, and otherwise the
      index of a match with no match before it. */
  lemma {:induction false} FindLeftmost(s: string, p: string)
    ensures Find(s, p) == -1 <==> !Occurs(s, p)
    ensures Find(s, p) != -1 ==> MatchAt(s, p, Find(s, p)) && forall j :: 0 <= j < Find(s, p) ==> !MatchAt(s, p, j)
    decreases |s|
  {
    if |s| >= |p| {
      StartsWithMatchAt(s, p);
      if !StartsWith(s, p) {
        FindLeftmost(s[1..], p);
        MatchAtShift(s, p);
      }
    }
  }

  /** `s.split(p)` for a non-empty separator `p`: cut at the occurrences of
      `p`, leftmost first, resuming the search after each one. */
  function Split(s: string, p: string): (pieces: seq<string>)
    requires p != []
    ensures pieces != []
    decreases |s|
  {
    var k := Find(s, p);
    if k == -1 then [s] else [s[..k]] + Split(s[k + |p|..], p)
  }

  /** `sep.join(pieces)`. */
  function Join(pieces: seq<string>, sep: string): string {
    if pieces == [] then []
    else if |pieces| == 1 then pieces[0]
    else pieces[0] + sep + Join(pieces[1..], sep)
  }

  /** Splitting at `p` and joining with `p` gives the string back. */
  lemma {:induction false} SplitJoin(s: string, p: string)
    requires p != []
    ensures Join(Split(s, p), p) == s
    decreases |s|
  {
    var k := Find(s, p);
    FindLeftmost(s, p);
    if k != -1 {
      var rest := s[k + |p|..];
      SplitJoin(rest, p);
      assert s == s[..k] + p + rest;
    }
  }

  /** No match of `p` lies wholly inside `s[..m]` when none starts there in `s`. */
  lemma NoMatchInPrefix(s: string, p: string, m: int)
    requires 0 <= m <= |s|
    requires forall j :: 0 <= j && j + |p| <= m ==> !MatchAt(s, p, j)
    ensures !Occurs(s[..m], p)
  {
    forall j | 0 <= j <= m ensures !MatchAt(s[..m], p, j) {
      if j + |p| <= m {
        assert s[..m][j..j + |p|] == s[j..j + |p|];
        assert !MatchAt(s, p, j);
      }
    }
  }

  /** The cuts of `Split` are leftmost and do not overlap: no piece contains
      `p`, and no occurrence of `p` starts inside a piece that is followed by
      a separator. */
  lemma {:induction false} SplitIsLeftmost(s: string, p: string)
    requires p != []
    ensures forall i :: 0 <= i < |Split(s, p)| ==> !Occurs(Split(s, p)[i], p)
    ensures forall i :: 0 <= i < |Split(s, p)| - 1 ==> !Occurs(Split(s, p)[i] + p[..|p| - 1], p)
    decreases |s|
  {
    var k := Find(s, p);
    FindLeftmost(s, p);
    var pieces := Split(s, p);
    if k == -1 {
      assert pieces == [s];
    } else {
      var rest := s[k + |p|..];
      var tail := Split(rest, p);
      SplitIsLeftmost(rest, p);
      assert pieces == [s[..k]] + tail;
      NoMatchInPrefix(s, p, k);
      NoMatchInPrefix(s, p, k + |p| - 1);
      assert s[..k] + p[..|p| - 1] == s[..k + |p| - 1] by {
        assert s[k..k + |p|] == p;
      }
      forall i | 1 <= i < |pieces| ensures pieces[i] == tail[i - 1] { }
    }
  }

  /** Python's `s.replace(p, r)` with an empty `p`: `r` before every
      character and once more at the end. */
  function Interleave(s: string, r: string): (res: string)
    ensures |res| == |s| + (|s| + 1) * |r|
  {
    if s == [] then r else r + [s[0]] + Interleave(s[1..], r)
  }

  /** `s.replace(p, r)`: scans left to right; at a match of `p` it emits `r`
      and resumes after the match, otherwise it keeps one character. */
  function ReplaceAll(s: string, p: string, r: string): (res: string)
    ensures |p| == |r| ==> |res| == |s|
    decreases |s|
  {
    if p == [] then Interleave(s, r)
    else if |s| < |p| then s
    else if StartsWith(s, p) then r + ReplaceAll(s[|p|..], p, r)
    else [s[0]] + ReplaceAll(s[1..], p, r)
  }

  lemma JoinCons(a: string, tail: seq<string>, sep: string)
    requires tail != []
    ensures Join([a] + tail, sep) == a + sep + Join(tail, sep)
  {
    assert ([a] + tail)[1..] == tail;
  }

  /** One step of `Join(Split(_))` when `s` does not start with `p`: the
      first character belongs to the first piece. */
  lemma JoinSplitSkip(s: string, p: string, r: string)
    requires p != [] && |s| >= |p| && !StartsWith(s, p)
    ensures Join(Split(s, p), r) == [s[0]] + Join(Split(s[1..], p), r)
  {
    var t := s[1..];
    var k := Find(t, p);
    if k == -1 {
      assert Find(s, p) == -1;
      assert Split(s, p) == [s] && Split(t, p) == [t];
    } else {
      assert Find(s, p) == k + 1;
      var rest := s[k + 1 + |p|..];
      assert t[k + |p|..] == rest;
      var tail := Split(rest, p);
      assert Split(s, p) == [s[..k + 1]] + tail;
      assert Split(t, p) == [t[..k]] + tail;
      JoinCons(s[..k + 1], tail, r);
      JoinCons(t[..k], tail, r);
      assert t[..k] == s[1..k + 1];
      assert [s[0]] + s[1..k + 1] == s[..k + 1];
    }
  }

  /** One step of `Join(Split(_))` when `s` starts with `p`: an empty first
      piece, then the separator. */
  lemma JoinSplitAtMatch(s: string, p: string, r: string)
    requires p != [] && |s| >= |p| && StartsWith(s, p)
    ensures Join(Split(s, p), r) == r + Join(Split(s[|p|..], p), r)
  {
    var rest := s[|p|..];
    assert Find(s, p) == 0 && s[..0] == [];
    assert Split(s, p) == [[]] + Split(rest, p);
    JoinCons([], Split(rest, p), r);
  }

  /** The scanning definition agrees with the split/join formulation of
      `replace` for a non-empty pattern: `r.join(s.split(p))`. */
  lemma {:induction false} ReplaceAllIsJoinSplit(s: string, p: string, r: string)
    requires p != []
    ensures ReplaceAll(s, p, r) == Join(Split(s, p), r)
    decreases |s|
  {
    if |s| < |p| {
      assert Split(s, p) == [s];
    } else if StartsWith(s, p) {
      ReplaceAllIsJoinSplit(s[|p|..], p, r);
      JoinSplitAtMatch(s, p, r);
    } else {
      ReplaceAllIsJoinSplit(s[1..], p, r);
      JoinSplitSkip(s, p, r);
    }
  }

  /** A prefix without the first character of `p` is kept as it is. */
  lemma {:induction false} ReplaceAllSkipsPrefix(a: string, b: string, p: string, r: string)
    requires p != [] && p[0] !in a
    ensures ReplaceAll(a + b, p, r) == a + ReplaceAll(b, p, r)
    decreases |a|
  {
    if a != [] {
      var s := a + b;
      assert s[0] == a[0] && s[1..] == a[1..] + b;
      assert !StartsWith(s, p);
      ReplaceAllSkipsPrefix(a[1..], b, p, r);
      if |s| < |p| {
        assert ReplaceAll(b, p, r) == b;
        assert ReplaceAll(a[1..] + b, p, r) == a[1..] + b;
      }
    } else {
      assert a + b == b;
    }
  }

  /** A string without the first character of `p` is kept as it is. */
  lemma ReplaceAllWithoutFirst(s: string, p: string, r: string)
    requires p != [] && p[0] !in s
    ensures ReplaceAll(s, p, r) == s
  {
    ReplaceAllSkipsPrefix(s, [], p, r);
    assert s + [] == s;
  }

  /** A single occurrence of `p`, with the first character of `p` nowhere
      else, is the only thing replaced. */
  lemma ReplaceAllOnce(a: string, p: string, b: string, r: string)
    requires p != [] && p[0] !in a && p[0] !in b
    ensures ReplaceAll(a + p + b, p, r) == a + r + b
  {
    ReplaceAllWithoutFirst(b, p, r);
    ReplaceAllAtMatch(b, p, r);
    ReplaceAllSkipsPrefix(a, p + b, p, r);
    assert a + p + b == a + (p + b);
    assert a + r + b == a + (r + b);
  }

  /** A match at the front is replaced, and the scan resumes after it. */
  lemma ReplaceAllAtMatch(b: string, p: string, r: string)
    requires p != []
    ensures ReplaceAll(p + b, p, r) == r + ReplaceAll(b, p, r)
  {
    StartsWithMatchAt(p + b, p);
    assert MatchAt(p + b, p, 0) && (p + b)[|p|..] == b;
  }

  /** A character where no match starts is kept as it is. */
  lemma ReplaceAllSkipsChar(c: char, b: string, p: string, r: string)
    requires p != [] && !StartsWith([c] + b, p)
    ensures ReplaceAll([c] + b, p, r) == [c] + ReplaceAll(b, p, r)
  {
    var s := [c] + b;
    assert s[1..] == b;
    if |s| < |p| {
      assert ReplaceAll(b, p, r) == b;
    }
  }

  /** Without an occurrence of a non-empty `p`, `replace` returns `s` unchanged. */
  lemma {:induction false} ReplaceAllAbsent(s: string, p: string, r: string)
    requires p != [] && !Occurs(s, p)
    ensures ReplaceAll(s, p, r) == s
  {
    ReplaceAllIsJoinSplit(s, p, r);
    FindLeftmost(s, p);
    assert Split(s, p) == [s];
  }

  /** Undoing a replacement: when the replacement's first character never
      appears in `s`, replacing `r` back by `p` restores `s`. */
  lemma {:induction false} ReplaceAllUndo(s: string, p: string, r: string)
    requires p != [] && r != [] && r[0] !in s
    ensures ReplaceAll(ReplaceAll(s, p, r), r, p) == s
    decreases |s|
  {
    var g := ReplaceAll(s, p, r);
    StartsWithMatchAt(s, p);
    if |s| < |p| {
      assert !Occurs(s, r) by {
        forall j | MatchAt(s, r, j) ensures false { }
      }
      ReplaceAllAbsent(s, r, p);
    } else if MatchAt(s, p, 0) {
      var rest := s[|p|..];
      assert forall c :: c in rest ==> c in s;
      ReplaceAllUndo(rest, p, r);
      var x := ReplaceAll(rest, p, r);
      assert g == r + x;
      StartsWithMatchAt(g, r);
      assert MatchAt(g, r, 0);
      assert g[|r|..] == x;
      assert s == p + rest;
    } else {
      var rest := s[1..];
      assert forall c :: c in rest ==> c in s;
      ReplaceAllUndo(rest, p, r);
      var x := ReplaceAll(rest, p, r);
      assert g == [s[0]] + x;
      assert !StartsWith(g, r) by { assert g[0] == s[0]; }
      if |g| < |r| {
        assert ReplaceAll(x, r, p) == x;
      } else {
        assert g[1..] == x;
      }
      assert s == [s[0]] + rest;
    }
  }
}
