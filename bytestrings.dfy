/**
 * Byte strings and the few operations of Python's `bytes` type that the
 * request parser relies on: ASCII whitespace trimming (`strip()`),
 * whitespace splitting (`split()`), substring search (`find()`), and the
 * line boundaries that `BytesIO.readline()`/`readlines()` produce.
 */
module ByteStrings {

  newtype byte = x: int | 0 <= x < 256

  type Bytes = seq<byte>

  const TAB: byte := 9
  const LF: byte := 10
  const CR: byte := 13
  const SP: byte := 32
  const COLON: byte := 58

  const CRLF: Bytes := [CR, LF]

  /** The header separator `b": "`. */
  const SEP: Bytes := [COLON, SP]

  /** The bytes of an ASCII string literal. */
  function Ascii(s: string): (r: Bytes)
    requires forall i :: 0 <= i < |s| ==> s[i] as int < 256
    ensures |r| == |s|
    ensures forall i :: 0 <= i < |r| ==> r[i] as int == s[i] as int
  {
    seq(|s|, i requires 0 <= i < |s| => s[i] as int as byte)
  }

  /** Python's `bytes.isspace()` on one byte: space, \t, \n, \v, \f, \r. */
  predicate IsSpace(b: byte) {
    b == SP || (TAB <= b <= CR)
  }

  predicate NoSpace(s: Bytes) {
    forall k :: 0 <= k < |s| ==> !IsSpace(s[k])
  }

  predicate AllSpace(s: Bytes) {
    forall k :: 0 <= k < |s| ==> IsSpace(s[k])
  }

  function Concat(ls: seq<Bytes>): Bytes {
    if ls == [] then [] else ls[0] + Concat(ls[1..])
  }

  // ---------------------------------------------------------------------
  // strip()

  /** The first index at or after `i` that holds no whitespace, or `|s|`. */
  function SkipSpace(s: Bytes, i: nat): (r: nat)
    requires i <= |s|
    ensures i <= r <= |s|
    ensures AllSpace(s[i..r])
    ensures r < |s| ==> !IsSpace(s[r])
    decreases |s| - i
  {
    if i < |s| && IsSpace(s[i]) then SkipSpace(s, i + 1) else i
  }

  /** Moving `j` down towards `lo`, the first end index whose preceding byte
      is not whitespace, or `lo`. */
  function SkipSpaceBack(s: Bytes, lo: nat, j: nat): (r: nat)
    requires lo <= j <= |s|
    ensures lo <= r <= j
    ensures forall k :: r <= k < j ==> IsSpace(s[k])
    ensures lo < r ==> !IsSpace(s[r - 1])
    decreases j
  {
    if lo < j && IsSpace(s[j - 1]) then SkipSpaceBack(s, lo, j - 1) else j
  }

  /** `bytes.strip()`: `s` without its leading and trailing whitespace. */
  function Strip(s: Bytes): (r: Bytes)
    ensures |r| <= |s|
  {
    var i := SkipSpace(s, 0);
    var j := SkipSpaceBack(s, i, |s|);
    s[i..j]
  }

  /** What `strip()` leaves neither starts nor ends with whitespace, and it is
      empty exactly when `s` is all whitespace. */
  lemma StripShape(s: Bytes)
    ensures Strip(s) == [] <==> AllSpace(s)
    ensures Strip(s) != [] ==> !IsSpace(Strip(s)[0]) && !IsSpace(Strip(s)[|Strip(s)| - 1])
  {
  }

  /** Whatever whitespace surrounds a core that neither starts nor ends with
      whitespace, stripping gives back exactly that core. */
  lemma StripUnique(s: Bytes, pre: Bytes, core: Bytes, post: Bytes)
    requires s == pre + core + post
    requires AllSpace(pre) && AllSpace(post)
    requires core != [] ==> !IsSpace(core[0]) && !IsSpace(core[|core| - 1])
    ensures Strip(s) == core
  {
    var i := SkipSpace(s, 0);
    if core == [] {
      assert forall k :: 0 <= k < |s| ==> IsSpace(s[k]) by {
        forall k | 0 <= k < |s| ensures IsSpace(s[k]) {
          if k < |pre| { assert s[k] == pre[k]; } else { assert s[k] == post[k - |pre|]; }
        }
      }
    } else {
      assert s[|pre|] == core[0];
      assert s[|pre| + |core| - 1] == core[|core| - 1];
      assert forall k :: |pre| + |core| <= k < |s| ==> s[k] == post[k - |pre| - |core|];
      assert forall k :: 0 <= k < |pre| ==> s[k] == pre[k];
      assert s[|pre|..|pre| + |core|] == core;
    }
  }

  // ---------------------------------------------------------------------
  // split()

  /** The first index at or after `i` that holds whitespace, or `|s|`. */
  function SkipWord(s: Bytes, i: nat): (r: nat)
    requires i <= |s|
    ensures i <= r <= |s|
    ensures NoSpace(s[i..r])
    ensures r < |s| ==> IsSpace(s[r])
    decreases |s| - i
  {
    if i < |s| && !IsSpace(s[i]) then SkipWord(s, i + 1) else i
  }

  /** The whitespace-separated words of `s` from index `i` on. */
  function SplitFrom(s: Bytes, i: nat): seq<Bytes>
    requires i <= |s|
    decreases |s| - i
  {
    var start := SkipSpace(s, i);
    if start == |s| then []
    else
      var end := SkipWord(s, start);
      [s[start..end]] + SplitFrom(s, end)
  }

  /** `bytes.split()` with no separator: the maximal runs of non-whitespace
      bytes, in order; leading, trailing and repeated whitespace produce no
      empty tokens. */
  function SplitWhitespace(s: Bytes): (r: seq<Bytes>)
    ensures ValidTokens(r)
  {
    SplitFromValid(s, 0);
    SplitFrom(s, 0)
  }

  /** Every word split from `i` on is non-empty and holds no whitespace. */
  lemma {:induction false} SplitFromValid(s: Bytes, i: nat)
    requires i <= |s|
    ensures ValidTokens(SplitFrom(s, i))
    decreases |s| - i
  {
    var start := SkipSpace(s, i);
    if start < |s| {
      var end := SkipWord(s, start);
      SplitFromValid(s, end);
      var r := SplitFrom(s, i);
      assert r == [s[start..end]] + SplitFrom(s, end);
      forall t | 0 <= t < |r|
        ensures r[t] != [] && NoSpace(r[t])
      {
        if t == 0 {
          assert forall k :: 0 <= k < end - start ==> r[0][k] == s[start + k];
        } else {
          assert r[t] == SplitFrom(s, end)[t - 1];
        }
      }
    }
  }

  /** No byte of `s` is a line feed. */
  predicate NoLF(s: Bytes) {
    forall k :: 0 <= k < |s| ==> s[k] != LF
  }

  predicate ValidTokens(toks: seq<Bytes>) {
    forall t :: 0 <= t < |toks| ==> toks[t] != [] && NoSpace(toks[t])
  }

  /** There is one gap between each two neighbouring tokens. */
  predicate GapsFit(toks: seq<Bytes>, gaps: seq<Bytes>) {
    if toks == [] then gaps == [] else |gaps| == |toks| - 1
  }

  /** Every gap is a non-empty run of whitespace. */
  predicate ValidGaps(gaps: seq<Bytes>) {
    forall k :: 0 <= k < |gaps| ==> gaps[k] != [] && AllSpace(gaps[k])
  }

  /** The tokens written out with `gaps[k]` between token `k` and token
      `k + 1`. */
  function JoinWith(toks: seq<Bytes>, gaps: seq<Bytes>): Bytes
    requires GapsFit(toks, gaps)
    decreases |toks|
  {
    if |toks| == 0 then []
    else if |toks| == 1 then toks[0]
    else toks[0] + gaps[0] + JoinWith(toks[1..], gaps[1..])
  }

  /** A join of valid tokens starts and ends with a token byte. */
  lemma {:induction false} JoinWithEdges(toks: seq<Bytes>, gaps: seq<Bytes>)
    requires ValidTokens(toks) && GapsFit(toks, gaps)
    ensures var j := JoinWith(toks, gaps);
      toks != [] ==> j != [] && !IsSpace(j[0]) && !IsSpace(j[|j| - 1])
    decreases |toks|
  {
    if |toks| > 1 {
      JoinWithEdges(toks[1..], gaps[1..]);
      var rest := JoinWith(toks[1..], gaps[1..]);
      var j := JoinWith(toks, gaps);
      assert j == toks[0] + gaps[0] + rest;
      assert j[0] == toks[0][0];
      assert j[|j| - 1] == rest[|rest| - 1];
    }
  }

  /** A join of valid tokens with gaps free of line feeds has no line feed. */
  lemma {:induction false} JoinWithNoLF(toks: seq<Bytes>, gaps: seq<Bytes>)
    requires ValidTokens(toks) && GapsFit(toks, gaps)
    requires forall k :: 0 <= k < |gaps| ==> NoLF(gaps[k])
    ensures NoLF(JoinWith(toks, gaps))
    decreases |toks|
  {
    if |toks| == 1 {
      assert NoSpace(toks[0]);
    } else if |toks| > 1 {
      JoinWithNoLF(toks[1..], gaps[1..]);
      var t, g, rest := toks[0], gaps[0], JoinWith(toks[1..], gaps[1..]);
      var j := JoinWith(toks, gaps);
      assert j == t + g + rest;
      assert NoSpace(t) && NoLF(g);
      forall k | 0 <= k < |j|
        ensures j[k] != LF
      {
        if k < |t| {
          assert j[k] == t[k];
        } else if k < |t| + |g| {
          assert j[k] == g[k - |t|];
        } else {
          assert j[k] == rest[k - |t| - |g|];
        }
      }
    }
  }

  /** A slice of a slice is a slice of the whole. */
  lemma SubSlice(s: Bytes, i: nat, e: nat, a: nat, b: nat)
    requires i <= e <= |s| && a <= b <= e - i
    ensures s[i..e][a..b] == s[i + a..i + b]
  {
    assert forall k :: 0 <= k < b - a ==> s[i..e][a..b][k] == s[i + a + k];
  }

  /** Where a join of several tokens sits in `s[i..e]`: its first token, its
      first gap, then the join of the others. */
  lemma JoinWithAt(s: Bytes, i: nat, e: nat, toks: seq<Bytes>, gaps: seq<Bytes>)
    requires |toks| > 1 && GapsFit(toks, gaps)
    requires i <= e <= |s| && s[i..e] == JoinWith(toks, gaps)
    ensures i + |toks[0]| + |gaps[0]| <= e
    ensures s[i..i + |toks[0]|] == toks[0]
    ensures s[i + |toks[0]|..i + |toks[0]| + |gaps[0]|] == gaps[0]
    ensures s[i + |toks[0]| + |gaps[0]|..e] == JoinWith(toks[1..], gaps[1..])
  {
    var t, g := toks[0], gaps[0];
    var rest := JoinWith(toks[1..], gaps[1..]);
    var u := s[i..e];
    assert u == t + g + rest;
    var a, b := |t|, |t| + |g|;
    assert u[..a] == t && u[a..b] == g && u[b..] == rest;
    SubSlice(s, i, e, 0, a);
    SubSlice(s, i, e, a, b);
    SubSlice(s, i, e, b, e - i);
    assert u[b..] == u[b..e - i];
  }

  /** Once the scan position is on a space, the words found from there on
      are those found from the next position. */
  lemma SplitFromSkip(s: Bytes, i: nat)
    requires i < |s| && IsSpace(s[i])
    ensures SplitFrom(s, i) == SplitFrom(s, i + 1)
  {
  }

  /** A position with the properties of a word end is the word end. */
  lemma SkipWordUnique(s: Bytes, i: nat, e: nat)
    requires i <= e <= |s|
    requires forall k :: i <= k < e ==> !IsSpace(s[k])
    requires e == |s| || IsSpace(s[e])
    ensures SkipWord(s, i) == e
  {
  }

  /** A word standing at position `i` is the first word split from there. */
  lemma SplitFromWord(s: Bytes, i: nat, t: Bytes)
    requires i + |t| <= |s| && s[i..i + |t|] == t
    requires t != [] && NoSpace(t)
    requires i + |t| == |s| || IsSpace(s[i + |t|])
    ensures SplitFrom(s, i) == [t] + SplitFrom(s, i + |t|)
  {
    assert forall k :: i <= k < i + |t| ==> s[k] == t[k - i];
    assert SkipSpace(s, i) == i;
    SkipWordUnique(s, i, i + |t|);
  }

  /** A run of whitespace at the scan position is skipped. */
  lemma {:induction false} SplitFromSkipRun(s: Bytes, i: nat, g: Bytes)
    requires i + |g| <= |s| && s[i..i + |g|] == g && AllSpace(g)
    ensures SplitFrom(s, i) == SplitFrom(s, i + |g|)
    decreases |g|
  {
    if g != [] {
      assert s[i] == g[0];
      SplitFromSkip(s, i);
      assert s[i + 1..i + |g|] == g[1..];
      SplitFromSkipRun(s, i + 1, g[1..]);
    }
  }

  /** Nothing is split from a stretch of whitespace running to the end. */
  lemma SplitFromBlank(s: Bytes, i: nat)
    requires i <= |s| && AllSpace(s[i..])
    ensures SplitFrom(s, i) == []
  {
  }

  /** A last word followed only by whitespace is all that is split from its
      start. */
  lemma SplitFromLastWord(s: Bytes, i: nat, e: nat, t: Bytes)
    requires i <= e <= |s| && s[i..e] == t && AllSpace(s[e..])
    requires t != [] && NoSpace(t)
    ensures SplitFrom(s, i) == [t]
  {
    if e < |s| {
      assert s[e..][0] == s[e];
    }
    SplitFromWord(s, i, t);
    SplitFromBlank(s, e);
  }

  /** A word of `n` bytes at `i`, then a gap of `m` whitespace bytes: the
      split from `i` is that word followed by the split after the gap. */
  lemma SplitFromCons(s: Bytes, i: nat, n: nat, m: nat)
    requires i + n + m <= |s| && 0 < n && 0 < m
    requires NoSpace(s[i..i + n]) && AllSpace(s[i + n..i + n + m])
    ensures SplitFrom(s, i) == [s[i..i + n]] + SplitFrom(s, i + n + m)
  {
    var j := i + n;
    assert IsSpace(s[j]) by {
      assert s[j..j + m][0] == s[j];
    }
    SplitFromWord(s, i, s[i..j]);
    SplitFromSkipRun(s, j, s[j..j + m]);
  }

  /** `s[i..e]` is `toks` joined by `gaps`, told token by token. */
  predicate JoinedAt(s: Bytes, i: nat, e: nat, toks: seq<Bytes>, gaps: seq<Bytes>)
    requires i <= e <= |s| && GapsFit(toks, gaps)
    decreases |toks|
  {
    if toks == [] then i == e
    else if |toks| == 1 then s[i..e] == toks[0]
    else
      var next := i + |toks[0]| + |gaps[0]|;
      && next <= e
      && s[i..i + |toks[0]|] == toks[0]
      && s[i + |toks[0]|..next] == gaps[0]
      && JoinedAt(s, next, e, toks[1..], gaps[1..])
  }

  /** Where the join stands, `JoinedAt` holds. */
  lemma {:induction false} JoinedAtJoin(s: Bytes, i: nat, e: nat, toks: seq<Bytes>, gaps: seq<Bytes>)
    requires GapsFit(toks, gaps)
    requires i <= e <= |s| && s[i..e] == JoinWith(toks, gaps)
    ensures JoinedAt(s, i, e, toks, gaps)
    decreases |toks|
  {
    if |toks| > 1 {
      JoinWithAt(s, i, e, toks, gaps);
      JoinedAtJoin(s, i + |toks[0]| + |gaps[0]|, e, toks[1..], gaps[1..]);
    }
  }

  /** Splitting from where valid tokens stand joined by whitespace runs, with
      only whitespace after them, gives back the tokens. */
  lemma {:induction false} SplitFromJoined(s: Bytes, i: nat, e: nat, toks: seq<Bytes>, gaps: seq<Bytes>)
    requires GapsFit(toks, gaps) && i <= e <= |s| && JoinedAt(s, i, e, toks, gaps)
    requires ValidTokens(toks) && ValidGaps(gaps) && AllSpace(s[e..])
    ensures SplitFrom(s, i) == toks
    decreases |toks|
  {
    if toks == [] {
      SplitFromBlank(s, i);
    } else if |toks| == 1 {
      SplitFromLastWord(s, i, e, toks[0]);
    } else {
      var t, g := toks[0], gaps[0];
      var next := i + |t| + |g|;
      assert next <= e && JoinedAt(s, next, e, toks[1..], gaps[1..]);
      assert s[i..i + |t|] == t && s[i + |t|..next] == g;
      assert t != [] && NoSpace(t) && g != [] && AllSpace(g);
      SplitFromJoined(s, next, e, toks[1..], gaps[1..]);
      SplitFromCons(s, i, |t|, |g|);
      assert toks == [t] + toks[1..];
    }
  }

  /** `split()` of valid tokens separated by any non-empty whitespace runs,
      with any whitespace before and after, gives back exactly the tokens. */
  lemma SplitPadded(pre: Bytes, toks: seq<Bytes>, gaps: seq<Bytes>, post: Bytes)
    requires ValidTokens(toks) && GapsFit(toks, gaps) && ValidGaps(gaps)
    requires AllSpace(pre) && AllSpace(post)
    ensures SplitWhitespace(pre + JoinWith(toks, gaps) + post) == toks
  {
    var j := JoinWith(toks, gaps);
    var s := pre + j + post;
    var e := |pre| + |j|;
    assert s[|pre|..e] == j;
    assert s[e..] == post;
    assert s[0..|pre|] == pre;
    JoinedAtJoin(s, |pre|, e, toks, gaps);
    SplitFromJoined(s, |pre|, e, toks, gaps);
    SplitFromSkipRun(s, 0, pre);
  }

  // ---------------------------------------------------------------------
  // find()

  predicate OccursAt(s: Bytes, pat: Bytes, k: nat) {
    k + |pat| <= |s| && s[k..k + |pat|] == pat
  }

  predicate Contains(s: Bytes, pat: Bytes) {
    exists k: nat | k <= |s| :: OccursAt(s, pat, k)
  }

  function FindFrom(s: Bytes, pat: Bytes, i: nat): (r: int)
    requires i <= |s|
    ensures r == -1 || (i <= r && OccursAt(s, pat, r))
    ensures forall k: nat :: i <= k && (r == -1 || k < r) ==> !OccursAt(s, pat, k)
    decreases |s| - i
  {
    if i + |pat| > |s| then -1
    else if s[i..i + |pat|] == pat then i
    else if i == |s| then -1
    else FindFrom(s, pat, i + 1)
  }

  /** `bytes.find(pat)`: the index of the first occurrence of `pat` in `s`,
      or -1 when there is none. */
  function Find(s: Bytes, pat: Bytes): (r: int)
    ensures r == -1 <==> !Contains(s, pat)
    ensures r != -1 ==> 0 <= r && OccursAt(s, pat, r)
    ensures forall k: nat :: k < r ==> !OccursAt(s, pat, k)
  {
    FindFrom(s, pat, 0)
  }

  // ---------------------------------------------------------------------
  // readline() / readlines()

  /** Where the line starting at `i` ends: just past the first LF at or after
      `i`, or `|s|` when there is none. */
  function LineEnd(s: Bytes, i: nat): (r: nat)
    requires i <= |s|
    ensures i <= r <= |s|
    ensures i < |s| ==> i < r
    ensures forall k :: i <= k < r - 1 ==> s[k] != LF
    ensures r == |s| || s[r - 1] == LF
    decreases |s| - i
  {
    if i == |s| then i
    else if s[i] == LF then i + 1
    else LineEnd(s, i + 1)
  }

  /** An end index with the properties of a line end is the line end. */
  lemma {:induction false} LineEndUnique(s: Bytes, i: nat, e: nat)
    requires i <= e <= |s|
    requires i < |s| ==> i < e
    requires forall k :: i <= k < e - 1 ==> s[k] != LF
    requires e == |s| || s[e - 1] == LF
    ensures e == LineEnd(s, i)
    decreases |s| - i
  {
    if i < |s| && s[i] != LF {
      LineEndUnique(s, i + 1, e);
    }
  }

  /** The first line of `s` as `BytesIO.readline()` returns it on a fresh
      stream: everything up to and including the first LF, or all of `s`. */
  function FirstLine(s: Bytes): (r: Bytes)
    ensures |r| <= |s| && r == s[..|r|]
    ensures forall k :: 0 <= k < |r| - 1 ==> r[k] != LF
    ensures r == s || (r != [] && r[|r| - 1] == LF)
  {
    s[..LineEnd(s, 0)]
  }

  /** The lines of `s` from index `i` on, as `BytesIO.readlines()` returns
      them from read position `i`. */
  function LinesFrom(s: Bytes, i: nat): (r: seq<Bytes>)
    requires i <= |s|
    ensures |r| <= |s| - i
    decreases |s| - i
  {
    if i == |s| then []
    else
      var e := LineEnd(s, i);
      [s[i..e]] + LinesFrom(s, e)
  }

  /** A line as `readline()` returns it: not empty, and holding an LF, if
      at all, only as its last byte. */
  predicate LineShaped(line: Bytes) {
    line != [] && forall k :: 0 <= k < |line| - 1 ==> line[k] != LF
  }

  /** The lines read from position `i` on are, together, exactly the rest
      of the buffer. */
  lemma {:induction false} LinesFromConcat(s: Bytes, i: nat)
    requires i <= |s|
    ensures Concat(LinesFrom(s, i)) == s[i..]
    decreases |s| - i
  {
    if i < |s| {
      var e := LineEnd(s, i);
      var ls, rest := LinesFrom(s, i), LinesFrom(s, e);
      assert ls == [s[i..e]] + rest;
      assert ls[0] == s[i..e] && ls[1..] == rest;
      LinesFromConcat(s, e);
      assert Concat(ls) == s[i..e] + Concat(rest);
      assert s[i..] == s[i..e] + s[e..];
    }
  }

  /** The line of `s` from `i` to its line end is well-shaped, and it ends
      in LF unless it runs to the end of the buffer. */
  lemma FirstLineShape(s: Bytes, i: nat)
    requires i < |s|
    ensures LineShaped(s[i..LineEnd(s, i)])
    ensures LineEnd(s, i) < |s| ==> s[i..LineEnd(s, i)][LineEnd(s, i) - i - 1] == LF
  {
    var line := s[i..LineEnd(s, i)];
    assert forall k :: 0 <= k < |line| ==> line[k] == s[i + k];
  }

  /** Line `t` read from position `i` on is well-shaped, and ends in LF
      unless it is the last one. */
  lemma {:induction false} LinesFromAt(s: Bytes, i: nat, t: nat)
    requires i <= |s| && t < |LinesFrom(s, i)|
    ensures LineShaped(LinesFrom(s, i)[t])
    ensures t < |LinesFrom(s, i)| - 1 ==> LinesFrom(s, i)[t][|LinesFrom(s, i)[t]| - 1] == LF
    decreases |s| - i
  {
    var e := LineEnd(s, i);
    if t == 0 {
      FirstLineShape(s, i);
      if e == |s| {
        assert LinesFrom(s, e) == [];
      }
    } else {
      LinesFromAt(s, e, t - 1);
    }
  }

  /** Every line read is well-shaped, and all but the last end in LF. */
  lemma LinesFromShape(s: Bytes, i: nat)
    requires i <= |s|
    ensures forall t :: 0 <= t < |LinesFrom(s, i)| ==>
      && LineShaped(LinesFrom(s, i)[t])
      && (t < |LinesFrom(s, i)| - 1 ==> LinesFrom(s, i)[t][|LinesFrom(s, i)[t]| - 1] == LF)
  {
    forall t | 0 <= t < |LinesFrom(s, i)| {
      LinesFromAt(s, i, t);
    }
  }

  /** A slice of the suffix `b` sits in `a + b` shifted by `|a|`. */
  lemma SliceShift(a: Bytes, b: Bytes, i: nat, j: nat)
    requires i <= j <= |b|
    ensures (a + b)[|a| + i..|a| + j] == b[i..j]
  {
    assert forall k :: 0 <= k < j - i ==> (a + b)[|a| + i..|a| + j][k] == b[i..j][k];
  }

  /** Line ends in the suffix `b` do not depend on the prefix `a`. */
  lemma {:induction false} LineEndShift(a: Bytes, b: Bytes, i: nat)
    requires i <= |b|
    ensures LineEnd(a + b, |a| + i) == |a| + LineEnd(b, i)
    decreases |b| - i
  {
    if i < |b| {
      assert (a + b)[|a| + i] == b[i];
      if b[i] != LF {
        LineEndShift(a, b, i + 1);
      }
    }
  }

  /** Reading lines does not depend on what precedes the read position. */
  lemma {:induction false} LinesFromShift(a: Bytes, b: Bytes, i: nat)
    requires i <= |b|
    ensures LinesFrom(a + b, |a| + i) == LinesFrom(b, i)
    decreases |b| - i
  {
    if i < |b| {
      var s := a + b;
      var e := LineEnd(b, i);
      assert LineEnd(s, |a| + i) == |a| + e by {
        LineEndShift(a, b, i);
      }
      assert s[|a| + i..|a| + e] == b[i..e] by {
        SliceShift(a, b, i, e);
      }
      assert LinesFrom(s, |a| + e) == LinesFrom(b, e) by {
        LinesFromShift(a, b, e);
      }
      assert LinesFrom(s, |a| + i) == [s[|a| + i..|a| + e]] + LinesFrom(s, |a| + e);
    }
  }
}
