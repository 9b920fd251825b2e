/**
 * The scan of `dict_add_words_from_string` on its C string: the blanks
 * it skips, the runs of letters it finds and what it has done to the
 * string and to the counts after each step.
 */
module DictLoad {
  import opened Common
  import opened Alpha
  import opened Dict
  import DT = DictText

  /** The state of the scan at `pos` in the bytes `a`, which were `t0` with
      the C string of length `n` at index 0: the string has been read up to
      `pos` and the bytes from there on are as they were; the words found
      so far are `done`, those still to come are the ones found in the
      string from `pos` on; and folding the rest of the string as the scan
      will do leaves it as folding the whole string would. */
  ghost predicate Scan(t0: seq<byte>, n: nat, a: seq<byte>, pos: nat, done: seq<seq<byte>>)
  {
    n < |t0| == |a| && t0[n] == 0 && (forall k :: 0 <= k < n ==> t0[k] != 0)
    && pos <= n && (forall k :: pos <= k < |a| ==> a[k] == t0[k])
    && DT.Words(t0[..n]) == done + DT.Found(t0[..n], pos)
    && DT.Folding(t0[..n], 0) == DT.Folding(a[..n], pos)
  }

  /** The scan starts at index 0 of the untouched string with no word
      found. */
  lemma ScanStart(t0: seq<byte>)
    requires Terminated(t0, 0)
    ensures Scan(t0, Len(t0, 0), t0, 0, [])
  {
  }

  /** A byte that is not a letter is skipped: nothing is found there and
      nothing is folded. */
  lemma ScanSkip(t0: seq<byte>, n: nat, a: seq<byte>, pos: nat, done: seq<seq<byte>>)
    requires Scan(t0, n, a, pos, done) && pos < n && !IsAlpha(t0[pos])
    ensures Scan(t0, n, a, pos + 1, done)
  {
    assert a[..n][pos] == t0[..n][pos];
  }

  /** A run of a single letter is passed over: it is no word and nothing is
      folded. */
  lemma ScanShort(t0: seq<byte>, n: nat, a: seq<byte>, pos: nat, done: seq<seq<byte>>)
    requires Scan(t0, n, a, pos, done) && pos < n && IsAlpha(t0[pos])
    requires DT.RunEnd(t0[..n], pos + 1) == pos + 1
    ensures Scan(t0, n, a, pos + 1, done)
  {
    assert a[..n][pos] == t0[..n][pos];
    RunEndSame(a[..n], t0[..n], pos + 1);
  }

  /** A run of at least two letters, from `pos` to `e`, is found as its
      folded word and folded in place. */
  lemma {:induction false} ScanRun(t0: seq<byte>, n: nat, a: seq<byte>, pos: nat, e: nat, done: seq<seq<byte>>)
    requires Scan(t0, n, a, pos, done) && pos < n && IsAlpha(t0[pos])
    requires e == DT.RunEnd(t0[..n], pos + 1) && e > pos + 1
    ensures e <= n && FoldWord(a[pos..e]) == FoldWord(t0[pos..e])
    ensures Scan(t0, n, FoldedAt(a, pos, e - pos), e, done + [FoldWord(t0[pos..e])])
  {
    var t, p := t0[..n], a[..n];
    assert p[pos] == t[pos];
    RunEndSame(p, t, pos + 1);
    assert p[pos..e] == t[pos..e] == a[pos..e] == t0[pos..e];
    assert DT.Found(t, pos) == [FoldWord(t[pos..e])] + DT.Found(t, e);
    FoldedFront(a, pos, e, n);
  }

  /** Folding the run from `pos` to `e` within the first `n` bytes leaves
      the bytes from `e` on alone. */
  lemma FoldedFront(a: seq<byte>, pos: nat, e: nat, n: nat)
    requires pos <= e <= n <= |a|
    ensures var b := FoldedAt(a, pos, e - pos);
      b[..n] == a[..n][..pos] + FoldWord(a[..n][pos..e]) + a[..n][e..]
      && forall k :: e <= k < |b| ==> b[k] == a[k]
  {
    var b := FoldedAt(a, pos, e - pos);
    var x, y := a[..pos] + FoldWord(a[pos..e]), a[e..];
    assert b == x + y && |x| == e;
    assert b[..n] == x + y[..n - e];
    assert a[..n][..pos] == a[..pos] && a[..n][pos..e] == a[pos..e] && a[..n][e..] == y[..n - e];
    forall k | e <= k < |b| ensures b[k] == a[k] {
      assert b[k] == y[k - e];
    }
  }

  /** Two texts that agree from `k` on have the same run end at `k`. */
  lemma {:induction false} RunEndSame(x: seq<byte>, y: seq<byte>, k: nat)
    requires |x| == |y| && k <= |x| && forall i :: k <= i < |x| ==> x[i] == y[i]
    ensures DT.RunEnd(x, k) == DT.RunEnd(y, k)
    decreases |x| - k
  {
    if k < |x| {
      RunEndSame(x, y, k + 1);
    }
  }

  /** At the end of the string every word has been found and the string is
      folded. */
  lemma ScanEnd(t0: seq<byte>, n: nat, a: seq<byte>, done: seq<seq<byte>>)
    requires Scan(t0, n, a, n, done)
    ensures done == DT.Words(t0[..n]) && a == DT.Folding(t0[..n], 0) + t0[n..]
  {
    assert a == a[..n] + a[n..];
    assert a[n..] == t0[n..];
  }

  /** One more word tallied. */
  lemma TallyOne(m: map<seq<byte>, nat>, done: seq<seq<byte>>, w: seq<byte>)
    ensures DT.Tally(m, done + [w]) == AddOne(DT.Tally(m, done), w)
  {
    DT.TallyConcat(m, done, [w]);
    assert DT.Tally(AddOne(DT.Tally(m, done), w), []) == AddOne(DT.Tally(m, done), w);
  }

  /** The inner loop of `dict_add_words_from_string` that skips what is no
      letter: it stops at the next letter, or at the NUL, where the whole
      function returns `TRUE`. */
  method SkipBlanks(s: array<byte>, pos: nat, ghost t0: seq<byte>, ghost n: nat, ghost done: seq<seq<byte>>)
    returns (more: bool, p: nat)
    requires Scan(t0, n, s[..], pos, done)
    ensures pos <= p && Scan(t0, n, s[..], p, done)
    ensures (more <==> p < n) && (more ==> IsAlpha(t0[p]) && IsAlpha(s[p]))
  {
    p := pos;
    while !IsAlpha(s[p])
      invariant pos <= p && Scan(t0, n, s[..], p, done)
      decreases n - p
    {
      if s[p] != 0 {
        ScanSkip(t0, n, s[..], p, done);
        p := p + 1;
      } else {
        more := false;
        return;
      }
    }
    more := true;
  }

  /** The inner loop of `dict_add_words_from_string` over the letters of a
      run, from `k` on: it stops at the first byte that is no letter, at
      the NUL at the latest. */
  method RunEndAt(s: array<byte>, k: nat, ghost t0: seq<byte>, ghost n: nat) returns (e: nat)
    requires n < s.Length && n <= |t0| && k <= n && s[n] == 0
    requires forall i :: k <= i < n ==> s[i] == t0[i]
    ensures e == DT.RunEnd(t0[..n], k)
    ensures forall i :: k <= i < e ==> IsAlpha(s[i])
  {
    e := k;
    while IsAlpha(s[e])
      invariant k <= e <= n && DT.RunEnd(t0[..n], k) == DT.RunEnd(t0[..n], e)
      invariant forall i :: k <= i < e ==> IsAlpha(s[i])
      decreases n - e
    {
      assert t0[..n][e] == s[e];
      e := e + 1;
    }
  }

  /** What `dict_add_words_from_string` does around `dict_add` for the run
      from `pos` to `e`: the byte at `e` saved and replaced by a NUL, the
      run folded in place, the byte restored. */
  lemma RestoreRun(a: seq<byte>, b: seq<byte>, c: seq<byte>, pos: nat, e: nat)
    requires pos <= e < |a| && b == a[e := 0]
    requires c == FoldedAt(b, pos, e - pos)[e := a[e]]
    ensures c == FoldedAt(a, pos, e - pos) && b[pos..e] == a[pos..e]
  {
    var r := FoldedAt(a, pos, e - pos);
    assert b[pos..e] == a[pos..e];
    forall k | 0 <= k < |c| ensures c[k] == r[k] {
      if k == e {
        assert r[k] == a[e..][0];
      } else if k < pos {
        assert c[k] == b[..pos][k];
      } else if k < e {
        assert c[k] == FoldWord(b[pos..e])[k - pos];
      } else {
        assert c[k] == b[e..][k - e];
        assert r[k] == a[e..][k - e];
      }
    }
  }

  /** The C string at `pos` ends at `e` once a NUL is written there over
      the byte after a run of letters. */
  lemma LenIs(a: seq<byte>, b: seq<byte>, pos: nat, e: nat)
    requires pos < e < |a| && b == a[e := 0]
    requires IsAlpha(a[pos]) && forall i :: pos + 1 <= i < e ==> IsAlpha(a[i])
    ensures Terminated(b, pos) && Len(b, pos) == e - pos
  {
    assert b[e] == 0;
    assert forall i :: pos <= i < e ==> b[i] != 0;
  }
}
