/**
 * The selection `dict_get_most_used` makes through `dict_used_callback`:
 * of the nodes the traversal hands over, keep at most `max`, ordered by
 * decreasing count, where a node displaces the kept ones only when its
 * count is strictly greater. This module states what the callback array
 * holds after each call as a function of the nodes seen so far, and
 * proves that it holds the `max` best nodes in order, where "better"
 * means a greater count, or an equal count and an earlier visit.
 */
module Selection {
  import opened Common
  import opened TernaryNodes

  /** The count of node `x`; 0 for an index outside the arena. */
  function Count(nodes: seq<Node>, x: int): nat
  {
    if 0 <= x < |nodes| then nodes[x].count else 0
  }

  /** The depth of node `x`; 0 for an index outside the arena. */
  function Depth(nodes: seq<Node>, x: int): nat
  {
    if 0 <= x < |nodes| then nodes[x].depth else 0
  }

  /** The slot the search loop of `dict_used_callback` stops at for a node
      of count `c`: the first kept node whose count is strictly smaller,
      or the end of the kept nodes. */
  function Slot(nodes: seq<Node>, kept: seq<int>, c: nat): (i: nat)
    ensures i <= |kept|
    ensures forall j :: 0 <= j < i ==> Count(nodes, kept[j]) >= c
    ensures i < |kept| ==> Count(nodes, kept[i]) < c
  {
    if kept == [] then 0
    else if Count(nodes, kept[0]) < c then 0
    else 1 + Slot(nodes, kept[1..], c)
  }

  /** The first `max` elements of `s`. */
  function Trim(s: seq<int>, max: nat): (r: seq<int>)
    ensures |r| == if |s| <= max then |s| else max
    ensures IsPrefix(r, s)
  {
    if |s| <= max then s else s[..max]
  }

  /** The kept nodes after `dict_used_callback` was handed `x`: `x` goes
      into its slot when that slot is one of the `max`, the nodes from the
      slot on move up by one, and a node pushed past the `max` slots is
      dropped. */
  function Keep(nodes: seq<Node>, kept: seq<int>, max: nat, x: int): seq<int>
  {
    var i := Slot(nodes, kept, Count(nodes, x));
    if i < max then Trim(kept[..i] + [x] + kept[i..], max) else kept
  }

  /** The kept nodes after the callback was handed the nodes `xs` in order,
      starting from none. */
  function Select(nodes: seq<Node>, xs: seq<int>, max: nat): seq<int>
    decreases |xs|
  {
    if xs == [] then []
    else Keep(nodes, Select(nodes, xs[..|xs| - 1], max), max, xs[|xs| - 1])
  }

  /** The position at which `a` is first visited in `xs`; `|xs|` when
      never. */
  function Rank(xs: seq<int>, a: int): (r: nat)
    ensures r <= |xs| && (r < |xs| <==> a in xs)
    ensures r < |xs| ==> xs[r] == a
  {
    if xs == [] then 0
    else if xs[0] == a then 0
    else 1 + Rank(xs[1..], a)
  }

  /** Node `a` ranks before node `b`: a greater count, or the same count and
      an earlier visit. */
  predicate Beats(nodes: seq<Node>, xs: seq<int>, a: int, b: int)
  {
    Count(nodes, a) > Count(nodes, b) || (Count(nodes, a) == Count(nodes, b) && Rank(xs, a) < Rank(xs, b))
  }

  /** The total length of the words of the kept nodes with one NUL each,
      which `data->size` tracks. */
  function Weight(nodes: seq<Node>, kept: seq<int>): nat
    decreases |kept|
  {
    if kept == [] then 0
    else Weight(nodes, kept[..|kept| - 1]) + Depth(nodes, kept[|kept| - 1]) + 1
  }

  /** What the kept nodes are after visiting `xs`: as many of them as
      fit, taken from `xs` without repetition, each ranking before the
      next, every node left out ranked after every kept one, and all of
      `xs` kept when it fits. */
  ghost predicate Ranked(nodes: seq<Node>, xs: seq<int>, max: nat, kept: seq<int>)
  {
    |kept| == (if |xs| <= max then |xs| else max)
    && (forall i :: 0 <= i < |kept| ==> kept[i] in xs)
    && Distinct(kept)
    && (forall i, j :: 0 <= i < j < |kept| ==> Beats(nodes, xs, kept[i], kept[j]))
    && (forall y, i :: y in xs && y !in kept && 0 <= i < |kept| ==> Beats(nodes, xs, kept[i], y))
    && (|xs| <= max ==> forall y :: y in xs ==> y in kept)
  }

  // ----- ranks and the order when one more node is visited -----

  /** A visit appended to `xs` leaves the ranks of earlier nodes alone and
      ranks the new node last. */
  lemma {:induction false} RankExtend(xs: seq<int>, x: int, a: int)
    ensures a in xs ==> Rank(xs + [x], a) == Rank(xs, a)
    ensures a !in xs && a == x ==> Rank(xs + [x], a) == |xs|
  {
    if xs != [] {
      assert (xs + [x])[1..] == xs[1..] + [x];
      RankExtend(xs[1..], x, a);
    }
  }

  /** Among the nodes of `xs`, the order is the same before and after one
      more node is visited. */
  lemma BeatsExtend(nodes: seq<Node>, xs: seq<int>, x: int, a: int, b: int)
    requires a in xs && b in xs
    ensures Beats(nodes, xs + [x], a, b) == Beats(nodes, xs, a, b)
  {
    RankExtend(xs, x, a);
    RankExtend(xs, x, b);
  }

  /** The newly visited node `x` ranks after an earlier node of at least
      its count and before one of a smaller count. */
  lemma BeatsLast(nodes: seq<Node>, xs: seq<int>, x: int, a: int)
    requires a in xs && x !in xs
    ensures Beats(nodes, xs + [x], a, x) <==> Count(nodes, a) >= Count(nodes, x)
    ensures Beats(nodes, xs + [x], x, a) <==> Count(nodes, x) > Count(nodes, a)
  {
    RankExtend(xs, x, a);
    RankExtend(xs, x, x);
  }

  // ----- one call of the callback -----

  /** The kept nodes of the old order, in the order of the new visit. */
  lemma RankedExtend(nodes: seq<Node>, xs: seq<int>, x: int, kept: seq<int>)
    requires (forall i :: 0 <= i < |kept| ==> kept[i] in xs)
    requires forall i, j :: 0 <= i < j < |kept| ==> Beats(nodes, xs, kept[i], kept[j])
    ensures forall i, j :: 0 <= i < j < |kept| ==> Beats(nodes, xs + [x], kept[i], kept[j])
  {
    forall i, j | 0 <= i < j < |kept| ensures Beats(nodes, xs + [x], kept[i], kept[j]) {
      BeatsExtend(nodes, xs, x, kept[i], kept[j]);
    }
  }

  /** A node whose slot lies past the `max` kept nodes ranks after all of
      them, and the kept nodes stay as they are. */
  lemma KeepRejected(nodes: seq<Node>, xs: seq<int>, max: nat, kept: seq<int>, x: int)
    requires Ranked(nodes, xs, max, kept) && x !in xs
    requires Slot(nodes, kept, Count(nodes, x)) >= max
    ensures Ranked(nodes, xs + [x], max, kept)
  {
    var xs' := xs + [x];
    RankedExtend(nodes, xs, x, kept);
    forall y, i | y in xs' && y !in kept && 0 <= i < |kept| ensures Beats(nodes, xs', kept[i], y) {
      if y == x {
        BeatsLast(nodes, xs, x, kept[i]);
      } else {
        BeatsExtend(nodes, xs, x, kept[i], y);
      }
    }
  }

  /** The kept nodes with `x` put into slot `i`, before any are dropped,
      are in order. */
  lemma InsertSorted(nodes: seq<Node>, xs: seq<int>, kept: seq<int>, x: int, i: nat)
    requires (forall k :: 0 <= k < |kept| ==> kept[k] in xs) && x !in xs
    requires forall p, q :: 0 <= p < q < |kept| ==> Beats(nodes, xs, kept[p], kept[q])
    requires i == Slot(nodes, kept, Count(nodes, x))
    ensures var n := kept[..i] + [x] + kept[i..];
      forall p, q :: 0 <= p < q < |n| ==> Beats(nodes, xs + [x], n[p], n[q])
  {
    var n := kept[..i] + [x] + kept[i..];
    var xs' := xs + [x];
    RankedExtend(nodes, xs, x, kept);
    forall p, q | 0 <= p < q < |n| ensures Beats(nodes, xs', n[p], n[q]) {
      if q < i {
        assert n[p] == kept[p] && n[q] == kept[q];
      } else if q == i {
        assert n[p] == kept[p] && n[q] == x;
        BeatsLast(nodes, xs, x, kept[p]);
      } else if p == i {
        assert n[q] == kept[q - 1] && n[p] == x;
        if q - 1 > i {
          assert Beats(nodes, xs, kept[i], kept[q - 1]);
        }
        BeatsLast(nodes, xs, x, kept[q - 1]);
      } else if p < i {
        assert n[p] == kept[p] && n[q] == kept[q - 1];
      } else {
        assert n[p] == kept[p - 1] && n[q] == kept[q - 1];
      }
    }
  }

  /** The kept nodes with `x` put into slot `i` are visited nodes without
      repetition. */
  lemma InsertMembers(xs: seq<int>, kept: seq<int>, x: int, i: nat)
    requires (forall k :: 0 <= k < |kept| ==> kept[k] in xs) && Distinct(kept) && x !in xs
    requires i <= |kept|
    ensures var n := kept[..i] + [x] + kept[i..];
      |n| == |kept| + 1 && (forall k :: 0 <= k < |n| ==> n[k] in xs + [x]) && Distinct(n)
      && (forall y :: y in kept ==> y in n) && x in n
  {
    var n := kept[..i] + [x] + kept[i..];
    assert n[i] == x;
    forall k | 0 <= k < |n| ensures n[k] in xs + [x] {
      if k < i {
        assert n[k] == kept[k];
      } else if k > i {
        assert n[k] == kept[k - 1];
      }
    }
    forall p, q | 0 <= p < q < |n| ensures n[p] != n[q] {
      if p < i && q > i {
        assert n[p] == kept[p] && n[q] == kept[q - 1];
      } else if p > i {
        assert n[p] == kept[p - 1] && n[q] == kept[q - 1];
      } else if q < i {
        assert n[p] == kept[p] && n[q] == kept[q];
      } else if p == i {
        assert n[q] == kept[q - 1];
      } else {
        assert n[p] == kept[p];
      }
    }
    forall y | y in kept ensures y in n {
      var k :| 0 <= k < |kept| && kept[k] == y;
      if k < i {
        assert n[k] == y;
      } else {
        assert n[k + 1] == y;
      }
    }
  }

  /** A node that takes a slot among the `max` goes in, and the kept nodes
      stay ranked. */
  lemma KeepInserted(nodes: seq<Node>, xs: seq<int>, max: nat, kept: seq<int>, x: int)
    requires Ranked(nodes, xs, max, kept) && x !in xs
    requires Slot(nodes, kept, Count(nodes, x)) < max
    ensures Ranked(nodes, xs + [x], max, Keep(nodes, kept, max, x))
  {
    var i := Slot(nodes, kept, Count(nodes, x));
    var n := kept[..i] + [x] + kept[i..];
    InsertMembers(xs, kept, x, i);
    InsertSorted(nodes, xs, kept, x, i);
    TrimKept(nodes, xs + [x], n, max);
    if |xs| < max {
      KeepFits(xs, max, kept, x, n);
    } else {
      KeepEvicts(nodes, xs, max, kept, x, i, n);
    }
  }

  /** Cutting an ordered list of distinct visited nodes to `max` keeps it
      so. */
  lemma TrimKept(nodes: seq<Node>, xs: seq<int>, n: seq<int>, max: nat)
    requires (forall k :: 0 <= k < |n| ==> n[k] in xs) && Distinct(n)
    requires forall p, q :: 0 <= p < q < |n| ==> Beats(nodes, xs, n[p], n[q])
    ensures var r := Trim(n, max);
      (forall k :: 0 <= k < |r| ==> r[k] in xs) && Distinct(r)
      && (forall p, q :: 0 <= p < q < |r| ==> Beats(nodes, xs, r[p], r[q]))
  {
    var r := Trim(n, max);
    assert forall p :: 0 <= p < |r| ==> r[p] == n[p];
  }

  /** While the kept nodes do not fill the `max` slots, every visited node
      is kept. */
  lemma KeepFits(xs: seq<int>, max: nat, kept: seq<int>, x: int, n: seq<int>)
    requires |xs| < max && |kept| == |xs| && |n| == |kept| + 1
    requires (forall y :: y in xs ==> y in kept) && (forall y :: y in kept ==> y in n) && x in n
    ensures Trim(n, max) == n && forall y :: y in xs + [x] ==> y in n
  {
  }

  /** When the kept nodes already fill the `max` slots, putting `x` into a
      slot pushes the last one out, and that one and every node left out
      before rank after all the nodes kept now. */
  lemma KeepEvicts(nodes: seq<Node>, xs: seq<int>, max: nat, kept: seq<int>, x: int, i: nat, n: seq<int>)
    requires Ranked(nodes, xs, max, kept) && x !in xs && |xs| >= max
    requires i == Slot(nodes, kept, Count(nodes, x)) && i < max && n == kept[..i] + [x] + kept[i..]
    requires |n| == |kept| + 1 && Distinct(n) && (forall y :: y in kept ==> y in n)
    requires forall p, q :: 0 <= p < q < |n| ==> Beats(nodes, xs + [x], n[p], n[q])
    ensures var r := n[..max]; forall y, k :: y in xs + [x] && y !in r && 0 <= k < |r| ==> Beats(nodes, xs + [x], r[k], y)
  {
    var xs' := xs + [x];
    var r := n[..max];
    assert |kept| == max;
    forall y, k | y in xs' && y !in r && 0 <= k < |r| ensures Beats(nodes, xs', r[k], y) {
      assert r[k] == n[k];
      assert y != x by { assert n[i] == x; }
      if y in kept {
        var q :| 0 <= q < |n| && n[q] == y;
        assert q == max;
      } else {
        assert Beats(nodes, xs, kept[i], y);
        BeatsExtend(nodes, xs, x, kept[i], y);
        assert n[i + 1] == kept[i];
        if k != i + 1 {
          if k < i + 1 {
            assert Beats(nodes, xs', n[k], n[i + 1]);
          } else {
            assert n[k] == kept[k - 1];
            BeatsExtend(nodes, xs, x, kept[k - 1], y);
          }
        }
      }
    }
  }

  /** One call of the callback keeps the nodes ranked. */
  lemma KeepRanked(nodes: seq<Node>, xs: seq<int>, max: nat, kept: seq<int>, x: int)
    requires Ranked(nodes, xs, max, kept) && x !in xs
    ensures Ranked(nodes, xs + [x], max, Keep(nodes, kept, max, x))
  {
    if Slot(nodes, kept, Count(nodes, x)) < max {
      KeepInserted(nodes, xs, max, kept, x);
    } else {
      KeepRejected(nodes, xs, max, kept, x);
    }
  }

  /** After the whole traversal the kept nodes are the best `max` of the
      visited ones, in order. */
  lemma {:induction false} SelectRanked(nodes: seq<Node>, xs: seq<int>, max: nat)
    requires Distinct(xs)
    ensures Ranked(nodes, xs, max, Select(nodes, xs, max))
    decreases |xs|
  {
    if xs != [] {
      var init := xs[..|xs| - 1];
      var x := xs[|xs| - 1];
      assert xs == init + [x];
      assert Distinct(init);
      assert x !in init;
      SelectRanked(nodes, init, max);
      KeepRanked(nodes, init, max, Select(nodes, init, max), x);
    }
  }

  /** The selection spelled out: `min(|xs|, max)` distinct visited nodes,
      counts never increasing, equal counts in visiting order, and every
      visited node left out has a count no greater than any kept one and,
      on a tie, was visited after it. */
  lemma SelectSpec(nodes: seq<Node>, xs: seq<int>, max: nat)
    requires Distinct(xs)
    ensures var r := Select(nodes, xs, max);
      |r| == (if |xs| <= max then |xs| else max)
      && (forall i :: 0 <= i < |r| ==> r[i] in xs) && Distinct(r)
      && (forall i, j :: 0 <= i < j < |r| ==> Count(nodes, r[i]) >= Count(nodes, r[j]))
      && (forall i, j :: 0 <= i < j < |r| && Count(nodes, r[i]) == Count(nodes, r[j]) ==> Rank(xs, r[i]) < Rank(xs, r[j]))
      && (forall y, i :: y in xs && y !in r && 0 <= i < |r| ==> Count(nodes, y) <= Count(nodes, r[i]))
      && (forall y, i :: y in xs && y !in r && 0 <= i < |r| && Count(nodes, y) == Count(nodes, r[i]) ==> Rank(xs, r[i]) < Rank(xs, y))
  {
    SelectRanked(nodes, xs, max);
  }

  // ----- the total size -----

  /** The size of joined node lists adds up. */
  lemma {:induction false} WeightConcat(nodes: seq<Node>, a: seq<int>, b: seq<int>)
    ensures Weight(nodes, a + b) == Weight(nodes, a) + Weight(nodes, b)
    decreases |b|
  {
    if b != [] {
      var init := b[..|b| - 1];
      assert (a + b)[..|a + b| - 1] == a + init;
      assert (a + b)[|a + b| - 1] == b[|b| - 1];
      WeightConcat(nodes, a, init);
    } else {
      assert a + b == a;
    }
  }
}
