/**
 * The slot array of `dict_used_callback`: the nodes kept so far at its
 * front, a NIL after them while there is room, and the steps by which the
 * callback inserts a node. Also the start index of its shifting loop as
 * written, which runs below slot 0 when there is a single slot.
 */
module Slots {
  import opened Common
  import opened TernaryNodes
  import opened Selection

  /** The slot array `a` holds the nodes `kept` in its first slots and,
      when there is room left, a NIL right after them. */
  ghost predicate Holds(a: seq<int>, kept: seq<int>)
  {
    |kept| <= |a| && a[..|kept|] == kept && (|kept| < |a| ==> a[|kept|] == NIL)
  }

  /** The size `dict_string_callback` accumulates for the nodes `xs`: the
      depth plus one, times the count, of each. */
  function Volume(arena: seq<Node>, xs: seq<int>): nat
    decreases |xs|
  {
    if xs == [] then 0
    else Volume(arena, xs[..|xs| - 1]) + (Depth(arena, xs[|xs| - 1]) + 1) * Count(arena, xs[|xs| - 1])
  }

  /** The callback data while `dict_used_callback` selects, on values:
      the slot array holds the kept nodes, which are nodes of the arena,
      and `size` is the total length of their words with a NUL each. */
  ghost predicate ChoiceOk(arena: seq<Node>, a: seq<int>, kept: seq<int>, size: nat)
  {
    Holds(a, kept)
    && (forall k :: 0 <= k < |kept| ==> 0 <= kept[k] < |arena|)
    && size == Weight(arena, kept)
  }

  /** The search loop stops at the slot `Slot` describes. */
  lemma {:induction false} SlotAt(arena: seq<Node>, kept: seq<int>, c: nat, i: nat)
    requires i <= |kept| && forall j :: 0 <= j < i ==> Count(arena, kept[j]) >= c
    requires i < |kept| ==> Count(arena, kept[i]) < c
    ensures Slot(arena, kept, c) == i
  {
    if i > 0 {
      SlotAt(arena, kept[1..], c, i - 1);
    }
  }

  /** The weight of the kept nodes counts the last one. */
  lemma WeightLast(arena: seq<Node>, kept: seq<int>)
    requires kept != []
    ensures Weight(arena, kept) == Weight(arena, kept[..|kept| - 1]) + Depth(arena, kept[|kept| - 1]) + 1
  {
  }

  /** The slots `a` with those from `i + 1` up to `top` taken from one
      below: slot `i` is doubled and slot `top` is overwritten. */
  function ShiftedUp(a: seq<int>, i: nat, top: nat): (r: seq<int>)
    requires i <= top < |a|
    ensures |r| == |a|
  {
    a[..i + 1] + a[i..top] + a[top + 1..]
  }

  /** The shifting loop, run from the highest slot `top` down: every slot
      from `i + 1` to `top` takes the node of the slot below it. */
  method ShiftUp(a: array<int>, i: nat, top: nat)
    requires i <= top < a.Length
    modifies a
    ensures a[..] == ShiftedUp(old(a[..]), i, top)
  {
    ghost var a0 := a[..];
    var j := top;
    while j > i
      invariant i <= j <= top
      invariant forall k :: 0 <= k <= j ==> a[k] == a0[k]
      invariant forall k :: j < k <= top ==> a[k] == a0[k - 1]
      invariant forall k :: top < k < a.Length ==> a[k] == a0[k]
    {
      a[j] := a[j - 1];
      j := j - 1;
    }
    Shifted(a0, a[..], i, top);
  }

  /** The shift followed by the store of `x` in slot `i`. */
  method ShiftIn(a: array<int>, i: nat, top: nat, x: int)
    requires i <= top < a.Length
    modifies a
    ensures a[..] == ShiftedUp(old(a[..]), i, top)[i := x]
  {
    ShiftUp(a, i, top);
    a[i] := x;
  }

  /** Bytes that are `a` with the slots `i + 1 .. top` taken from one below. */
  lemma Shifted(a: seq<int>, b: seq<int>, i: nat, top: nat)
    requires i <= top < |a| == |b|
    requires forall k :: 0 <= k <= i ==> b[k] == a[k]
    requires forall k :: i < k <= top ==> b[k] == a[k - 1]
    requires forall k :: top < k < |a| ==> b[k] == a[k]
    ensures b == ShiftedUp(a, i, top)
  {
    var r := ShiftedUp(a, i, top);
    forall k | 0 <= k < |b| ensures b[k] == r[k] {
      if i < k <= top {
        assert r[k] == a[i..top][k - i - 1];
      } else if k > top {
        assert r[k] == a[top + 1..][k - top - 1];
      }
    }
  }

  /** The whole insertion into a taken slot `i`: after the shift from the
      right top slot and the store of `x`, the array holds the kept nodes
      with `x` inserted, cut to the number of slots, and the size counts
      `x` and no longer the node `dropped` from a full array. */
  lemma PlacedShifted(arena: seq<Node>, a: seq<int>, b: seq<int>, kept: seq<int>, size: nat,
                      i: nat, top: nat, x: int, dropped: nat)
    requires ChoiceOk(arena, a, kept, size) && 0 <= x < |arena| && i < |kept| && i < |a|
    requires top == if |kept| == |a| then |a| - 1 else if |kept| + 1 < |a| then |kept| + 1 else |kept|
    requires dropped == if |kept| == |a| then Depth(arena, kept[|a| - 1]) + 1 else 0
    requires b == ShiftedUp(a, i, top)
    ensures dropped <= size
    ensures ChoiceOk(arena, b[i := x], Trim(kept[..i] + [x] + kept[i..], |a|), size - dropped + Depth(arena, x) + 1)
  {
    ShiftInserted(a, b, kept, i, top, x);
    InsertRange(arena, kept, i, x, |a|);
    InsertWeight(arena, kept, i, x, |a|);
    if |kept| == |a| {
      WeightLast(arena, kept);
    }
  }

  /** The whole insertion into the first free slot: the array holds the
      kept nodes and `x`, and the size counts `x`. */
  lemma PlacedFree(arena: seq<Node>, a: seq<int>, b: seq<int>, kept: seq<int>, size: nat, x: int)
    requires ChoiceOk(arena, a, kept, size) && 0 <= x < |arena| && |kept| < |a|
    requires b == if |kept| + 1 < |a| then a[|kept| + 1 := NIL] else a
    ensures ChoiceOk(arena, b[|kept| := x], Trim(kept[..|kept|] + [x] + kept[|kept|..], |a|), size + Depth(arena, x) + 1)
  {
    AppendInserted(a, b, kept, x);
    InsertRange(arena, kept, |kept|, x, |a|);
    InsertWeight(arena, kept, |kept|, x, |a|);
  }

  /** After the shift from the right top slot and the store of `x` in slot
      `i`, the array holds the kept nodes with `x` inserted, cut to the
      number of slots. */
  lemma ShiftInserted(a: seq<int>, b: seq<int>, kept: seq<int>, i: nat, top: nat, x: int)
    requires Holds(a, kept) && i < |kept|
    requires top == if |kept| == |a| then |a| - 1 else if |kept| + 1 < |a| then |kept| + 1 else |kept|
    requires b == ShiftedUp(a, i, top)
    ensures Holds(b[i := x], Trim(kept[..i] + [x] + kept[i..], |a|))
  {
    var c := b[i := x];
    var n := kept[..i] + [x] + kept[i..];
    var r := Trim(n, |a|);
    assert |c| == |a|;
    forall k | 0 <= k < |r| ensures c[k] == r[k] {
      assert r[k] == n[k];
      if k < i {
        assert c[k] == a[k] == kept[k];
      } else if k > i {
        assert c[k] == a[k - 1] == kept[k - 1];
      }
    }
    if |r| < |a| {
      assert c[|r|] == a[|kept|];
    }
  }

  /** Storing `x` in the first free slot, with a NIL moved after it when
      there is room, appends `x` to the kept nodes. */
  lemma AppendInserted(a: seq<int>, b: seq<int>, kept: seq<int>, x: int)
    requires Holds(a, kept) && |kept| < |a|
    requires b == if |kept| + 1 < |a| then a[|kept| + 1 := NIL] else a
    ensures var i := |kept|; Holds(b[i := x], Trim(kept[..i] + [x] + kept[i..], |a|))
  {
    var i := |kept|;
    assert kept[..i] + [x] + kept[i..] == kept + [x];
    assert b[i := x][..i + 1] == kept + [x];
  }

  /** The kept nodes with an arena node inserted are arena nodes. */
  lemma InsertRange(arena: seq<Node>, kept: seq<int>, i: nat, x: int, max: nat)
    requires i <= |kept| && 0 <= x < |arena|
    requires forall k :: 0 <= k < |kept| ==> 0 <= kept[k] < |arena|
    ensures var r := Trim(kept[..i] + [x] + kept[i..], max); forall k :: 0 <= k < |r| ==> 0 <= r[k] < |arena|
  {
    var n := kept[..i] + [x] + kept[i..];
    assert forall k :: 0 <= k < |n| ==> n[k] == x || n[k] in kept;
  }

  /** The weight after an insertion into slot `i`: the new node counts, and
      the node dropped from the last slot of a full array no longer does. */
  lemma InsertWeight(arena: seq<Node>, kept: seq<int>, i: nat, x: int, max: nat)
    requires i <= |kept| <= max && i < max
    ensures Weight(arena, Trim(kept[..i] + [x] + kept[i..], max))
         == Weight(arena, kept) + Depth(arena, x) + 1 - (if |kept| == max then Depth(arena, kept[max - 1]) + 1 else 0)
  {
    var n := kept[..i] + [x] + kept[i..];
    if |kept| < max {
      assert Trim(n, max) == n;
      WeightConcat(arena, kept[..i] + [x], kept[i..]);
      WeightConcat(arena, kept[..i], [x]);
      WeightConcat(arena, kept[..i], kept[i..]);
      assert kept[..i] + kept[i..] == kept;
      assert Weight(arena, [x]) == Depth(arena, x) + 1 by {
        assert [x][..0] == [];
      }
    } else {
      var mid := kept[i..max - 1];
      assert Trim(n, max) == kept[..i] + [x] + mid;
      assert kept == kept[..i] + mid + [kept[max - 1]];
      WeightConcat(arena, kept[..i] + [x], mid);
      WeightConcat(arena, kept[..i], [x]);
      WeightConcat(arena, kept[..i] + mid, [kept[max - 1]]);
      WeightConcat(arena, kept[..i], mid);
      assert Weight(arena, [x]) == Depth(arena, x) + 1 by {
        assert [x][..0] == [];
      }
      assert Weight(arena, [kept[max - 1]]) == Depth(arena, kept[max - 1]) + 1 by {
        assert [kept[max - 1]][..0] == [];
      }
    }
  }

  // ----- the shift of `dict_used_callback` as written -----

  /** The index `j` the shifting loop of `dict_used_callback` starts from as
      written, in the 32-bit `unsigned int` arithmetic of the source: `e` is
      where the scan for the first free slot after the insertion slot
      stopped, `max` when every slot is taken. The loop first copies slot
      `j` to slot `j + 1`. */
  function ShiftStart(e: nat, max: nat): (j: nat)
    ensures j <= UINT_MAX
  {
    var m := UINT_MAX + 1;
    if e == max then (e + m - 2) % m
    else if e + 1 == max then (e + m - 1) % m
    else e % m
  }

  /** With two slots or more, the loop as written starts one below the top
      slot the corrected loop starts from, so the two copy the same slots. */
  lemma ShiftStartIntended(e: nat, max: nat)
    requires 2 <= max <= UINT_MAX && 1 <= e <= max
    ensures ShiftStart(e, max) + 1 == if e == max then max - 1 else if e + 1 < max then e + 1 else e
  {
  }

  /** With a single slot, holding a node of count 1, a node of count 2
      takes slot 0, every slot is taken, and the loop as written starts
      from `j == UINT_MAX`: it reads slot `UINT_MAX` of a one-slot array
      and writes slot `UINT_MAX + 1`, which wraps to 0. */
  lemma ShiftStartUnderflow(arena: seq<Node>)
    requires |arena| == 2 && arena[0].count == 1 && arena[1].count == 2
    ensures Slot(arena, [0], Count(arena, 1)) == 0
    ensures ShiftStart(1, 1) == UINT_MAX && ShiftStart(1, 1) >= 1
  {
  }
}
