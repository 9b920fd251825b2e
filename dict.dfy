/**
 * The dictionary of `dict.c`: a ternary search tree of case-folded words
 * with their counts, the selection of the most used words under a prefix,
 * and the export to and import from text. C strings are NUL-terminated
 * runs of bytes in an array, addressed by the index where they start.
 */
module Dict {
  import opened Common
  import opened Alpha
  import opened TernaryNodes
  import opened Selection
  import opened Slots
  import TT = TernaryTree
  import DT = DictText

  // ----- C strings -----

  /** A NUL follows index `at` somewhere: a C string starts at `at`. */
  predicate Terminated(s: seq<byte>, at: nat)
  {
    exists k :: at <= k < |s| && s[k] == 0
  }

  /** `strlen` of the C string at `at`: the distance to the first NUL. */
  function Len(s: seq<byte>, at: nat): (n: nat)
    requires Terminated(s, at)
    ensures at + n < |s| && s[at + n] == 0
    ensures forall k :: at <= k < at + n ==> s[k] != 0
    decreases |s| - at
  {
    if s[at] == 0 then 0 else 1 + Len(s, at + 1)
  }

  /** Bytes with no NUL among them, followed by a NUL, are a C string of
      their length. */
  lemma LenAppended(x: seq<byte>)
    requires forall k :: 0 <= k < |x| ==> x[k] != 0
    ensures Terminated(x + [0], 0) && Len(x + [0], 0) == |x| && (x + [0])[..|x|] == x
  {
    var s := x + [0];
    assert s[|x|] == 0;
    assert forall k :: 0 <= k < |x| ==> s[k] != 0;
  }

  /** The bytes `a` with the `n` bytes from `at` case-folded. */
  function FoldedAt(a: seq<byte>, at: nat, n: nat): (r: seq<byte>)
    requires at + n <= |a|
    ensures |r| == |a|
  {
    a[..at] + FoldWord(a[at..at + n]) + a[at + n..]
  }

  /** The case-folding loop of `dict_add` and `dict_get_most_used` on the
      C string at `at`: every upper-case letter before the NUL is lowered
      in place. Returns the length of the string. */
  method FoldString(s: array<byte>, at: nat) returns (n: nat)
    requires at < s.Length && Terminated(s[..], at)
    modifies s
    ensures n == Len(old(s[..]), at)
    ensures s[..] == FoldedAt(old(s[..]), at, n)
  {
    ghost var s0 := s[..];
    ghost var len := Len(s0, at);
    var i := at;
    while s[i] != 0
      invariant at <= i <= at + len
      invariant forall k :: 0 <= k < s.Length ==> s[k] == if at <= k < i then FoldCase(s0[k]) else s0[k]
      decreases at + len - i
    {
      if IsUpperCase(s[i]) {
        s[i] := UpperToLowerCase(s[i]);
      }
      i := i + 1;
    }
    assert s0[i] == 0;
    n := i - at;
    FoldedWithin(s0, s[..], at, n);
  }

  /** Bytes that agree with `a` outside `at .. at + n` and are the folded
      bytes of `a` inside. */
  lemma FoldedWithin(a: seq<byte>, b: seq<byte>, at: nat, n: nat)
    requires |a| == |b| && at + n <= |a|
    requires forall k :: 0 <= k < |a| ==> b[k] == if at <= k < at + n then FoldCase(a[k]) else a[k]
    ensures b == FoldedAt(a, at, n)
  {
    var r := FoldedAt(a, at, n);
    var f := FoldWord(a[at..at + n]);
    assert |r| == |b|;
    forall k | 0 <= k < |b| ensures b[k] == r[k] {
      if k < at {
        assert r[k] == a[..at][k];
      } else if k < at + n {
        assert r[k] == f[k - at];
      } else {
        assert r[k] == a[at + n..][k - at - n];
      }
    }
  }

  /** A word as `dict_add` stores it: at least two characters, none of
      them an upper-case letter, and short enough that a key buffer of
      the default size holds it whole. */
  predicate Storable(w: seq<byte>)
  {
    2 <= |w| < UINT_MAX - 1 && Folded(w)
  }

  /** Every stored word is storable. */
  ghost predicate AllStorable(keys: map<seq<byte>, nat>)
  {
    forall w :: w in keys ==> Storable(w)
  }

  // ----- the callback data -----

  /** `struct callback_data`: a bound or a counter `max`, a total `size`
      and the array `nodes` of tree nodes (NIL for NULL). The ghost `kept`
      is the list of nodes the array holds. */
  class CallbackData {
    var max: nat
    var size: nat
    var nodes: array<int>
    ghost var kept: seq<int>

    /** The data while `dict_used_callback` selects: `max` slots, the kept
        nodes at the front followed by a NIL when there is room, and `size`
        the total length of their words with a NUL each. */
    ghost predicate Choosing(arena: seq<Node>)
      reads this, nodes
    {
      1 <= max == nodes.Length && ChoiceOk(arena, nodes[..], kept, size)
    }

    /** The data while `dict_string_callback` collects: `max` counts the
        collected nodes, which fill the front of the array, and `size` is
        the length of their export. */
    ghost predicate Collecting(arena: seq<Node>)
      reads this, nodes
    {
      max <= nodes.Length && kept == nodes[..max]
      && (forall k :: 0 <= k < |kept| ==> 0 <= kept[k] < |arena|)
      && size == Volume(arena, kept)
    }

    /** The set-up in `dict_get_most_used`: `number` slots, none taken. */
    constructor Choose(arena: seq<Node>, number: nat)
      requires number >= 1
      ensures Choosing(arena) && max == number && kept == [] && fresh(nodes)
    {
      var a := new int[number];
      a[0] := NIL;
      max, size, nodes, kept := number, 0, a, [];
    }

    /** The set-up in `dict_get_words_into_string`: room for `capacity`
        nodes, none collected. */
    constructor Collect(arena: seq<Node>, capacity: nat)
      ensures Collecting(arena) && max == 0 && kept == [] && nodes.Length == capacity && fresh(nodes)
    {
      var a := new int[capacity];
      max, size, nodes, kept := 0, 0, a, [];
    }

    /** `dict_used_callback`, with the shift corrected so that it does not
        run below slot 0: finds the first kept node of a smaller count,
        moves the nodes from there up by one slot (dropping the last one
        when every slot is taken) and puts `node` in its place. */
    method UsedCallback(arena: seq<Node>, node: int) returns (ok: bool)
      requires Choosing(arena) && 0 <= node < |arena|
      modifies this`size, this`kept, nodes
      ensures ok && Choosing(arena) && nodes == old(nodes) && max == old(max)
      ensures kept == Keep(arena, old(kept), max, node)
    {
      var i := FindSlot(arena, arena[node].count);
      if i < max {
        if nodes[i] != NIL {
          PlaceShifted(arena, node, i);
        } else {
          PlaceFree(arena, node, i);
        }
      }
      ok := true;
    }

    /** The search loop of `dict_used_callback` for a node of count `count`. */
    method FindSlot(arena: seq<Node>, count: nat) returns (i: nat)
      requires Choosing(arena)
      ensures i == Slot(arena, kept, count) && i <= max
      ensures i < max ==> (nodes[i] != NIL <==> i < |kept|)
    {
      i := 0;
      while i < max && nodes[i] != NIL
        invariant i <= |kept|
        invariant forall j :: 0 <= j < i ==> Count(arena, kept[j]) >= count
      {
        if arena[nodes[i]].count < count {
          break;
        }
        i := i + 1;
      }
      SlotAt(arena, kept, count, i);
    }

    /** The insertion into a taken slot `i`: the scan for the first free
        slot, the drop of the last node when there is none, the shift and
        the store. The index of the shift is an `int` here, so that with a
        single slot it stops at slot 0 instead of wrapping around as the
        `unsigned int` of the source does (`Slots.ShiftStartUnderflow`);
        the size loses the dropped word and gains the stored one in a
        single update. */
    method PlaceShifted(arena: seq<Node>, node: int, i: nat)
      requires Choosing(arena) && 0 <= node < |arena| && i < |kept| && i < max
      modifies this`size, this`kept, nodes
      ensures Choosing(arena)
      ensures kept == Trim(old(kept)[..i] + [node] + old(kept)[i..], max)
    {
      ghost var a0 := nodes[..];
      ghost var k0 := kept;
      var j := i + 1;
      while j < max && nodes[j] != NIL
        invariant i + 1 <= j <= |kept|
      {
        j := j + 1;
      }
      var dropped := 0;
      if j == max {
        assert |k0| == |a0| && nodes[j - 1] == k0[|a0| - 1];
        j := j - 1;
        dropped := arena[nodes[j]].depth + 1;
        j := j - 1;
      } else {
        assert j == |k0| < |a0|;
        if j + 1 == max {
          j := j - 1;
        }
      }
      PlacedShifted(arena, a0, ShiftedUp(a0, i, j + 1), k0, size, i, j + 1, node, dropped);
      size, kept := size - dropped + arena[node].depth + 1, Trim(k0[..i] + [node] + k0[i..], |a0|);
      assert nodes[..] == a0;
      ShiftIn(nodes, i, j + 1, node);
    }

    /** The insertion into the first free slot `i`: the NIL moves up when
        there is room, and `node` is stored. */
    method PlaceFree(arena: seq<Node>, node: int, i: nat)
      requires Choosing(arena) && 0 <= node < |arena| && i == |kept| && i < max
      modifies this`size, this`kept, nodes
      ensures Choosing(arena)
      ensures kept == Trim(old(kept)[..i] + [node] + old(kept)[i..], max)
    {
      ghost var a0 := nodes[..];
      ghost var k0 := kept;
      PlacedFree(arena, a0, if i + 1 < max then a0[i + 1 := NIL] else a0, k0, size, node);
      size, kept := size + arena[node].depth + 1, Trim(k0[..i] + [node] + k0[i..], max);
      assert nodes[..] == a0;
      if i + 1 < max {
        nodes[i + 1] := NIL;
      }
      nodes[i] := node;
    }

    /** `dict_string_callback`: appends `node` and adds the length of its
        lines to `size`. */
    method StringCallback(arena: seq<Node>, node: int) returns (ok: bool)
      requires Collecting(arena) && 0 <= node < |arena| && max < nodes.Length
      modifies this, nodes
      ensures ok && Collecting(arena) && nodes == old(nodes)
      ensures kept == old(kept) + [node] && max == old(max) + 1
    {
      size := size + (arena[node].depth + 1) * arena[node].count;
      nodes[max] := node;
      max := max + 1;
      kept := kept + [node];
      ok := true;
      assert kept[..|kept| - 1] == old(kept);
    }
  }

  /** `dict_used_callback` and `dict_string_callback` never stop the
      traversal. */
  function Accepts(x: int): bool
  {
    true
  }

  /** A traversal whose callback accepts every node runs to its end. */
  lemma StoppedAccepted(ok: bool, v: seq<int>, all: seq<int>)
    requires Stopped(ok, v, all, Accepts)
    ensures ok && v == all
  {
  }
}
