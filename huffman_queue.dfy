/**
 * The priority queue of the Huffman encoder: a binary min-heap of tree node
 * indices, ordered by the frequency of the node, stored from slot 1 on.
 */
module HuffmanQueue {

  /** Every slot from 1 to `n` holds an index into `freq`. */
  ghost predicate InRange(s: seq<int>, n: nat, freq: seq<nat>)
  {
    n < |s| && forall k :: 1 <= k <= n ==> 0 <= s[k] < |freq|
  }

  /** Slot `a` holds an element no more frequent than the one in slot `b`. */
  ghost predicate NoMore(s: seq<int>, freq: seq<nat>, a: nat, b: nat)
  {
    a < |s| && b < |s| && 0 <= s[a] < |freq| && 0 <= s[b] < |freq| && freq[s[a]] <= freq[s[b]]
  }

  /** The heap order: no node is more frequent than its children. */
  ghost predicate HeapOrdered(s: seq<int>, n: nat, freq: seq<nat>)
  {
    forall k :: 2 <= k <= n ==> NoMore(s, freq, k / 2, k)
  }

  /** In a heap the first slot holds a least frequent element. */
  lemma {:induction false} HeapMinAt(s: seq<int>, n: nat, freq: seq<nat>, k: nat)
    requires InRange(s, n, freq) && HeapOrdered(s, n, freq) && 1 <= k <= n
    ensures freq[s[1]] <= freq[s[k]]
    decreases k
  {
    if k > 1 {
      assert NoMore(s, freq, k / 2, k);
      HeapMinAt(s, n, freq, k / 2);
    }
  }

  lemma HeapMin(s: seq<int>, n: nat, freq: seq<nat>)
    requires InRange(s, n, freq) && HeapOrdered(s, n, freq) && 1 <= n
    ensures forall x :: x in multiset(s[1..n + 1]) ==> freq[s[1]] <= freq[x]
  {
    forall x | x in multiset(s[1..n + 1]) ensures freq[s[1]] <= freq[x] {
      var j :| 0 <= j < n && s[1..n + 1][j] == x;
      HeapMinAt(s, n, freq, j + 1);
    }
  }

  /** The heap order everywhere except between `i` and its parent. */
  ghost predicate OrderedExceptAbove(s: seq<int>, n: nat, freq: seq<nat>, i: nat)
  {
    forall k :: 2 <= k <= n && k != i ==> NoMore(s, freq, k / 2, k)
  }

  /** The heap order everywhere except between `i` and its children. */
  ghost predicate OrderedExceptBelow(s: seq<int>, n: nat, freq: seq<nat>, i: nat)
  {
    forall k :: 2 <= k <= n && k / 2 != i ==> NoMore(s, freq, k / 2, k)
  }

  /** The parent of `i` is no more frequent than the children of `i`. */
  ghost predicate SkipsHole(s: seq<int>, n: nat, freq: seq<nat>, i: nat)
  {
    i > 1 ==> forall k :: 2 <= k <= n && k / 2 == i ==> NoMore(s, freq, i / 2, k)
  }

  function Swapped(s: seq<int>, i: nat, j: nat): seq<int>
    requires i < |s| && j < |s|
  {
    s[i := s[j]][j := s[i]]
  }

  /** One step of moving an element up: swapping it with a strictly more
      frequent parent moves the exception one level up. */
  lemma SiftUpStep(s: seq<int>, n: nat, freq: seq<nat>, i: nat)
    requires InRange(s, n, freq) && 1 < i <= n
    requires OrderedExceptAbove(s, n, freq, i) && SkipsHole(s, n, freq, i)
    requires freq[s[i]] < freq[s[i / 2]]
    ensures InRange(Swapped(s, i, i / 2), n, freq)
    ensures OrderedExceptAbove(Swapped(s, i, i / 2), n, freq, i / 2)
    ensures SkipsHole(Swapped(s, i, i / 2), n, freq, i / 2)
  {
    var t := Swapped(s, i, i / 2);
    var p := i / 2;
    forall k | 2 <= k <= n && k != p ensures NoMore(t, freq, k / 2, k) {
      if k == i {
      } else if k / 2 == i {
        assert NoMore(s, freq, p, k);
      } else if k / 2 == p {
        assert NoMore(s, freq, p, k);
      } else {
        assert NoMore(s, freq, k / 2, k);
      }
    }
    if p > 1 {
      forall k | 2 <= k <= n && k / 2 == p ensures NoMore(t, freq, p / 2, k) {
        assert NoMore(s, freq, p / 2, p);
        if k != i {
          assert NoMore(s, freq, p, k);
        }
      }
    }
  }

  /** One step of moving an element down: swapping it with its less frequent
      child, strictly less frequent than it, moves the exception one level down. */
  lemma SiftDownStep(s: seq<int>, n: nat, freq: seq<nat>, i: nat, g: nat)
    requires InRange(s, n, freq) && 1 <= i && 2 * i <= n
    requires OrderedExceptBelow(s, n, freq, i) && SkipsHole(s, n, freq, i)
    requires g == 2 * i || (g == 2 * i + 1 && g <= n)
    requires freq[s[g]] <= freq[s[2 * i]]
    requires 2 * i + 1 <= n ==> freq[s[g]] <= freq[s[2 * i + 1]]
    requires freq[s[g]] < freq[s[i]]
    ensures InRange(Swapped(s, i, g), n, freq)
    ensures OrderedExceptBelow(Swapped(s, i, g), n, freq, g)
    ensures SkipsHole(Swapped(s, i, g), n, freq, g)
  {
    var t := Swapped(s, i, g);
    assert g / 2 == i;
    forall k | 2 <= k <= n && k / 2 != g ensures NoMore(t, freq, k / 2, k) {
      if k == i {
        assert NoMore(s, freq, i / 2, g);
      } else if k / 2 == i {
        assert k == 2 * i || k == 2 * i + 1;
      } else {
        assert NoMore(s, freq, k / 2, k);
      }
    }
    forall k | 2 <= k <= n && k / 2 == g ensures NoMore(t, freq, g / 2, k) {
      assert NoMore(s, freq, g, k);
    }
  }

  /** What holds of the slots at each step of moving an element down. */
  ghost predicate SiftingDown(s: seq<int>, n: nat, freq: seq<nat>, i: nat, elems: multiset<int>)
  {
    1 <= i && InRange(s, n, freq) && OrderedExceptBelow(s, n, freq, i)
    && SkipsHole(s, n, freq, i) && multiset(s[1..n + 1]) == elems
  }

  /** The source's loop test and choice of child, as one step of sifting down. */
  lemma SiftDownAdvance(s: seq<int>, n: nat, freq: seq<nat>, i: nat, g: nat, elems: multiset<int>)
    requires SiftingDown(s, n, freq, i, elems) && 2 * i <= n
    requires freq[s[i]] > freq[s[2 * i]] || (2 * i + 1 <= n && freq[s[i]] > freq[s[2 * i + 1]])
    requires g == if 2 * i + 1 <= n && freq[s[2 * i]] > freq[s[2 * i + 1]] then 2 * i + 1 else 2 * i
    ensures g < |s| && SiftingDown(Swapped(s, i, g), n, freq, g, elems)
  {
    SiftDownStep(s, n, freq, i, g);
    SwapKeepsElements(s, i, g, 1, n + 1, elems);
  }

  /** The source's loop test failing ends sifting down with a heap. */
  lemma SiftDownStop(s: seq<int>, n: nat, freq: seq<nat>, i: nat, elems: multiset<int>)
    requires SiftingDown(s, n, freq, i, elems)
    requires !(2 * i <= n && (freq[s[i]] > freq[s[2 * i]] || (2 * i + 1 <= n && freq[s[i]] > freq[s[2 * i + 1]])))
    ensures InRange(s, n, freq) && HeapOrdered(s, n, freq) && multiset(s[1..n + 1]) == elems
  {
    SiftDownDone(s, n, freq, i);
  }

  /** Exchanging two slots of a range keeps its elements. */
  lemma SwapKeepsElements(s: seq<int>, i: nat, j: nat, lo: nat, hi: nat, elems: multiset<int>)
    requires lo <= i < hi && lo <= j < hi && hi <= |s| && multiset(s[lo..hi]) == elems
    ensures multiset(Swapped(s, i, j)[lo..hi]) == elems
  {
    var t := Swapped(s, i, j);
    assert t[lo..hi] == s[lo..hi][i - lo := s[j]][j - lo := s[i]];
  }

  /** Appending an element to a heap breaks the order at most above it. */
  lemma AppendStart(s: seq<int>, n: nat, freq: seq<nat>, elem: int)
    requires InRange(s, n, freq) && HeapOrdered(s, n, freq) && n + 1 < |s|
    requires 0 <= elem < |freq|
    ensures InRange(s[n + 1 := elem], n + 1, freq)
    ensures OrderedExceptAbove(s[n + 1 := elem], n + 1, freq, n + 1)
    ensures SkipsHole(s[n + 1 := elem], n + 1, freq, n + 1)
    ensures multiset(s[n + 1 := elem][1..n + 2]) == multiset(s[1..n + 1]) + multiset{elem}
  {
    var t := s[n + 1 := elem];
    forall k | 2 <= k <= n + 1 && k != n + 1 ensures NoMore(t, freq, k / 2, k) {
      assert NoMore(s, freq, k / 2, k);
    }
    assert t[1..n + 2] == s[1..n + 1] + [elem];
  }

  /** Moving the last element to the top breaks the order at most below it. */
  lemma RemoveStart(s: seq<int>, n: nat, freq: seq<nat>)
    requires InRange(s, n, freq) && HeapOrdered(s, n, freq) && 1 <= n
    ensures InRange(s[1 := s[n]], n - 1, freq)
    ensures OrderedExceptBelow(s[1 := s[n]], n - 1, freq, 1)
    ensures SkipsHole(s[1 := s[n]], n - 1, freq, 1)
  {
    var t := s[1 := s[n]];
    forall k | 2 <= k <= n - 1 && k / 2 != 1 ensures NoMore(t, freq, k / 2, k) {
      assert NoMore(s, freq, k / 2, k);
    }
  }

  /** Moving the last element to the top removes the first one. */
  lemma RemoveElements(s: seq<int>, n: nat)
    requires 1 <= n < |s|
    ensures multiset(s[1 := s[n]][1..n]) == multiset(s[1..n + 1]) - multiset{s[1]}
  {
    var t := s[1 := s[n]];
    assert s[1..n + 1] == [s[1]] + s[2..n + 1];
    if n > 1 {
      assert t[1..n] == [s[n]] + s[2..n];
      assert s[2..n + 1] == s[2..n] + [s[n]];
    }
  }

  /** Sifting up stops where the element is no less frequent than its parent. */
  lemma SiftUpDone(s: seq<int>, n: nat, freq: seq<nat>, i: nat)
    requires InRange(s, n, freq) && 1 <= i <= n
    requires OrderedExceptAbove(s, n, freq, i)
    requires i == 1 || freq[s[i / 2]] <= freq[s[i]]
    ensures HeapOrdered(s, n, freq)
  {
    forall k | 2 <= k <= n ensures NoMore(s, freq, k / 2, k) {
      if k != i {
        assert NoMore(s, freq, k / 2, k);
      }
    }
  }

  /** Sifting down stops where the element has no strictly less frequent child. */
  lemma SiftDownDone(s: seq<int>, n: nat, freq: seq<nat>, i: nat)
    requires InRange(s, n, freq) && 1 <= i
    requires OrderedExceptBelow(s, n, freq, i)
    requires 2 * i <= n ==> freq[s[i]] <= freq[s[2 * i]]
    requires 2 * i + 1 <= n ==> freq[s[i]] <= freq[s[2 * i + 1]]
    ensures HeapOrdered(s, n, freq)
  {
    forall k | 2 <= k <= n ensures NoMore(s, freq, k / 2, k) {
      if k / 2 == i {
        assert k == 2 * i || k == 2 * i + 1;
      } else {
        assert NoMore(s, freq, k / 2, k);
      }
    }
  }

  /** The source's tests for a left and a right child. */
  lemma ChildTests(n: nat, i: nat)
    ensures i <= n / 2 <==> 2 * i <= n
    ensures i < (n + 1) / 2 <==> 2 * i + 1 <= n
  {
  }

  /** A frequency outside the queue may change without disturbing the heap. */
  lemma HeapOrderedFrame(s: seq<int>, n: nat, freq: seq<nat>, c: nat, v: nat)
    requires InRange(s, n, freq) && HeapOrdered(s, n, freq) && c < |freq|
    requires c !in multiset(s[1..n + 1])
    ensures InRange(s, n, freq[c := v]) && HeapOrdered(s, n, freq[c := v])
  {
    forall k | 1 <= k <= n ensures s[k] != c {
      assert s[k] == s[1..n + 1][k - 1];
    }
    forall k | 2 <= k <= n ensures NoMore(s, freq[c := v], k / 2, k) {
      assert NoMore(s, freq, k / 2, k);
    }
  }

  class PriorityQueue {
    /** `slots[1..size]` is the heap; the source keeps the size in slot 0. */
    var slots: array<int>
    var size: nat

    ghost predicate Valid(freq: seq<nat>)
      reads this, slots
    {
      slots.Length == 512 && size <= 511
      && InRange(slots[..], size, freq) && HeapOrdered(slots[..], size, freq)
    }

    /** The elements in the queue. */
    ghost function Contents(): multiset<int>
      reads this, slots
      requires size < slots.Length
    {
      multiset(slots[1..size + 1])
    }

    /** An empty queue of 512 slots. */
    constructor ()
      ensures fresh(slots) && slots.Length == 512 && size == 0
      ensures forall freq :: Valid(freq)
      ensures Contents() == multiset{}
    {
      slots := new int[512];
      size := 0;
    }

    /** Exchanges two slots of the heap. */
    method Swap(i: nat, j: nat)
      requires 1 <= i < slots.Length && 1 <= j < slots.Length
      modifies slots
      ensures slots[..] == Swapped(old(slots[..]), i, j)
    {
      slots[i], slots[j] := slots[j], slots[i];
    }

    /** Moves the element at `index` up while it is strictly less frequent
        than its parent. */
    method SiftUp(index: nat, freq: seq<nat>)
      requires slots.Length == 512 && size <= 511 && 1 <= index <= size
      requires InRange(slots[..], size, freq)
      requires OrderedExceptAbove(slots[..], size, freq, index)
      requires SkipsHole(slots[..], size, freq, index)
      modifies slots
      ensures Valid(freq)
      ensures multiset(slots[1..size + 1]) == old(multiset(slots[1..size + 1]))
    {
      var n := size;
      ghost var cur := slots[..];
      ghost var elems := multiset(cur[1..n + 1]);
      var i := index;
      while i > 1 && freq[slots[i]] < freq[slots[i / 2]]
        invariant 1 <= i <= n
        invariant slots[..] == cur
        invariant InRange(cur, n, freq)
        invariant OrderedExceptAbove(cur, n, freq, i)
        invariant SkipsHole(cur, n, freq, i)
        invariant multiset(cur[1..n + 1]) == elems
        decreases i
      {
        SiftUpStep(cur, n, freq, i);
        SwapKeepsElements(cur, i, i / 2, 1, n + 1, elems);
        Swap(i, i / 2);
        cur := Swapped(cur, i, i / 2);
        i := i / 2;
      }
      SiftUpDone(cur, n, freq, i);
      assert slots[1..n + 1] == cur[1..n + 1];
      assert old(slots[1..n + 1]) == old(slots[..])[1..n + 1];
    }

    /** One pass of the sifting-down loop: swaps the element at `i` with its
        less frequent child (the left one on a tie) and returns that child. */
    method SinkStep(n: nat, freq: seq<nat>, i: nat, ghost cur: seq<int>, ghost elems: multiset<int>)
      returns (child: nat)
      requires slots.Length == 512 && slots[..] == cur && 2 * i <= n
      requires SiftingDown(cur, n, freq, i, elems)
      requires freq[cur[i]] > freq[cur[2 * i]] || (2 * i + 1 <= n && freq[cur[i]] > freq[cur[2 * i + 1]])
      modifies slots
      ensures child == if 2 * i + 1 <= n && freq[cur[2 * i]] > freq[cur[2 * i + 1]] then 2 * i + 1 else 2 * i
      ensures child < |cur| && slots[..] == Swapped(cur, i, child)
      ensures SiftingDown(slots[..], n, freq, child, elems)
    {
      ChildTests(n, i);
      child := i * 2;
      if i < (n + 1) / 2 && freq[slots[i * 2]] > freq[slots[i * 2 + 1]] {
        child := child + 1;
      }
      SiftDownAdvance(cur, n, freq, i, child, elems);
      Swap(i, child);
    }

    /** Moves the element at `index` down while a child is strictly less
        frequent, swapping it with the less frequent child (the left one on
        a tie). */
    method SiftDown(index: nat, freq: seq<nat>)
      requires slots.Length == 512 && size <= 511 && 1 <= index
      requires InRange(slots[..], size, freq)
      requires OrderedExceptBelow(slots[..], size, freq, index)
      requires SkipsHole(slots[..], size, freq, index)
      modifies slots
      ensures Valid(freq)
      ensures multiset(slots[1..size + 1]) == old(multiset(slots[1..size + 1]))
    {
      var n := size;
      ghost var cur := slots[..];
      ghost var elems := multiset(cur[1..n + 1]);
      var i := index;
      ChildTests(n, i);
      while i <= n / 2
            && (freq[slots[i]] > freq[slots[i * 2]]
                || (i < (n + 1) / 2 && freq[slots[i]] > freq[slots[i * 2 + 1]]))
        invariant (i <= n / 2) == (2 * i <= n) && (i < (n + 1) / 2) == (2 * i + 1 <= n)
        invariant slots.Length == 512 && slots[..] == cur
        invariant SiftingDown(cur, n, freq, i, elems)
        decreases n as int - i as int
      {
        i := SinkStep(n, freq, i, cur, elems);
        cur := slots[..];
        ChildTests(n, i);
      }
      SiftDownStop(cur, n, freq, i, elems);
      assert slots[1..n + 1] == cur[1..n + 1];
      assert old(slots[1..n + 1]) == old(slots[..])[1..n + 1];
    }

    /** Adds `elem` at the end and moves it up. */
    method Push(elem: int, freq: seq<nat>)
      requires Valid(freq) && size < 511 && 0 <= elem < |freq|
      modifies this, slots
      ensures slots == old(slots) && Valid(freq)
      ensures size == old(size) + 1
      ensures Contents() == old(Contents()) + multiset{elem}
    {
      AppendStart(slots[..], size, freq, elem);
      assert slots[1..size + 1] == slots[..][1..size + 1];
      size := size + 1;
      slots[size] := elem;
      assert slots[1..size + 1] == old(slots[..])[size := elem][1..size + 1];
      SiftUp(size, freq);
    }

    /** Removes and returns the first element, a least frequent one: the last
        element takes its place and moves down. */
    method Pop(freq: seq<nat>) returns (result: int)
      requires Valid(freq) && size > 0
      modifies this, slots
      ensures slots == old(slots) && Valid(freq)
      ensures size == old(size) - 1
      ensures result in old(Contents())
      ensures Contents() == old(Contents()) - multiset{result}
      ensures forall x :: x in old(Contents()) ==> freq[result] <= freq[x]
    {
      HeapMin(slots[..], size, freq);
      RemoveStart(slots[..], size, freq);
      RemoveElements(slots[..], size);
      assert slots[1..size + 1] == slots[..][1..size + 1];
      result := slots[1];
      assert slots[..][1..size + 1][0] == result;
      slots[1] := slots[size];
      size := size - 1;
      assert slots[1..size + 1] == old(slots[..])[1 := old(slots[..])[size + 1]][1..size + 1];
      SiftDown(1, freq);
    }
  }
}
