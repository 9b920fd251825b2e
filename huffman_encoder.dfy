/**
 * The compressor: it counts the bytes, builds the Huffman tree with the
 * priority queue, derives the code of every byte by walking up the parent
 * links, and writes the header, the code table and the codes of the data.
 */
module HuffmanEncoder {
  import opened Common
  import opened HuffmanBits
  import opened HuffmanBuffers
  import opened HuffmanQueue
  import opened HuffmanTree
  import opened HuffmanFormat

  /** The position of the first NUL byte. */
  function StrLen(buffer: seq<byte>): (r: nat)
    requires 0 in buffer
    ensures r < |buffer| && buffer[r] == 0 && 0 !in buffer[..r]
  {
    if buffer[0] == 0 then 0
    else
      var r := 1 + StrLen(buffer[1..]);
      assert buffer[..r] == [buffer[0]] + buffer[1..][..r - 1];
      r
  }

  /** What the caller may pass: either a length within the buffer, or
      `UINT_MAX` for a NUL-terminated string shorter than `UINT_MAX`. */
  predicate InputOk(buffer: seq<byte>, size: nat)
  {
    size <= UINT_MAX
    && if size == UINT_MAX then 0 in buffer && StrLen(buffer) < UINT_MAX else size <= |buffer|
  }

  /** The data to compress. */
  function Input(buffer: seq<byte>, size: nat): (r: seq<byte>)
    requires InputOk(buffer, size)
    ensures |r| < UINT_MAX
  {
    if size == UINT_MAX then buffer[..StrLen(buffer)] else buffer[..size]
  }

  /** The byte values below `n` with a non-zero count. */
  ghost function PresentBelow(freq: seq<nat>, n: nat): set<nat>
    requires n <= |freq|
  {
    set c: nat | c < n && freq[c] > 0
  }

  /** Counting the bytes gives a non-zero count exactly to the symbols. */
  lemma PresentSymbols(freq: seq<nat>, data: seq<byte>)
    requires |freq| >= 256 && forall c :: 0 <= c < 256 ==> freq[c] == multiset(data)[c]
    ensures PresentBelow(freq, 256) == Symbols(data)
  {
    forall c: nat | c < 256 ensures freq[c] > 0 <==> c in data {
    }
  }

  /** Counts the occurrences of every byte value, up to `size` bytes or, for
      `size == UINT_MAX`, up to the first NUL; returns the count array of the
      tree and the length of the data. */
  method CountFrequencies(buffer: seq<byte>, size: nat) returns (freq: array<nat>, n: nat)
    requires InputOk(buffer, size)
    ensures fresh(freq) && freq.Length == NumNodes
    ensures n == |Input(buffer, size)|
    ensures forall c :: 0 <= c < 256 ==> freq[c] == multiset(Input(buffer, size))[c]
  {
    freq := new nat[NumNodes](_ => 0);
    var i := 0;
    ghost var len := |Input(buffer, size)|;
    while if size == UINT_MAX then buffer[i] != 0 else i < size
      invariant i <= len && Input(buffer, size)[..i] == buffer[..i]
      invariant forall c :: 0 <= c < 256 ==> freq[c] == multiset(buffer[..i])[c]
      decreases len - i
    {
      assert buffer[..i + 1] == buffer[..i] + [buffer[i]];
      freq[buffer[i]] := freq[buffer[i]] + 1;
      i := i + 1;
    }
    n := i;
    assert buffer[..i] == Input(buffer, size);
  }

  // ---------------------------------------------------------------------
  // Building the tree

  /** Tree `r` of the forest is rooted at `r`, below `count`, and linked
      by `parent`. */
  ghost predicate Rooted(forest: map<int, HTree>, parent: seq<int>, count: nat, r: int)
  {
    r in forest ==> Root(forest[r]) == r && r < count && Linked(forest[r], parent)
  }

  /** Two different trees of the forest share no node. */
  ghost predicate Apart(forest: map<int, HTree>, r1: int, r2: int)
  {
    r1 in forest && r2 in forest && r1 != r2 ==> Nodes(forest[r1]) !! Nodes(forest[r2])
  }

  /** A forest of trees keyed by their roots, all linked by `parent`, with
      nodes below `count` and no node shared by two trees. */
  ghost predicate Forest(forest: map<int, HTree>, parent: seq<int>, count: nat)
  {
    (forall r :: Rooted(forest, parent, count, r))
    && (forall r1, r2 :: Apart(forest, r1, r2))
  }

  /** The symbols of a forest. */
  ghost function ForestLeaves(forest: map<int, HTree>): set<nat>
  {
    set n: nat | n < 256 && HasLeaf(forest, n)
  }

  /** Some tree of the forest has symbol `n` as a leaf. */
  ghost predicate HasLeaf(forest: map<int, HTree>, n: nat)
  {
    exists r :: InTree(forest, r, n)
  }

  /** Symbol `n` is a leaf of the tree at `r`. */
  ghost predicate InTree(forest: map<int, HTree>, r: int, n: nat)
  {
    r in forest && n in Leaves(forest[r])
  }

  /** Adding a symbol as a one-node tree to a forest of one-node trees. */
  lemma AddLeaf(forest: map<int, HTree>, parent: seq<int>, c: nat)
    requires Forest(forest, parent, 256) && c < 256 && c !in forest
    requires forall r :: r in forest ==> forest[r] == Leaf(r)
    ensures Forest(forest[c := Leaf(c)], parent, 256)
    ensures ForestLeaves(forest[c := Leaf(c)]) == ForestLeaves(forest) + {c}
  {
    var f := forest[c := Leaf(c)];
    forall r | r in f ensures Rooted(f, parent, 256, r) {
      if r != c {
        assert Rooted(forest, parent, 256, r);
      }
    }
    forall r1, r2 ensures Apart(f, r1, r2) {
      if r1 in f && r2 in f {
        assert Nodes(f[r1]) == {r1} && Nodes(f[r2]) == {r2};
      }
    }
    assert InTree(f, c, c);
    forall n | n in ForestLeaves(f) ensures n in ForestLeaves(forest) + {c} {
      var r :| InTree(f, r, n);
      if r != c {
        assert InTree(forest, r, n);
      }
    }
    forall n | n in ForestLeaves(forest) ensures n in ForestLeaves(f) {
      var r :| InTree(forest, r, n);
      assert InTree(f, r, n);
    }
  }

  /** The forest after merging the trees rooted at `a` (the 0 side) and `b`
      (the 1 side) under the new node `count`. */
  ghost function Merged(forest: map<int, HTree>, count: nat, a: int, b: int): map<int, HTree>
    requires a in forest && b in forest
  {
    (forest - {a, b})[count := Node(count, forest[a], forest[b])]
  }

  /** The links after such a merge. */
  function Relinked(parent: seq<int>, count: nat, a: int, b: int): seq<int>
    requires 0 <= a < |parent| && 0 <= b < |parent|
  {
    parent[a := count][b := -(count as int)]
  }

  /** The node indices of a tree of the forest lie at or below its root. */
  lemma TreeNodes(forest: map<int, HTree>, parent: seq<int>, count: nat, r: int)
    requires Forest(forest, parent, count) && r in forest
    ensures 0 <= r && r in Nodes(forest[r]) && forall n :: n in Nodes(forest[r]) ==> n <= r
  {
    assert Rooted(forest, parent, count, r);
    NodesFacts(forest[r], parent);
  }

  /** A tree of the forest other than the trees at `a` and `b` keeps its
      links when those two are relinked. */
  lemma OtherTreeFrame(forest: map<int, HTree>, parent: seq<int>, count: nat, r: int, a: int, b: int)
    requires Forest(forest, parent, count) && |parent| == NumNodes && count < NumNodes
    requires r in forest && a in forest && b in forest && r != a && r != b
    requires 0 <= a < count && 0 <= b < count
    ensures Linked(forest[r], Relinked(parent, count, a, b))
  {
    TreeNodes(forest, parent, count, r);
    TreeNodes(forest, parent, count, a);
    TreeNodes(forest, parent, count, b);
    assert Apart(forest, r, a) && Apart(forest, r, b);
    assert Rooted(forest, parent, count, r);
    LinkedFrame(forest[r], parent, Relinked(parent, count, a, b));
  }

  /** The new tree is linked by the relinked parents. */
  lemma NewTreeLinked(forest: map<int, HTree>, parent: seq<int>, count: nat, a: int, b: int)
    requires Forest(forest, parent, count) && |parent| == NumNodes && 256 <= count < NumNodes
    requires a in forest && b in forest && a != b && 0 <= a < count && 0 <= b < count
    ensures Linked(Node(count, forest[a], forest[b]), Relinked(parent, count, a, b))
  {
    var p := Relinked(parent, count, a, b);
    TreeNodes(forest, parent, count, a);
    TreeNodes(forest, parent, count, b);
    assert Apart(forest, a, b);
    assert Rooted(forest, parent, count, a) && Rooted(forest, parent, count, b);
    LinkedFrame(forest[a], parent, p);
    LinkedFrame(forest[b], parent, p);
  }

  /** The merged tree is linked by the updated parent links, and no other
      tree of the forest is disturbed. */
  lemma MergeLinked(forest: map<int, HTree>, parent: seq<int>, count: nat, a: int, b: int)
    requires Forest(forest, parent, count) && |parent| == NumNodes && 256 <= count < NumNodes
    requires a in forest && b in forest && a != b && 0 <= a < count && 0 <= b < count
    ensures count !in forest
    ensures Forest(Merged(forest, count, a, b), Relinked(parent, count, a, b), count + 1)
  {
    var p := Relinked(parent, count, a, b);
    var f := Merged(forest, count, a, b);
    forall r | r in forest ensures r < count {
      assert Rooted(forest, parent, count, r);
    }
    NewTreeLinked(forest, parent, count, a, b);
    forall r | r in f ensures Rooted(f, p, count + 1, r) {
      if r != count {
        assert Rooted(forest, parent, count, r);
        OtherTreeFrame(forest, parent, count, r, a, b);
      }
    }
    forall r1, r2 ensures Apart(f, r1, r2) {
      if r1 in f && r2 in f && r1 != r2 {
        MergedApart(forest, parent, count, a, b, r1, r2);
      }
    }
  }

  lemma MergedApart(forest: map<int, HTree>, parent: seq<int>, count: nat, a: int, b: int, r1: int, r2: int)
    requires Forest(forest, parent, count) && count !in forest
    requires a in forest && b in forest && a != b
    requires r1 in Merged(forest, count, a, b) && r2 in Merged(forest, count, a, b) && r1 != r2
    ensures Apart(Merged(forest, count, a, b), r1, r2)
  {
    var f := Merged(forest, count, a, b);
    if r1 == count || r2 == count {
      var r := if r1 == count then r2 else r1;
      TreeNodes(forest, parent, count, r);
      assert Rooted(forest, parent, count, r);
      assert Apart(forest, r, a) && Apart(forest, r, b);
      assert count !in Nodes(forest[r]);
      assert Nodes(f[count]) == {count} + Nodes(forest[a]) + Nodes(forest[b]);
    } else {
      assert Apart(forest, r1, r2);
    }
  }

  /** Merging keeps the symbols of the forest. */
  lemma MergeLeaves(forest: map<int, HTree>, count: nat, a: int, b: int)
    requires a in forest && b in forest && count !in forest
    ensures ForestLeaves(Merged(forest, count, a, b)) == ForestLeaves(forest)
  {
    var f := Merged(forest, count, a, b);
    var t := f[count];
    forall n | n in ForestLeaves(forest) ensures n in ForestLeaves(f) {
      var r :| InTree(forest, r, n);
      if r == a || r == b {
        assert InTree(f, count, n);
      } else {
        assert InTree(f, r, n);
      }
    }
    forall n | n in ForestLeaves(f) ensures n in ForestLeaves(forest) {
      var r :| InTree(f, r, n);
      if r == count {
        if n in Leaves(forest[a]) {
          assert InTree(forest, a, n);
        } else {
          assert InTree(forest, b, n);
        }
      } else {
        assert InTree(forest, r, n);
      }
    }
  }

  /** The one-node trees of the present byte values below `i`. */
  ghost predicate Sprouts(forest: map<int, HTree>, parent: seq<int>, freq: seq<nat>, i: nat)
    requires i <= |freq|
  {
    Forest(forest, parent, 256) && (forall r :: r in forest ==> forest[r] == Leaf(r))
    && forest.Keys == PresentBelow(freq, i) && ForestLeaves(forest) == PresentBelow(freq, i)
  }

  /** One pass of the filling loop for a present byte value: it joins as a
      new one-node tree. */
  lemma SproutAdd(forest: map<int, HTree>, parent: seq<int>, freq: seq<nat>, i: nat)
    requires i < 256 <= |freq| && Sprouts(forest, parent, freq, i) && freq[i] != 0
    ensures i !in forest && Sprouts(forest[i := Leaf(i)], parent, freq, i + 1)
    ensures multiset(forest[i := Leaf(i)].Keys) == multiset(forest.Keys) + multiset{i}
  {
    assert PresentBelow(freq, i + 1) == PresentBelow(freq, i) + {i};
    AddLeaf(forest, parent, i);
    assert forest[i := Leaf(i)].Keys == forest.Keys + {i};
  }

  /** One pass of the filling loop for an absent byte value. */
  lemma SproutSkip(forest: map<int, HTree>, parent: seq<int>, freq: seq<nat>, i: nat)
    requires i < 256 <= |freq| && Sprouts(forest, parent, freq, i) && freq[i] == 0
    ensures Sprouts(forest, parent, freq, i + 1)
  {
    assert PresentBelow(freq, i + 1) == PresentBelow(freq, i);
  }

  /** The forest part of the state while the tree is being built: trees
      over the present symbols, linked below `count`, each merge having used
      one node. */
  ghost predicate Grove(parent: seq<int>, count: nat, forest: map<int, HTree>, present: set<nat>)
  {
    |parent| == NumNodes && 256 <= count
    && Forest(forest, parent, count) && ForestLeaves(forest) == present
    && count + |forest.Keys| == 256 + |present| && |present| <= 256
  }

  /** A set with one element is that element alone. */
  lemma SingleKey(keys: set<int>, r: int)
    requires |keys| == 1 && r in keys
    ensures keys == {r}
  {
    assert |keys - {r}| == 0;
    assert keys - {r} == {};
  }

  /** One merge step on the forest: it stays a grove over the same symbols,
      with one tree less. */
  lemma MergeGrove(parent: seq<int>, count: nat, forest: map<int, HTree>, present: set<nat>, a: int, b: int)
    requires Grove(parent, count, forest, present) && a in forest && b in forest && a != b
    requires 0 <= a < count && 0 <= b < count
    ensures count < NumNodes && count !in forest
    ensures Grove(Relinked(parent, count, a, b), count + 1, Merged(forest, count, a, b), present)
    ensures multiset(forest.Keys) - multiset{a} - multiset{b} + multiset{count}
            == multiset(Merged(forest, count, a, b).Keys)
    ensures |Merged(forest, count, a, b).Keys| == |forest.Keys| - 1
  {
    SubsetCard({a, b}, forest.Keys);
    assert Rooted(forest, parent, count, a);
    MergeLinked(forest, parent, count, a, b);
    MergeLeaves(forest, count, a, b);
    var keys := Merged(forest, count, a, b).Keys;
    assert keys == forest.Keys - {a, b} + {count};
    KeysStep(forest.Keys, a, b, count);
  }

  /** The queue after a merge holds the keys of the forest after it. */
  lemma KeysStep(keys: set<int>, a: int, b: int, c: int)
    requires a in keys && b in keys && a != b && c !in keys
    ensures multiset(keys) - multiset{a} - multiset{b} + multiset{c} == multiset(keys - {a, b} + {c})
  {
  }

  /** The size of a heap equals the number of its elements. */
  lemma ContentsSize(s: seq<int>, keys: set<int>)
    requires multiset(s) == multiset(keys)
    ensures |s| == |keys|
  {
    assert |multiset(s)| == |s|;
    assert |multiset(keys)| == |keys|;
  }

  /** Puts every byte value with a non-zero count into a new priority queue,
      each as a one-node tree. */
  method FillQueue(freq: array<nat>, parent: array<int>) returns (pq: PriorityQueue, ghost forest: map<int, HTree>)
    requires freq.Length == NumNodes && parent.Length == NumNodes
    ensures fresh(pq) && fresh(pq.slots) && pq.Valid(freq[..])
    ensures pq.Contents() == multiset(forest.Keys) && pq.size == |forest.Keys|
    ensures Grove(parent[..], 256, forest, PresentBelow(freq[..], 256))
  {
    ghost var fr, pr := freq[..], parent[..];
    pq := new PriorityQueue();
    forest := map[];
    for i := 0 to 256
      invariant fresh(pq) && fresh(pq.slots) && pq.slots.Length == 512 && pq.Valid(fr)
      invariant pq.size <= i && Sprouts(forest, pr, fr, i)
      invariant pq.Contents() == multiset(forest.Keys)
    {
      if freq[i] != 0 {
        SproutAdd(forest, pr, fr, i);
        pq.Push(i, freq[..]);
        forest := forest[i := Leaf(i)];
      } else {
        SproutSkip(forest, pr, fr, i);
      }
    }
    ContentsSize(pq.slots[1..pq.size + 1], forest.Keys);
    RangeCard(PresentBelow(fr, 256), 256);
  }

  /** Makes `count` the parent of `a` by its 0 side and of `b` by its 1 side. */
  method Link(parent: array<int>, count: nat, a: int, b: int)
    requires 0 <= a < parent.Length && 0 <= b < parent.Length
    modifies parent
    ensures parent[..] == Relinked(old(parent[..]), count, a, b)
  {
    parent[a] := count;
    parent[b] := -(count as int);
  }

  /** Every element in the slots `1 .. n` is a node of the tree. */
  lemma ContentsInRange(s: seq<int>, n: nat, freq: seq<nat>, x: int)
    requires InRange(s, n, freq) && x in multiset(s[1..n + 1])
    ensures 0 <= x < |freq|
  {
    assert x in s[1..n + 1];
    var k :| 0 <= k < n && s[1..n + 1][k] == x;
    assert s[k + 1] == x;
  }

  /** The two `pq_pop` calls of the merging loop: the first element taken
      is a least frequent one, the second a least frequent one of the rest. */
  method PopTwo(pq: PriorityQueue, freq: seq<nat>) returns (a: int, b: int)
    requires pq.Valid(freq) && pq.size >= 2
    modifies pq, pq.slots
    ensures pq.slots == old(pq.slots) && pq.Valid(freq) && pq.size == old(pq.size) - 2
    ensures a in old(pq.Contents()) && b in old(pq.Contents()) - multiset{a}
    ensures pq.Contents() == old(pq.Contents()) - multiset{a} - multiset{b}
    ensures forall x :: x in old(pq.Contents()) ==> 0 <= x < |freq| && freq[a] <= freq[x]
    ensures forall x :: x in old(pq.Contents()) - multiset{a} ==> freq[b] <= freq[x]
  {
    forall x | x in pq.Contents() ensures 0 <= x < |freq| {
      ContentsInRange(pq.slots[..], pq.size, freq, x);
    }
    a := pq.Pop(freq);
    b := pq.Pop(freq);
  }

  /** One pass of the merging loop: the two least frequent roots become the
      0 and the 1 child of the new node `count`, whose count is their sum. */
  method MergeTwo(pq: PriorityQueue, freq: array<nat>, parent: array<int>, count: nat,
                  ghost forest: map<int, HTree>, ghost present: set<nat>)
    returns (a: int, b: int, ghost merged: map<int, HTree>)
    requires pq.slots != parent && freq.Length == NumNodes && pq.Valid(freq[..])
    requires pq.Contents() == multiset(forest.Keys) && pq.size == |forest.Keys| >= 2
    requires Grove(parent[..], count, forest, present)
    modifies pq, pq.slots, freq, parent
    ensures a in old(pq.Contents()) && b in old(pq.Contents()) - multiset{a} && a != b
    ensures 0 <= a < NumNodes && 0 <= b < NumNodes
    ensures forall x :: x in old(pq.Contents()) ==> old(freq[..])[a] <= old(freq[..])[x]
    ensures forall x :: x in old(pq.Contents()) - multiset{a} ==> old(freq[..])[b] <= old(freq[..])[x]
    ensures freq[count] == old(freq[a]) + old(freq[b])
    ensures parent[..] == Relinked(old(parent[..]), count, a, b)
    ensures pq.slots == old(pq.slots) && pq.size == old(pq.size) - 1
    ensures freq[..256] == old(freq[..256]) && pq.Valid(freq[..])
    ensures pq.Contents() == multiset(merged.Keys) && pq.size == |merged.Keys|
    ensures Grove(parent[..], count + 1, merged, present)
  {
    ghost var keys, p0 := multiset(forest.Keys), parent[..];
    a, b := PopTwo(pq, freq[..]);

    assert a in forest && b in forest && a != b;
    assert Rooted(forest, p0, count, a) && Rooted(forest, p0, count, b);
    MergeGrove(p0, count, forest, present, a, b);
    merged := Merged(forest, count, a, b);
    assert count !in pq.Contents() by {
      assert count !in keys;
    }
    assert parent[..] == p0;
    ghost var fa, fb := freq[a], freq[b];
    assert fa == old(freq[a]) && fb == old(freq[b]);
    AddMerged(pq, freq, parent, count, a, b);
    assert freq[..][count] == fa + fb;
  }

  /** Stores the new node `count` with the summed count of `a` and `b`,
      links `a` and `b` to it and pushes it onto the queue. */
  method AddMerged(pq: PriorityQueue, freq: array<nat>, parent: array<int>, count: nat, a: int, b: int)
    requires pq.slots != parent && freq.Length == NumNodes && pq.Valid(freq[..]) && pq.size < 511
    requires 256 <= count < NumNodes && count !in pq.Contents()
    requires 0 <= a < NumNodes && 0 <= b < NumNodes && parent.Length == NumNodes
    modifies pq, pq.slots, freq, parent
    ensures pq.slots == old(pq.slots) && pq.size == old(pq.size) + 1 && pq.Valid(freq[..])
    ensures pq.Contents() == old(pq.Contents()) + multiset{count}
    ensures freq[..] == old(freq[..])[count := old(freq[a] + freq[b])] && freq[..256] == old(freq[..256])
    ensures parent[..] == Relinked(old(parent[..]), count, a, b)
  {
    var sum := freq[a] + freq[b];
    HeapOrderedFrame(pq.slots[..], pq.size, freq[..], count, sum);
    SetCount(freq, count, sum);
    Link(parent, count, a, b);
    pq.Push(count, freq[..]);
  }

  /** Sets the parent link of node `n`. */
  method SetLink(parent: array<int>, n: int, link: int)
    requires 0 <= n < parent.Length
    modifies parent
    ensures parent[..] == old(parent[..])[n := link]
  {
    parent[n] := link;
  }

  /** Gives the new node `count` its count. */
  method SetCount(freq: array<nat>, count: nat, sum: nat)
    requires 256 <= count < freq.Length
    modifies freq
    ensures freq[..] == old(freq[..])[count := sum] && freq[..256] == old(freq[..256])
  {
    freq[count] := sum;
  }

  /** Builds the Huffman tree over the byte values with a non-zero count:
      all of them enter the queue; while more than one remains, the two
      least frequent are popped and become the 0 and 1 children of a new
      node whose count is their sum; the last one left is the root. A single
      symbol gets node 256 as a parent, so that its code is the one bit 0. */
  method BuildTree(freq: array<nat>, parent: array<int>) returns (ghost t: HTree)
    requires freq.Length == NumNodes && parent.Length == NumNodes
    requires PresentBelow(freq[..], 256) != {}
    modifies freq, parent
    ensures freq[..256] == old(freq[..256])
    ensures Leaves(t) == PresentBelow(old(freq[..]), 256)
    ensures t.Node? ==> Linked(t, parent[..]) && parent[Root(t)] == 0
    ensures t.Leaf? ==> t.sym < 256 && parent[t.sym] == 256 && parent[256] == 0
  {
    ghost var present := PresentBelow(freq[..], 256);
    var pq;
    ghost var forest;
    pq, forest := FillQueue(freq, parent);
    var count := 256;
    if pq.size > 1 {
      while pq.size != 1
        invariant fresh(pq) && fresh(pq.slots) && 1 <= pq.size
        invariant freq[..256] == old(freq[..256]) && pq.Valid(freq[..])
        invariant pq.Contents() == multiset(forest.Keys) && pq.size == |forest.Keys|
        invariant Grove(parent[..], count, forest, present)
        decreases pq.size
      {
        var a, b;
        a, b, forest := MergeTwo(pq, freq, parent, count, forest, present);
        count := count + 1;
      }
      t := TakeRoot(pq, freq, parent, count, forest, present);
    } else {
      t := TakeSingle(pq, freq, parent, forest, present);
    }
  }

  /** The last element of the queue is the root: its link becomes 0. */
  method TakeRoot(pq: PriorityQueue, freq: array<nat>, parent: array<int>, count: nat,
                  ghost forest: map<int, HTree>, ghost present: set<nat>) returns (ghost t: HTree)
    requires pq.slots != parent && pq.Valid(freq[..]) && pq.size == 1
    requires pq.Contents() == multiset(forest.Keys) && pq.size == |forest.Keys|
    requires Grove(parent[..], count, forest, present) && |present| >= 2
    modifies pq, pq.slots, parent
    ensures t.Node? && Linked(t, parent[..]) && parent[Root(t)] == 0 && Leaves(t) == present
  {
    ghost var p0 := parent[..];
    var r := pq.Pop(freq[..]);
    t := Root1(forest, p0, count, present, r);
    RootRelink(t, p0, r);
    SetLink(parent, r, 0);
    LinkedFrame(t, p0, parent[..]);
  }

  /** A single symbol hangs as the 0 child of node 256, the root. */
  method TakeSingle(pq: PriorityQueue, freq: array<nat>, parent: array<int>,
                    ghost forest: map<int, HTree>, ghost present: set<nat>) returns (ghost t: HTree)
    requires pq.slots != parent && pq.Valid(freq[..]) && pq.size == 1
    requires pq.Contents() == multiset(forest.Keys) && pq.size == |forest.Keys|
    requires Grove(parent[..], 256, forest, present)
    modifies pq, pq.slots, parent
    ensures t.Leaf? && t.sym < 256 && parent[t.sym] == 256 && parent[256] == 0 && Leaves(t) == present
  {
    ghost var p0 := parent[..];
    var s := pq.Pop(freq[..]);
    assert s in forest;
    ghost var only := Root1(forest, p0, 256, present, s);
    assert only == Leaf(s);
    SetLink(parent, s, 256);
    SetLink(parent, 256, 0);
    t := Leaf(s);
  }

  /** When one tree is left, it is rooted at the last element of the queue
      and holds every symbol. */
  lemma Root1(forest: map<int, HTree>, parent: seq<int>, count: nat, present: set<nat>, r: int)
    returns (t: HTree)
    requires Grove(parent, count, forest, present) && |forest.Keys| == 1 && r in forest
    ensures t == forest[r] && Root(t) == r && Linked(t, parent) && Leaves(t) == present
    ensures r < count && (t.Leaf? <==> |present| == 1)
  {
    SingleKey(forest.Keys, r);
    t := forest[r];
    assert Rooted(forest, parent, count, r);
    NodesFacts(t, parent);
    OnlyTreeLeaves(forest, r);
    LeafCount(t, parent);
  }

  /** The symbols of a forest of one tree are the leaves of that tree. */
  lemma OnlyTreeLeaves(forest: map<int, HTree>, r: int)
    requires forest.Keys == {r} && forall n :: n in Leaves(forest[r]) ==> n < 256
    ensures Leaves(forest[r]) == ForestLeaves(forest)
  {
    forall n | n in ForestLeaves(forest) ensures n in Leaves(forest[r]) {
      var r' :| InTree(forest, r', n);
    }
    forall n | n in Leaves(forest[r]) ensures n in ForestLeaves(forest) {
      assert InTree(forest, r, n);
    }
  }

  /** A linked tree is a single leaf exactly when it has one symbol. */
  lemma LeafCount(t: HTree, parent: seq<int>)
    requires Linked(t, parent)
    ensures t.Leaf? <==> |Leaves(t)| == 1
  {
    if t.Node? {
      NodesFacts(t.zero, parent);
      NodesFacts(t.one, parent);
      assert Leaves(t.zero) !! Leaves(t.one);
      assert |Leaves(t)| == |Leaves(t.zero)| + |Leaves(t.one)|;
    }
  }

  /** Setting the link of the root leaves every other link alone. */
  lemma RootRelink(t: HTree, parent: seq<int>, r: int)
    requires Root(t) == r && 0 <= r < |parent|
    ensures SameBelowRoot(t, parent, parent[r := 0])
  {
  }

  // ---------------------------------------------------------------------
  // Deriving the codes

  /** `bits` holds `s` the way the encoder accumulates a code: the complete
      bytes of eight bits, most significant first, then the partial byte
      (zero when there is none). */
  ghost predicate Holds(bits: seq<byte>, s: seq<bool>)
  {
    |bits| == 32 && |s| < 256
    && (forall k :: 0 <= k < |s| / 8 ==> bits[k] == MsbValue(s[8 * k .. 8 * k + 8]))
    && bits[|s| / 8] == MsbValue(s[8 * (|s| / 8) ..])
  }

  /** Shifting a bit into a partial byte of fewer than eight bits never
      overflows it. */
  lemma ShiftIn(part: seq<bool>, bit: bool)
    requires |part| < 8
    ensures (MsbValue(part) * 2 + (if bit then 1 else 0)) % 256 == MsbValue(part + [bit])
  {
    var t := part + [bit];
    assert t[..|t| - 1] == part && t[|t| - 1] == bit;
    PartialByteBound(part);
    ModSmall(MsbValue(part) * 2 + (if bit then 1 else 0));
  }

  lemma PartialByteBound(part: seq<bool>)
    requires |part| < 8
    ensures MsbValue(part) < 128
  {
    Pow2Mono(|part|, 7);
    assert Pow2(7) == 128;
  }

  lemma ModSmall(x: int)
    requires 0 <= x < 256
    ensures x % 256 == x
  {
  }

  /** Where bit `size` and the bit after it fall in a sequence of bytes. */
  lemma ByteIndex(size: nat)
    ensures 8 * (size / 8) <= size < 8 * (size / 8) + 8
    ensures (size + 1) % 8 == 0 ==> (size + 1) / 8 == size / 8 + 1 && 8 * ((size + 1) / 8) == size + 1
    ensures (size + 1) % 8 != 0 ==> (size + 1) / 8 == size / 8
  {
  }

  /** After one more bit, the complete bytes below the partial one are kept. */
  lemma HoldsBelow(b0: seq<byte>, b1: seq<byte>, s: seq<bool>, bit: bool)
    requires Holds(b0, s) && |s| < 255 && |b1| == 32
    requires forall k :: 0 <= k < |s| / 8 ==> b1[k] == b0[k]
    requires b1[|s| / 8] == MsbValue((s + [bit])[8 * (|s| / 8) ..])
    ensures forall k :: 0 <= k < (|s| + 1) / 8 ==> b1[k] == MsbValue((s + [bit])[8 * k .. 8 * k + 8])
  {
    var t, at := s + [bit], |s| / 8;
    ByteIndex(|s|);
    forall k | 0 <= k < (|s| + 1) / 8 ensures b1[k] == MsbValue(t[8 * k .. 8 * k + 8]) {
      if k < at {
        assert 8 * k + 8 <= 8 * at;
        assert t[8 * k .. 8 * k + 8] == s[8 * k .. 8 * k + 8];
      } else {
        assert t[8 * k .. 8 * k + 8] == t[8 * at ..];
      }
    }
  }

  /** Shifts one bit into the partial byte `bits[at]`; when that completes
      the byte, the next byte is cleared and becomes the partial one. */
  method PushBit(bits: array<byte>, size: nat, at: nat, bit: bool, ghost s: seq<bool>)
    returns (size': nat, at': nat)
    requires Holds(bits[..], s) && size == |s| < 255 && at == size / 8
    modifies bits
    ensures Holds(bits[..], s + [bit]) && size' == size + 1 && at' == size' / 8
  {
    ghost var b0 := bits[..];
    ghost var t := s + [bit];
    ByteIndex(size);
    assert t[8 * at ..] == s[8 * at ..] + [bit];
    ShiftIn(s[8 * at ..], bit);
    bits[at] := (bits[at] * 2 + (if bit then 1 else 0)) % 256;
    size' := size + 1;
    at' := at;
    if size' % 8 == 0 {
      at' := at + 1;
      bits[at'] := 0;
      assert t[8 * at' ..] == [];
    }
    HoldsBelow(b0, bits[..], s, bit);
  }

  /** One step up from a node with a parent. */
  lemma StepUp(parent: seq<int>, node: int)
    requires ReachesRoot(parent, node) && parent[node] != 0
    ensures node < Abs(parent[node]) < |parent| && ReachesRoot(parent, Abs(parent[node]))
    ensures Chain(parent, node) == [parent[node] < 0] + Chain(parent, Abs(parent[node]))
  {
  }

  /** The walk up from a present symbol: its link is a real parent, every
      link leads up to a root, and the path is short enough for the code's
      eight-bit length. */
  ghost predicate Walkable(parent: seq<int>, c: int)
  {
    ReachesRoot(parent, c) && parent[c] != 0 && |Chain(parent, c)| <= 255
  }

  /** The code of symbol `leaf`: one bit per step up the tree, 1 where the
      link is negative (the node is a 1 child), until the root. */
  method WalkUp(parent: array<int>, leaf: nat) returns (code: Code)
    requires parent.Length == NumNodes && Walkable(parent[..], leaf)
    ensures StoresChain(code, Chain(parent[..], leaf))
  {
    ghost var p := parent[..];
    ghost var chain := Chain(p, leaf);
    var bits := new byte[32](_ => 0);
    var size: nat, at: nat := 0, 0;
    var cur := parent[leaf];
    ghost var node: nat := leaf;
    ghost var done: seq<bool> := [];
    assert Holds(bits[..], done);
    while true
      invariant node < NumNodes && ReachesRoot(p, node) && cur == p[node] && cur != 0
      invariant chain == done + Chain(p, node)
      invariant Holds(bits[..], done) && size == |done| && at == size / 8
      decreases NumNodes - node
    {
      StepUp(p, node);
      AppendAssoc(done, [cur < 0], Chain(p, Abs(cur)));
      size, at := PushBit(bits, size, at, cur < 0, done);
      done := done + [cur < 0];
      node := Abs(cur);
      cur := parent[Abs(cur)];
      assert cur == p[node];
      if cur == 0 {
        assert Chain(p, node) == [];
        break;
      }
    }
    assert done == chain;
    code := Code(size, bits[..]);
    HoldsStores(code.bits, done);
    assert parent[..] == p;
  }

  lemma HoldsStores(bits: seq<byte>, s: seq<bool>)
    requires Holds(bits, s) && |s| <= 255
    ensures StoresChain(Code(|s|, bits), s)
  {
  }


  /** The entry of a byte value absent from the data: a zero length. */
  const NoCode: Code := Code(0, seq(32, _ => 0))

  /** What the code array holds after the walk: the stored walk up for every
      present symbol, a zero length for every other byte value. */
  ghost predicate Walked(codes: seq<Code>, freq: seq<nat>, parent: seq<int>)
    requires |freq| >= 256
  {
    |codes| == 256
    && forall c :: 0 <= c < 256 ==>
      if freq[c] != 0 then StoresChain(codes[c], Chain(parent, c)) else codes[c].size == 0
  }

  /** Derives the code of every byte value with a non-zero count. */
  method BuildCodes(freq: array<nat>, parent: array<int>) returns (codes: array<Code>)
    requires freq.Length == NumNodes && parent.Length == NumNodes
    requires forall c :: 0 <= c < 256 && freq[c] != 0 ==> Walkable(parent[..], c)
    ensures fresh(codes) && Walked(codes[..], freq[..], parent[..])
  {
    ghost var f, p := freq[..], parent[..];
    codes := new Code[256](_ => NoCode);
    for i := 0 to 256
      invariant freq[..] == f && parent[..] == p
      invariant forall c :: i <= c < 256 ==> codes[c] == NoCode
      invariant forall c :: 0 <= c < i ==>
        if f[c] != 0 then StoresChain(codes[c], Chain(p, c)) else codes[c].size == 0
    {
      if freq[i] != 0 {
        assert f[i] != 0 && Walkable(p, i);
        var code := WalkUp(parent, i);
        codes[i] := code;
      }
    }
  }

  /** The code array carries `table`: the length of every entry, and for a
      non-empty entry a code the buffer can emit whose bits are the entry. */
  ghost predicate Carries(codes: seq<Code>, table: seq<seq<bool>>)
  {
    |codes| == 256 && |table| == 256
    && forall c :: 0 <= c < 256 ==>
      codes[c].size == |table[c]| && (codes[c].size != 0 ==> WellFormedCode(codes[c]) && Emitted(codes[c]) == table[c])
  }

  /** Every symbol of a tree whose root has a zero link can be walked up. */
  lemma TreeWalkable(t: HTree, parent: seq<int>, c: nat)
    requires Linked(t, parent) && t.Node? && |parent| == NumNodes && parent[Root(t)] == 0 && c in Leaves(t)
    ensures Walkable(parent, c)
  {
    LeafChain(t, parent, c);
    InnerBound(t, parent);
  }

  /** The codes walked up a tree carry the tree's table. */
  lemma TreeCodes(t: HTree, parent: seq<int>, freq: seq<nat>, codes: seq<Code>)
    requires Linked(t, parent) && t.Node? && |parent| == NumNodes && parent[Root(t)] == 0
    requires |freq| >= 256 && Leaves(t) == PresentBelow(freq, 256) && Walked(codes, freq, parent)
    ensures Carries(codes, TreeTable(t))
  {
    var table := TreeTable(t);
    forall c | 0 <= c < 256
      ensures codes[c].size == |table[c]| && (codes[c].size != 0 ==> WellFormedCode(codes[c]) && Emitted(codes[c]) == table[c])
    {
      if freq[c] != 0 {
        assert c in PresentBelow(freq, 256);
        LeafChain(t, parent, c);
        EmittedIsReverse(codes[c], Chain(parent, c));
      } else {
        assert c !in PresentBelow(freq, 256);
      }
    }
  }

  /** The single symbol hangs below node 256, the root. */
  lemma SingleWalkable(parent: seq<int>, s: nat)
    requires |parent| == NumNodes && s < 256 && parent[s] == 256 && parent[256] == 0
    ensures Walkable(parent, s) && Chain(parent, s) == [false]
  {
    assert Chain(parent, 256) == [];
  }

  /** The code walked up from the single symbol carries the one-bit table. */
  lemma SingleCodes(parent: seq<int>, s: nat, freq: seq<nat>, codes: seq<Code>)
    requires |parent| == NumNodes && s < 256 && parent[s] == 256 && parent[256] == 0
    requires |freq| >= 256 && PresentBelow(freq, 256) == {s} && Walked(codes, freq, parent)
    ensures Carries(codes, SingleTable(s))
  {
    var table := SingleTable(s);
    SingleWalkable(parent, s);
    assert s in PresentBelow(freq, 256);
    EmittedIsReverse(codes[s], [false]);
    forall c | 0 <= c < 256
      ensures codes[c].size == |table[c]| && (codes[c].size != 0 ==> WellFormedCode(codes[c]) && Emitted(codes[c]) == table[c])
    {
      if c != s {
        assert c !in PresentBelow(freq, 256);
      }
    }
  }

  // ---------------------------------------------------------------------
  // Writing the file

  /** Writes one entry of the code table: the length in eight bits, then,
      unless it is zero, the code. */
  method WriteEntry(w: WriteBuffer, code: Code, ghost entry: seq<bool>)
    requires w.Valid() && |entry| <= 255 && code.size == |entry|
    requires code.size != 0 ==> WellFormedCode(code) && Emitted(code) == entry
    modifies w
    ensures w.Valid() && w.Written() == old(w.Written()) + Entry(entry)
    ensures |w.file| >= |old(w.file)| && w.file[..|old(w.file)|] == old(w.file)
  {
    ghost var w0, f0 := w.Written(), w.file;
    assert Pow2(8) == 256;
    w.WriteBits(code.size, 8);
    if code.size != 0 {
      ghost var w1 := w.Written();
      w.WriteCode(code);
      AppendAssoc(w0, LowBits(code.size, 8), entry);
    } else {
      assert entry == [];
    }
  }

  /** Writes the code table: one entry per byte value, in order. */
  method WriteTable(w: WriteBuffer, codes: array<Code>, ghost table: seq<seq<bool>>)
    requires w.Valid() && Carries(codes[..], table) && Storable(table)
    modifies w
    ensures w.Valid() && w.Written() == old(w.Written()) + Concat(Entries(table))
    ensures |w.file| >= |old(w.file)| && w.file[..|old(w.file)|] == old(w.file)
  {
    ghost var w0, f0 := w.Written(), w.file;
    ghost var entries := Entries(table);
    assert entries[..0] == [];
    for i := 0 to 256
      invariant w.Valid() && w.Written() == w0 + Concat(entries[..i])
      invariant |w.file| >= |f0| && w.file[..|f0|] == f0
    {
      WriteEntry(w, codes[i], table[i]);
      EntriesStep(table, i);
      AppendAssoc(w0, Concat(entries[..i]), Entry(table[i]));
    }
    assert entries[..256] == entries;
  }

  /** Writes the code of every data byte, in order. */
  method WriteData(w: WriteBuffer, codes: array<Code>, buffer: seq<byte>, n: nat, ghost table: seq<seq<bool>>)
    requires w.Valid() && Carries(codes[..], table) && n <= |buffer|
    requires forall k :: 0 <= k < n ==> table[buffer[k]] != []
    modifies w
    ensures w.Valid() && w.Written() == old(w.Written()) + Concat(Codes(table, buffer[..n]))
    ensures |w.file| >= |old(w.file)| && w.file[..|old(w.file)|] == old(w.file)
  {
    ghost var w0, f0 := w.Written(), w.file;
    ghost var parts := Codes(table, buffer[..n]);
    assert parts[..0] == [];
    for i := 0 to n
      invariant w.Valid() && w.Written() == w0 + Concat(parts[..i])
      invariant |w.file| >= |f0| && w.file[..|f0|] == f0
    {
      var code := codes[buffer[i]];
      w.WriteCode(code);
      CodesStep(table, buffer[..n], i);
      AppendAssoc(w0, Concat(parts[..i]), table[buffer[i]]);
    }
    assert parts[..n] == parts;
  }


  /** The table of empty data: no byte value has a code. */
  function EmptyTable(): (r: seq<seq<bool>>)
    ensures |r| == 256 && forall c :: 0 <= c < 256 ==> r[c] == []
  {
    seq(256, _ => [])
  }

  lemma EmptyTableValid(data: seq<byte>)
    requires data == []
    ensures ValidTable(EmptyTable(), data)
  {
    assert InnerPrefixes(EmptyTable()) == {};
  }

  /** Builds the tree and the codes of non-empty data, and returns the code
      array with the table it carries. */
  method MakeCodes(freq: array<nat>, ghost data: seq<byte>) returns (codes: array<Code>, ghost table: seq<seq<bool>>)
    requires freq.Length == NumNodes && data != []
    requires forall c :: 0 <= c < 256 ==> freq[c] == multiset(data)[c]
    modifies freq
    ensures fresh(codes) && Carries(codes[..], table) && ValidTable(table, data)
  {
    PresentSymbols(freq[..], data);
    assert data[0] in Symbols(data);
    var parent := new int[NumNodes](_ => 0);
    ghost var t := BuildTree(freq, parent);
    ghost var f, p := freq[..], parent[..];
    ghost var present := PresentBelow(f, 256);
    assert present == Symbols(data) by {
      forall c: nat | c < 256 ensures c in present <==> c in Symbols(data) {
        assert f[c] == old(freq[..])[c];
      }
    }
    if t.Node? {
      forall c | 0 <= c < 256 && freq[c] != 0 ensures Walkable(parent[..], c) {
        assert c in present;
        TreeWalkable(t, p, c);
      }
    } else {
      SingleWalkable(p, t.sym);
      forall c | 0 <= c < 256 && freq[c] != 0 ensures Walkable(parent[..], c) {
        assert c in present;
      }
    }
    codes := BuildCodes(freq, parent);
    if t.Node? {
      table := TreeTable(t);
      TreeCodes(t, p, f, codes[..]);
      TreeTableValid(t, p, data);
    } else {
      table := SingleTable(t.sym);
      SingleCodes(p, t.sym, f, codes[..]);
      SingleTableValid(t.sym, data);
    }
  }

  /** Compresses `size` bytes of `buffer` (or, for `size == UINT_MAX`, the
      string up to its NUL) into the content of a file: the header, and for
      non-empty data the code table and the codes of the data under a table
      the decoder can rebuild. */
  method HuffmanWrite(buffer: seq<byte>, size: nat) returns (file: seq<byte>, ghost table: seq<seq<bool>>)
    requires InputOk(buffer, size)
    ensures ValidTable(table, Input(buffer, size)) && Encodes(file, table, Input(buffer, size))
  {
    ghost var data := Input(buffer, size);
    var freq, n := CountFrequencies(buffer, size);
    var w := new WriteBuffer(n);
    if n == 0 {
      table := EmptyTable();
      EmptyTableValid(data);
      file := w.file;
      return;
    }
    var codes;
    codes, table := MakeCodes(freq, data);
    assert buffer[..n] == data;
    WriteCompressed(w, codes, buffer, n, table);
    file := w.file;
  }

  /** Writes the code table, the codes of the data and the padding after the
      header. */
  method WriteCompressed(w: WriteBuffer, codes: array<Code>, buffer: seq<byte>, n: nat, ghost table: seq<seq<bool>>)
    requires 0 < n <= |buffer| && n <= UINT_MAX && w.Valid() && w.file == Header(n) && w.Written() == []
    requires Carries(codes[..], table) && ValidTable(table, buffer[..n])
    modifies w
    ensures Encodes(w.file, table, buffer[..n])
  {
    forall k | 0 <= k < n ensures table[buffer[k]] != [] {
      assert buffer[..n][k] in buffer[..n];
    }
    WriteStream(w, codes, buffer, n, table);
    w.Finish();
  }

  /** Writes the code table and the codes of the data as one bit stream. */
  method WriteStream(w: WriteBuffer, codes: array<Code>, buffer: seq<byte>, n: nat, ghost table: seq<seq<bool>>)
    requires n <= |buffer| && n <= UINT_MAX && w.Valid() && w.file == Header(n) && w.Written() == []
    requires Carries(codes[..], table) && Storable(table)
    requires forall k :: 0 <= k < n ==> table[buffer[k]] != []
    modifies w
    ensures w.Valid() && |w.file| >= 8 && w.file[..8] == Header(n) && w.Written() == Stream(table, buffer[..n])
  {
    ghost var head, body := Concat(Entries(table)), Concat(Codes(table, buffer[..n]));
    WriteTable(w, codes, table);
    assert [] + head == head;
    assert w.file[..8] == Header(n) && w.Written() == head;
    WriteData(w, codes, buffer, n, table);
    assert w.Written() == head + body;
    assert w.file[..8] == Header(n);
  }

}
