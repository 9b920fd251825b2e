/**
 * The Huffman tree of the encoder as an abstract value, and the code table
 * it defines. The encoder keeps the tree as an array of parent links: node
 * `n` is the left child (bit 0) of node `parent[n]` when that is positive,
 * the right child (bit 1) of node `-parent[n]` when it is negative, and a
 * root when it is zero. Symbols are nodes 0 to 255; merged nodes are 256 on.
 */
module HuffmanTree {
  import opened Common
  import opened HuffmanBits

  /** The number of entries of the encoder's tree array (`NUM_NODES`). */
  const NumNodes: nat := 511

  datatype HTree = Leaf(sym: nat) | Node(id: nat, zero: HTree, one: HTree)

  function Root(t: HTree): nat
  {
    if t.Leaf? then t.sym else t.id
  }

  /** Every node index of the tree, leaves included. */
  function Nodes(t: HTree): set<nat>
  {
    match t
    case Leaf(s) => {s}
    case Node(id, z, o) => {id} + Nodes(z) + Nodes(o)
  }

  /** The symbols of the tree. */
  function Leaves(t: HTree): set<nat>
  {
    match t
    case Leaf(s) => {s}
    case Node(_, z, o) => Leaves(z) + Leaves(o)
  }

  /** The number of merged (internal) nodes. */
  function Inner(t: HTree): nat
  {
    match t
    case Leaf(_) => 0
    case Node(_, z, o) => 1 + Inner(z) + Inner(o)
  }

  /** The parent links of `parent` describe `t`: leaves are symbols, merged
      nodes are numbered above their children, within the array, and the two
      subtrees share no node. The link of the root itself is not constrained. */
  ghost predicate Linked(t: HTree, parent: seq<int>)
  {
    match t
    case Leaf(s) => s < 256
    case Node(id, z, o) =>
      256 <= id < |parent| && Root(z) < id && Root(o) < id
      && parent[Root(z)] == id && parent[Root(o)] == -(id as int)
      && Nodes(z) !! Nodes(o) && Linked(z, parent) && Linked(o, parent)
  }

  /** The shape facts of a linked tree: the root is its largest node, the
      leaves are exactly its nodes below 256, and a tree has one leaf more
      than it has merged nodes. */
  lemma {:induction false} NodesFacts(t: HTree, parent: seq<int>)
    requires Linked(t, parent)
    ensures Root(t) in Nodes(t) && Leaves(t) <= Nodes(t) && Leaves(t) != {}
    ensures forall n :: n in Nodes(t) ==> n <= Root(t)
    ensures forall n :: n in Nodes(t) ==> (n in Leaves(t) <==> n < 256)
    ensures |Leaves(t)| == Inner(t) + 1
  {
    if t.Node? {
      NodesFacts(t.zero, parent);
      NodesFacts(t.one, parent);
      assert Leaves(t.zero) !! Leaves(t.one);
    }
  }

  /** A set of naturals below `n` has at most `n` elements. */
  lemma {:induction false} RangeCard(s: set<nat>, n: nat)
    requires forall x :: x in s ==> x < n
    ensures |s| <= n
  {
    if n == 0 {
      assert s == {};
    } else {
      RangeCard(s - {n - 1}, n - 1);
    }
  }

  lemma {:induction false} SubsetCard<T>(a: set<T>, b: set<T>)
    requires a <= b
    ensures |a| <= |b|
    decreases b
  {
    if b != {} {
      var x :| x in b;
      SubsetCard(a - {x}, b - {x});
    }
  }

  /** At most 255 merges are needed for the 256 symbols. */
  lemma InnerBound(t: HTree, parent: seq<int>)
    requires Linked(t, parent)
    ensures Inner(t) <= 255
  {
    NodesFacts(t, parent);
    RangeCard(Leaves(t), 256);
  }

  /** The links are the same on every node of `t` but its root. */
  ghost predicate SameBelowRoot(t: HTree, p: seq<int>, q: seq<int>)
  {
    |p| == |q| && forall n :: n in Nodes(t) && n != Root(t) && n < |p| ==> p[n] == q[n]
  }

  /** Changing links outside the tree, or the link of its root, keeps it. */
  lemma {:induction false} LinkedFrame(t: HTree, p: seq<int>, q: seq<int>)
    requires Linked(t, p) && SameBelowRoot(t, p, q)
    ensures Linked(t, q)
  {
    if t.Node? {
      NodesFacts(t.zero, p);
      NodesFacts(t.one, p);
      assert Root(t.zero) in Nodes(t) && Root(t.one) in Nodes(t);
      LinkedFrame(t.zero, p, q);
      LinkedFrame(t.one, p, q);
    }
  }

  /** The code of leaf `s`: the path from the root, 0 for a left child. */
  function PathTo(t: HTree, s: nat): (r: seq<bool>)
    requires s in Leaves(t)
    ensures |r| <= Inner(t)
    ensures t.Node? ==> |r| >= 1
  {
    match t
    case Leaf(_) => []
    case Node(_, z, o) => if s in Leaves(z) then [false] + PathTo(z, s) else [true] + PathTo(o, s)
  }

  function Abs(x: int): nat
  {
    if x < 0 then -x else x
  }

  /** The bits the encoder collects walking up from node `n`: the sign of
      each parent link, until a zero link. A link that does not lead to a
      higher node within the array ends the walk. */
  function Chain(parent: seq<int>, n: int): seq<bool>
    decreases |parent| - n
  {
    if 0 <= n < |parent| && parent[n] != 0 && n < Abs(parent[n]) < |parent|
    then [parent[n] < 0] + Chain(parent, Abs(parent[n]))
    else []
  }

  /** Walking up from `n` stays within the array, each link leads to a
      higher node, and the walk ends at a zero link. */
  ghost predicate ReachesRoot(parent: seq<int>, n: int)
    decreases |parent| - n
  {
    0 <= n < |parent|
    && (parent[n] == 0 || (n < Abs(parent[n]) < |parent| && ReachesRoot(parent, Abs(parent[n]))))
  }

  /** One link up: a child linked to a higher node starts its walk with the
      bit of the link. */
  lemma ChainLink(parent: seq<int>, r: nat, id: nat, bit: bool)
    requires r < id < |parent| && parent[r] == (if bit then -(id as int) else id as int)
    ensures Chain(parent, r) == [bit] + Chain(parent, id)
    ensures ReachesRoot(parent, id) ==> ReachesRoot(parent, r)
  {
    assert Abs(parent[r]) == id;
  }

  /** Moving one bit from the front of a path to the walk above it. */
  lemma RevCons(bit: bool, p: seq<bool>, c: seq<bool>)
    ensures Reverse(p) + ([bit] + c) == Reverse([bit] + p) + c
  {
    ReverseAppend([bit], p);
    assert Reverse([bit]) == [bit];
    AppendAssoc(Reverse(p), [bit], c);
  }

  /** The walk up from a leaf is its code backwards, followed by the walk up
      from the root. */
  lemma {:induction false} ChainPath(t: HTree, parent: seq<int>, s: nat)
    requires Linked(t, parent) && |parent| == NumNodes && s in Leaves(t)
    ensures Chain(parent, s) == Reverse(PathTo(t, s)) + Chain(parent, Root(t))
    ensures ReachesRoot(parent, Root(t)) ==> ReachesRoot(parent, s)
  {
    match t
    case Leaf(_) =>
    case Node(id, z, o) =>
      var sub, bit := z, false;
      if s !in Leaves(z) {
        sub, bit := o, true;
      }
      ChainPath(sub, parent, s);
      ChainLink(parent, Root(sub), id, bit);
      RevCons(bit, PathTo(sub, s), Chain(parent, id));
      assert PathTo(t, s) == [bit] + PathTo(sub, s);
  }

  lemma {:induction false} ReverseReverse<T>(s: seq<T>)
    ensures Reverse(Reverse(s)) == s
  {
    if s != [] {
      ReverseReverse(s[..|s| - 1]);
      ReverseAppend([s[|s| - 1]], Reverse(s[..|s| - 1]));
      assert s == s[..|s| - 1] + [s[|s| - 1]];
    }
  }

  /** In a linked tree whose root has a zero link, the walk up from a leaf
      reaches the root and is exactly the leaf's code backwards. */
  lemma LeafChain(t: HTree, parent: seq<int>, s: nat)
    requires Linked(t, parent) && |parent| == NumNodes && s in Leaves(t)
    requires parent[Root(t)] == 0
    ensures ReachesRoot(parent, s)
    ensures Chain(parent, s) == Reverse(PathTo(t, s))
    ensures Reverse(Chain(parent, s)) == PathTo(t, s)
  {
    NodesFacts(t, parent);
    ChainPath(t, parent, s);
    assert Chain(parent, Root(t)) == [];
    assert Chain(parent, s) == Reverse(PathTo(t, s));
    ReverseReverse(PathTo(t, s));
  }

  lemma PrefixTail(x: bool, a: seq<bool>, b: seq<bool>)
    requires IsPrefix([x] + a, [x] + b)
    ensures IsPrefix(a, b)
  {
    assert b[..|a|] == ([x] + b)[..|a| + 1][1..];
  }

  /** No code of the tree is a prefix of the code of another symbol. */
  lemma {:induction false} PathsPrefixFree(t: HTree, parent: seq<int>, a: nat, b: nat)
    requires Linked(t, parent) && a in Leaves(t) && b in Leaves(t) && a != b
    ensures !IsPrefix(PathTo(t, a), PathTo(t, b))
  {
    match t
    case Node(_, z, o) =>
      NodesFacts(z, parent);
      NodesFacts(o, parent);
      var inZ := a in Leaves(z);
      if inZ == (b in Leaves(z)) {
        var sub := if inZ then z else o;
        PathsPrefixFree(sub, parent, a, b);
        if IsPrefix(PathTo(t, a), PathTo(t, b)) {
          PrefixTail(!inZ, PathTo(sub, a), PathTo(sub, b));
          assert false;
        }
      } else {
        assert PathTo(t, a)[0] != PathTo(t, b)[0];
      }
  }

  function Prepend(b: bool, s: set<seq<bool>>): set<seq<bool>>
  {
    set q | q in s :: [b] + q
  }

  lemma {:induction false} PrependCard(b: bool, s: set<seq<bool>>)
    ensures |Prepend(b, s)| == |s|
    decreases s
  {
    if s != {} {
      var x :| x in s;
      PrependCard(b, s - {x});
      assert Prepend(b, s) == Prepend(b, s - {x}) + {[b] + x};
      forall y | y in s - {x} ensures [b] + y != [b] + x {
        assert ([b] + y)[1..] == y && ([b] + x)[1..] == x;
      }
    }
  }

  /** The paths from the root to the merged nodes. */
  function InnerPaths(t: HTree): set<seq<bool>>
  {
    match t
    case Leaf(_) => {}
    case Node(_, z, o) => {[]} + Prepend(false, InnerPaths(z)) + Prepend(true, InnerPaths(o))
  }

  lemma {:induction false} InnerPathsCard(t: HTree)
    ensures |InnerPaths(t)| <= Inner(t)
  {
    if t.Node? {
      InnerPathsCard(t.zero);
      InnerPathsCard(t.one);
      PrependCard(false, InnerPaths(t.zero));
      PrependCard(true, InnerPaths(t.one));
    }
  }

  /** Every proper prefix of a code is the path to a merged node. */
  lemma {:induction false} PathPrefixInner(t: HTree, s: nat, k: nat)
    requires s in Leaves(t) && k < |PathTo(t, s)|
    ensures PathTo(t, s)[..k] in InnerPaths(t)
  {
    match t
    case Node(_, z, o) =>
      if k > 0 {
        var sub, bit := if s in Leaves(z) then z else o, s !in Leaves(z);
        PathPrefixInner(sub, s, k - 1);
        assert PathTo(t, s)[..k] == [bit] + PathTo(sub, s)[..k - 1];
      }
  }

  // ---------------------------------------------------------------------
  // Code tables

  /** The symbols that occur in `data`. */
  function Symbols(data: seq<byte>): set<nat>
  {
    set c: nat | c < 256 && c in data
  }

  /** The proper prefixes of the codes of a table: the merged nodes the
      decoder has to create, the root included. */
  ghost function InnerPrefixes(table: seq<seq<bool>>): set<seq<bool>>
  {
    set c, k | 0 <= c < |table| && 0 <= k < |table[c]| :: table[c][..k]
  }

  /** No non-empty code is a prefix of (or equal to) the code of another symbol. */
  ghost predicate PrefixFree(table: seq<seq<bool>>)
  {
    forall a, b :: 0 <= a < |table| && 0 <= b < |table| && a != b && table[a] != [] && table[b] != []
      ==> !IsPrefix(table[a], table[b])
  }

  /** A table the file format can carry and the decoder can rebuild: one code
      per byte value, empty exactly for the values absent from the data, of
      at most 255 bits (the length is stored in eight bits), prefix-free, and
      with at most 255 merged nodes. */
  ghost predicate ValidTable(table: seq<seq<bool>>, data: seq<byte>)
  {
    |table| == 256
    && (forall c :: 0 <= c < 256 ==> |table[c]| <= 255 && (table[c] != [] <==> c in data))
    && PrefixFree(table)
    && |InnerPrefixes(table)| <= 255
  }

  /** The code table of a tree. */
  function TreeTable(t: HTree): (r: seq<seq<bool>>)
    ensures |r| == 256
  {
    seq(256, c requires 0 <= c => if c in Leaves(t) then PathTo(t, c) else [])
  }

  lemma TreeTableEntries(t: HTree, parent: seq<int>, data: seq<byte>)
    requires Linked(t, parent) && t.Node? && Leaves(t) == Symbols(data)
    ensures forall c :: 0 <= c < 256 ==>
      |TreeTable(t)[c]| <= 255 && (TreeTable(t)[c] != [] <==> c in data)
  {
    InnerBound(t, parent);
    forall c | 0 <= c < 256 ensures c in Leaves(t) <==> c in data {
      assert c in data <==> c in Symbols(data);
    }
  }

  lemma TreeTablePrefixFree(t: HTree, parent: seq<int>)
    requires Linked(t, parent)
    ensures PrefixFree(TreeTable(t))
  {
    var table := TreeTable(t);
    forall a, b | 0 <= a < 256 && 0 <= b < 256 && a != b && table[a] != [] && table[b] != []
      ensures !IsPrefix(table[a], table[b])
    {
      PathsPrefixFree(t, parent, a, b);
    }
  }

  lemma TreeTableInner(t: HTree, parent: seq<int>)
    requires Linked(t, parent)
    ensures |InnerPrefixes(TreeTable(t))| <= 255
  {
    var table := TreeTable(t);
    forall q | q in InnerPrefixes(table) ensures q in InnerPaths(t) {
      var c, k :| 0 <= c < 256 && 0 <= k < |table[c]| && q == table[c][..k];
      PathPrefixInner(t, c, k);
    }
    SubsetCard(InnerPrefixes(table), InnerPaths(t));
    InnerPathsCard(t);
    InnerBound(t, parent);
  }

  /** The codes of a Huffman tree built over the symbols of `data` form a
      valid table. */
  lemma TreeTableValid(t: HTree, parent: seq<int>, data: seq<byte>)
    requires Linked(t, parent) && t.Node? && Leaves(t) == Symbols(data)
    ensures ValidTable(TreeTable(t), data)
  {
    TreeTableEntries(t, parent, data);
    TreeTablePrefixFree(t, parent);
    TreeTableInner(t, parent);
  }

  /** The table the encoder builds when the data holds a single symbol `s`:
      the one-bit code 0. */
  function SingleTable(s: nat): (r: seq<seq<bool>>)
    ensures |r| == 256
  {
    seq(256, c => if c == s then [false] else [])
  }

  lemma SingleTableValid(s: nat, data: seq<byte>)
    requires Symbols(data) == {s}
    ensures ValidTable(SingleTable(s), data)
  {
    var table := SingleTable(s);
    forall c | 0 <= c < 256 ensures table[c] != [] <==> c in data {
      assert c in data <==> c in Symbols(data);
    }
    assert InnerPrefixes(table) <= {[]};
    SubsetCard(InnerPrefixes(table), {[]});
  }
}
