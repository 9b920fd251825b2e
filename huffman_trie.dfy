/**
 * The decoding tree of the decompressor and what holds of it. The tree is
 * an array of 512 nodes; node 1 is the root, node 0 is never used. For every
 * input its children stay safe to follow; when it is built from a decodable
 * code table it is the trie of the codes of that table.
 */
module HuffmanTrie {
  import opened Common
  import opened HuffmanBits
  import opened HuffmanTree
  import opened HuffmanFormat

  /** The entries of the decoding tree array (`NUM_NODES + 1`). */
  const TreeSize: nat := 512

  /** A node of the decoding tree. Each child is 1 while it is absent, the
      index of a node when it is above 1, and the leaf of symbol `-v` when it
      is `v <= 0`. */
  datatype DNode = DNode(zero: int, one: int)

  /** A node without children. */
  const Empty: DNode := DNode(1, 1)

  /** The child for bit `bit` (the source indexes `children` by the bit). */
  function Child(d: DNode, bit: bool): int
  {
    if bit then d.one else d.zero
  }

  /** `d` with the child for `bit` replaced by `v`. */
  function WithChild(d: DNode, bit: bool, v: int): (r: DNode)
    ensures Child(r, bit) == v && Child(r, !bit) == Child(d, !bit)
  {
    if bit then d.(one := v) else d.(zero := v)
  }

  // ---------------------------------------------------------------------
  // What holds of the tree for every input

  /** A child the walk can follow safely: absent, a leaf of a byte value,
      or a node created after `p` and before `count`. */
  predicate SafeChild(c: int, p: int, count: nat)
  {
    -256 < c <= 1 || p < c < count
  }

  /** Nodes 1 to `count - 1` exist and every child of theirs is safe. */
  ghost predicate Links(t: seq<DNode>, count: nat)
  {
    |t| == TreeSize && 2 <= count <= TreeSize
    && forall p: int, bit: bool :: 1 <= p < count ==> SafeChild(Child(t[p], bit), p, count)
  }

  /** Replacing a child by a safe one, or adding an empty node, keeps the
      links safe. */
  lemma LinksSet(t: seq<DNode>, count: nat, pos: int, bit: bool, v: int)
    requires Links(t, count) && 1 <= pos < count && SafeChild(v, pos, count)
    ensures Links(t[pos := WithChild(t[pos], bit, v)], count)
  {
    var t' := t[pos := WithChild(t[pos], bit, v)];
    forall p: int, b: bool | 1 <= p < count ensures SafeChild(Child(t'[p], b), p, count) {
      if p == pos && b != bit {
        assert Child(t'[p], b) == Child(t[p], b);
      }
    }
  }

  lemma LinksGrow(t: seq<DNode>, count: nat)
    requires Links(t, count) && count < TreeSize
    ensures Links(t[count := Empty], count + 1)
  {
    var t' := t[count := Empty];
    forall p: int, b: bool | 1 <= p < count + 1 ensures SafeChild(Child(t'[p], b), p, count + 1) {
      if p < count {
        assert SafeChild(Child(t[p], b), p, count);
      }
    }
  }

  // ---------------------------------------------------------------------
  // What holds of the tree when the file carries a valid table

  /** The paths of the nodes the decoder has created after storing the
      codes of the symbols below `i` and the first `m` bits of the code of
      `i`: the root and the proper prefixes of those codes. */
  ghost function NodePaths(table: seq<seq<bool>>, i: nat, m: nat): set<seq<bool>>
    requires |table| == 256
  {
    {[]} + set s, k | 0 <= s < 256 && 0 <= k < |table[s]| && (s < i || (s == i && k <= m)) :: table[s][..k]
  }

  /** The codes of the symbols below `i`, which the tree has as leaves. */
  ghost function Placed(table: seq<seq<bool>>, i: nat): set<seq<bool>>
    requires |table| == 256
  {
    set s | 0 <= s < 256 && s < i && table[s] != [] :: table[s]
  }

  /** The child of node `p` for `bit` is what the tree of `nodes` and
      `placed` has at path `paths[p] + [bit]`: the node with that path, the
      leaf of the symbol with that code, or nothing. */
  ghost predicate SlotOk(t: seq<DNode>, count: nat, paths: seq<seq<bool>>, table: seq<seq<bool>>,
                         nodes: set<seq<bool>>, placed: set<seq<bool>>, p: int, bit: bool)
  {
    0 <= p < |t| && p < |paths| && |table| == 256 && count <= |paths|
    && var q, c := paths[p] + [bit], Child(t[p], bit);
    (q in nodes ==> 1 < c < count && paths[c] == q)
    && (q in placed ==> -256 < c <= 0 && table[-c] == q)
    && (q !in nodes && q !in placed ==> c == 1)
  }

  /** The tree array is the trie of `nodes` and `placed`: node `p` has path
      `paths[p]`, the root has the empty path, no two nodes share a path, and
      there is one node per element of `nodes`. */
  ghost predicate Trie(t: seq<DNode>, count: nat, paths: seq<seq<bool>>, table: seq<seq<bool>>,
                       nodes: set<seq<bool>>, placed: set<seq<bool>>)
  {
    Links(t, count) && |paths| == count && |table| == 256 && paths[1] == []
    && (forall p :: 1 <= p < count ==> paths[p] in nodes)
    && (forall p, p' :: 1 <= p < p' < count ==> paths[p] != paths[p'])
    && |nodes| == count - 1
    && forall p: int, bit: bool :: 1 <= p < count ==> SlotOk(t, count, paths, table, nodes, placed, p, bit)
  }

  /** The tree right after its initialisation: the root alone. */
  lemma TrieInit(t: seq<DNode>, table: seq<seq<bool>>)
    requires |t| == TreeSize && t[1] == Empty && |table| == 256
    ensures Trie(t, 2, [[], []], table, NodePaths(table, 0, 0), Placed(table, 0))
  {
    assert NodePaths(table, 0, 0) == {[]};
    assert Placed(table, 0) == {};
    forall p: int, bit: bool | 1 <= p < 2 ensures SafeChild(Child(t[p], bit), p, 2) {
    }
  }

  /** The node paths grow by one prefix of the current code per bit. */
  lemma NodesNext(table: seq<seq<bool>>, i: nat, m: nat)
    requires |table| == 256 && i < 256 && m + 1 < |table[i]|
    ensures NodePaths(table, i, m + 1) == NodePaths(table, i, m) + {table[i][..m + 1]}
  {
  }

  /** Finishing the code of `i` adds no node path. */
  lemma NodesDone(table: seq<seq<bool>>, i: nat)
    requires |table| == 256 && i < 256
    ensures NodePaths(table, i + 1, 0) == NodePaths(table, i, if |table[i]| == 0 then 0 else |table[i]| - 1)
  {
  }

  /** Every node path of a valid table is the empty path or a proper prefix
      of a code, so there are at most 256 of them. */
  lemma NodesBound(table: seq<seq<bool>>, i: nat, m: nat)
    requires |table| == 256 && |InnerPrefixes(table)| <= 255
    ensures |NodePaths(table, i, m)| <= 256
  {
    var n := NodePaths(table, i, m);
    assert n <= {[]} + InnerPrefixes(table);
    SubsetCard(n, {[]} + InnerPrefixes(table));
  }

  /** Links stay safe when the child of `pos` becomes the new node `count`. */
  lemma LinksCreate(t: seq<DNode>, count: nat, pos: int, bit: bool)
    requires Links(t, count) && 1 <= pos < count && count < TreeSize
    ensures Links(t[pos := WithChild(t[pos], bit, count)][count := Empty], count + 1)
  {
    var t' := t[pos := WithChild(t[pos], bit, count)][count := Empty];
    forall p: int, b: bool | 1 <= p < count + 1 ensures SafeChild(Child(t'[p], b), p, count + 1) {
      if p < count && !(p == pos && b == bit) {
        assert Child(t'[p], b) == Child(t[p], b);
        assert SafeChild(Child(t[p], b), p, count);
      }
    }
  }

  /** Two paths extended by one bit are equal only if both parts are. */
  lemma SnocInjective(a: seq<bool>, x: bool, b: seq<bool>, y: bool)
    ensures a + [x] == b + [y] ==> a == b && x == y
  {
    if a + [x] == b + [y] {
      assert a == (a + [x])[..|a|];
      assert b == (b + [y])[..|b|];
    }
  }

  /** Adding a node with a new path `q`, below which nothing is stored yet,
      as the child of `pos` keeps the trie. */
  lemma AddNode(t: seq<DNode>, count: nat, paths: seq<seq<bool>>, table: seq<seq<bool>>,
                nodes: set<seq<bool>>, placed: set<seq<bool>>, pos: int, bit: bool)
    requires Trie(t, count, paths, table, nodes, placed) && 1 <= pos < count && count < TreeSize
    requires paths[pos] + [bit] !in nodes && paths[pos] + [bit] !in placed
    requires forall b: bool :: paths[pos] + [bit] + [b] !in nodes && paths[pos] + [bit] + [b] !in placed
    ensures Trie(t[pos := WithChild(t[pos], bit, count)][count := Empty], count + 1,
                 paths + [paths[pos] + [bit]], table, nodes + {paths[pos] + [bit]}, placed)
  {
    var q := paths[pos] + [bit];
    var t', paths', nodes' := t[pos := WithChild(t[pos], bit, count)][count := Empty], paths + [q], nodes + {q};
    LinksCreate(t, count, pos, bit);
    forall p, p' | 1 <= p < p' < count + 1 ensures paths'[p] != paths'[p'] {
      if p' == count {
        assert paths[p] in nodes;
      }
    }
    var count' := count + 1;
    forall p: int, b: bool | 1 <= p < count' ensures SlotOk(t', count', paths', table, nodes', placed, p, b) {
      if p == count {
        assert paths'[p] + [b] == q + [b];
      } else if p == pos && b == bit {
        assert paths'[count] == q;
      } else {
        assert Child(t'[p], b) == Child(t[p], b);
        assert SlotOk(t, count, paths, table, nodes, placed, p, b);
        if p != pos {
          assert paths[p] != paths[pos];
        }
        SnocInjective(paths[p], b, paths[pos], bit);
      }
    }
  }

  /** Storing the leaf of `sym`, whose code `q` is no node path, as the child
      of `pos` keeps the trie. */
  lemma AddLeaf(t: seq<DNode>, count: nat, paths: seq<seq<bool>>, table: seq<seq<bool>>,
                nodes: set<seq<bool>>, placed: set<seq<bool>>, pos: int, bit: bool, sym: nat)
    requires Trie(t, count, paths, table, nodes, placed) && 1 <= pos < count && sym < 256
    requires table[sym] == paths[pos] + [bit] && table[sym] !in nodes
    ensures Trie(t[pos := WithChild(t[pos], bit, -(sym as int))], count, paths, table, nodes, placed + {table[sym]})
  {
    var q := table[sym];
    var t', placed' := t[pos := WithChild(t[pos], bit, -(sym as int))], placed + {q};
    LinksSet(t, count, pos, bit, -(sym as int));
    forall p: int, b: bool | 1 <= p < count ensures SlotOk(t', count, paths, table, nodes, placed', p, b) {
      if !(p == pos && b == bit) {
        assert Child(t'[p], b) == Child(t[p], b);
        assert SlotOk(t, count, paths, table, nodes, placed, p, b);
        if p != pos {
          assert paths[p] != paths[pos];
        }
        SnocInjective(paths[p], b, paths[pos], bit);
      }
    }
  }

  /** Following a child above 1 leads to the node of the longer path. */
  lemma Descend(t: seq<DNode>, count: nat, paths: seq<seq<bool>>, table: seq<seq<bool>>,
                nodes: set<seq<bool>>, placed: set<seq<bool>>, pos: int, bit: bool)
    requires Trie(t, count, paths, table, nodes, placed) && 1 <= pos < count && Child(t[pos], bit) > 1
    ensures Child(t[pos], bit) < count && paths[Child(t[pos], bit)] == paths[pos] + [bit]
    ensures paths[pos] + [bit] in nodes
  {
    assert SlotOk(t, count, paths, table, nodes, placed, pos, bit);
  }


  /** What the decoder needs of a stored table: codes of at most 255 bits,
      none a prefix of another, and at most 255 merged nodes. */
  ghost predicate Decodable(table: seq<seq<bool>>)
  {
    |table| == 256 && (forall c :: 0 <= c < 256 ==> |table[c]| <= 255)
    && PrefixFree(table) && |InnerPrefixes(table)| <= 255
  }

  lemma ValidDecodable(table: seq<seq<bool>>, data: seq<byte>)
    requires ValidTable(table, data)
    ensures Decodable(table)
  {
  }

  /** The leaves grow by the code of `i` when it has one. */
  lemma PlacedNext(table: seq<seq<bool>>, i: nat)
    requires |table| == 256 && i < 256
    ensures Placed(table, i + 1) == Placed(table, i) + (if table[i] != [] then {table[i]} else {})
  {
  }

  /** A proper prefix of the code of `i` is the code of no other symbol. */
  lemma PrefixNotPlaced(table: seq<seq<bool>>, i: nat, m: nat)
    requires Decodable(table) && i < 256 && m + 1 < |table[i]|
    ensures table[i][..m + 1] !in Placed(table, i)
  {
    forall s | 0 <= s < i && table[s] != [] ensures table[s] != table[i][..m + 1] {
      assert !IsPrefix(table[s], table[i]);
    }
  }

  /** Nothing is stored one bit below a path that is not yet a node. */
  lemma BelowNotNode(table: seq<seq<bool>>, i: nat, m: nat, b: bool)
    requires |table| == 256 && i < 256 && m + 1 < |table[i]|
    requires table[i][..m + 1] !in NodePaths(table, i, m)
    ensures table[i][..m + 1] + [b] !in NodePaths(table, i, m)
  {
    var q := table[i][..m + 1];
    forall s, k | 0 <= s < 256 && 0 <= k < |table[s]| && (s < i || (s == i && k <= m))
      ensures table[s][..k] != q + [b]
    {
      if s < i && k == m + 2 {
        assert table[s][..m + 1] in NodePaths(table, i, m);
        assert table[s][..k][..m + 1] == table[s][..m + 1];
      }
    }
  }

  lemma BelowNotPlaced(table: seq<seq<bool>>, i: nat, m: nat, b: bool)
    requires |table| == 256 && i < 256 && m + 1 < |table[i]|
    requires table[i][..m + 1] !in NodePaths(table, i, m)
    ensures table[i][..m + 1] + [b] !in Placed(table, i)
  {
    var q := table[i][..m + 1];
    forall s | 0 <= s < i && table[s] != [] ensures table[s] != q + [b] {
      if |table[s]| == m + 2 {
        assert table[s][..m + 1] in NodePaths(table, i, m);
        assert (q + [b])[..m + 1] == q;
      }
    }
  }

  /** The next bit of the code of `i` in a decodable table finds no child,
      and the node made for it fits the array: the trie grows by that node. */
  lemma CreateStep(t: seq<DNode>, count: nat, paths: seq<seq<bool>>, table: seq<seq<bool>>,
                   i: nat, m: nat, pos: int, bit: bool)
    requires Decodable(table) && i < 256 && m + 1 < |table[i]|
    requires Trie(t, count, paths, table, NodePaths(table, i, m), Placed(table, i))
    requires 1 <= pos < count && paths[pos] == table[i][..m] && bit == table[i][m]
    requires Child(t[pos], bit) <= 1
    ensures Child(t[pos], bit) == 1 && count <= 256
    ensures Trie(t[pos := WithChild(t[pos], bit, count)][count := Empty], count + 1,
                 paths + [table[i][..m + 1]], table, NodePaths(table, i, m + 1), Placed(table, i))
  {
    var nodes, placed := NodePaths(table, i, m), Placed(table, i);
    var q := table[i][..m + 1];
    assert paths[pos] + [bit] == q;
    assert SlotOk(t, count, paths, table, nodes, placed, pos, bit);
    PrefixNotPlaced(table, i, m);
    BelowNotNode(table, i, m, false);
    BelowNotNode(table, i, m, true);
    BelowNotPlaced(table, i, m, false);
    BelowNotPlaced(table, i, m, true);
    NodesNext(table, i, m);
    NodesBound(table, i, m + 1);
    assert |nodes + {q}| == |nodes| + 1;
    AddNode(t, count, paths, table, nodes, placed, pos, bit);
  }

  /** The last bit of the code of `i` places its leaf; its code is no node
      path, since no code is a prefix of another. */
  lemma LeafStep(t: seq<DNode>, count: nat, paths: seq<seq<bool>>, table: seq<seq<bool>>,
                 i: nat, pos: int, bit: bool)
    requires Decodable(table) && i < 256 && 1 <= |table[i]|
    requires Trie(t, count, paths, table, NodePaths(table, i, |table[i]| - 1), Placed(table, i))
    requires 1 <= pos < count && paths[pos] + [bit] == table[i]
    ensures Trie(t[pos := WithChild(t[pos], bit, -(i as int))], count, paths, table,
                 NodePaths(table, i + 1, 0), Placed(table, i + 1))
  {
    var nodes := NodePaths(table, i, |table[i]| - 1);
    forall s, k | 0 <= s < 256 && 0 <= k < |table[s]| && s < i ensures table[s][..k] != table[i] {
      assert !IsPrefix(table[i], table[s]);
    }
    assert table[i] !in nodes;
    NodesDone(table, i);
    PlacedNext(table, i);
    AddLeaf(t, count, paths, table, nodes, Placed(table, i), pos, bit, i);
  }

  /** Walking the code of `s` in the finished trie, before its last bit:
      the longer prefix leads to a node. */
  lemma WalkInner(t: seq<DNode>, count: nat, paths: seq<seq<bool>>, table: seq<seq<bool>>,
                  s: nat, k: nat, pos: int)
    requires Decodable(table) && Trie(t, count, paths, table, NodePaths(table, 256, 0), Placed(table, 256))
    requires s < 256 && k + 1 < |table[s]| && 1 <= pos < count && paths[pos] == table[s][..k]
    ensures 1 < Child(t[pos], table[s][k]) < count && paths[Child(t[pos], table[s][k])] == table[s][..k + 1]
  {
    var bit := table[s][k];
    var q := table[s][..k + 1];
    assert paths[pos] + [bit] == q;
    assert SlotOk(t, count, paths, table, NodePaths(table, 256, 0), Placed(table, 256), pos, bit);
    assert q in NodePaths(table, 256, 0);
  }

  /** Walking the last bit of the code of `s` in the finished trie leads to
      the leaf of `s`. */
  lemma WalkLeaf(t: seq<DNode>, count: nat, paths: seq<seq<bool>>, table: seq<seq<bool>>,
                 s: nat, k: nat, pos: int)
    requires Decodable(table) && Trie(t, count, paths, table, NodePaths(table, 256, 0), Placed(table, 256))
    requires s < 256 && k + 1 == |table[s]| && 1 <= pos < count && paths[pos] == table[s][..k]
    ensures Child(t[pos], table[s][k]) == -(s as int)
  {
    var bit := table[s][k];
    var q := table[s][..k + 1];
    assert paths[pos] + [bit] == q;
    assert SlotOk(t, count, paths, table, NodePaths(table, 256, 0), Placed(table, 256), pos, bit);
    assert q == table[s] && q in Placed(table, 256);
    var c := Child(t[pos], bit);
    assert -256 < c <= 0 && table[-c] == table[s];
    SameCode(table, -c, s);
  }

  /** In a prefix-free table two byte values with the same non-empty code
      are the same. */
  lemma SameCode(table: seq<seq<bool>>, a: int, b: int)
    requires PrefixFree(table) && 0 <= a < |table| && 0 <= b < |table|
    requires table[a] == table[b] && table[a] != []
    ensures a == b
  {
    assert IsPrefix(table[a], table[b]);
  }

  /** The state of decoding one symbol: the walk along the code of `s` in
      the finished trie has reached node `pos` after `k` bits, and the rest
      of the code is next in the stream. */
  ghost predicate Walking(t: seq<DNode>, count: nat, paths: seq<seq<bool>>, table: seq<seq<bool>>,
                          s: nat, k: nat, pos: int, rem: seq<bool>, after: seq<bool>)
  {
    Decodable(table) && Trie(t, count, paths, table, NodePaths(table, 256, 0), Placed(table, 256))
    && s < 256 && k < |table[s]| && 1 <= pos < count && paths[pos] == table[s][..k]
    && rem == table[s][k..] + after
  }

  /** Reading the next bit during the walk: before the last bit of the
      code the walk moves to a node, at the last bit it reaches the leaf of
      `s` and the stream continues with `after`. */
  lemma WalkBit(t: seq<DNode>, count: nat, paths: seq<seq<bool>>, table: seq<seq<bool>>,
                s: nat, k: nat, pos: int, rem: seq<bool>, after: seq<bool>, bit: bool)
    requires Walking(t, count, paths, table, s, k, pos, rem, after) && |rem| >= 1 && bit == rem[0]
    ensures k + 1 < |table[s]| ==>
              1 < Child(t[pos], bit) < count
              && Walking(t, count, paths, table, s, k + 1, Child(t[pos], bit), rem[1..], after)
    ensures k + 1 == |table[s]| ==> Child(t[pos], bit) == -(s as int) && rem[1..] == after
  {
    NextOf(table[s], k, after);
    if k + 1 < |table[s]| {
      WalkInner(t, count, paths, table, s, k, pos);
    } else {
      WalkLeaf(t, count, paths, table, s, k, pos);
      assert table[s][k + 1..] == [];
    }
  }

  /** The state of decoding the data: the first `i` bytes of `payload` are
      done, the codes of the others follow in the stream, then `pad` zero
      bits. */
  ghost predicate Decoding(t: seq<DNode>, count: nat, paths: seq<seq<bool>>, table: seq<seq<bool>>,
                           payload: seq<byte>, i: nat, rem: seq<bool>, pad: nat)
  {
    Decodable(table) && Trie(t, count, paths, table, NodePaths(table, 256, 0), Placed(table, 256))
    && i <= |payload| && (forall k :: 0 <= k < |payload| ==> table[payload[k]] != [])
    && rem == Concat(Codes(table, payload)[i..]) + Zeros(pad)
  }

  /** The next byte of the payload starts a walk along its code, after which
      the stream holds the codes of the later bytes. */
  lemma DataStep(t: seq<DNode>, count: nat, paths: seq<seq<bool>>, table: seq<seq<bool>>,
                 payload: seq<byte>, i: nat, rem: seq<bool>, pad: nat)
    requires Decoding(t, count, paths, table, payload, i, rem, pad) && i < |payload|
    ensures Walking(t, count, paths, table, payload[i] as nat, 0, 1, rem,
                    Concat(Codes(table, payload)[i + 1..]) + Zeros(pad))
    ensures Decoding(t, count, paths, table, payload, i + 1,
                     Concat(Codes(table, payload)[i + 1..]) + Zeros(pad), pad)
  {
    var codes := Codes(table, payload);
    ConcatFrom(codes, i);
    AppendAssoc(table[payload[i]], Concat(codes[i + 1..]), Zeros(pad));
    assert table[payload[i]][0..] == table[payload[i]];
    assert table[payload[i]][..0] == [];
  }

  /** Following an existing child along the code of `i` keeps the trie,
      whose nodes already include the longer prefix. */
  lemma DescendStep(t: seq<DNode>, count: nat, paths: seq<seq<bool>>, table: seq<seq<bool>>,
                    i: nat, m: nat, pos: int, bit: bool)
    requires |table| == 256 && i < 256 && m + 1 < |table[i]|
    requires Trie(t, count, paths, table, NodePaths(table, i, m), Placed(table, i))
    requires 1 <= pos < count && paths[pos] == table[i][..m] && bit == table[i][m]
    requires Child(t[pos], bit) > 1
    ensures Child(t[pos], bit) < count && paths[Child(t[pos], bit)] == table[i][..m + 1]
    ensures Trie(t, count, paths, table, NodePaths(table, i, m + 1), Placed(table, i))
  {
    assert table[i][..m + 1] == paths[pos] + [bit];
    Descend(t, count, paths, table, NodePaths(table, i, m), Placed(table, i), pos, bit);
    NodesNext(table, i, m);
    assert NodePaths(table, i, m + 1) == NodePaths(table, i, m);
  }

  /** Consuming the next bit of a code that is followed by `after`. */
  lemma NextOf(code: seq<bool>, k: nat, after: seq<bool>)
    requires k < |code|
    ensures (code[k..] + after)[0] == code[k] && (code[k..] + after)[1..] == code[k + 1..] + after
  {
  }

  /** The state of the decoder after the first `m` bits of the code of `i`:
      the trie so far, the current node `pos` at the path of those bits, and
      the rest `rem` of the stream holding the other bits, then `after`. */
  ghost predicate Building(t: seq<DNode>, count: nat, paths: seq<seq<bool>>, table: seq<seq<bool>>,
                           i: nat, m: nat, pos: int, rem: seq<bool>, after: seq<bool>)
  {
    Decodable(table) && i < 256 && m < |table[i]|
    && Trie(t, count, paths, table, NodePaths(table, i, m), Placed(table, i))
    && 1 <= pos < count && paths[pos] == table[i][..m] && rem == table[i][m..] + after
  }


  /** One bit `bit`, the head of `rem`, of the code of `i`: either there is
      no child yet and the new node `count` extends the trie, or the child is
      the node of the longer prefix. */
  lemma BitStep(t: seq<DNode>, count: nat, paths: seq<seq<bool>>, table: seq<seq<bool>>,
                i: nat, m: nat, pos: int, rem: seq<bool>, after: seq<bool>, bit: bool)
    requires Building(t, count, paths, table, i, m, pos, rem, after) && m + 1 < |table[i]|
    requires |rem| >= 1 && bit == rem[0]
    ensures Child(t[pos], bit) <= 1 ==>
      Child(t[pos], bit) == 1 && count <= 256
      && Building(t[pos := WithChild(t[pos], bit, count)][count := Empty], count + 1,
                  paths + [table[i][..m + 1]], table, i, m + 1, count, rem[1..], after)
    ensures Child(t[pos], bit) > 1 ==>
      Child(t[pos], bit) < count
      && Building(t, count, paths, table, i, m + 1, Child(t[pos], bit), rem[1..], after)
  {
    NextOf(table[i], m, after);
    if Child(t[pos], bit) <= 1 {
      CreateStep(t, count, paths, table, i, m, pos, bit);
    } else {
      DescendStep(t, count, paths, table, i, m, pos, bit);
    }
  }

  /** The last bit of the code of `i` places its leaf and ends the code. */
  lemma LastBitStep(t: seq<DNode>, count: nat, paths: seq<seq<bool>>, table: seq<seq<bool>>,
                    i: nat, m: nat, pos: int, rem: seq<bool>, after: seq<bool>, bit: bool)
    requires Building(t, count, paths, table, i, m, pos, rem, after) && m + 1 == |table[i]|
    requires |rem| >= 1 && bit == rem[0]
    ensures rem[1..] == after
    ensures Trie(t[pos := WithChild(t[pos], bit, -(i as int))], count, paths, table,
                 NodePaths(table, i + 1, 0), Placed(table, i + 1))
  {
    NextOf(table[i], m, after);
    assert table[i] == table[i][..m] + [table[i][m]];
    assert table[i][m + 1..] == [];
    LeafStep(t, count, paths, table, i, pos, bit);
  }

  /** The state of the decoder before the entry of `i`: the trie of the codes
      below `i`, and the stream `rem` holding the entries from `i` on, then
      `rest`. */
  ghost predicate Reading(t: seq<DNode>, count: nat, paths: seq<seq<bool>>, table: seq<seq<bool>>,
                          i: nat, rem: seq<bool>, rest: seq<bool>)
  {
    Decodable(table) && i <= 256
    && Trie(t, count, paths, table, NodePaths(table, i, 0), Placed(table, i))
    && rem == Concat(Entries(table)[i..]) + rest
  }

  /** The entry of `i` opens with the length of its code; then comes the
      code, and the trie is ready to take it from the root. */
  lemma EntryStart(t: seq<DNode>, count: nat, paths: seq<seq<bool>>, table: seq<seq<bool>>,
                   i: nat, rem: seq<bool>, rest: seq<bool>)
    requires Reading(t, count, paths, table, i, rem, rest) && i < 256
    ensures |rem| >= 8 && rem[..8] == LowBits(|table[i]|, 8)
    ensures rem[8..] == table[i] + (Concat(Entries(table)[i + 1..]) + rest)
    ensures table[i] != [] ==>
      Building(t, count, paths, table, i, 0, 1, rem[8..], Concat(Entries(table)[i + 1..]) + rest)
    ensures table[i] == [] ==> Reading(t, count, paths, table, i + 1, rem[8..], rest)
  {
    var e := Concat(Entries(table)[i + 1..]);
    ConcatFrom(Entries(table), i);
    AppendAssoc(LowBits(|table[i]|, 8), table[i], e);
    AppendAssoc(LowBits(|table[i]|, 8) + table[i], e, rest);
    AppendAssoc(LowBits(|table[i]|, 8), table[i] + e, rest);
    AppendAssoc(table[i], e, rest);
    assert table[i][0..] == table[i] && table[i][..0] == [];
    if table[i] == [] {
      NodesDone(table, i);
      PlacedNext(table, i);
    }
  }

  /** After the code of `i`, the next entry follows. */
  lemma EntryEnd(t: seq<DNode>, count: nat, paths: seq<seq<bool>>, table: seq<seq<bool>>,
                 i: nat, rest: seq<bool>)
    requires Decodable(table) && i < 256
    requires Trie(t, count, paths, table, NodePaths(table, i + 1, 0), Placed(table, i + 1))
    ensures Reading(t, count, paths, table, i + 1, Concat(Entries(table)[i + 1..]) + rest, rest)
  {
  }

}
