/**
 * The node graph of the ternary search tree: a trie whose siblings on each
 * level form a binary search tree on the character. Nodes live in an arena
 * and are addressed by index; NIL stands for `NULL`. This module
 * holds the read-only view of the graph (the searches of `tstree_get_node`
 * and `tstree_add_key`, the walk of `tstree_walk_subnodes`) and the facts
 * about it; the tree object itself is in module TernaryTree.
 */
module TernaryNodes {
  import opened Common

  const NIL: int := -1

  /** One node: its character, how often the word ending here was added, its
      depth (the length of that word), the node of the previous character
      (NIL on the first level), the sibling subtrees of smaller and of
      larger characters, and the first node of the next level. */
  datatype Node = Node(chr: byte, count: nat, depth: nat, parent: int, lo: int, hi: int, child: int)

  /** The three links of a node: `brothers[0]`, `brothers[1]` and `child`. */
  datatype Link = Lo | Hi | Child

  function GetLink(n: Node, l: Link): int
  {
    match l
    case Lo => n.lo
    case Hi => n.hi
    case Child => n.child
  }

  function SetLink(n: Node, l: Link, k: int): Node
  {
    match l
    case Lo => n.(lo := k)
    case Hi => n.(hi := k)
    case Child => n.(child := k)
  }

  /** The sibling link taken when looking for `c` at a node with another
      character: the smaller characters are under `brothers[0]`. */
  function Dir(n: Node, c: byte): Link
  {
    if n.chr > c then Lo else Hi
  }

  /** `tstree_node_new`: a new node for `c` below `parent`, where NIL
      stands for the empty record the searches start from (depth 0), so
      that a first-level node gets depth 1 and no parent. */
  function NewNode(nodes: seq<Node>, parent: int, c: byte): (r: Node)
    requires parent == NIL || 0 <= parent < |nodes|
    ensures r.chr == c && r.count == 0 && r.parent == parent
    ensures r.depth == (if parent == NIL then 1 else nodes[parent].depth + 1)
    ensures r.lo == NIL && r.hi == NIL && r.child == NIL
  {
    Node(c, 0, if parent == NIL then 1 else nodes[parent].depth + 1, parent, NIL, NIL, NIL)
  }

  /** Looks for `c` among the siblings from `n` on: the inner loop of
      `tstree_get_node` and `tstree_add_key`. Links to lower indices are
      treated as absent, which never happens in a well-formed tree. */
  function Search(nodes: seq<Node>, n: int, c: byte): (r: int)
    ensures r == NIL || (0 <= r < |nodes| && nodes[r].chr == c)
    decreases |nodes| - n
  {
    if !(0 <= n < |nodes|) then NIL
    else if nodes[n].chr == c then n
    else if n < GetLink(nodes[n], Dir(nodes[n], c)) then Search(nodes, GetLink(nodes[n], Dir(nodes[n], c)), c)
    else NIL
  }

  /** The first node of the level below the prefix `p`: the root for the
      empty prefix, otherwise the child of the node of `p`. */
  function Level(nodes: seq<Node>, root: int, p: seq<byte>): int
    decreases |p|, 1
  {
    if p == [] then root
    else
      var f := Find(nodes, root, p);
      if f == NIL then NIL else nodes[f].child
  }

  /** The node of the non-empty word `w`, or NIL. */
  function Find(nodes: seq<Node>, root: int, w: seq<byte>): (r: int)
    requires w != []
    ensures r == NIL || (0 <= r < |nodes| && nodes[r].chr == w[|w| - 1])
    decreases |w|, 0
  {
    Search(nodes, Level(nodes, root, w[..|w| - 1]), w[|w| - 1])
  }

  /** The sibling search for `c` from `e` passes through `n`. */
  ghost predicate OnPath(nodes: seq<Node>, e: int, c: byte, n: int)
    decreases |nodes| - e
  {
    0 <= e < |nodes|
    && (e == n
        || (nodes[e].chr != c && e < GetLink(nodes[e], Dir(nodes[e], c))
            && OnPath(nodes, GetLink(nodes[e], Dir(nodes[e], c)), c, n)))
  }

  lemma {:induction false} OnPathSearch(nodes: seq<Node>, e: int, c: byte, n: int)
    requires OnPath(nodes, e, c, n)
    ensures e <= n < |nodes| && Search(nodes, e, c) == Search(nodes, n, c)
    decreases |nodes| - e
  {
    if e != n {
      OnPathSearch(nodes, GetLink(nodes[e], Dir(nodes[e], c)), c, n);
    }
  }

  /** One more step of the sibling search stays on its path. */
  lemma {:induction false} OnPathExtend(nodes: seq<Node>, e: int, c: byte, n: int)
    requires 0 <= n < |nodes| && OnPath(nodes, e, c, n) && nodes[n].chr != c
    requires n < GetLink(nodes[n], Dir(nodes[n], c)) < |nodes|
    ensures OnPath(nodes, e, c, GetLink(nodes[n], Dir(nodes[n], c)))
    decreases |nodes| - e
  {
    if e != n {
      OnPathExtend(nodes, GetLink(nodes[e], Dir(nodes[e], c)), c, n);
    }
  }

  /** The arena after `tstree_node_new` and the store of the new node's
      index into link `l` of node `m`. */
  function Attached(nodes: seq<Node>, m: nat, l: Link, added: Node): (r: seq<Node>)
    requires m < |nodes|
    ensures |r| == |nodes| + 1 && r[|nodes|] == added
    ensures forall i :: 0 <= i < |nodes| && i != m ==> r[i] == nodes[i]
    ensures r[m] == SetLink(nodes[m], l, |nodes|)
  {
    nodes[m := SetLink(nodes[m], l, |nodes|)] + [added]
  }

  /** A search that succeeds never follows the link that was absent, so it
      still succeeds after a node is attached there. */
  lemma {:induction false} SearchStable(nodes: seq<Node>, m: nat, l: Link, added: Node, n: int, c: byte)
    requires m < |nodes| && GetLink(nodes[m], l) == NIL
    requires Search(nodes, n, c) != NIL
    ensures Search(Attached(nodes, m, l, added), n, c) == Search(nodes, n, c)
    decreases |nodes| - n
  {
    var after := Attached(nodes, m, l, added);
    assert after[n].chr == nodes[n].chr;
    if nodes[n].chr != c {
      var next := GetLink(nodes[n], Dir(nodes[n], c));
      assert GetLink(after[n], Dir(after[n], c)) == next;
      SearchStable(nodes, m, l, added, next, c);
    }
  }

  lemma {:induction false} LevelStable(nodes: seq<Node>, root: int, m: nat, l: Link, added: Node, p: seq<byte>)
    requires m < |nodes| && GetLink(nodes[m], l) == NIL
    requires Level(nodes, root, p) != NIL
    ensures Level(Attached(nodes, m, l, added), root, p) == Level(nodes, root, p)
    decreases |p|, 1
  {
    if p != [] {
      FindStable(nodes, root, m, l, added, p);
    }
  }

  /** Attaching a node keeps every word that was found where it was. */
  lemma {:induction false} FindStable(nodes: seq<Node>, root: int, m: nat, l: Link, added: Node, w: seq<byte>)
    requires m < |nodes| && GetLink(nodes[m], l) == NIL
    requires w != [] && Find(nodes, root, w) != NIL
    ensures Find(Attached(nodes, m, l, added), root, w) == Find(nodes, root, w)
    decreases |w|, 0
  {
    var p := w[..|w| - 1];
    LevelStable(nodes, root, m, l, added, p);
    SearchStable(nodes, m, l, added, Level(nodes, root, p), w[|w| - 1]);
  }

  /** Attaching a node keeps the sibling search path up to the node it is
      attached to. */
  lemma {:induction false} OnPathStable(nodes: seq<Node>, l: Link, added: Node, e: int, c: byte, n: nat)
    requires n < |nodes| && OnPath(nodes, e, c, n)
    ensures OnPath(Attached(nodes, n, l, added), e, c, n)
    decreases |nodes| - e
  {
    if e != n {
      OnPathSearch(nodes, e, c, n);
      OnPathStable(nodes, l, added, GetLink(nodes[e], Dir(nodes[e], c)), c, n);
    }
  }

  /** The first node of a tree is found as its one-character word. */
  lemma FindFreshRoot(added: Node)
    ensures Find([added], 0, [added.chr]) == 0
  {
    assert [added.chr][..0] == [];
  }

  /** A node attached as the child of the node of `p` is found as the word
      `p` followed by its character. */
  lemma FindFreshChild(nodes: seq<Node>, root: int, f: nat, added: Node, p: seq<byte>)
    requires p != [] && Find(nodes, root, p) == f && f < |nodes| && nodes[f].child == NIL
    ensures Find(Attached(nodes, f, Child, added), root, p + [added.chr]) == |nodes|
  {
    assert (p + [added.chr])[..|p|] == p;
    FindStable(nodes, root, f, Child, added, p);
  }

  /** A node attached as a sibling at the end of the search for its
      character below `p` is found as `p` followed by its character. */
  lemma FindFreshSibling(nodes: seq<Node>, root: int, n: nat, added: Node, p: seq<byte>)
    requires n < |nodes| && OnPath(nodes, Level(nodes, root, p), added.chr, n)
    requires nodes[n].chr != added.chr && GetLink(nodes[n], Dir(nodes[n], added.chr)) == NIL
    ensures Find(Attached(nodes, n, Dir(nodes[n], added.chr), added), root, p + [added.chr]) == |nodes|
  {
    var c, l := added.chr, Dir(nodes[n], added.chr);
    var after := Attached(nodes, n, l, added);
    var e := Level(nodes, root, p);
    assert (p + [c])[..|p|] == p;
    LevelStable(nodes, root, n, l, added, p);
    OnPathStable(nodes, l, added, e, c, n);
    OnPathSearch(after, e, c, n);
    assert GetLink(after[n], Dir(after[n], c)) == |nodes|;
  }

  /** `b` is a sibling of `a`: a word of the same length that differs at
      most in its last character. */
  ghost predicate Sibling(words: seq<seq<byte>>, a: nat, b: nat)
    requires a < |words| && b < |words|
  {
    |words[b]| == |words[a]| >= 1 && words[b][..|words[a]| - 1] == words[a][..|words[a]| - 1]
  }

  /** `b` is on the level below `a`: its word is that of `a` and one more
      character. */
  ghost predicate ChildOf(words: seq<seq<byte>>, a: nat, b: nat)
    requires a < |words| && b < |words|
  {
    |words[b]| == |words[a]| + 1 && words[b][..|words[a]|] == words[a]
  }

  ghost predicate Sized(nodes: seq<Node>, words: seq<seq<byte>>, lbs: seq<int>, ubs: seq<int>)
  {
    |words| == |nodes| && |lbs| == |nodes| && |ubs| == |nodes|
  }

  /** Node `i` carries the word `words[i]`: its depth is the word's length
      and its character the word's last; its character lies strictly
      between the bounds `lbs[i]` and `ubs[i]` of its sibling subtree; its
      parent is the node of the word without the last character, or NIL on
      the first level. */
  ghost predicate Labelled(nodes: seq<Node>, words: seq<seq<byte>>, lbs: seq<int>, ubs: seq<int>, i: nat)
    requires Sized(nodes, words, lbs, ubs) && i < |nodes|
  {
    var n, w := nodes[i], words[i];
    w != [] && n.depth == |w| && n.chr == w[|w| - 1] && lbs[i] < n.chr < ubs[i]
    && (|w| == 1 ==> n.parent == NIL)
    && (|w| > 1 ==> 0 <= n.parent < i && words[n.parent] == w[..|w| - 1])
  }

  /** A link is absent or leads to a later node. */
  ghost predicate LinkOk(nodes: seq<Node>, i: nat, k: int)
  {
    k == NIL || i < k < |nodes|
  }

  /** The links of node `i` lead to later nodes; the lower sibling subtree
      holds the characters between the lower bound and this one, the higher
      sibling subtree those between this one and the upper bound, and the
      next level starts unbounded below the word of `i`. */
  ghost predicate Linked(nodes: seq<Node>, words: seq<seq<byte>>, lbs: seq<int>, ubs: seq<int>, i: nat)
    requires Sized(nodes, words, lbs, ubs) && i < |nodes|
  {
    var n := nodes[i];
    LinkOk(nodes, i, n.lo) && LinkOk(nodes, i, n.hi) && LinkOk(nodes, i, n.child)
    && (n.lo != NIL ==> Sibling(words, i, n.lo) && lbs[n.lo] == lbs[i] && ubs[n.lo] == n.chr)
    && (n.hi != NIL ==> Sibling(words, i, n.hi) && lbs[n.hi] == n.chr && ubs[n.hi] == ubs[i])
    && (n.child != NIL ==> ChildOf(words, i, n.child) && lbs[n.child] == -1 && ubs[n.child] == 256)
  }

  /** The shape of the node graph: the root is the first node created, on
      the first level and unbounded, and every node is labelled and linked
      as above. */
  ghost predicate Shape(nodes: seq<Node>, root: int, words: seq<seq<byte>>, lbs: seq<int>, ubs: seq<int>)
  {
    Sized(nodes, words, lbs, ubs)
    && (root == NIL <==> |nodes| == 0)
    && (root != NIL ==> root == 0 && |words[0]| == 1 && lbs[0] == -1 && ubs[0] == 256)
    && (forall i :: 0 <= i < |nodes| ==> Labelled(nodes, words, lbs, ubs, i))
    && (forall i :: 0 <= i < |nodes| ==> Linked(nodes, words, lbs, ubs, i))
  }

  /** A well-formed tree: the shape above, and the search for the word of
      every node finds that node. */
  ghost predicate TreeOk(nodes: seq<Node>, root: int, words: seq<seq<byte>>, lbs: seq<int>, ubs: seq<int>)
  {
    Shape(nodes, root, words, lbs, ubs)
    && forall i :: 0 <= i < |nodes| ==> words[i] != [] && Find(nodes, root, words[i]) == i
  }

  /** The sibling search from a node ends at a sibling with the character
      looked for. */
  lemma {:induction false} SearchSound(nodes: seq<Node>, root: int, words: seq<seq<byte>>, lbs: seq<int>, ubs: seq<int>,
                                       e: int, c: byte)
    requires Shape(nodes, root, words, lbs, ubs) && 0 <= e < |nodes| && Search(nodes, e, c) != NIL
    ensures Sibling(words, e, Search(nodes, e, c))
    ensures words[Search(nodes, e, c)] == words[e][..|words[e]| - 1] + [c]
    decreases |nodes| - e
  {
    var r := Search(nodes, e, c);
    assert Labelled(nodes, words, lbs, ubs, e) && Labelled(nodes, words, lbs, ubs, r);
    if nodes[e].chr != c {
      var next := GetLink(nodes[e], Dir(nodes[e], c));
      assert Linked(nodes, words, lbs, ubs, e);
      SearchSound(nodes, root, words, lbs, ubs, next, c);
    }
    var w := words[r];
    assert w == w[..|w| - 1] + [w[|w| - 1]];
  }

  /** The first node of the level below a prefix carries a word one longer
      than the prefix, which extends it. */
  lemma {:induction false} LevelSound(nodes: seq<Node>, root: int, words: seq<seq<byte>>, lbs: seq<int>, ubs: seq<int>,
                                      p: seq<byte>)
    requires Shape(nodes, root, words, lbs, ubs) && Level(nodes, root, p) != NIL
    ensures 0 <= Level(nodes, root, p) < |nodes|
    ensures |words[Level(nodes, root, p)]| == |p| + 1 && words[Level(nodes, root, p)][..|p|] == p
    ensures lbs[Level(nodes, root, p)] == -1 && ubs[Level(nodes, root, p)] == 256
    decreases |p|, 1
  {
    if p != [] {
      var f := Find(nodes, root, p);
      FindSound(nodes, root, words, lbs, ubs, p);
      assert Linked(nodes, words, lbs, ubs, f);
    }
  }

  /** Whatever the search for a word finds carries that word. */
  lemma {:induction false} FindSound(nodes: seq<Node>, root: int, words: seq<seq<byte>>, lbs: seq<int>, ubs: seq<int>,
                                     w: seq<byte>)
    requires Shape(nodes, root, words, lbs, ubs) && w != [] && Find(nodes, root, w) != NIL
    ensures words[Find(nodes, root, w)] == w
    decreases |w|, 0
  {
    var p, c := w[..|w| - 1], w[|w| - 1];
    assert Find(nodes, root, w) == Search(nodes, Level(nodes, root, p), c);
    LevelSearchSound(nodes, root, words, lbs, ubs, p, c);
    assert w == p + [c];
  }

  /** The sibling search on the level below a prefix ends at a node whose
      word is the prefix and the character looked for. */
  lemma {:induction false} LevelSearchSound(nodes: seq<Node>, root: int, words: seq<seq<byte>>, lbs: seq<int>, ubs: seq<int>,
                                            p: seq<byte>, c: byte)
    requires Shape(nodes, root, words, lbs, ubs)
    requires Level(nodes, root, p) != NIL && Search(nodes, Level(nodes, root, p), c) != NIL
    ensures words[Search(nodes, Level(nodes, root, p), c)] == p + [c]
    decreases |p|, 2
  {
    var e := Level(nodes, root, p);
    LevelSound(nodes, root, words, lbs, ubs, p);
    SearchSound(nodes, root, words, lbs, ubs, e, c);
    assert words[e][..|words[e]| - 1] == p;
  }

  /** A prefix without a level below it has no longer word below it
      either: the search for `key` fails as soon as one of its prefixes
      does. */
  lemma {:induction false} LevelGone(nodes: seq<Node>, root: int, key: seq<byte>, pos: nat)
    requires pos <= |key| && Level(nodes, root, key[..pos]) == NIL
    ensures Level(nodes, root, key) == NIL
    decreases |key| - pos
  {
    if pos < |key| {
      TakeOneMore(key, pos);
      assert Find(nodes, root, key[..pos + 1]) == Search(nodes, Level(nodes, root, key[..pos]), key[pos]);
      LevelGone(nodes, root, key, pos + 1);
    } else {
      assert key[..pos] == key;
    }
  }

  /** In a well-formed tree a node is found exactly under its own word. */
  lemma FindExact(nodes: seq<Node>, root: int, words: seq<seq<byte>>, lbs: seq<int>, ubs: seq<int>,
                  w: seq<byte>, i: nat)
    requires TreeOk(nodes, root, words, lbs, ubs) && w != [] && i < |nodes|
    ensures Find(nodes, root, w) == i <==> words[i] == w
  {
    if Find(nodes, root, w) == i {
      FindSound(nodes, root, words, lbs, ubs, w);
    }
  }

  /** The tree holding the first node alone. */
  lemma AttachRootOk(added: Node)
    requires added == Node(added.chr, 0, 1, NIL, NIL, NIL, NIL)
    ensures TreeOk([added], 0, [[added.chr]], [-1], [256])
  {
    FindFreshRoot(added);
    assert Labelled([added], [[added.chr]], [-1], [256], 0);
  }

  /** The conditions under which a new node may be attached under link `l`
      of node `m` with word `w` and sibling bounds `lb` and `ub`: it starts
      with a zero count and no links, it is labelled with `w`, and `w` is a
      sibling word (for a sibling link, with the bounds split at the
      character of `m`) or the word of `m` and one more character (for the
      child link, unbounded). */
  ghost predicate Attachable(nodes: seq<Node>, words: seq<seq<byte>>, lbs: seq<int>, ubs: seq<int>,
                             m: nat, l: Link, added: Node, w: seq<byte>, lb: int, ub: int)
    requires Sized(nodes, words, lbs, ubs) && m < |nodes|
  {
    var k := |nodes|;
    GetLink(nodes[m], l) == NIL
    && added.count == 0 && added.lo == NIL && added.hi == NIL && added.child == NIL
    && Labelled(nodes + [added], words + [w], lbs + [lb], ubs + [ub], k)
    && (l == Lo ==> Sibling(words + [w], m, k) && lb == lbs[m] && ub == nodes[m].chr)
    && (l == Hi ==> Sibling(words + [w], m, k) && lb == nodes[m].chr && ub == ubs[m])
    && (l == Child ==> ChildOf(words + [w], m, k) && lb == -1 && ub == 256)
  }

  /** Attaching a node that may be attached, and that the search for its
      word then finds, keeps the tree well formed. */
  lemma AttachOk(nodes: seq<Node>, root: int, words: seq<seq<byte>>, lbs: seq<int>, ubs: seq<int>,
                 m: nat, l: Link, added: Node, w: seq<byte>, lb: int, ub: int)
    requires TreeOk(nodes, root, words, lbs, ubs) && m < |nodes|
    requires Attachable(nodes, words, lbs, ubs, m, l, added, w, lb, ub)
    requires w != [] && Find(Attached(nodes, m, l, added), root, w) == |nodes|
    ensures TreeOk(Attached(nodes, m, l, added), root, words + [w], lbs + [lb], ubs + [ub])
  {
    var nodes', words', lbs', ubs' := Attached(nodes, m, l, added), words + [w], lbs + [lb], ubs + [ub];
    AttachShape(nodes, root, words, lbs, ubs, m, l, added, w, lb, ub);
    forall i | 0 <= i < |nodes'| ensures words'[i] != [] && Find(nodes', root, words'[i]) == i {
      if i < |nodes| {
        FindStable(nodes, root, m, l, added, words[i]);
      }
    }
  }

  lemma AttachShape(nodes: seq<Node>, root: int, words: seq<seq<byte>>, lbs: seq<int>, ubs: seq<int>,
                    m: nat, l: Link, added: Node, w: seq<byte>, lb: int, ub: int)
    requires Shape(nodes, root, words, lbs, ubs) && m < |nodes|
    requires Attachable(nodes, words, lbs, ubs, m, l, added, w, lb, ub)
    ensures Shape(Attached(nodes, m, l, added), root, words + [w], lbs + [lb], ubs + [ub])
  {
    var nodes', words', lbs', ubs' := Attached(nodes, m, l, added), words + [w], lbs + [lb], ubs + [ub];
    forall i | 0 <= i < |nodes'| ensures Labelled(nodes', words', lbs', ubs', i) {
      if i < |nodes| {
        assert Labelled(nodes, words, lbs, ubs, i);
      } else {
        assert Labelled(nodes + [added], words', lbs', ubs', i);
      }
    }
    forall i | 0 <= i < |nodes'| ensures Linked(nodes', words', lbs', ubs', i) {
      if i < |nodes| {
        assert Linked(nodes, words, lbs, ubs, i);
      }
    }
  }

  /** Two arenas with the same characters and links at every index. */
  ghost predicate SameLinks(a: seq<Node>, b: seq<Node>)
  {
    |a| == |b|
    && forall i :: 0 <= i < |a| ==>
         a[i].chr == b[i].chr && a[i].lo == b[i].lo && a[i].hi == b[i].hi && a[i].child == b[i].child
  }

  /** The searches read only characters and links, so changing a count
      changes no search. */
  lemma {:induction false} SearchSame(a: seq<Node>, b: seq<Node>, n: int, c: byte)
    requires SameLinks(a, b)
    ensures Search(a, n, c) == Search(b, n, c)
    decreases |a| - n
  {
    if 0 <= n < |a| && a[n].chr != c {
      var next := GetLink(a[n], Dir(a[n], c));
      assert next == GetLink(b[n], Dir(b[n], c));
      if n < next {
        SearchSame(a, b, next, c);
      }
    }
  }

  lemma {:induction false} LevelSame(a: seq<Node>, b: seq<Node>, root: int, p: seq<byte>)
    requires SameLinks(a, b)
    ensures Level(a, root, p) == Level(b, root, p)
    decreases |p|, 1
  {
    if p != [] {
      FindSame(a, b, root, p);
    }
  }

  lemma {:induction false} FindSame(a: seq<Node>, b: seq<Node>, root: int, w: seq<byte>)
    requires SameLinks(a, b) && w != []
    ensures Find(a, root, w) == Find(b, root, w)
    decreases |w|, 0
  {
    LevelSame(a, b, root, w[..|w| - 1]);
    SearchSame(a, b, Level(b, root, w[..|w| - 1]), w[|w| - 1]);
  }

  /** Raising the count of a node keeps the tree well formed. */
  lemma Bumped(nodes: seq<Node>, root: int, words: seq<seq<byte>>, lbs: seq<int>, ubs: seq<int>, i: nat, k: nat)
    requires TreeOk(nodes, root, words, lbs, ubs) && i < |nodes|
    ensures TreeOk(nodes[i := nodes[i].(count := k)], root, words, lbs, ubs)
    ensures forall w :: w != [] ==> Find(nodes[i := nodes[i].(count := k)], root, w) == Find(nodes, root, w)
  {
    var after := nodes[i := nodes[i].(count := k)];
    assert SameLinks(nodes, after);
    forall j | 0 <= j < |after|
      ensures Labelled(after, words, lbs, ubs, j) && Linked(after, words, lbs, ubs, j)
    {
      assert Labelled(nodes, words, lbs, ubs, j) && Linked(nodes, words, lbs, ubs, j);
    }
    forall w | w != [] ensures Find(after, root, w) == Find(nodes, root, w) {
      FindSame(after, nodes, root, w);
    }
  }

  /** `tstree_walk_subnodes`: the nodes with a non-zero count in the subtree
      of `n`, in the order node, lower siblings, next level, higher
      siblings. */
  function Walk(nodes: seq<Node>, n: int): seq<int>
    decreases |nodes| - n
  {
    if !(0 <= n < |nodes|) then []
    else
      var x := nodes[n];
      (if x.count != 0 then [n] else [])
      + (if n < x.lo then Walk(nodes, x.lo) else [])
      + (if n < x.child then Walk(nodes, x.child) else [])
      + (if n < x.hi then Walk(nodes, x.hi) else [])
  }

  /** `v` is what a callback `cb` handed the elements of `all` in order
      gets to see when it may stop the traversal: every element up to the
      first one it refuses, that one included, and `ok` tells whether it
      accepted them all. */
  ghost predicate Stopped<T>(ok: bool, v: seq<T>, all: seq<T>, cb: T -> bool)
  {
    IsPrefix(v, all)
    && (forall i :: 0 <= i < |v| - 1 ==> cb(v[i]))
    && (ok ==> v == all && forall i :: 0 <= i < |v| ==> cb(v[i]))
    && (!ok ==> v != [] && !cb(v[|v| - 1]))
  }

  /** A traversal that ran through `a` completely goes on with `b`. */
  lemma StoppedThen<T>(a: seq<T>, ok: bool, v: seq<T>, b: seq<T>, cb: T -> bool)
    requires Stopped(true, a, a, cb) && Stopped(ok, v, b, cb)
    ensures Stopped(ok, a + v, a + b, cb)
  {
    assert (a + b)[..|a + v|] == a + b[..|v|];
    forall i | 0 <= i < |a + v| - 1 ensures cb((a + v)[i]) {
      if i >= |a| {
        assert (a + v)[i] == v[i - |a|];
      }
    }
    if ok {
      forall i | 0 <= i < |a + v| ensures cb((a + v)[i]) {
        if i >= |a| {
          assert (a + v)[i] == v[i - |a|];
        }
      }
    } else {
      assert (a + v)[|a + v| - 1] == v[|v| - 1];
    }
  }

  /** A traversal that stopped within `a` never reaches `b`. */
  lemma StoppedWithin<T>(v: seq<T>, a: seq<T>, b: seq<T>, cb: T -> bool)
    requires Stopped(false, v, a, cb)
    ensures Stopped(false, v, a + b, cb)
  {
    assert (a + b)[..|v|] == a[..|v|];
  }

  /** The ways of grouping four joined sequences used by the walk. */
  lemma Regroup<T>(a: seq<T>, b: seq<T>, c: seq<T>, e: seq<T>)
    ensures a + b + c + e == a + (b + c + e) == (a + b) + (c + e)
  {
  }

  /** `tstree_walk_subnodes` with a callback `cb` that may refuse a node and
      so stop the walk: the nodes handed to `cb`, in the order of `Walk`,
      and whether the walk ran to its end. */
  function WalkUntil(nodes: seq<Node>, n: int, cb: int -> bool): (r: (bool, seq<int>))
    decreases |nodes| - n
  {
    if !(0 <= n < |nodes|) then (true, [])
    else
      var x := nodes[n];
      if x.count != 0 && !cb(n) then (false, [n])
      else
        var own := if x.count != 0 then [n] else [];
        var lo := if n < x.lo then WalkUntil(nodes, x.lo, cb) else (true, []);
        if !lo.0 then (false, own + lo.1)
        else
          var down := if n < x.child then WalkUntil(nodes, x.child, cb) else (true, []);
          if !down.0 then (false, own + lo.1 + down.1)
          else
            var hi := if n < x.hi then WalkUntil(nodes, x.hi, cb) else (true, []);
            (hi.0, own + lo.1 + down.1 + hi.1)
  }

  /** The walk with a callback hands it the nodes of `Walk` in order and
      stops at the first one it refuses. */
  lemma {:induction false} WalkUntilStops(nodes: seq<Node>, n: int, cb: int -> bool)
    ensures Stopped(WalkUntil(nodes, n, cb).0, WalkUntil(nodes, n, cb).1, Walk(nodes, n), cb)
    decreases |nodes| - n
  {
    if 0 <= n < |nodes| {
      var x := nodes[n];
      var own := if x.count != 0 then [n] else [];
      var wl := if n < x.lo then Walk(nodes, x.lo) else [];
      var wc := if n < x.child then Walk(nodes, x.child) else [];
      var wh := if n < x.hi then Walk(nodes, x.hi) else [];
      assert Walk(nodes, n) == own + wl + wc + wh;
      if x.count != 0 && !cb(n) {
        Regroup(own, wl, wc, wh);
        StoppedWithin([n], [n], wl + wc + wh, cb);
      } else {
        var lo := if n < x.lo then WalkUntil(nodes, x.lo, cb) else (true, []);
        var down := if n < x.child then WalkUntil(nodes, x.child, cb) else (true, []);
        var hi := if n < x.hi then WalkUntil(nodes, x.hi, cb) else (true, []);
        if n < x.lo { WalkUntilStops(nodes, x.lo, cb); }
        if n < x.child { WalkUntilStops(nodes, x.child, cb); }
        if n < x.hi { WalkUntilStops(nodes, x.hi, cb); }
        assert Stopped(true, own, own, cb);
        StoppedThen(own, lo.0, lo.1, wl, cb);
        if !lo.0 {
          assert WalkUntil(nodes, n, cb) == (false, own + lo.1);
          Regroup(own, wl, wc, wh);
          StoppedWithin(own + lo.1, own + wl, wc + wh, cb);
        } else {
          assert lo.1 == wl;
          StoppedThen(own + wl, down.0, down.1, wc, cb);
          if !down.0 {
            assert WalkUntil(nodes, n, cb) == (false, own + lo.1 + down.1);
            StoppedWithin(own + wl + down.1, own + wl + wc, wh, cb);
          } else {
            assert down.1 == wc;
            assert WalkUntil(nodes, n, cb) == (hi.0, own + lo.1 + down.1 + hi.1);
            StoppedThen(own + wl + wc, hi.0, hi.1, wh, cb);
          }
        }
      }
    }
  }

  /** Every node of the subtree of `n`, whatever its count. */
  ghost function Sub(nodes: seq<Node>, n: int): set<int>
    decreases |nodes| - n
  {
    if !(0 <= n < |nodes|) then {}
    else
      var x := nodes[n];
      {n}
      + (if n < x.lo then Sub(nodes, x.lo) else {})
      + (if n < x.child then Sub(nodes, x.child) else {})
      + (if n < x.hi then Sub(nodes, x.hi) else {})
  }

  /** A node of the subtree of `n` other than `n` lies in the subtree of
      one of its links. */
  lemma SubCases(nodes: seq<Node>, n: nat, x: int)
    requires n < |nodes| && x in Sub(nodes, n) && x != n
    ensures var y := nodes[n];
      (n < y.lo && x in Sub(nodes, y.lo)) || (n < y.child && x in Sub(nodes, y.child))
      || (n < y.hi && x in Sub(nodes, y.hi))
  {
  }

  /** The walk lists exactly the nodes of the subtree with a non-zero count. */
  lemma {:induction false} WalkSub(nodes: seq<Node>, n: int, x: int)
    ensures x in Walk(nodes, n) <==> x in Sub(nodes, n) && 0 <= x < |nodes| && nodes[x].count != 0
    decreases |nodes| - n
  {
    if 0 <= n < |nodes| {
      var y := nodes[n];
      if n < y.lo { WalkSub(nodes, y.lo, x); }
      if n < y.child { WalkSub(nodes, y.child, x); }
      if n < y.hi { WalkSub(nodes, y.hi, x); }
    }
  }

  /** A subtree holds the subtrees of its nodes. */
  lemma {:induction false} SubTrans(nodes: seq<Node>, n: int, y: int, x: int)
    requires y in Sub(nodes, n) && x in Sub(nodes, y)
    ensures x in Sub(nodes, n)
    decreases |nodes| - n
  {
    if y != n {
      var z := nodes[n];
      if n < z.lo && y in Sub(nodes, z.lo) { SubTrans(nodes, z.lo, y, x); }
      else if n < z.child && y in Sub(nodes, z.child) { SubTrans(nodes, z.child, y, x); }
      else { SubTrans(nodes, z.hi, y, x); }
    }
  }

  /** The sibling search ends inside the subtree it starts from. */
  lemma {:induction false} SearchInSub(nodes: seq<Node>, e: int, c: byte)
    requires Search(nodes, e, c) != NIL
    ensures Search(nodes, e, c) in Sub(nodes, e)
    decreases |nodes| - e
  {
    if nodes[e].chr != c {
      var next := GetLink(nodes[e], Dir(nodes[e], c));
      SearchInSub(nodes, next, c);
      assert next == nodes[e].lo || next == nodes[e].hi;
    }
  }

  /** The words of a subtree: they share the word of its top node up to the
      last character, and at that position hold a character within the
      bounds of the top node. */
  lemma {:induction false} SubWords(nodes: seq<Node>, root: int, words: seq<seq<byte>>, lbs: seq<int>, ubs: seq<int>,
                                    n: nat, x: int)
    requires Shape(nodes, root, words, lbs, ubs) && n < |nodes| && x in Sub(nodes, n)
    ensures 0 <= x < |nodes|
    ensures var d := |words[n]|;
      d >= 1 && |words[x]| >= d && words[x][..d - 1] == words[n][..d - 1] && lbs[n] < words[x][d - 1] < ubs[n]
    decreases |nodes| - n
  {
    var y := nodes[n];
    NodeLinks(nodes, root, words, lbs, ubs, n);
    if x != n {
      SubCases(nodes, n, x);
      if n < y.lo && x in Sub(nodes, y.lo) {
        SubWords(nodes, root, words, lbs, ubs, y.lo, x);
        UnderSibling(words[n], words[y.lo], words[x], lbs[y.lo], ubs[y.lo], lbs[n], ubs[n]);
      } else if n < y.child && x in Sub(nodes, y.child) {
        SubWords(nodes, root, words, lbs, ubs, y.child, x);
        UnderChild(words[n], words[y.child], words[x], y.chr, lbs[n], ubs[n]);
      } else {
        assert n < y.hi && x in Sub(nodes, y.hi);
        SubWords(nodes, root, words, lbs, ubs, y.hi, x);
        UnderSibling(words[n], words[y.hi], words[x], lbs[y.hi], ubs[y.hi], lbs[n], ubs[n]);
      }
    }
  }

  /** The nodes the walk lists below `k` carry words of the subtree of `k`. */
  lemma WalkBelow(nodes: seq<Node>, root: int, words: seq<seq<byte>>, lbs: seq<int>, ubs: seq<int>, k: int, x: int)
    requires Shape(nodes, root, words, lbs, ubs) && x in Walk(nodes, k)
    ensures 0 <= k < |nodes| && 0 <= x < |nodes|
    ensures 1 <= |words[k]| <= |words[x]|
    ensures words[x][..|words[k]| - 1] == words[k][..|words[k]| - 1]
    ensures lbs[k] < words[x][|words[k]| - 1] < ubs[k]
  {
    WalkSub(nodes, k, x);
    SubWords(nodes, root, words, lbs, ubs, k, x);
  }

  /** Node `n` of a well-shaped arena is labelled and linked. */
  lemma NodeOk(nodes: seq<Node>, root: int, words: seq<seq<byte>>, lbs: seq<int>, ubs: seq<int>, n: nat)
    requires Shape(nodes, root, words, lbs, ubs) && n < |nodes|
    ensures Labelled(nodes, words, lbs, ubs, n) && Linked(nodes, words, lbs, ubs, n)
  {
  }

  /** Node `n` of a well-shaped arena, spelled out: its character is the
      last of its word and lies within its bounds; a lower sibling has the
      bounds of `n` up to its character, a higher sibling from its
      character on, both with words that differ from that of `n` in the
      last character only; a child has the word of `n` and one more
      character. */
  lemma NodeLinks(nodes: seq<Node>, root: int, words: seq<seq<byte>>, lbs: seq<int>, ubs: seq<int>, n: nat)
    requires Shape(nodes, root, words, lbs, ubs) && n < |nodes|
    ensures var d, y := |words[n]|, nodes[n];
      d >= 1 && y.chr == words[n][d - 1] && lbs[n] < y.chr < ubs[n]
      && (n < y.lo ==> y.lo < |nodes| && |words[y.lo]| == d && words[y.lo][..d - 1] == words[n][..d - 1]
                       && lbs[y.lo] == lbs[n] && ubs[y.lo] == y.chr)
      && (n < y.hi ==> y.hi < |nodes| && |words[y.hi]| == d && words[y.hi][..d - 1] == words[n][..d - 1]
                       && lbs[y.hi] == y.chr && ubs[y.hi] == ubs[n])
      && (n < y.child ==> y.child < |nodes| && |words[y.child]| == d + 1 && words[y.child][..d] == words[n])
  {
    NodeOk(nodes, root, words, lbs, ubs, n);
  }

  /** A word under a sibling `k` of `n`, within bounds that lie within
      those of `n`, shares the word of `n` up to its last character and has
      a character there within the bounds of `n`. */
  lemma UnderSibling(wn: seq<byte>, wk: seq<byte>, wx: seq<byte>, lb: int, ub: int, lbn: int, ubn: int)
    requires 1 <= |wn| && |wk| == |wn| && |wk| <= |wx| && wk[..|wn| - 1] == wn[..|wn| - 1]
    requires wx[..|wk| - 1] == wk[..|wk| - 1] && lb < wx[|wk| - 1] < ub && lbn <= lb && ub <= ubn
    ensures var d := |wn|; d >= 1 && |wx| >= d && wx[..d - 1] == wn[..d - 1] && lbn < wx[d - 1] < ubn
  {
  }

  /** A word under the child `k` of `n` extends the word of `n`, so it has
      the character of `n` at its position. */
  lemma UnderChild(wn: seq<byte>, wk: seq<byte>, wx: seq<byte>, chr: int, lbn: int, ubn: int)
    requires |wn| >= 1 && |wk| == |wn| + 1 && wk[..|wn|] == wn && |wx| >= |wk| && wx[..|wk| - 1] == wk[..|wk| - 1]
    requires chr == wn[|wn| - 1] && lbn < chr < ubn
    ensures var d := |wn|; d >= 1 && |wx| >= d && wx[..d - 1] == wn[..d - 1] && lbn < wx[d - 1] < ubn
  {
    assert wx[..|wn|] == wn by {
      assert wx[..|wn|] == wx[..|wk| - 1];
    }
    assert wx[..|wn| - 1] == wx[..|wn|][..|wn| - 1];
    assert wx[|wn| - 1] == wx[..|wn|][|wn| - 1];
  }

  /** At the position of the character of `n`, the lower sibling subtree
      holds smaller characters, */
  lemma WalkLo(nodes: seq<Node>, root: int, words: seq<seq<byte>>, lbs: seq<int>, ubs: seq<int>, n: nat, x: int)
    requires Shape(nodes, root, words, lbs, ubs) && n < |nodes| && n < nodes[n].lo && x in Walk(nodes, nodes[n].lo)
    ensures 0 <= x < |nodes| && |words[x]| >= |words[n]| >= 1 && words[x][|words[n]| - 1] < nodes[n].chr
  {
    var k := nodes[n].lo;
    WalkBelow(nodes, root, words, lbs, ubs, k, x);
    NodeLinks(nodes, root, words, lbs, ubs, n);
    LastBelow(words[n], words[k], words[x], ubs[k]);
  }

  /** A word `x` under a sibling `k` of `n` has a character below the
      bound `ub` of `k` where `n` has its last. */
  lemma LastBelow(wn: seq<byte>, wk: seq<byte>, wx: seq<byte>, ub: int)
    requires 1 <= |wk| == |wn| <= |wx| && wx[|wk| - 1] < ub
    ensures |wx| >= |wn| >= 1 && wx[|wn| - 1] < ub
  {
  }

  /** the higher sibling subtree larger characters, */
  lemma WalkHi(nodes: seq<Node>, root: int, words: seq<seq<byte>>, lbs: seq<int>, ubs: seq<int>, n: nat, x: int)
    requires Shape(nodes, root, words, lbs, ubs) && n < |nodes| && n < nodes[n].hi && x in Walk(nodes, nodes[n].hi)
    ensures 0 <= x < |nodes| && |words[x]| >= |words[n]| >= 1 && words[x][|words[n]| - 1] > nodes[n].chr
  {
    var k := nodes[n].hi;
    WalkBelow(nodes, root, words, lbs, ubs, k, x);
    NodeLinks(nodes, root, words, lbs, ubs, n);
    LastAbove(words[n], words[k], words[x], lbs[k]);
  }

  /** A word `x` under a sibling `k` of `n` has a character above the
      bound `lb` of `k` where `n` has its last. */
  lemma LastAbove(wn: seq<byte>, wk: seq<byte>, wx: seq<byte>, lb: int)
    requires 1 <= |wk| == |wn| <= |wx| && lb < wx[|wk| - 1]
    ensures |wx| >= |wn| >= 1 && wx[|wn| - 1] > lb
  {
  }

  /** and the next level the same character, in longer words. */
  lemma WalkChild(nodes: seq<Node>, root: int, words: seq<seq<byte>>, lbs: seq<int>, ubs: seq<int>, n: nat, x: int)
    requires Shape(nodes, root, words, lbs, ubs) && n < |nodes| && n < nodes[n].child && x in Walk(nodes, nodes[n].child)
    ensures 0 <= x < |nodes| && |words[x]| > |words[n]| >= 1 && words[x][..|words[n]|] == words[n]
  {
    var k := nodes[n].child;
    WalkBelow(nodes, root, words, lbs, ubs, k, x);
    NodeOk(nodes, root, words, lbs, ubs, n);
    ChildPrefix(words[n], words[k], words[x]);
  }

  /** A word that agrees, up to the last character, with a word one longer
      than `u` that extends `u`, extends `u` too. */
  lemma ChildPrefix(u: seq<byte>, v: seq<byte>, w: seq<byte>)
    requires |v| == |u| + 1 && v[..|u|] == u && |w| >= |v| && w[..|v| - 1] == v[..|v| - 1]
    ensures |w| > |u| && w[..|u|] == u
  {
  }

  /** A word that extends `u` has the last character of `u` at its position. */
  lemma ExtendsLast(u: seq<byte>, w: seq<byte>)
    requires |u| >= 1 && |w| >= |u| && w[..|u|] == u
    ensures w[|u| - 1] == u[|u| - 1]
  {
    assert w[|u| - 1] == w[..|u|][|u| - 1];
  }

  /** The part of the walk below link `l` of `n`. */
  function Part(nodes: seq<Node>, n: nat, l: Link): seq<int>
    requires n < |nodes|
  {
    if n < GetLink(nodes[n], l) then Walk(nodes, GetLink(nodes[n], l)) else []
  }

  lemma PartLo(nodes: seq<Node>, root: int, words: seq<seq<byte>>, lbs: seq<int>, ubs: seq<int>, n: nat)
    requires Shape(nodes, root, words, lbs, ubs) && n < |nodes|
    ensures forall x :: x in Part(nodes, n, Lo) ==>
              0 <= x < |nodes| && |words[x]| >= |words[n]| >= 1 && words[x][|words[n]| - 1] < nodes[n].chr
  {
    forall x | x in Part(nodes, n, Lo)
      ensures 0 <= x < |nodes| && |words[x]| >= |words[n]| >= 1 && words[x][|words[n]| - 1] < nodes[n].chr
    {
      WalkLo(nodes, root, words, lbs, ubs, n, x);
    }
  }

  lemma PartHi(nodes: seq<Node>, root: int, words: seq<seq<byte>>, lbs: seq<int>, ubs: seq<int>, n: nat)
    requires Shape(nodes, root, words, lbs, ubs) && n < |nodes|
    ensures forall x :: x in Part(nodes, n, Hi) ==>
              0 <= x < |nodes| && |words[x]| >= |words[n]| >= 1 && words[x][|words[n]| - 1] > nodes[n].chr
  {
    forall x | x in Part(nodes, n, Hi)
      ensures 0 <= x < |nodes| && |words[x]| >= |words[n]| >= 1 && words[x][|words[n]| - 1] > nodes[n].chr
    {
      WalkHi(nodes, root, words, lbs, ubs, n, x);
    }
  }

  lemma PartChild(nodes: seq<Node>, root: int, words: seq<seq<byte>>, lbs: seq<int>, ubs: seq<int>, n: nat)
    requires Shape(nodes, root, words, lbs, ubs) && n < |nodes|
    ensures forall x :: x in Part(nodes, n, Child) ==>
              0 <= x < |nodes| && |words[x]| > |words[n]| >= 1 && words[x][|words[n]| - 1] == nodes[n].chr
  {
    forall x | x in Part(nodes, n, Child)
      ensures 0 <= x < |nodes| && |words[x]| > |words[n]| >= 1 && words[x][|words[n]| - 1] == nodes[n].chr
    {
      WalkChild(nodes, root, words, lbs, ubs, n, x);
      ExtendsLast(words[n], words[x]);
      assert Labelled(nodes, words, lbs, ubs, n);
    }
  }

  /** No node is listed twice by the walk: the top node, the lower and the
      higher sibling subtrees and the next level differ in the character at
      the top node's position or in the length of their words. */
  lemma {:induction false} WalkDistinct(nodes: seq<Node>, root: int, words: seq<seq<byte>>, lbs: seq<int>, ubs: seq<int>,
                                        n: int)
    requires Shape(nodes, root, words, lbs, ubs)
    ensures Distinct(Walk(nodes, n))
    decreases |nodes| - n
  {
    if 0 <= n < |nodes| {
      var y := nodes[n];
      assert Walk(nodes, n) == Own(nodes, n) + Part(nodes, n, Lo) + Part(nodes, n, Child) + Part(nodes, n, Hi);
      if n < y.lo { WalkDistinct(nodes, root, words, lbs, ubs, y.lo); }
      if n < y.child { WalkDistinct(nodes, root, words, lbs, ubs, y.child); }
      if n < y.hi { WalkDistinct(nodes, root, words, lbs, ubs, y.hi); }
      PartsApart(nodes, root, words, lbs, ubs, n);
    }
  }

  /** The top node as the walk lists it. */
  function Own(nodes: seq<Node>, n: nat): seq<int>
    requires n < |nodes|
  {
    if nodes[n].count != 0 then [n] else []
  }

  /** The top node and the three parts of the walk below it share no node. */
  lemma PartsApart(nodes: seq<Node>, root: int, words: seq<seq<byte>>, lbs: seq<int>, ubs: seq<int>, n: nat)
    requires Shape(nodes, root, words, lbs, ubs) && n < |nodes|
    requires Distinct(Part(nodes, n, Lo)) && Distinct(Part(nodes, n, Child)) && Distinct(Part(nodes, n, Hi))
    ensures Distinct(Own(nodes, n) + Part(nodes, n, Lo) + Part(nodes, n, Child) + Part(nodes, n, Hi))
  {
    var a, b, c, e := Own(nodes, n), Part(nodes, n, Lo), Part(nodes, n, Child), Part(nodes, n, Hi);
    assert Labelled(nodes, words, lbs, ubs, n);
    PartLo(nodes, root, words, lbs, ubs, n);
    PartChild(nodes, root, words, lbs, ubs, n);
    PartHi(nodes, root, words, lbs, ubs, n);
    var d, ch := |words[n]|, nodes[n].chr;
    assert forall x :: x in a ==> x == n;
    forall x | x in b ensures x !in c && x !in e {
      assert words[x][d - 1] < ch;
    }
    forall x | x in c ensures x !in e {
      assert words[x][d - 1] == ch;
    }
    DistinctJoin(a, b, c, e);
  }

  /** Every node below a prefix, strictly longer than it, lies in the
      subtree of the first node of the level below the prefix. */
  lemma {:induction false} ExtensionInSub(nodes: seq<Node>, root: int, words: seq<seq<byte>>, lbs: seq<int>, ubs: seq<int>,
                                          p: seq<byte>, x: nat)
    requires TreeOk(nodes, root, words, lbs, ubs) && x < |nodes| && |words[x]| > |p| && words[x][..|p|] == p
    ensures Level(nodes, root, p) != NIL && x in Sub(nodes, Level(nodes, root, p))
    decreases |words[x]|
  {
    var w := words[x];
    var q, c := w[..|w| - 1], w[|w| - 1];
    assert Labelled(nodes, words, lbs, ubs, x);
    assert Find(nodes, root, w) == Search(nodes, Level(nodes, root, q), c) == x;
    SearchInSub(nodes, Level(nodes, root, q), c);
    if |w| == |p| + 1 {
      assert q == p;
    } else {
      var f := nodes[x].parent;
      assert q[..|p|] == p;
      ExtensionInSub(nodes, root, words, lbs, ubs, p, f);
      assert Find(nodes, root, q) == f;
      assert Linked(nodes, words, lbs, ubs, f);
      assert x in Sub(nodes, f);
      SubTrans(nodes, Level(nodes, root, p), f, x);
    }
  }

  /** The level below a prefix exists exactly when some node carries a
      longer word with that prefix. */
  lemma LevelExists(nodes: seq<Node>, root: int, words: seq<seq<byte>>, lbs: seq<int>, ubs: seq<int>, p: seq<byte>)
    requires TreeOk(nodes, root, words, lbs, ubs)
    ensures Level(nodes, root, p) != NIL <==>
              exists x :: 0 <= x < |nodes| && |words[x]| > |p| && words[x][..|p|] == p
  {
    if Level(nodes, root, p) != NIL {
      LevelSound(nodes, root, words, lbs, ubs, p);
      var e := Level(nodes, root, p);
      assert 0 <= e < |nodes| && |words[e]| > |p| && words[e][..|p|] == p;
    } else {
      forall x | 0 <= x < |nodes| && |words[x]| > |p| ensures words[x][..|p|] != p {
        if words[x][..|p|] == p {
          ExtensionInSub(nodes, root, words, lbs, ubs, p, x);
        }
      }
    }
  }

  /** The walk from the level below a prefix lists exactly the nodes with a
      non-zero count whose words strictly extend the prefix. */
  lemma WalkExact(nodes: seq<Node>, root: int, words: seq<seq<byte>>, lbs: seq<int>, ubs: seq<int>,
                  p: seq<byte>, x: int)
    requires TreeOk(nodes, root, words, lbs, ubs) && 0 <= x < |nodes| && Level(nodes, root, p) != NIL
    ensures x in Walk(nodes, Level(nodes, root, p)) <==>
              nodes[x].count != 0 && |words[x]| > |p| && words[x][..|p|] == p
  {
    var e := Level(nodes, root, p);
    LevelSound(nodes, root, words, lbs, ubs, p);
    WalkSub(nodes, e, x);
    if x in Sub(nodes, e) {
      SubWords(nodes, root, words, lbs, ubs, e, x);
      assert words[x][..|p|] == words[x][..|p|][..|p|] == words[e][..|p|];
    }
    if |words[x]| > |p| && words[x][..|p|] == p {
      ExtensionInSub(nodes, root, words, lbs, ubs, p, x);
    }
  }

  /** The stored words and their counts, as the arena records them: a node's
      word is stored exactly when its count is not zero, with that count,
      and every stored word is the word of a node. */
  ghost predicate KeysOk(nodes: seq<Node>, words: seq<seq<byte>>, keys: map<seq<byte>, nat>)
  {
    |words| == |nodes|
    && (forall i :: 0 <= i < |nodes| ==> (words[i] in keys <==> nodes[i].count != 0))
    && (forall i :: 0 <= i < |nodes| && words[i] in keys ==> keys[words[i]] == nodes[i].count)
    && (forall w {:trigger w in words} :: w in keys ==> w in words)
  }

  /** Every node lies on the way to some word of `ks`: nodes are only ever
      created while a word is added. */
  ghost predicate Covered(words: seq<seq<byte>>, ks: set<seq<byte>>)
  {
    forall i :: 0 <= i < |words| ==> exists w :: w in ks && IsPrefix(words[i], w)
  }

  /** `depth` is the length of the longest stored word, 0 when none is. */
  ghost predicate DepthOk(keys: map<seq<byte>, nat>, depth: nat)
  {
    (forall w :: w in keys ==> |w| <= depth)
    && (keys == map[] ==> depth == 0)
    && (keys != map[] ==> exists w :: w in keys && |w| == depth)
  }

  /** The invariant of a tree object: a well-formed arena that records the
      stored words, the number of distinct words and the greatest length. */
  ghost predicate Invariant(nodes: seq<Node>, root: int, words: seq<seq<byte>>, lbs: seq<int>, ubs: seq<int>,
                            keys: map<seq<byte>, nat>, count: nat, depth: nat)
  {
    TreeOk(nodes, root, words, lbs, ubs) && KeysOk(nodes, words, keys) && Covered(words, keys.Keys)
    && count == |keys| && DepthOk(keys, depth)
  }

  /** The empty tree of `tstree_new`. */
  lemma EmptyOk()
    ensures Invariant([], NIL, [], [], [], map[], 0, 0)
  {
  }

  /** A tree stores no word exactly when its arena is empty, and then it
      has no root. */
  lemma EmptyIff(nodes: seq<Node>, root: int, words: seq<seq<byte>>, lbs: seq<int>, ubs: seq<int>,
                 keys: map<seq<byte>, nat>, count: nat, depth: nat)
    requires Invariant(nodes, root, words, lbs, ubs, keys, count, depth)
    ensures (keys == map[]) == (nodes == []) == (root == NIL)
    ensures nodes != [] ==> root == 0 && |words| == |nodes| && |words[0]| == 1
  {
    if nodes == [] {
      assert forall w :: w in keys ==> w in words;
    } else {
      var w :| w in keys.Keys && IsPrefix(words[0], w);
    }
  }

  /** The state while `key` is added: the arena is well formed, the stored
      words are those before the call, every node lies on the way to a
      stored word or to `key`, and after `pos` characters `cur` is the node
      of `key[..pos]`, NIL standing for the record in front of the root. */
  ghost predicate Growing(nodes: seq<Node>, root: int, words: seq<seq<byte>>, lbs: seq<int>, ubs: seq<int>,
                          keys: map<seq<byte>, nat>, key: seq<byte>, pos: nat, cur: int)
  {
    TreeOk(nodes, root, words, lbs, ubs) && KeysOk(nodes, words, keys) && Covered(words, keys.Keys + {key})
    && pos <= |key|
    && (pos == 0 ==> cur == NIL)
    && (pos > 0 ==> 0 <= cur < |nodes| && words[cur] == key[..pos])
  }

  /** Adding starts in front of the root. */
  lemma GrowingStart(nodes: seq<Node>, root: int, words: seq<seq<byte>>, lbs: seq<int>, ubs: seq<int>,
                     keys: map<seq<byte>, nat>, count: nat, depth: nat, key: seq<byte>)
    requires Invariant(nodes, root, words, lbs, ubs, keys, count, depth)
    ensures Growing(nodes, root, words, lbs, ubs, keys, key, 0, NIL)
  {
    forall i | 0 <= i < |words| ensures exists w :: w in keys.Keys + {key} && IsPrefix(words[i], w) {
      var w :| w in keys.Keys && IsPrefix(words[i], w);
      assert w in keys.Keys + {key};
    }
  }

  /** The first node of the level below the part of `key` already added. */
  lemma GrowingLevel(nodes: seq<Node>, root: int, words: seq<seq<byte>>, lbs: seq<int>, ubs: seq<int>,
                     keys: map<seq<byte>, nat>, key: seq<byte>, pos: nat, cur: int)
    requires Growing(nodes, root, words, lbs, ubs, keys, key, pos, cur)
    ensures Level(nodes, root, key[..pos]) == if cur == NIL then root else nodes[cur].child
  {
    if pos > 0 {
      assert Find(nodes, root, words[cur]) == cur;
    }
  }

  /** Finding the next character of `key` in the arena moves on to its node. */
  lemma GrowingFound(nodes: seq<Node>, root: int, words: seq<seq<byte>>, lbs: seq<int>, ubs: seq<int>,
                     keys: map<seq<byte>, nat>, key: seq<byte>, pos: nat, cur: int, r: int)
    requires Growing(nodes, root, words, lbs, ubs, keys, key, pos, cur) && pos < |key|
    requires r != NIL && r == Find(nodes, root, key[..pos + 1])
    ensures Growing(nodes, root, words, lbs, ubs, keys, key, pos + 1, r)
  {
    FindSound(nodes, root, words, lbs, ubs, key[..pos + 1]);
  }

  /** A word the search does not find is no node's word, so not stored. */
  lemma NotFoundNotStored(nodes: seq<Node>, root: int, words: seq<seq<byte>>, lbs: seq<int>, ubs: seq<int>,
                          keys: map<seq<byte>, nat>, w: seq<byte>)
    requires TreeOk(nodes, root, words, lbs, ubs) && KeysOk(nodes, words, keys)
    requires w != [] && Find(nodes, root, w) == NIL
    ensures w !in words && w !in keys
  {
  }

  /** Attaching the node of the next character of `key` moves on to it. */
  lemma GrowingAttached(nodes: seq<Node>, root: int, words: seq<seq<byte>>, lbs: seq<int>, ubs: seq<int>,
                        keys: map<seq<byte>, nat>, key: seq<byte>, pos: nat, cur: int,
                        m: nat, l: Link, added: Node, lb: int, ub: int)
    requires Growing(nodes, root, words, lbs, ubs, keys, key, pos, cur) && pos < |key| && m < |nodes|
    requires Find(nodes, root, key[..pos + 1]) == NIL
    requires Attachable(nodes, words, lbs, ubs, m, l, added, key[..pos + 1], lb, ub)
    requires Find(Attached(nodes, m, l, added), root, key[..pos + 1]) == |nodes|
    ensures Growing(Attached(nodes, m, l, added), root, words + [key[..pos + 1]], lbs + [lb], ubs + [ub],
                    keys, key, pos + 1, |nodes|)
  {
    var w := key[..pos + 1];
    AttachOk(nodes, root, words, lbs, ubs, m, l, added, w, lb, ub);
    NotFoundNotStored(nodes, root, words, lbs, ubs, keys, w);
    AttachKeys(nodes, words, keys, m, l, added, w);
    CoverAppend(words, keys.Keys + {key}, w, key);
  }

  lemma AttachKeys(nodes: seq<Node>, words: seq<seq<byte>>, keys: map<seq<byte>, nat>,
                   m: nat, l: Link, added: Node, w: seq<byte>)
    requires KeysOk(nodes, words, keys) && m < |nodes| && added.count == 0 && w !in keys
    ensures KeysOk(Attached(nodes, m, l, added), words + [w], keys)
  {
    var nodes', words' := Attached(nodes, m, l, added), words + [w];
    forall i | 0 <= i < |nodes'|
      ensures (words'[i] in keys <==> nodes'[i].count != 0)
      ensures words'[i] in keys ==> keys[words'[i]] == nodes'[i].count
    {
      if i < |nodes| {
        assert words'[i] == words[i] && nodes'[i].count == nodes[i].count;
      }
    }
  }

  lemma CoverAppend(words: seq<seq<byte>>, ks: set<seq<byte>>, w: seq<byte>, v: seq<byte>)
    requires Covered(words, ks) && v in ks && IsPrefix(w, v)
    ensures Covered(words + [w], ks)
  {
    var words' := words + [w];
    forall i | 0 <= i < |words'| ensures exists u :: u in ks && IsPrefix(words'[i], u) {
      if i < |words| {
        assert words'[i] == words[i];
      } else {
        assert IsPrefix(words'[i], v);
      }
    }
  }

  /** Raising the count of the node of `key` stores `key` once more. */
  lemma AddedAt(nodes: seq<Node>, root: int, words: seq<seq<byte>>, lbs: seq<int>, ubs: seq<int>,
                keys: map<seq<byte>, nat>, key: seq<byte>, cur: int)
    requires Growing(nodes, root, words, lbs, ubs, keys, key, |key|, cur) && key != []
    ensures 0 <= cur < |nodes| && words[cur] == key
    ensures (key in keys) == (nodes[cur].count != 0)
    ensures key in keys ==> keys[key] == nodes[cur].count
  {
    assert key[..|key|] == key;
    assert KeysOk(nodes, words, keys);
  }

  /** The arena after one more occurrence of the word of node `cur`. */
  function Bump(nodes: seq<Node>, cur: nat): (r: seq<Node>)
    requires cur < |nodes|
    ensures |r| == |nodes| && r[cur].count == nodes[cur].count + 1
    ensures forall i :: 0 <= i < |nodes| && i != cur ==> r[i] == nodes[i]
  {
    nodes[cur := nodes[cur].(count := nodes[cur].count + 1)]
  }

  lemma AddedOk(nodes: seq<Node>, root: int, words: seq<seq<byte>>, lbs: seq<int>, ubs: seq<int>,
                keys: map<seq<byte>, nat>, count: nat, depth: nat, key: seq<byte>, cur: int)
    requires Growing(nodes, root, words, lbs, ubs, keys, key, |key|, cur) && key != []
    requires count == |keys| && DepthOk(keys, depth)
    ensures 0 <= cur < |nodes|
    ensures Invariant(Bump(nodes, cur), root, words, lbs, ubs,
                      keys[key := nodes[cur].count + 1],
                      if nodes[cur].count == 0 then count + 1 else count,
                      if depth < |key| then |key| else depth)
  {
    AddedAt(nodes, root, words, lbs, ubs, keys, key, cur);
    var k := nodes[cur].count + 1;
    Bumped(nodes, root, words, lbs, ubs, cur, k);
    BumpKeys(nodes, root, words, lbs, ubs, keys, key, cur, k);
    StoreMore(words, keys, key, k, count, depth);
  }

  /** Storing `key` with a new count: the number of distinct words grows
      exactly when `key` is new, and the depth becomes the greater of the
      old one and the length of `key`. */
  lemma StoreMore(words: seq<seq<byte>>, keys: map<seq<byte>, nat>, key: seq<byte>, k: nat, count: nat, depth: nat)
    requires Covered(words, keys.Keys + {key}) && count == |keys| && DepthOk(keys, depth)
    ensures Covered(words, keys[key := k].Keys)
    ensures |keys[key := k]| == if key in keys then count else count + 1
    ensures DepthOk(keys[key := k], if depth < |key| then |key| else depth)
  {
    assert keys[key := k].Keys == keys.Keys + {key};
    if key !in keys {
      assert keys[key := k].Keys == keys.Keys + {key};
    }
  }

  lemma BumpKeys(nodes: seq<Node>, root: int, words: seq<seq<byte>>, lbs: seq<int>, ubs: seq<int>,
                 keys: map<seq<byte>, nat>, key: seq<byte>, cur: nat, k: nat)
    requires TreeOk(nodes, root, words, lbs, ubs) && KeysOk(nodes, words, keys)
    requires cur < |nodes| && words[cur] == key && k != 0
    ensures KeysOk(nodes[cur := nodes[cur].(count := k)], words, keys[key := k])
  {
    forall i | 0 <= i < |nodes| && i != cur ensures words[i] != key {
      assert Find(nodes, root, words[i]) == i && Find(nodes, root, words[cur]) == cur;
    }
    BumpCounts(nodes, words, keys, key, cur, k);
  }

  /** A new count for the only node whose word is `key`. */
  lemma BumpCounts(nodes: seq<Node>, words: seq<seq<byte>>, keys: map<seq<byte>, nat>, key: seq<byte>, cur: nat, k: nat)
    requires KeysOk(nodes, words, keys) && cur < |nodes| && words[cur] == key && k != 0
    requires forall i :: 0 <= i < |nodes| && i != cur ==> words[i] != key
    ensures KeysOk(nodes[cur := nodes[cur].(count := k)], words, keys[key := k])
  {
    assert key in words;
  }

  /** The first node: the word `key[..1]` in an empty arena. */
  lemma GrowRoot(nodes: seq<Node>, root: int, words: seq<seq<byte>>, lbs: seq<int>, ubs: seq<int>,
                 keys: map<seq<byte>, nat>, key: seq<byte>, added: Node)
    requires Growing(nodes, root, words, lbs, ubs, keys, key, 0, NIL) && key != [] && root == NIL
    requires added == NewNode(nodes, NIL, key[0])
    ensures Growing([added], 0, words + [key[..1]], lbs + [-1], ubs + [256], keys, key, 1, 0)
  {
    assert key[..1] == [key[0]];
    assert words + [key[..1]] == [key[..1]];
    AttachRootOk(added);
    assert KeysOk(nodes, words, keys) && words == [];
    ghost var stored := key[..1] in words;
    assert key[..1] !in keys;
    assert IsPrefix(key[..1], key);
  }

  /** A new node as the next level below the node `cur` of `key[..pos]`. */
  lemma GrowChild(nodes: seq<Node>, root: int, words: seq<seq<byte>>, lbs: seq<int>, ubs: seq<int>,
                  keys: map<seq<byte>, nat>, key: seq<byte>, pos: nat, cur: int, added: Node)
    requires Growing(nodes, root, words, lbs, ubs, keys, key, pos, cur) && 0 < pos < |key|
    requires nodes[cur].child == NIL && added == NewNode(nodes, cur, key[pos])
    ensures Growing(Attached(nodes, cur, Child, added), root, words + [key[..pos + 1]], lbs + [-1], ubs + [256],
                    keys, key, pos + 1, |nodes|)
  {
    var w, p := key[..pos + 1], key[..pos];
    TakeOneMore(key, pos);
    assert Labelled(nodes, words, lbs, ubs, cur);
    assert Find(nodes, root, p) == cur;
    assert Find(nodes, root, w) == NIL;
    FindFreshChild(nodes, root, cur, added, p);
    ChildAttachable(nodes, words, lbs, ubs, key, pos, cur, added);
    GrowingAttached(nodes, root, words, lbs, ubs, keys, key, pos, cur, cur, Child, added, -1, 256);
  }

  /** A new node for `key[..pos + 1]` may hang from the free child link of
      the node of `key[..pos]`. */
  lemma ChildAttachable(nodes: seq<Node>, words: seq<seq<byte>>, lbs: seq<int>, ubs: seq<int>,
                        key: seq<byte>, pos: nat, cur: int, added: Node)
    requires Sized(nodes, words, lbs, ubs) && 0 < pos < |key|
    requires 0 <= cur < |nodes| && words[cur] == key[..pos] && nodes[cur].depth == pos && nodes[cur].child == NIL
    requires added == NewNode(nodes, cur, key[pos])
    ensures Attachable(nodes, words, lbs, ubs, cur, Child, added, key[..pos + 1], -1, 256)
  {
    var w := key[..pos + 1];
    TakeOneMore(key, pos);
    FreshLabelled(nodes, words, lbs, ubs, added, w, -1, 256);
    assert (words + [w])[cur] == words[cur];
  }

  /** The sibling search for the next character of `key` on the level below
      `key[..pos]`, which starts at `first`, has reached `node`. */
  ghost predicate Seeking(nodes: seq<Node>, root: int, words: seq<seq<byte>>, lbs: seq<int>, ubs: seq<int>,
                          key: seq<byte>, pos: nat, first: int, node: int)
  {
    Sized(nodes, words, lbs, ubs) && pos < |key| && first == Level(nodes, root, key[..pos])
    && 0 <= node < |nodes| && OnPath(nodes, first, key[pos], node)
    && |words[node]| == pos + 1 && words[node][..pos] == key[..pos]
    && lbs[node] < key[pos] < ubs[node]
  }

  lemma SeekStart(nodes: seq<Node>, root: int, words: seq<seq<byte>>, lbs: seq<int>, ubs: seq<int>,
                  keys: map<seq<byte>, nat>, key: seq<byte>, pos: nat, cur: int, first: int)
    requires Growing(nodes, root, words, lbs, ubs, keys, key, pos, cur) && pos < |key|
    requires first == Level(nodes, root, key[..pos]) && first != NIL
    ensures Seeking(nodes, root, words, lbs, ubs, key, pos, first, first)
  {
    LevelSound(nodes, root, words, lbs, ubs, key[..pos]);
  }

  /** The search goes on along the sibling link towards the character. */
  lemma SeekNext(nodes: seq<Node>, root: int, words: seq<seq<byte>>, lbs: seq<int>, ubs: seq<int>,
                 key: seq<byte>, pos: nat, first: int, node: int)
    requires Shape(nodes, root, words, lbs, ubs) && Seeking(nodes, root, words, lbs, ubs, key, pos, first, node)
    requires nodes[node].chr != key[pos] && GetLink(nodes[node], Dir(nodes[node], key[pos])) != NIL
    ensures node < GetLink(nodes[node], Dir(nodes[node], key[pos]))
    ensures Seeking(nodes, root, words, lbs, ubs, key, pos, first, GetLink(nodes[node], Dir(nodes[node], key[pos])))
  {
    var c := key[pos];
    var link := GetLink(nodes[node], Dir(nodes[node], c));
    assert Linked(nodes, words, lbs, ubs, node);
    OnPathExtend(nodes, first, c, node);
    assert words[link][..pos] == words[node][..pos];
  }

  /** The search stops at the node of the character. */
  lemma SeekFound(nodes: seq<Node>, root: int, words: seq<seq<byte>>, lbs: seq<int>, ubs: seq<int>,
                  keys: map<seq<byte>, nat>, key: seq<byte>, pos: nat, cur: int, first: int, node: int)
    requires Growing(nodes, root, words, lbs, ubs, keys, key, pos, cur)
    requires Seeking(nodes, root, words, lbs, ubs, key, pos, first, node) && nodes[node].chr == key[pos]
    ensures Growing(nodes, root, words, lbs, ubs, keys, key, pos + 1, node)
  {
    var w := key[..pos + 1];
    OnPathSearch(nodes, first, key[pos], node);
    TakeOneMore(key, pos);
    assert Find(nodes, root, w) == node;
    GrowingFound(nodes, root, words, lbs, ubs, keys, key, pos, cur, node);
  }

  /** The sibling bounds of a node attached below the link of `node` taken
      for `c`. */
  ghost function LowerBound(nodes: seq<Node>, lbs: seq<int>, node: nat, c: byte): int
    requires node < |nodes| && node < |lbs|
  {
    if Dir(nodes[node], c) == Lo then lbs[node] else nodes[node].chr
  }

  ghost function UpperBound(nodes: seq<Node>, ubs: seq<int>, node: nat, c: byte): int
    requires node < |nodes| && node < |ubs|
  {
    if Dir(nodes[node], c) == Lo then nodes[node].chr else ubs[node]
  }

  /** A new node where the sibling search ran out. */
  lemma GrowSibling(nodes: seq<Node>, root: int, words: seq<seq<byte>>, lbs: seq<int>, ubs: seq<int>,
                    keys: map<seq<byte>, nat>, key: seq<byte>, pos: nat, cur: int, first: int, node: int, added: Node)
    requires Growing(nodes, root, words, lbs, ubs, keys, key, pos, cur)
    requires Seeking(nodes, root, words, lbs, ubs, key, pos, first, node)
    requires nodes[node].chr != key[pos] && GetLink(nodes[node], Dir(nodes[node], key[pos])) == NIL
    requires added == NewNode(nodes, cur, key[pos])
    ensures Growing(Attached(nodes, node, Dir(nodes[node], key[pos]), added), root, words + [key[..pos + 1]],
                    lbs + [LowerBound(nodes, lbs, node, key[pos])], ubs + [UpperBound(nodes, ubs, node, key[pos])],
                    keys, key, pos + 1, |nodes|)
  {
    var c, w, p := key[pos], key[..pos + 1], key[..pos];
    var l, lb, ub := Dir(nodes[node], c), LowerBound(nodes, lbs, node, c), UpperBound(nodes, ubs, node, c);
    TakeOneMore(key, pos);
    if cur != NIL {
      assert Labelled(nodes, words, lbs, ubs, cur);
    }
    SiblingAttachable(nodes, words, lbs, ubs, key, pos, cur, node, added);
    FindFreshSibling(nodes, root, node, added, p);
    OnPathSearch(nodes, first, c, node);
    assert Find(nodes, root, w) == NIL;
    GrowingAttached(nodes, root, words, lbs, ubs, keys, key, pos, cur, node, l, added, lb, ub);
  }

  lemma SiblingAttachable(nodes: seq<Node>, words: seq<seq<byte>>, lbs: seq<int>, ubs: seq<int>,
                          key: seq<byte>, pos: nat, cur: int, node: int, added: Node)
    requires Sized(nodes, words, lbs, ubs) && pos < |key|
    requires pos == 0 ==> cur == NIL
    requires pos > 0 ==> 0 <= cur < |nodes| && words[cur] == key[..pos] && nodes[cur].depth == pos
    requires 0 <= node < |nodes| && |words[node]| == pos + 1 && words[node][..pos] == key[..pos]
    requires lbs[node] < key[pos] < ubs[node] && nodes[node].chr != key[pos]
    requires GetLink(nodes[node], Dir(nodes[node], key[pos])) == NIL
    requires added == NewNode(nodes, cur, key[pos])
    ensures Attachable(nodes, words, lbs, ubs, node, Dir(nodes[node], key[pos]), added, key[..pos + 1],
                       LowerBound(nodes, lbs, node, key[pos]), UpperBound(nodes, ubs, node, key[pos]))
  {
    TakeOneMore(key, pos);
    SiblingFresh(nodes, words, lbs, ubs, node, added, key[..pos + 1]);
  }

  /** A new node for the word `w` as the sibling of `node`, whose word
      differs from `w` in the last character only. */
  lemma SiblingFresh(nodes: seq<Node>, words: seq<seq<byte>>, lbs: seq<int>, ubs: seq<int>,
                     node: nat, added: Node, w: seq<byte>)
    requires Sized(nodes, words, lbs, ubs) && node < |nodes| && w != []
    requires |words[node]| == |w| && words[node][..|w| - 1] == w[..|w| - 1]
    requires lbs[node] < w[|w| - 1] < ubs[node] && nodes[node].chr != w[|w| - 1]
    requires GetLink(nodes[node], Dir(nodes[node], w[|w| - 1])) == NIL
    requires added.count == 0 && added.lo == NIL && added.hi == NIL && added.child == NIL
    requires added.depth == |w| && added.chr == w[|w| - 1]
    requires |w| == 1 ==> added.parent == NIL
    requires |w| > 1 ==> 0 <= added.parent < |nodes| && words[added.parent] == w[..|w| - 1]
    ensures Attachable(nodes, words, lbs, ubs, node, Dir(nodes[node], w[|w| - 1]), added, w,
                       LowerBound(nodes, lbs, node, w[|w| - 1]), UpperBound(nodes, ubs, node, w[|w| - 1]))
  {
    var c := w[|w| - 1];
    FreshLabelled(nodes, words, lbs, ubs, added, w, LowerBound(nodes, lbs, node, c), UpperBound(nodes, ubs, node, c));
    var words' := words + [w];
    assert words'[node] == words[node] && words'[|nodes|] == w;
  }

  /** A new node labelled with its word, bounds, depth and parent. */
  lemma FreshLabelled(nodes: seq<Node>, words: seq<seq<byte>>, lbs: seq<int>, ubs: seq<int>,
                      added: Node, w: seq<byte>, lb: int, ub: int)
    requires Sized(nodes, words, lbs, ubs) && w != []
    requires added.depth == |w| && added.chr == w[|w| - 1] && lb < added.chr < ub
    requires |w| == 1 ==> added.parent == NIL
    requires |w| > 1 ==> 0 <= added.parent < |nodes| && words[added.parent] == w[..|w| - 1]
    ensures Labelled(nodes + [added], words + [w], lbs + [lb], ubs + [ub], |nodes|)
  {
    var words' := words + [w];
    assert words'[|nodes|] == w;
    if |w| > 1 {
      assert words'[added.parent] == words[added.parent];
    }
  }
}
