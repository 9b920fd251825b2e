/**
 * The ternary search tree object of `tstree.c`: the arena of nodes, the
 * root, the number of distinct words and the length of the longest one.
 * Ghost fields give every node its word and its sibling bounds and the
 * tree its map from stored word to count.
 */
module TernaryTree {
  import opened Common
  import opened TernaryNodes

  /** The fields of `struct tstree` together with the arena that holds the
      nodes: the nodes, the index of the root (NIL while the tree is
      empty), the number of distinct words and the length of the longest. */
  datatype Tree = Tree(nodes: seq<Node>, root: int, count: nat, depth: nat)

  /** The ghost labels of a tree: the word, the lower and the upper sibling
      bound of every node, and the map from stored word to count. */
  datatype Labels = Labels(words: seq<seq<byte>>, lbs: seq<int>, ubs: seq<int>, keys: map<seq<byte>, nat>)

  class TernarySearchTree {
    var tree: Tree
    ghost var labels: Labels

    ghost predicate Valid()
      reads this
    {
      Labelling(tree, labels)
    }

    /** `tstree_new`: an empty tree. */
    constructor ()
      ensures Valid() && labels.keys == map[] && tree.nodes == []
    {
      tree := Tree([], NIL, 0, 0);
      labels := Labels([], [], [], map[]);
      EmptyOk();
    }

    /** `tstree_get_root`: NIL exactly when nothing was ever added. */
    function GetRoot(): (r: int)
      reads this
      requires Valid()
      ensures r == NIL <==> labels.keys == map[]
      ensures r != NIL ==> r == 0 && 0 < |tree.nodes| && |labels.words[r]| == 1
    {
      EmptyIff(tree.nodes, tree.root, labels.words, labels.lbs, labels.ubs, labels.keys, tree.count, tree.depth);
      tree.root
    }

    /** `tstree_get_depth`: the length of the longest stored word. */
    function GetDepth(): (r: nat)
      reads this
      requires Valid()
      ensures forall w :: w in labels.keys ==> |w| <= r
      ensures labels.keys != map[] ==> exists w :: w in labels.keys && |w| == r
      ensures labels.keys == map[] ==> r == 0
    {
      tree.depth
    }

    /** `tstree_get_key_number`: the number of distinct stored words. */
    function GetKeyNumber(): (r: nat)
      reads this
      requires Valid()
      ensures r == |labels.keys|
    {
      tree.count
    }

    /** `tstree_node_get_depth`: the length of the word of a node. */
    function NodeGetDepth(n: int): (r: nat)
      reads this
      requires Valid() && 0 <= n < |tree.nodes|
      ensures r == |labels.words[n]| == tree.nodes[n].depth && r >= 1
    {
      assert Labelled(tree.nodes, labels.words, labels.lbs, labels.ubs, n);
      tree.nodes[n].depth
    }

    /** `tstree_node_get_count`: how often the word of a node was added. */
    function NodeGetCount(n: int): (r: nat)
      reads this
      requires Valid() && 0 <= n < |tree.nodes|
      ensures labels.words[n] in labels.keys ==> r == labels.keys[labels.words[n]] && r > 0
      ensures labels.words[n] !in labels.keys ==> r == 0
    {
      tree.nodes[n].count
    }

    /** `tstree_add_key`: adds one occurrence of a non-empty word and returns
        its node. Nodes are only ever appended, so every node keeps its
        index and its word. */
    method AddKey(key: seq<byte>) returns (r: int)
      requires Valid() && key != []
      modifies this
      ensures Valid()
      ensures labels.keys == AddOne(old(labels.keys), key)
      ensures tree.count == old(tree.count) + (if key in old(labels.keys) then 0 else 1)
      ensures tree.depth == if old(tree.depth) < |key| then |key| else old(tree.depth)
      ensures 0 <= r < |tree.nodes| && labels.words[r] == key && tree.nodes[r].count == labels.keys[key]
      ensures IsPrefix(old(labels.words), labels.words)
    {
      ghost var g0 := labels;
      var t, g, n := Insert(tree, labels, key);
      tree, labels, r := t, g, n;
      assert tree == t && labels == g && old(labels) == g0;
    }

    /** `tstree_get_node`: the first node of the level below `key`; the root
        for the empty key; NIL when a character of `key` is missing or the
        node of `key` has no next level. Nothing is created. */
    method GetNode(key: seq<byte>) returns (r: int)
      requires Valid()
      ensures r == Level(tree.nodes, tree.root, key)
    {
      r := LevelOf(tree, labels, key);
    }

    /** `tstree_get_keys` with the callback `cb`: the nodes handed to `cb`,
        which are those of `Listed` up to the first one `cb` refuses, and
        whether `cb` accepted them all. When `key` has no level below it the
        call fails at once. */
    method GetKeys(key: seq<byte>, cb: int -> bool) returns (ok: bool, visited: seq<int>)
      requires Valid()
      ensures Level(tree.nodes, tree.root, key) == NIL ==> !ok && visited == []
      ensures Level(tree.nodes, tree.root, key) != NIL ==>
                Stopped(ok, visited, Listed(tree.nodes, tree.root, key), cb)
    {
      var t := tree;
      ghost var g := labels;
      ok, visited := ListKeys(t, g, key, cb);
      assert tree == t && labels == g;
    }

    /** `tstree_node_get_key_in_buffer` on the buffer that starts at index
        `at` of `buffer`: writes the word of `node` there, cut to the room a
        buffer of `size` bytes leaves (0 meaning `UINT_MAX` bytes), followed
        by a NUL, and touches no other byte. */
    method NodeGetKeyInBuffer(node: int, buffer: array<byte>, at: nat, size: nat) returns (ok: bool)
      requires Valid() && 0 <= node < |tree.nodes|
      requires at + KeyLength(tree.nodes[node].depth, size) < buffer.Length
      modifies buffer
      ensures ok && |labels.words[node]| == tree.nodes[node].depth
      ensures buffer[..] == Put(old(buffer[..]), at, labels.words[node][..KeyLength(tree.nodes[node].depth, size)])
    {
      var t := tree;
      ghost var g := labels;
      ok := FillKey(t.nodes, g.words, g.lbs, g.ubs, node, buffer, at, size);
      assert tree == t && labels == g;
    }

    /** `tstree_node_get_key`: the word of `node` in a new NUL-terminated
        buffer of its exact size. */
    method NodeGetKey(node: int) returns (key: array<byte>)
      requires Valid() && 0 <= node < |tree.nodes|
      ensures fresh(key) && key[..] == labels.words[node] + [0]
    {
      var t := tree;
      ghost var g := labels;
      var depth := t.nodes[node].depth;
      key := new byte[depth + 1];
      ghost var before := key[..];
      var ok := FillKey(t.nodes, g.words, g.lbs, g.ubs, node, key, 0, depth + 1);
      assert KeyLength(depth, depth + 1) == depth;
      PutWhole(before, g.words[node]);
      assert tree == t && labels == g;
    }
  }

  /** The loop of `tstree_node_get_key_in_buffer` on the buffer that starts
      at index `at` of `buffer`: from `node` up along the parent links, each
      node's character goes to the position given by its depth, when that
      lies within the room of the buffer. */
  method FillKey(nodes: seq<Node>, ghost words: seq<seq<byte>>, ghost lbs: seq<int>, ghost ubs: seq<int>,
                 node: int, buffer: array<byte>, at: nat, size: nat) returns (ok: bool)
    requires Sized(nodes, words, lbs, ubs) && 0 <= node < |nodes|
    requires forall i :: 0 <= i < |nodes| ==> Labelled(nodes, words, lbs, ubs, i)
    requires at + KeyLength(nodes[node].depth, size) < buffer.Length
    modifies buffer
    ensures ok && |words[node]| == nodes[node].depth
    ensures buffer[..] == Put(old(buffer[..]), at, words[node][..KeyLength(nodes[node].depth, size)])
  {
    ghost var w := words[node];
    assert Labelled(nodes, words, lbs, ubs, node);
    var room := KeyRoom(size);
    var pos := nodes[node].depth;
    var m := if pos < room then pos else room;
    buffer[at + m] := 0;
    var current := node;
    while current != NIL
      invariant 1 <= pos <= |w| && 0 <= current < |nodes| && words[current] == w[..pos]
      invariant buffer[..at] == old(buffer[..at])
      invariant buffer[at + m] == 0 && buffer[at + m + 1..] == old(buffer[at + m + 1..])
      invariant forall i :: pos <= i < m ==> buffer[at + i] == w[i]
      decreases pos
    {
      assert Labelled(nodes, words, lbs, ubs, current);
      pos := pos - 1;
      if pos < room {
        buffer[at + pos] := nodes[current].chr;
      }
      if pos == 0 {
        break;
      }
      current := nodes[current].parent;
    }
    ok := true;
    PutIs(old(buffer[..]), buffer[..], at, w[..m]);
  }

  /** The bytes `s` with the NUL-terminated string `w` written at index `at`. */
  function Put(s: seq<byte>, at: nat, w: seq<byte>): (r: seq<byte>)
    requires at + |w| < |s|
    ensures |r| == |s|
  {
    s[..at] + w + [0] + s[at + |w| + 1..]
  }

  /** Bytes that agree with `a` outside `at .. at + |w|` and hold `w` and a
      NUL there are `Put(a, at, w)`. */
  lemma PutIs(a: seq<byte>, b: seq<byte>, at: nat, w: seq<byte>)
    requires at + |w| < |a| == |b|
    requires b[..at] == a[..at] && b[at + |w|] == 0 && b[at + |w| + 1..] == a[at + |w| + 1..]
    requires forall i :: 0 <= i < |w| ==> b[at + i] == w[i]
    ensures b == Put(a, at, w)
  {
    var r := Put(a, at, w);
    forall i | 0 <= i < |b| ensures b[i] == r[i] {
      if i < at {
        assert b[i] == b[..at][i];
      } else if i > at + |w| {
        assert b[i] == b[at + |w| + 1..][i - at - |w| - 1];
      }
    }
  }

  /** A string written at the start of a buffer with room for exactly it
      and its NUL fills the buffer. */
  lemma PutWhole(s: seq<byte>, w: seq<byte>)
    requires |s| == |w| + 1
    ensures Put(s, 0, w[..|w|]) == w + [0]
  {
    assert w[..|w|] == w;
  }

  /** What `Put` leaves where: the bytes before `at` and after the NUL are
      those of `s`, then come `w` and the NUL. */
  lemma PutParts(s: seq<byte>, at: nat, w: seq<byte>)
    requires at + |w| < |s|
    ensures var r := Put(s, at, w);
      r[..at] == s[..at] && r[at..at + |w|] == w && r[at + |w|] == 0 && r[at + |w| + 1..] == s[at + |w| + 1..]
  {
  }

  /** One word of the copy loop: `tstree_node_get_key_in_buffer` with the
      default buffer size writes the word of `node` and its NUL at `pos`,
      and the position moves past them. */
  method CopyWord(nodes: seq<Node>, ghost words: seq<seq<byte>>, ghost lbs: seq<int>, ghost ubs: seq<int>,
                  node: int, ghost w: seq<byte>, chars: array<byte>, pos: nat) returns (next: nat)
    requires Sized(nodes, words, lbs, ubs) && forall i :: 0 <= i < |nodes| ==> Labelled(nodes, words, lbs, ubs, i)
    requires 0 <= node < |nodes| && words[node] == w && |w| < UINT_MAX - 1 && pos + |w| < chars.Length
    modifies chars
    ensures next == pos + |w| + 1 && chars[..next] == old(chars[..pos]) + w + [0]
  {
    ghost var before := chars[..];
    assert Labelled(nodes, words, lbs, ubs, node);
    var depth := nodes[node].depth;
    assert depth == |w| == KeyLength(depth, 0);
    var _ := FillKey(nodes, words, lbs, ubs, node, chars, pos, 0);
    assert w[..|w|] == w;
    PutPrefix(before, pos, w);
    next := pos + depth + 1;
  }

  /** The bytes up to the NUL that `Put` writes. */
  lemma PutPrefix(s: seq<byte>, at: nat, w: seq<byte>)
    requires at + |w| < |s|
    ensures Put(s, at, w)[..at + |w| + 1] == s[..at] + w + [0]
  {
    assert Put(s, at, w) == (s[..at] + w + [0]) + s[at + |w| + 1..];
  }

  /** The room for characters before the NUL in a buffer of `size` bytes,
      where 0 stands for `UINT_MAX`. */
  function KeyRoom(size: nat): nat
  {
    (if size == 0 then UINT_MAX else size) - 1
  }

  /** How many characters of a word of length `depth` fit into a buffer of
      `size` bytes. */
  function KeyLength(depth: nat, size: nat): (m: nat)
    ensures m <= depth && m <= KeyRoom(size)
    ensures m == depth || m == KeyRoom(size)
  {
    if depth < KeyRoom(size) then depth else KeyRoom(size)
  }

  /** The nodes `tstree_get_keys` hands its callback for the prefix `key`
      when the callback accepts them all: the node of `key` itself when
      `key` is stored, then the walk from the level below `key`. */
  function Listed(nodes: seq<Node>, root: int, key: seq<byte>): seq<int>
  {
    var e := Level(nodes, root, key);
    if e == NIL then []
    else
      var f := if key == [] then NIL else Find(nodes, root, key);
      (if f != NIL && nodes[f].count != 0 then [f] else []) + Walk(nodes, e)
  }

  /** The level below `key` exists exactly when a stored word strictly
      extends `key`; then `Listed` holds every node of a stored word that
      `key` is a prefix of, and each of them once. */
  lemma ListedExact(t: Tree, g: Labels, key: seq<byte>)
    requires Labelling(t, g)
    ensures Level(t.nodes, t.root, key) != NIL <==> exists w :: w in g.keys && |w| > |key| && IsPrefix(key, w)
    ensures Distinct(Listed(t.nodes, t.root, key))
    ensures Level(t.nodes, t.root, key) != NIL ==>
              forall x :: x in Listed(t.nodes, t.root, key) <==>
                0 <= x < |t.nodes| && g.words[x] in g.keys && IsPrefix(key, g.words[x])
  {
    ListedLevel(t.nodes, t.root, g.words, g.lbs, g.ubs, g.keys, key);
    if Level(t.nodes, t.root, key) != NIL {
      ListedDistinct(t.nodes, t.root, g.words, g.lbs, g.ubs, key);
      forall x ensures x in Listed(t.nodes, t.root, key) <==>
                         0 <= x < |t.nodes| && g.words[x] in g.keys && IsPrefix(key, g.words[x])
      {
        ListedRange(t.nodes, t.root, key, x);
        if 0 <= x < |t.nodes| {
          ListedMember(t.nodes, t.root, g.words, g.lbs, g.ubs, g.keys, key, x);
        }
      }
    }
  }

  /** `Listed` once the level below `key` is known to exist, with `f` the
      node of `key`, NIL for the empty key. */
  lemma ListedFrom(nodes: seq<Node>, root: int, key: seq<byte>, f: int)
    requires Level(nodes, root, key) != NIL
    requires f == if key == [] then NIL else Find(nodes, root, key)
    ensures f == NIL || 0 <= f < |nodes|
    ensures Listed(nodes, root, key) ==
              (if f != NIL && nodes[f].count != 0 then [f] else []) + Walk(nodes, Level(nodes, root, key))
    ensures forall x :: x in Listed(nodes, root, key) <==>
              (f != NIL && nodes[f].count != 0 && x == f) || x in Walk(nodes, Level(nodes, root, key))
  {
  }

  /** The level below `key` exists exactly when a stored word strictly
      extends `key`. */
  lemma ListedLevel(nodes: seq<Node>, root: int, words: seq<seq<byte>>, lbs: seq<int>, ubs: seq<int>,
                    keys: map<seq<byte>, nat>, key: seq<byte>)
    requires TreeOk(nodes, root, words, lbs, ubs) && KeysOk(nodes, words, keys) && Covered(words, keys.Keys)
    ensures Level(nodes, root, key) != NIL <==> exists w :: w in keys && |w| > |key| && IsPrefix(key, w)
  {
    LevelExists(nodes, root, words, lbs, ubs, key);
    if Level(nodes, root, key) != NIL {
      var x :| 0 <= x < |nodes| && |words[x]| > |key| && words[x][..|key|] == key;
      var w :| w in keys && IsPrefix(words[x], w);
      PrefixTrans(key, words[x], w);
    } else {
      forall w | w in keys && |w| > |key| ensures !IsPrefix(key, w) {
        ghost var stored := w in words;
        var y :| 0 <= y < |words| && words[y] == w;
      }
    }
  }

  /** Every node `Listed` names is a node of the arena. */
  lemma ListedRange(nodes: seq<Node>, root: int, key: seq<byte>, x: int)
    ensures x in Listed(nodes, root, key) ==> 0 <= x < |nodes|
  {
    if Level(nodes, root, key) != NIL {
      ListedFrom(nodes, root, key, if key == [] then NIL else Find(nodes, root, key));
      WalkSub(nodes, Level(nodes, root, key), x);
    }
  }

  /** A node is `Listed` exactly when its word is stored and extends `key`. */
  lemma ListedMember(nodes: seq<Node>, root: int, words: seq<seq<byte>>, lbs: seq<int>, ubs: seq<int>,
                     keys: map<seq<byte>, nat>, key: seq<byte>, y: nat)
    requires TreeOk(nodes, root, words, lbs, ubs) && KeysOk(nodes, words, keys)
    requires Level(nodes, root, key) != NIL && y < |nodes|
    ensures y in Listed(nodes, root, key) <==> words[y] in keys && IsPrefix(key, words[y])
  {
    var f := if key == [] then NIL else Find(nodes, root, key);
    ListedFrom(nodes, root, key, f);
    WalkExact(nodes, root, words, lbs, ubs, key, y);
    if key != [] {
      FindExact(nodes, root, words, lbs, ubs, key, y);
    }
    PrefixCases(key, words[y]);
    assert (words[y] in keys) == (nodes[y].count != 0);
  }

  /** No node is `Listed` twice. */
  lemma ListedDistinct(nodes: seq<Node>, root: int, words: seq<seq<byte>>, lbs: seq<int>, ubs: seq<int>,
                       key: seq<byte>)
    requires TreeOk(nodes, root, words, lbs, ubs) && Level(nodes, root, key) != NIL
    ensures Distinct(Listed(nodes, root, key))
  {
    var e := Level(nodes, root, key);
    var f := if key == [] then NIL else Find(nodes, root, key);
    ListedFrom(nodes, root, key, f);
    WalkDistinct(nodes, root, words, lbs, ubs, e);
    var head := if f != NIL && nodes[f].count != 0 then [f] else [];
    if f != NIL {
      FindSound(nodes, root, words, lbs, ubs, key);
      WalkExact(nodes, root, words, lbs, ubs, key, f);
    }
    DistinctConcat(head, Walk(nodes, e));
  }

  /** The node `tstree_get_keys` hands its callback before the walk: the
      parent of the first node of the level below a non-empty `key`, which
      is the node of `key`. */
  lemma ListedHead(nodes: seq<Node>, root: int, words: seq<seq<byte>>, lbs: seq<int>, ubs: seq<int>,
                   key: seq<byte>)
    requires TreeOk(nodes, root, words, lbs, ubs) && Level(nodes, root, key) != NIL
    ensures 0 <= Level(nodes, root, key) < |nodes|
    ensures var n := nodes[Level(nodes, root, key)];
      (n.depth > 1 ==> 0 <= n.parent < |nodes|)
      && Listed(nodes, root, key) ==
           (if n.depth > 1 && nodes[n.parent].count != 0 then [n.parent] else []) + Walk(nodes, Level(nodes, root, key))
  {
    var e := Level(nodes, root, key);
    LevelSound(nodes, root, words, lbs, ubs, key);
    assert Labelled(nodes, words, lbs, ubs, e);
    var n := nodes[e];
    if key != [] {
      assert words[n.parent] == key;
      assert Find(nodes, root, words[n.parent]) == n.parent;
    }
    ListedFrom(nodes, root, key, if n.depth > 1 then n.parent else NIL);
  }

  /** `tstree_get_keys` on a tree value. */
  method ListKeys(t: Tree, ghost g: Labels, key: seq<byte>, cb: int -> bool) returns (ok: bool, visited: seq<int>)
    requires TreeOk(t.nodes, t.root, g.words, g.lbs, g.ubs)
    ensures Level(t.nodes, t.root, key) == NIL ==> !ok && visited == []
    ensures Level(t.nodes, t.root, key) != NIL ==> Stopped(ok, visited, Listed(t.nodes, t.root, key), cb)
  {
    var node := LevelOf(t, g, key);
    if node == NIL {
      return false, [];
    }
    ListedHead(t.nodes, t.root, g.words, g.lbs, g.ubs, key);
    var n := t.nodes[node];
    var head: seq<int> := [];
    if n.depth > 1 && t.nodes[n.parent].count != 0 {
      if !cb(n.parent) {
        StoppedWithin([n.parent], [n.parent], Walk(t.nodes, node), cb);
        return false, [n.parent];
      }
      head := [n.parent];
    }
    var rest := WalkUntil(t.nodes, node, cb);
    WalkUntilStops(t.nodes, node, cb);
    StoppedThen(head, rest.0, rest.1, Walk(t.nodes, node), cb);
    ok, visited := rest.0, head + rest.1;
  }

  /** `tstree_get_node` on a tree value. */
  method LevelOf(t: Tree, ghost g: Labels, key: seq<byte>) returns (r: int)
    requires Shape(t.nodes, t.root, g.words, g.lbs, g.ubs)
    ensures r == Level(t.nodes, t.root, key)
  {
    if key == [] {
      return t.root;
    }
    var cur := NIL;
    var pos := 0;
    while pos < |key|
      invariant pos <= |key|
      invariant pos == 0 ==> cur == NIL
      invariant pos > 0 ==> 0 <= cur < |t.nodes| && cur == Find(t.nodes, t.root, key[..pos])
      decreases |key| - pos
    {
      var node := if cur == NIL then t.root else t.nodes[cur].child;
      assert pos == 0 ==> key[..pos] == [];
      assert node == Level(t.nodes, t.root, key[..pos]);
      if node == NIL {
        LevelGone(t.nodes, t.root, key, pos);
        return NIL;
      }
      LevelSound(t.nodes, t.root, g.words, g.lbs, g.ubs, key[..pos]);
      node := SeekChar(t, g, node, key[pos]);
      TakeOneMore(key, pos);
      assert node == Find(t.nodes, t.root, key[..pos + 1]);
      if node == NIL {
        LevelGone(t.nodes, t.root, key, pos + 1);
        return NIL;
      }
      cur, pos := node, pos + 1;
    }
    assert key[..pos] == key;
    r := t.nodes[cur].child;
  }

  /** The sibling search of `tstree_get_node` from `first` for `c`. */
  method SeekChar(t: Tree, ghost g: Labels, first: int, c: byte) returns (r: int)
    requires Shape(t.nodes, t.root, g.words, g.lbs, g.ubs) && 0 <= first < |t.nodes|
    ensures r == Search(t.nodes, first, c)
  {
    var node := first;
    while t.nodes[node].chr != c
      invariant 0 <= node < |t.nodes|
      invariant Search(t.nodes, node, c) == Search(t.nodes, first, c)
      decreases |t.nodes| - node
    {
      var next := GetLink(t.nodes[node], Dir(t.nodes[node], c));
      if next == NIL {
        return NIL;
      }
      assert Linked(t.nodes, g.words, g.lbs, g.ubs, node);
      node := next;
    }
    r := node;
  }

  /** The tree is well formed and its labels describe it. */
  ghost predicate Labelling(t: Tree, g: Labels)
  {
    Invariant(t.nodes, t.root, g.words, g.lbs, g.ubs, g.keys, t.count, t.depth)
  }

  /** The state while `key` is being added, at the node `cur` of
      `key[..pos]`. */
  ghost predicate Adding(t: Tree, g: Labels, key: seq<byte>, pos: nat, cur: int)
  {
    Growing(t.nodes, t.root, g.words, g.lbs, g.ubs, g.keys, key, pos, cur)
  }

  /** The body of `tstree_add_key`: the new tree, its labels and the node
      of `key`. */
  method Insert(t: Tree, ghost g: Labels, key: seq<byte>) returns (t': Tree, ghost g': Labels, r: int)
    requires Labelling(t, g) && key != []
    ensures Labelling(t', g')
    ensures g'.keys == AddOne(g.keys, key)
    ensures t'.count == t.count + (if key in g.keys then 0 else 1)
    ensures t'.depth == if t.depth < |key| then |key| else t.depth
    ensures 0 <= r < |t'.nodes| && g'.words[r] == key && t'.nodes[r].count == g'.keys[key]
    ensures IsPrefix(g.words, g'.words)
  {
    var u, h, cur := Descend(t, g, key);
    t', g', r := Count(u, h, key, cur);
    PrefixTrans(g.words, h.words, g'.words);
  }

  /** The loop of `tstree_add_key`: walks down along `key`, creating the
      nodes it lacks, and stops at the node of the whole of `key`. */
  method Descend(t: Tree, ghost g: Labels, key: seq<byte>) returns (u: Tree, ghost h: Labels, cur: int)
    requires Labelling(t, g) && key != []
    ensures Adding(u, h, key, |key|, cur)
    ensures h.keys == g.keys && u.count == t.count && u.depth == t.depth
    ensures IsPrefix(g.words, h.words)
  {
    GrowingStart(t.nodes, t.root, g.words, g.lbs, g.ubs, g.keys, t.count, t.depth, key);
    u, h := t, g;
    var pos := 0;
    cur := NIL;
    PrefixRefl(g.words);
    while pos < |key|
      invariant Adding(u, h, key, pos, cur)
      invariant h.keys == g.keys && u.count == t.count && u.depth == t.depth
      invariant IsPrefix(g.words, h.words)
      decreases |key| - pos
    {
      ghost var before := h.words;
      u, h, cur := Step(u, h, key, pos, cur);
      PrefixTrans(g.words, before, h.words);
      pos := pos + 1;
    }
  }

  /** The end of `tstree_add_key`: one more occurrence of `key` at its node
      `cur`, and the number of words and the depth of the tree updated. */
  method Count(t: Tree, ghost g: Labels, key: seq<byte>, cur: int) returns (t': Tree, ghost g': Labels, r: int)
    requires Adding(t, g, key, |key|, cur) && key != [] && t.count == |g.keys| && DepthOk(g.keys, t.depth)
    ensures Labelling(t', g')
    ensures g'.keys == AddOne(g.keys, key)
    ensures t'.count == t.count + (if key in g.keys then 0 else 1)
    ensures t'.depth == if t.depth < |key| then |key| else t.depth
    ensures 0 <= r < |t'.nodes| && g'.words[r] == key && t'.nodes[r].count == g'.keys[key]
    ensures IsPrefix(g.words, g'.words)
  {
    CountedAt(t, g, key, cur);
    CountedOk(t, g, key, cur);
    t' := Tree(Bump(t.nodes, cur), t.root, if t.nodes[cur].count == 0 then t.count + 1 else t.count,
               if t.depth < |key| then |key| else t.depth);
    g' := Labels(g.words, g.lbs, g.ubs, g.keys[key := t.nodes[cur].count + 1]);
    r := cur;
    Counted(t, g, key, cur, t', g');
  }

  /** The node `cur` reached for `key` holds the count `key` had so far. */
  lemma CountedAt(t: Tree, g: Labels, key: seq<byte>, cur: int)
    requires Adding(t, g, key, |key|, cur) && key != []
    ensures 0 <= cur < |t.nodes| && g.words[cur] == key
    ensures t.nodes[cur].count == (if key in g.keys then g.keys[key] else 0)
    ensures (key in g.keys) == (t.nodes[cur].count != 0)
  {
    AddedAt(t.nodes, t.root, g.words, g.lbs, g.ubs, g.keys, key, cur);
  }

  /** Counting one more occurrence of `key` at its node keeps the
      invariant. */
  lemma CountedOk(t: Tree, g: Labels, key: seq<byte>, cur: int)
    requires Adding(t, g, key, |key|, cur) && key != [] && t.count == |g.keys| && DepthOk(g.keys, t.depth)
    requires 0 <= cur < |t.nodes|
    ensures Invariant(Bump(t.nodes, cur), t.root, g.words, g.lbs, g.ubs, g.keys[key := t.nodes[cur].count + 1],
                      if t.nodes[cur].count == 0 then t.count + 1 else t.count,
                      if t.depth < |key| then |key| else t.depth)
  {
    AddedOk(t.nodes, t.root, g.words, g.lbs, g.ubs, g.keys, t.count, t.depth, key, cur);
  }

  /** Counting one more occurrence of `key` at its node, which held the
      count `key` had so far: the count of `key` goes up by one, the number
      of words grows exactly when `key` is new, the depth grows to cover
      `key`, and the words are unchanged. */
  lemma Counted(t: Tree, g: Labels, key: seq<byte>, cur: int, t': Tree, g': Labels)
    requires 0 <= cur < |t.nodes| && cur < |g.words| && g.words[cur] == key
    requires t.nodes[cur].count == (if key in g.keys then g.keys[key] else 0)
    requires (key in g.keys) == (t.nodes[cur].count != 0)
    requires t' == Tree(Bump(t.nodes, cur), t.root, if t.nodes[cur].count == 0 then t.count + 1 else t.count,
                        if t.depth < |key| then |key| else t.depth)
    requires g' == Labels(g.words, g.lbs, g.ubs, g.keys[key := t.nodes[cur].count + 1])
    ensures g'.keys == AddOne(g.keys, key)
    ensures t'.count == t.count + (if key in g.keys then 0 else 1)
    ensures t'.depth == if t.depth < |key| then |key| else t.depth
    ensures 0 <= cur < |t'.nodes| && g'.words[cur] == key && t'.nodes[cur].count == g'.keys[key]
    ensures IsPrefix(g.words, g'.words)
  {
    PrefixRefl(g.words);
  }

  /** One turn of the loop of `tstree_add_key`: moves from the node of
      `key[..pos]` (NIL for the record in front of the root) to the node of
      `key[..pos + 1]`, creating it if the arena has none. */
  method Step(t: Tree, ghost g: Labels, key: seq<byte>, pos: nat, cur: int)
    returns (t': Tree, ghost g': Labels, next: int)
    requires pos < |key| && Adding(t, g, key, pos, cur)
    ensures Adding(t', g', key, pos + 1, next)
    ensures g'.keys == g.keys && t'.count == t.count && t'.depth == t.depth
    ensures IsPrefix(g.words, g'.words)
  {
    GrowingLevel(t.nodes, t.root, g.words, g.lbs, g.ubs, g.keys, key, pos, cur);
    if cur == NIL && t.root == NIL {
      t', g', next := AddRoot(t, g, key);
    } else if cur != NIL && t.nodes[cur].child == NIL {
      t', g', next := AddChild(t, g, key, pos, cur);
    } else {
      var first := if cur == NIL then t.root else t.nodes[cur].child;
      SeekStart(t.nodes, t.root, g.words, g.lbs, g.ubs, g.keys, key, pos, cur, first);
      var node := SeekSibling(t, g, key, pos, first);
      if t.nodes[node].chr == key[pos] {
        SeekFound(t.nodes, t.root, g.words, g.lbs, g.ubs, g.keys, key, pos, cur, first, node);
        t', g', next := t, g, node;
        PrefixRefl(g.words);
      } else {
        t', g', next := AddSibling(t, g, key, pos, cur, first, node);
      }
    }
  }

  /** The first node of an empty tree becomes the root. */
  method AddRoot(t: Tree, ghost g: Labels, key: seq<byte>) returns (t': Tree, ghost g': Labels, next: int)
    requires key != [] && t.root == NIL && Adding(t, g, key, 0, NIL)
    ensures Adding(t', g', key, 1, next)
    ensures g'.keys == g.keys && t'.count == t.count && t'.depth == t.depth
    ensures IsPrefix(g.words, g'.words)
  {
    var added := NewNode(t.nodes, NIL, key[0]);
    GrowRoot(t.nodes, t.root, g.words, g.lbs, g.ubs, g.keys, key, added);
    PrefixAppend(g.words, [key[..1]]);
    t' := t.(nodes := [added], root := 0);
    g' := g.(words := g.words + [key[..1]], lbs := g.lbs + [-1], ubs := g.ubs + [256]);
    next := 0;
  }

  /** A node without a next level gets a new node as its child. */
  method AddChild(t: Tree, ghost g: Labels, key: seq<byte>, pos: nat, cur: int)
    returns (t': Tree, ghost g': Labels, next: int)
    requires 0 < pos < |key| && Adding(t, g, key, pos, cur)
    requires t.nodes[cur].child == NIL
    ensures Adding(t', g', key, pos + 1, next)
    ensures g'.keys == g.keys && t'.count == t.count && t'.depth == t.depth
    ensures IsPrefix(g.words, g'.words)
  {
    PrefixAppend(g.words, [key[..pos + 1]]);
    var added := NewNode(t.nodes, cur, key[pos]);
    GrowChild(t.nodes, t.root, g.words, g.lbs, g.ubs, g.keys, key, pos, cur, added);
    next := |t.nodes|;
    t' := t.(nodes := Attached(t.nodes, cur, Child, added));
    g' := g.(words := g.words + [key[..pos + 1]], lbs := g.lbs + [-1], ubs := g.ubs + [256]);
  }

  /** A new node hangs from the empty link where the sibling search for
      the next character ran out. */
  method AddSibling(t: Tree, ghost g: Labels, key: seq<byte>, pos: nat, cur: int, first: int, node: int)
    returns (t': Tree, ghost g': Labels, next: int)
    requires Adding(t, g, key, pos, cur)
    requires Seeking(t.nodes, t.root, g.words, g.lbs, g.ubs, key, pos, first, node)
    requires t.nodes[node].chr != key[pos] && GetLink(t.nodes[node], Dir(t.nodes[node], key[pos])) == NIL
    ensures Adding(t', g', key, pos + 1, next)
    ensures g'.keys == g.keys && t'.count == t.count && t'.depth == t.depth
    ensures IsPrefix(g.words, g'.words)
  {
    PrefixAppend(g.words, [key[..pos + 1]]);
    var c := key[pos];
    var l := Dir(t.nodes[node], c);
    var added := NewNode(t.nodes, cur, c);
    GrowSibling(t.nodes, t.root, g.words, g.lbs, g.ubs, g.keys, key, pos, cur, first, node, added);
    ghost var lb, ub := LowerBound(t.nodes, g.lbs, node, c), UpperBound(t.nodes, g.ubs, node, c);
    next := |t.nodes|;
    t' := t.(nodes := Attached(t.nodes, node, l, added));
    g' := g.(words := g.words + [key[..pos + 1]], lbs := g.lbs + [lb], ubs := g.ubs + [ub]);
  }

  /** The sibling search of `tstree_add_key` on the level below `key[..pos]`,
      which starts at `first`: follows the `lo` and `hi` links until the node
      of the next character or an empty link. */
  method SeekSibling(t: Tree, ghost g: Labels, key: seq<byte>, pos: nat, first: int) returns (node: int)
    requires Shape(t.nodes, t.root, g.words, g.lbs, g.ubs)
    requires Seeking(t.nodes, t.root, g.words, g.lbs, g.ubs, key, pos, first, first)
    ensures Seeking(t.nodes, t.root, g.words, g.lbs, g.ubs, key, pos, first, node)
    ensures t.nodes[node].chr == key[pos] || GetLink(t.nodes[node], Dir(t.nodes[node], key[pos])) == NIL
  {
    var c := key[pos];
    node := first;
    while t.nodes[node].chr != c && GetLink(t.nodes[node], Dir(t.nodes[node], c)) != NIL
      invariant Seeking(t.nodes, t.root, g.words, g.lbs, g.ubs, key, pos, first, node)
      decreases |t.nodes| - node
    {
      SeekNext(t.nodes, t.root, g.words, g.lbs, g.ubs, key, pos, first, node);
      node := GetLink(t.nodes[node], Dir(t.nodes[node], c));
    }
  }
}
