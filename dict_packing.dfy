/**
 * The results `dict.c` builds from the nodes its callbacks kept, on values:
 * the NUL-terminated words and their offsets that `dict_get_most_used`
 * returns, the entries that `dict_get_words_into_string` exports, and the
 * facts that tie the listed nodes of a tree to the words stored in it.
 */
module Packing {
  import opened Common
  import opened TernaryNodes
  import opened Selection
  import opened Slots
  import TT = TernaryTree
  import DT = DictText

  /** Every node of `xs` is a node of the arena, and its depth is the
      length of its word. */
  ghost predicate Sound(nodes: seq<Node>, words: seq<seq<byte>>, xs: seq<int>)
  {
    |words| == |nodes| && forall k :: 0 <= k < |xs| ==> 0 <= xs[k] < |nodes| && nodes[xs[k]].depth == |words[xs[k]]|
  }

  /** The words of the nodes `xs`. */
  function WordsOf(words: seq<seq<byte>>, xs: seq<int>): (r: seq<seq<byte>>)
    requires forall k :: 0 <= k < |xs| ==> 0 <= xs[k] < |words|
    ensures |r| == |xs| && forall k :: 0 <= k < |xs| ==> r[k] == words[xs[k]]
  {
    seq(|xs|, k requires 0 <= k < |xs| => words[xs[k]])
  }

  /** The words `ws` one after the other, each followed by a NUL: the
      characters of the buffer `dict_get_most_used` returns. */
  function Packed(ws: seq<seq<byte>>): seq<byte>
    decreases |ws|
  {
    if ws == [] then [] else Packed(ws[..|ws| - 1]) + ws[|ws| - 1] + [0]
  }

  /** Where each word of `ws` starts in `Packed(ws)`: the `char *` entries of the
      buffer `dict_get_most_used` returns. */
  function Offsets(ws: seq<seq<byte>>): (r: seq<int>)
    ensures |r| == |ws|
    decreases |ws|
  {
    if ws == [] then [] else Offsets(ws[..|ws| - 1]) + [|Packed(ws[..|ws| - 1])|]
  }

  /** `k` NULL entries. */
  function Nils(k: nat): (r: seq<int>)
    ensures |r| == k && forall i :: 0 <= i < k ==> r[i] == NIL
  {
    seq(k, _ => NIL)
  }

  /** The string that starts at each offset is the word it stands for:
      its characters and then a NUL. */
  lemma {:induction false} PackedAt(ws: seq<seq<byte>>, k: nat)
    requires k < |ws|
    ensures var p, o := Packed(ws), Offsets(ws)[k];
      0 <= o && o + |ws[k]| < |p| && p[o..o + |ws[k]|] == ws[k] && p[o + |ws[k]|] == 0
    decreases |ws|
  {
    var init := ws[..|ws| - 1];
    var p := Packed(ws);
    if k < |ws| - 1 {
      PackedAt(init, k);
      assert init[k] == ws[k];
      var o := Offsets(init)[k];
      assert Offsets(ws)[k] == o;
      assert p[..|Packed(init)|] == Packed(init);
      assert p[o..o + |ws[k]|] == Packed(init)[o..o + |ws[k]|];
    } else {
      var o := |Packed(init)|;
      assert Offsets(ws)[k] == o;
      assert p[o..o + |ws[k]|] == ws[k];
    }
  }

  /** The packing of a prefix of `ws` grows by one word and its NUL. */
  lemma PackStep(ws: seq<seq<byte>>, i: nat)
    requires i < |ws|
    ensures Packed(ws[..i + 1]) == Packed(ws[..i]) + ws[i] + [0]
    ensures Offsets(ws[..i + 1]) == Offsets(ws[..i]) + [|Packed(ws[..i])|]
  {
    assert ws[..i + 1][..i] == ws[..i];
  }

  /** The packing of joined word lists is the packings joined. */
  lemma {:induction false} PackedConcat(a: seq<seq<byte>>, b: seq<seq<byte>>)
    ensures Packed(a + b) == Packed(a) + Packed(b)
    decreases |b|
  {
    if b == [] {
      assert a + b == a;
    } else {
      var init := b[..|b| - 1];
      assert (a + b)[..|a + b| - 1] == a + init;
      PackedConcat(a, init);
    }
  }

  /** A prefix of the words takes at most the room of all of them. */
  lemma PackedRoom(ws: seq<seq<byte>>, i: nat)
    requires i < |ws|
    ensures |Packed(ws[..i])| + |ws[i]| + 1 <= |Packed(ws)|
  {
    PackStep(ws, i);
    assert ws == ws[..i + 1] + ws[i + 1..];
    PackedConcat(ws[..i + 1], ws[i + 1..]);
  }

  /** The size `dict_used_callback` keeps is the length of the packed
      words of the kept nodes. */
  lemma {:induction false} PackedWeight(nodes: seq<Node>, words: seq<seq<byte>>, xs: seq<int>)
    requires Sound(nodes, words, xs)
    ensures |Packed(WordsOf(words, xs))| == Weight(nodes, xs)
    decreases |xs|
  {
    if xs != [] {
      var init := xs[..|xs| - 1];
      assert WordsOf(words, xs)[..|xs| - 1] == WordsOf(words, init);
      PackedWeight(nodes, words, init);
    }
  }

  // ----- the export -----

  /** The entries of the nodes `xs`: the word and the count of each. */
  function Entries(nodes: seq<Node>, words: seq<seq<byte>>, xs: seq<int>): (r: seq<DT.Entry>)
    requires |words| == |nodes| && forall k :: 0 <= k < |xs| ==> 0 <= xs[k] < |nodes|
    ensures |r| == |xs| && forall k :: 0 <= k < |xs| ==> r[k] == DT.Entry(words[xs[k]], nodes[xs[k]].count)
  {
    seq(|xs|, k requires 0 <= k < |xs| => DT.Entry(words[xs[k]], nodes[xs[k]].count))
  }

  /** The export of a prefix of the nodes grows by the lines of one. */
  lemma ExportStep(nodes: seq<Node>, words: seq<seq<byte>>, xs: seq<int>, i: nat)
    requires |words| == |nodes| && forall k :: 0 <= k < |xs| ==> 0 <= xs[k] < |nodes|
    requires i < |xs|
    ensures DT.Export(Entries(nodes, words, xs[..i + 1]))
         == DT.Export(Entries(nodes, words, xs[..i])) + DT.Lines(DT.Entry(words[xs[i]], nodes[xs[i]].count))
  {
    assert Entries(nodes, words, xs[..i + 1])[..i] == Entries(nodes, words, xs[..i]);
  }

  /** The size `dict_string_callback` accumulates is the length of the
      export of the collected nodes. */
  lemma {:induction false} VolumeExport(nodes: seq<Node>, words: seq<seq<byte>>, xs: seq<int>)
    requires Sound(nodes, words, xs)
    ensures Volume(nodes, xs) == DT.ExportSize(Entries(nodes, words, xs))
    ensures Volume(nodes, xs) == |DT.Export(Entries(nodes, words, xs))|
    decreases |xs|
  {
    if xs != [] {
      var init := xs[..|xs| - 1];
      assert Entries(nodes, words, xs)[..|xs| - 1] == Entries(nodes, words, init);
      VolumeExport(nodes, words, init);
    }
    DT.ExportLength(Entries(nodes, words, xs));
  }

  /** The export of a prefix of the nodes is no longer than that of all,
      and leaves room for the lines of the next node. */
  lemma VolumeRoom(nodes: seq<Node>, words: seq<seq<byte>>, xs: seq<int>, i: nat)
    requires Sound(nodes, words, xs) && i < |xs|
    ensures Volume(nodes, xs[..i]) + (nodes[xs[i]].depth + 1) * nodes[xs[i]].count <= Volume(nodes, xs)
  {
    assert xs[..i + 1][..i] == xs[..i];
    assert xs == xs[..i + 1] + xs[i + 1..];
    VolumeConcat(nodes, xs[..i + 1], xs[i + 1..]);
  }

  /** The volume of joined node lists adds up. */
  lemma {:induction false} VolumeConcat(nodes: seq<Node>, a: seq<int>, b: seq<int>)
    ensures Volume(nodes, a + b) == Volume(nodes, a) + Volume(nodes, b)
    decreases |b|
  {
    if b == [] {
      assert a + b == a;
    } else {
      var init := b[..|b| - 1];
      assert (a + b)[..|a + b| - 1] == a + init;
      VolumeConcat(nodes, a, init);
    }
  }

  // ----- the listed nodes of a tree -----

  /** The words of the nodes `xs`, as a set. */
  function WordSet(words: seq<seq<byte>>, xs: seq<int>): set<seq<byte>>
    requires forall k :: 0 <= k < |xs| ==> 0 <= xs[k] < |words|
    decreases |xs|
  {
    if xs == [] then {} else WordSet(words, xs[..|xs| - 1]) + {words[xs[|xs| - 1]]}
  }

  /** A word is in `WordSet` exactly when it is the word of one of the nodes. */
  lemma {:induction false} WordSetHas(words: seq<seq<byte>>, xs: seq<int>, w: seq<byte>)
    requires forall k :: 0 <= k < |xs| ==> 0 <= xs[k] < |words|
    ensures w in WordSet(words, xs) <==> exists k :: 0 <= k < |xs| && words[xs[k]] == w
    decreases |xs|
  {
    if xs != [] {
      var init := xs[..|xs| - 1];
      WordSetHas(words, init, w);
      if w in WordSet(words, init) {
        var k :| 0 <= k < |init| && words[init[k]] == w;
        assert words[xs[k]] == w;
      }
      if exists k :: 0 <= k < |xs| && words[xs[k]] == w {
        var k :| 0 <= k < |xs| && words[xs[k]] == w;
        if k < |init| {
          assert words[init[k]] == w;
        }
      }
    }
  }

  /** Nodes with distinct words have as many words as nodes. */
  lemma {:induction false} WordSetCard(words: seq<seq<byte>>, xs: seq<int>)
    requires forall k :: 0 <= k < |xs| ==> 0 <= xs[k] < |words|
    requires forall j, k :: 0 <= j < k < |xs| ==> words[xs[j]] != words[xs[k]]
    ensures |WordSet(words, xs)| == |xs|
    decreases |xs|
  {
    if xs != [] {
      var init := xs[..|xs| - 1];
      WordSetCard(words, init);
      var w := words[xs[|xs| - 1]];
      WordSetHas(words, init, w);
      forall k | 0 <= k < |init| ensures words[init[k]] != w {
        assert init[k] == xs[k];
      }
    }
  }

  /** The nodes `tstree_get_keys` lists for `key` are nodes of the arena,
      each once, of stored words that `key` is a prefix of, with their
      counts. */
  lemma ListedSound(t: TT.Tree, g: TT.Labels, key: seq<byte>)
    requires TT.Labelling(t, g)
    ensures var xs := TT.Listed(t.nodes, t.root, key);
      Sound(t.nodes, g.words, xs) && Distinct(xs)
      && forall k :: 0 <= k < |xs| ==>
           g.words[xs[k]] in g.keys && IsPrefix(key, g.words[xs[k]])
           && t.nodes[xs[k]].count == g.keys[g.words[xs[k]]] > 0
  {
    var xs := TT.Listed(t.nodes, t.root, key);
    TT.ListedExact(t, g, key);
    forall k | 0 <= k < |xs|
      ensures 0 <= xs[k] < |t.nodes| && g.words[xs[k]] in g.keys && IsPrefix(key, g.words[xs[k]])
      ensures t.nodes[xs[k]].depth == |g.words[xs[k]]|
    {
      assert xs[k] in xs;
      assert Labelled(t.nodes, g.words, g.lbs, g.ubs, xs[k]);
    }
  }

  /** Distinct nodes of a tree carry distinct words. */
  lemma WordsDistinct(t: TT.Tree, g: TT.Labels, xs: seq<int>)
    requires TT.Labelling(t, g) && Distinct(xs) && forall k :: 0 <= k < |xs| ==> 0 <= xs[k] < |t.nodes|
    ensures forall j, k :: 0 <= j < k < |xs| ==> g.words[xs[j]] != g.words[xs[k]]
  {
    forall j, k | 0 <= j < k < |xs| ensures g.words[xs[j]] != g.words[xs[k]] {
      assert Find(t.nodes, t.root, g.words[xs[j]]) == xs[j];
      assert Find(t.nodes, t.root, g.words[xs[k]]) == xs[k];
    }
  }

  /** The stored words that `key` is a prefix of. */
  function Extending(keys: map<seq<byte>, nat>, key: seq<byte>): (r: set<seq<byte>>)
    ensures forall w :: w in r <==> w in keys && IsPrefix(key, w)
  {
    set w | w in keys && IsPrefix(key, w)
  }

  /** When `key` has a level below it, the words of the listed nodes are
      the stored words that `key` is a prefix of, as many as there are
      nodes. */
  lemma ListedWords(t: TT.Tree, g: TT.Labels, key: seq<byte>)
    requires TT.Labelling(t, g) && Level(t.nodes, t.root, key) != NIL
    ensures var xs := TT.Listed(t.nodes, t.root, key);
      (forall k :: 0 <= k < |xs| ==> 0 <= xs[k] < |t.nodes|)
      && WordSet(g.words, xs) == Extending(g.keys, key) && |xs| == |Extending(g.keys, key)|
  {
    var xs := TT.Listed(t.nodes, t.root, key);
    ListedSound(t, g, key);
    WordsDistinct(t, g, xs);
    TT.ListedExact(t, g, key);
    assert |g.words| == |t.nodes|;
    WordsCover(g.words, g.keys, xs, key);
    WordSetCard(g.words, xs);
  }

  /** Nodes that are exactly those of the stored words extending `key`
      have those words as their word set. */
  lemma WordsCover(words: seq<seq<byte>>, keys: map<seq<byte>, nat>, xs: seq<int>, key: seq<byte>)
    requires forall k :: 0 <= k < |xs| ==> 0 <= xs[k] < |words|
    requires forall x :: x in xs <==> 0 <= x < |words| && words[x] in keys && IsPrefix(key, words[x])
    requires forall w :: w in keys ==> w in words
    ensures WordSet(words, xs) == Extending(keys, key)
  {
    forall w ensures w in WordSet(words, xs) <==> w in Extending(keys, key) {
      WordSetHas(words, xs, w);
      if w in Extending(keys, key) {
        var i :| 0 <= i < |words| && words[i] == w;
        assert i in xs;
        var k :| 0 <= k < |xs| && xs[k] == i;
      }
      if w in WordSet(words, xs) {
        var k :| 0 <= k < |xs| && words[xs[k]] == w;
        assert xs[k] in xs;
      }
    }
  }

  /** The nodes `tstree_get_keys` lists for the empty prefix: there are
      some exactly when a word is stored, and their words are the stored
      words, each once. */
  lemma ListedAll(t: TT.Tree, g: TT.Labels)
    requires TT.Labelling(t, g)
    ensures Level(t.nodes, t.root, []) != NIL <==> g.keys != map[]
    ensures var xs := TT.Listed(t.nodes, t.root, []);
      (forall k :: 0 <= k < |xs| ==> 0 <= xs[k] < |t.nodes|)
      && |xs| == |g.keys| && WordSet(g.words, xs) == g.keys.Keys
  {
    var xs := TT.Listed(t.nodes, t.root, []);
    TT.ListedExact(t, g, []);
    ListedSound(t, g, []);
    if g.keys != map[] {
      var w :| w in g.keys;
      KeyNonEmpty(t, g, w);
      assert IsPrefix([], w);
      ListedWords(t, g, []);
      assert Extending(g.keys, []) == g.keys.Keys;
    } else {
      assert xs == [];
    }
  }

  // ----- the most used words -----

  /** The nodes `dict_used_callback` keeps of those listed for `key` are
      listed nodes: nodes of stored words that extend `key`, each once,
      with the counts of their words. */
  lemma ChosenSound(t: TT.Tree, g: TT.Labels, key: seq<byte>, n: nat)
    requires TT.Labelling(t, g)
    ensures var r := Select(t.nodes, TT.Listed(t.nodes, t.root, key), n);
      |r| <= n && Sound(t.nodes, g.words, r) && Distinct(r)
      && forall k :: 0 <= k < |r| ==>
           g.words[r[k]] in g.keys && IsPrefix(key, g.words[r[k]])
           && t.nodes[r[k]].count == g.keys[g.words[r[k]]]
  {
    ListedSound(t, g, key);
    SelectedSound(t.nodes, g.words, g.keys, key, TT.Listed(t.nodes, t.root, key), n);
  }

  /** What holds of every node of `xs` holds of every node the callback
      keeps of them. */
  lemma SelectedSound(nodes: seq<Node>, words: seq<seq<byte>>, keys: map<seq<byte>, nat>, key: seq<byte>, xs: seq<int>, n: nat)
    requires Sound(nodes, words, xs) && Distinct(xs)
    requires forall k :: 0 <= k < |xs| ==>
               words[xs[k]] in keys && IsPrefix(key, words[xs[k]]) && nodes[xs[k]].count == keys[words[xs[k]]]
    ensures var r := Select(nodes, xs, n);
      |r| <= n && Sound(nodes, words, r) && Distinct(r)
      && forall k :: 0 <= k < |r| ==>
           words[r[k]] in keys && IsPrefix(key, words[r[k]]) && nodes[r[k]].count == keys[words[r[k]]]
  {
    var r := Select(nodes, xs, n);
    SelectSpec(nodes, xs, n);
    forall k | 0 <= k < |r|
      ensures 0 <= r[k] < |nodes| && nodes[r[k]].depth == |words[r[k]]|
      ensures words[r[k]] in keys && IsPrefix(key, words[r[k]]) && nodes[r[k]].count == keys[words[r[k]]]
    {
      var j :| 0 <= j < |xs| && xs[j] == r[k];
    }
  }

  /** The words `dict_get_most_used` returns for the folded prefix `key`
      and `n` slots: those of the nodes the callback keeps. */
  ghost function MostUsed(t: TT.Tree, g: TT.Labels, key: seq<byte>, n: nat): (ws: seq<seq<byte>>)
    requires TT.Labelling(t, g)
    ensures |ws| <= n
  {
    ChosenSound(t, g, key, n);
    WordsOf(g.words, Select(t.nodes, TT.Listed(t.nodes, t.root, key), n))
  }

  /** When `key` has a level below it, the words returned are the `n` most
      used stored words that extend `key`, or all of them when there are
      fewer: each once, by decreasing count, and a word left out is used no
      more often than any word returned. */
  lemma MostUsedWords(t: TT.Tree, g: TT.Labels, key: seq<byte>, n: nat)
    requires TT.Labelling(t, g) && Level(t.nodes, t.root, key) != NIL
    ensures var ws, e := MostUsed(t, g, key, n), Extending(g.keys, key);
      |ws| == (if |e| <= n then |e| else n)
      && (forall i :: 0 <= i < |ws| ==> ws[i] in e)
      && (forall i, j :: 0 <= i < j < |ws| ==> ws[i] != ws[j])
      && (forall i, j :: 0 <= i < j < |ws| ==> g.keys[ws[i]] >= g.keys[ws[j]])
      && (forall w, i :: w in e && w !in ws && 0 <= i < |ws| ==> g.keys[w] <= g.keys[ws[i]])
  {
    var xs := TT.Listed(t.nodes, t.root, key);
    var r := Select(t.nodes, xs, n);
    ChosenSound(t, g, key, n);
    ListedSound(t, g, key);
    ListedWords(t, g, key);
    WordsDistinct(t, g, r);
    SelectedWords(t.nodes, g.words, g.keys, key, xs, n);
  }

  /** `MostUsedWords` on values: the selection from nodes `xs` whose words
      are, each once, the stored words that extend `key`, with their
      counts. */
  lemma SelectedWords(nodes: seq<Node>, words: seq<seq<byte>>, keys: map<seq<byte>, nat>, key: seq<byte>,
                      xs: seq<int>, n: nat)
    requires |words| == |nodes| && Distinct(xs)
    requires forall k :: 0 <= k < |xs| ==> 0 <= xs[k] < |nodes| && words[xs[k]] in keys && nodes[xs[k]].count == keys[words[xs[k]]]
    requires WordSet(words, xs) == Extending(keys, key) && |xs| == |Extending(keys, key)|
    requires var r := Select(nodes, xs, n);
      (forall k :: 0 <= k < |r| ==> 0 <= r[k] < |words|)
      && forall i, j :: 0 <= i < j < |r| ==> words[r[i]] != words[r[j]]
    ensures var ws, e := WordsOf(words, Select(nodes, xs, n)), Extending(keys, key);
      |ws| == (if |e| <= n then |e| else n)
      && (forall i :: 0 <= i < |ws| ==> ws[i] in e)
      && (forall i, j :: 0 <= i < j < |ws| ==> ws[i] != ws[j])
      && (forall i, j :: 0 <= i < j < |ws| ==> keys[ws[i]] >= keys[ws[j]])
      && (forall w, i :: w in e && w !in ws && 0 <= i < |ws| ==> keys[w] <= keys[ws[i]])
  {
    var r := Select(nodes, xs, n);
    var ws, e := WordsOf(words, r), Extending(keys, key);
    SelectSpec(nodes, xs, n);
    forall i | 0 <= i < |r| ensures ws[i] in e && Count(nodes, r[i]) == keys[ws[i]] {
      var k :| 0 <= k < |xs| && xs[k] == r[i];
      WordSetHas(words, xs, ws[i]);
    }
    forall w, i | w in e && w !in ws && 0 <= i < |ws| ensures keys[w] <= keys[ws[i]] {
      WordSetHas(words, xs, w);
      var k :| 0 <= k < |xs| && words[xs[k]] == w;
      var y := xs[k];
      assert y in xs && y !in r;
      assert Count(nodes, y) <= Count(nodes, r[i]);
    }
  }

  /** Stored words are not empty. */
  lemma KeyNonEmpty(t: TT.Tree, g: TT.Labels, w: seq<byte>)
    requires TT.Labelling(t, g) && w in g.keys
    ensures |w| > 0
  {
    assert w in g.words;
  }

  // ----- the saved text -----

  /** The text `dict_get_words_into_string` makes of a tree, before its
      NUL: the lines of the stored words in the order `tstree_get_keys`
      visits them for the empty prefix. */
  ghost function Saved(t: TT.Tree, g: TT.Labels): seq<byte>
    requires TT.Labelling(t, g)
  {
    ListedAll(t, g);
    DT.Export(Entries(t.nodes, g.words, TT.Listed(t.nodes, t.root, [])))
  }

  /** Round trip of a saved dictionary: when every stored word is plain
      (at least two letters, none upper case), loading the saved text into
      an empty dictionary gives back every stored word with its count. */
  lemma SavedRoundTrip(t: TT.Tree, g: TT.Labels)
    requires TT.Labelling(t, g) && forall w :: w in g.keys ==> DT.Plain(w)
    ensures DT.Import(Saved(t, g)) == g.keys
  {
    var xs := TT.Listed(t.nodes, t.root, []);
    ListedAll(t, g);
    ListedSound(t, g, []);
    WordsDistinct(t, g, xs);
    var es := Entries(t.nodes, g.words, xs);
    EntriesKeys(t.nodes, g.words, g.keys, xs);
    forall i | 0 <= i < |es| ensures DT.Plain(es[i].word) && es[i].count > 0 {
      assert es[i].word == g.words[xs[i]] && g.words[xs[i]] in g.keys;
    }
    DT.RoundTrip(es);
  }

  /** The entries of nodes with distinct stored words, one for each stored
      word, carry distinct words and describe the stored counts. */
  lemma EntriesKeys(nodes: seq<Node>, words: seq<seq<byte>>, keys: map<seq<byte>, nat>, xs: seq<int>)
    requires Sound(nodes, words, xs)
    requires forall j, k :: 0 <= j < k < |xs| ==> words[xs[j]] != words[xs[k]]
    requires forall k :: 0 <= k < |xs| ==> words[xs[k]] in keys && nodes[xs[k]].count == keys[words[xs[k]]]
    requires WordSet(words, xs) == keys.Keys
    ensures DT.DistinctWords(Entries(nodes, words, xs))
    ensures DT.KeysOf(Entries(nodes, words, xs)) == keys
  {
    var es := Entries(nodes, words, xs);
    assert DT.DistinctWords(es) by {
      forall i, j | 0 <= i < j < |es| ensures es[i].word != es[j].word {
        assert es[i].word == words[xs[i]] && es[j].word == words[xs[j]];
      }
    }
    DT.KeysOfEntries(es);
    var m := DT.KeysOf(es);
    forall v ensures v in m <==> v in keys {
      WordSetHas(words, xs, v);
      if v in keys {
        var k :| 0 <= k < |xs| && words[xs[k]] == v;
        assert es[k].word == v;
      }
      if v in m {
        var i :| 0 <= i < |es| && es[i].word == v;
        assert words[xs[i]] == v;
      }
    }
    forall v | v in m ensures m[v] == keys[v] {
      var i :| 0 <= i < |es| && es[i].word == v;
      assert es[i] == DT.Entry(words[xs[i]], nodes[xs[i]].count);
    }
  }
}
