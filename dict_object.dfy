/**
 * The dictionary object of `dict.c`: a ternary search tree of case-folded
 * words of at least two characters, with the operations that add a word,
 * list the most used words under a prefix, export every word as text and
 * load words from a text. Buffers the C code allocates become fresh
 * arrays; the `char *` results of `dict_get_most_used` become offsets
 * into its character buffer, with NIL for NULL.
 */
module DictObject {
  import opened Common
  import opened Alpha
  import opened TernaryNodes
  import opened Selection
  import opened Slots
  import opened Packing
  import opened Dict
  import opened DictSave
  import opened DictLoad
  import TT = TernaryTree
  import DT = DictText

  /** `struct dict`: the tree of stored words. */
  class Dictionary {
    const tree: TT.TernarySearchTree

    ghost predicate Valid()
      reads this, tree
    {
      tree.Valid() && AllStorable(tree.labels.keys)
    }

    /** The stored words with their counts. */
    ghost function Keys(): map<seq<byte>, nat>
      reads this, tree
    {
      tree.labels.keys
    }

    /** `dict_new`: an empty dictionary. */
    constructor ()
      ensures Valid() && Keys() == map[] && fresh(tree)
    {
      tree := new TT.TernarySearchTree();
    }

    /** `dict_add` on the C string at index `at` of `s`: a string shorter
        than two characters is refused and left alone; otherwise it is
        case-folded in place and one occurrence of it is added. */
    method Add(s: array<byte>, at: nat) returns (ok: bool)
      requires Valid() && at < s.Length && Terminated(s[..], at) && Len(s[..], at) < UINT_MAX - 1
      modifies s, tree
      ensures Valid()
      ensures var n := Len(old(s[..]), at);
        if n < 2 then !ok && s[..] == old(s[..]) && Keys() == old(Keys())
        else ok && s[..] == FoldedAt(old(s[..]), at, n)
             && Keys() == AddOne(old(Keys()), FoldWord(old(s[..])[at..at + n]))
    {
      var key;
      ok, key := TakeWord(s, at);
      if ok {
        Store(key);
      }
    }

    /** `dict_add_words_from_string` on the C string at index 0 of `s`:
        every maximal run of at least two letters is case-folded in place
        and one occurrence of its word is added, in the order of the text;
        the bytes that are no letters, and the runs of one letter, are left
        as they are. */
    method AddWordsFromString(s: array<byte>) returns (ok: bool)
      requires Valid() && Terminated(s[..], 0) && Len(s[..], 0) < UINT_MAX - 1
      modifies s, tree
      ensures Valid() && ok
      ensures var t0 := old(s[..]); var n := Len(t0, 0);
        s[..] == DT.Folding(t0[..n], 0) + t0[n..] && Keys() == DT.Tally(old(Keys()), DT.Words(t0[..n]))
    {
      ghost var t0 := s[..];
      ghost var k0 := Keys();
      ghost var n := Len(t0, 0);
      ghost var done: seq<seq<byte>> := [];
      ScanStart(t0);
      var pos := 0;
      while s[pos] != 0
        invariant Valid() && Scan(t0, n, s[..], pos, done) && Keys() == DT.Tally(k0, done)
        decreases n - pos
      {
        var more;
        more, pos := SkipBlanks(s, pos, t0, n, done);
        if !more {
          break;
        }
        var e := RunEndAt(s, pos + 1, t0, n);
        if e > pos + 1 {
          ScanRun(t0, n, s[..], pos, e, done);
          TallyOne(k0, done, FoldWord(t0[pos..e]));
          AddRun(s, pos, e);
          done := done + [FoldWord(t0[pos..e])];
        } else {
          ScanShort(t0, n, s[..], pos, done);
        }
        pos := e;
      }
      ScanEnd(t0, n, s[..], done);
      ok := true;
    }

    /** The body of `dict_add_words_from_string` for the run of letters from
        `pos` to `e`: a NUL put in place of the byte at `e`, `dict_add` on
        the run, the byte put back. */
    method AddRun(s: array<byte>, pos: nat, e: nat)
      requires Valid() && pos + 2 <= e < s.Length && e - pos < UINT_MAX - 1
      requires IsAlpha(s[pos]) && forall i :: pos + 1 <= i < e ==> IsAlpha(s[i])
      modifies s, tree
      ensures Valid() && s[..] == FoldedAt(old(s[..]), pos, e - pos)
      ensures Keys() == AddOne(old(Keys()), FoldWord(old(s[..])[pos..e]))
    {
      ghost var a := s[..];
      var save := s[e];
      s[e] := 0;
      ghost var b := s[..];
      LenIs(a, b, pos, e);
      var _ := Add(s, pos);
      s[e] := save;
      RestoreRun(a, b, s[..], pos, e);
    }

    /** `tstree_add_key` on the folded word: one more occurrence of it. */
    method Store(key: seq<byte>)
      requires Valid() && Storable(key)
      modifies tree
      ensures Valid() && Keys() == AddOne(old(Keys()), key)
    {
      ghost var k0 := tree.labels.keys;
      var node := tree.AddKey(key);
      AddStorable(k0, key);
    }

    /** `dict_get_most_used`: folds the prefix `word` in place, NULL (here
        `null`) standing for the empty prefix, and returns the `number`
        most used stored words that extend it, all of them when `number`
        is 0: `chars` holds each word and its NUL, one after the other, and
        `result` the offset of each word in `chars`, then NIL for the slots
        left over. The result is NULL when no stored word is longer than
        the prefix. */
    method GetMostUsed(word: array?<byte>, number: nat) returns (result: array?<int>, chars: array<byte>)
      requires Valid() && (word != null ==> Terminated(word[..], 0))
      modifies word
      ensures Valid() && Keys() == old(Keys()) && tree.tree == old(tree.tree) && tree.labels == old(tree.labels)
      ensures word != null ==> word[..] == FoldedAt(old(word[..]), 0, Len(old(word[..]), 0))
      ensures var key := if word == null then [] else Prefix(old(word[..]));
        var n := if number == 0 then |Keys()| + 1 else number;
        (result == null <==> Level(tree.tree.nodes, tree.tree.root, key) == NIL)
        && (result != null ==>
              fresh(result) && fresh(chars) && Returned(MostUsed(tree.tree, tree.labels, key, n), n, result, chars))
    {
      var key := FoldPrefix(word);
      var n := number;
      if n == 0 {
        n := tree.GetKeyNumber() + 1;
      }
      result, chars := Gather(key, n);
    }

    /** The search and the copy of `dict_get_most_used` for the folded
        prefix `key` and `n` slots. */
    method Gather(key: seq<byte>, n: nat) returns (result: array?<int>, chars: array<byte>)
      requires Valid() && n >= 1
      ensures (result == null <==> Level(tree.tree.nodes, tree.tree.root, key) == NIL)
      ensures result != null ==> fresh(result) && fresh(chars) && Returned(MostUsed(tree.tree, tree.labels, key, n), n, result, chars)
    {
      var t := tree.tree;
      ghost var g := tree.labels;
      var ok, visited := tree.GetKeys(key, Accepts);
      GatherFacts(t, g, key, n, ok, visited);
      result, chars := Pick(t.nodes, g.words, g.lbs, g.ubs, ok, visited, n, MostUsed(t, g, key, n));
    }

    /** `dict_get_words_into_string`: the text of the dictionary, each
        stored word on a line of its own once per occurrence, ended by a
        NUL. The result is NULL when no word is stored. */
    method GetWordsIntoString() returns (result: array?<byte>)
      requires Valid()
      ensures result == null <==> Keys() == map[]
      ensures result != null ==> fresh(result) && result[..] == Saved(tree.tree, tree.labels) + [0]
    {
      var t := tree.tree;
      ghost var g := tree.labels;
      var capacity := tree.GetKeyNumber();
      var ok, visited := tree.GetKeys([], Accepts);
      SaveFacts(t, g, ok, visited);
      result := WriteOut(t.nodes, g.words, g.lbs, g.ubs, ok, visited, capacity);
    }
  }

  /** The buffers `dict_get_most_used` returns for the words `ws` and `n`
      slots: `chars` holds each word and its NUL, one after the other, and
      `result` the offset of each word in `chars`, then NIL for the slots
      left over. */
  ghost predicate Returned(ws: seq<seq<byte>>, n: nat, result: array<int>, chars: array<byte>)
    reads result, chars
  {
    |ws| <= n && result.Length == n && chars[..] == Packed(ws) && result[..] == Offsets(ws) + Nils(n - |ws|)
  }

  /** The kept nodes `kept` stand for the words `ws`: they are nodes of the
      arena whose words are `ws`, each short enough for a buffer of the
      default size, and their weight is the length of the packing of
      `ws`. */
  ghost predicate Picked(nodes: seq<Node>, words: seq<seq<byte>>, kept: seq<int>, ws: seq<seq<byte>>)
  {
    |ws| == |kept| && Weight(nodes, kept) == |Packed(ws)|
    && forall k :: 0 <= k < |kept| ==> 0 <= kept[k] < |nodes| && kept[k] < |words| && words[kept[k]] == ws[k] && |ws[k]| < UINT_MAX - 1
  }

  /** The selection and the copy of `dict_get_most_used` once the traversal
      handed over the nodes `visited`: `ok` says whether the prefix has a
      level below it, and then `n` slots are filled by `dict_used_callback`
      and copied out. */
  method Pick(nodes: seq<Node>, ghost words: seq<seq<byte>>, ghost lbs: seq<int>, ghost ubs: seq<int>,
              ok: bool, visited: seq<int>, n: nat, ghost ws: seq<seq<byte>>) returns (result: array?<int>, chars: array<byte>)
    requires Sized(nodes, words, lbs, ubs) && forall i :: 0 <= i < |nodes| ==> Labelled(nodes, words, lbs, ubs, i)
    requires n >= 1 && forall k :: 0 <= k < |visited| ==> 0 <= visited[k] < |nodes|
    requires ok ==> Picked(nodes, words, Select(nodes, visited, n), ws) && |ws| <= n
    ensures result == null <==> !ok
    ensures result != null ==> fresh(result) && fresh(chars) && Returned(ws, n, result, chars)
  {
    var data := Choose(nodes, visited, n);
    result, chars := null, new byte[0];
    if ok {
      HoldsAt(data.nodes[..], data.kept);
      result := new int[n];
      chars := new byte[data.size];
      CopyOut(nodes, words, lbs, ubs, data.nodes, data.kept, ws, result, chars);
    }
  }

  /** What the traversal of `dict_get_most_used` tells the selection: it
      ran to its end exactly when the prefix has a level below it, handing
      over nodes of the arena, and the nodes the callback keeps stand for
      the words `MostUsed` describes. */
  lemma GatherFacts(t: TT.Tree, g: TT.Labels, key: seq<byte>, n: nat, ok: bool, visited: seq<int>)
    requires TT.Labelling(t, g) && AllStorable(g.keys)
    requires Level(t.nodes, t.root, key) == NIL ==> !ok && visited == []
    requires Level(t.nodes, t.root, key) != NIL ==> Stopped(ok, visited, TT.Listed(t.nodes, t.root, key), Accepts)
    ensures ok <==> Level(t.nodes, t.root, key) != NIL
    ensures Sized(t.nodes, g.words, g.lbs, g.ubs) && forall i :: 0 <= i < |t.nodes| ==> Labelled(t.nodes, g.words, g.lbs, g.ubs, i)
    ensures forall k :: 0 <= k < |visited| ==> 0 <= visited[k] < |t.nodes|
    ensures ok ==> Picked(t.nodes, g.words, Select(t.nodes, visited, n), MostUsed(t, g, key, n))
  {
    ListedNodes(t, g, key);
    if Level(t.nodes, t.root, key) != NIL {
      StoppedAccepted(ok, visited, TT.Listed(t.nodes, t.root, key));
      ChosenFacts(t, g, key, n, Select(t.nodes, visited, n));
    }
  }

  /** The copy loop of `dict_get_most_used` and the NULL padding after it,
      on the arena `nodes` with labels `words`, `lbs` and `ubs`: the slots
      hold the kept nodes, then a NIL when there is room; each kept word
      and its NUL go into `chars`, its offset into `result`, and NIL into
      the slots left over. */
  method CopyOut(nodes: seq<Node>, ghost words: seq<seq<byte>>, ghost lbs: seq<int>, ghost ubs: seq<int>,
                 slots: array<int>, ghost kept: seq<int>, ghost ws: seq<seq<byte>>, result: array<int>, chars: array<byte>)
    requires Sized(nodes, words, lbs, ubs) && forall i :: 0 <= i < |nodes| ==> Labelled(nodes, words, lbs, ubs, i)
    requires result.Length == slots.Length && result != slots && |kept| == |ws| <= slots.Length
    requires forall k :: 0 <= k < |kept| ==> slots[k] == kept[k] && 0 <= kept[k] < |nodes|
    requires |kept| < slots.Length ==> slots[|kept|] == NIL
    requires forall k :: 0 <= k < |kept| ==> words[kept[k]] == ws[k] && |ws[k]| < UINT_MAX - 1
    requires chars.Length == |Packed(ws)|
    modifies result, chars
    ensures chars[..] == Packed(ws) && result[..] == Offsets(ws) + Nils(slots.Length - |ws|)
  {
    var i, pos := 0, 0;
    while i < slots.Length && slots[i] != NIL
      invariant 0 <= i <= |ws| && pos == |Packed(ws[..i])| <= chars.Length
      invariant chars[..pos] == Packed(ws[..i]) && result[..i] == Offsets(ws[..i])
    {
      PackedRoom(ws, i);
      result[i] := pos;
      PackStep(ws, i);
      pos := TT.CopyWord(nodes, words, lbs, ubs, slots[i], ws[i], chars, pos);
      i := i + 1;
    }
    assert ws[..i] == ws && chars[..] == chars[..pos] == Packed(ws);
    while i < slots.Length
      invariant |ws| <= i <= slots.Length && result[..|ws|] == Offsets(ws) && chars[..] == Packed(ws)
      invariant forall j :: |ws| <= j < i ==> result[j] == NIL
    {
      result[i] := NIL;
      i := i + 1;
    }
    assert result[..] == Offsets(ws) + Nils(slots.Length - |ws|);
  }

  /** The test and the folding of `dict_add` on the C string at index `at`
      of `s`: a string shorter than two characters is refused and left
      alone; otherwise it is case-folded in place and is the word to add. */
  method TakeWord(s: array<byte>, at: nat) returns (ok: bool, key: seq<byte>)
    requires at < s.Length && Terminated(s[..], at)
    modifies s
    ensures var n := Len(old(s[..]), at);
      if n < 2 then !ok && s[..] == old(s[..])
      else ok && s[..] == FoldedAt(old(s[..]), at, n) && key == FoldWord(old(s[..])[at..at + n])
           && |key| == n && Folded(key)
  {
    ghost var s0 := s[..];
    LenShort(s0, at);
    key := [];
    if s[at] == 0 || s[at + 1] == 0 {
      return false, key;
    }
    var n := FoldString(s, at);
    key := s[at..at + n];
    FoldedSlice(s0, at, n);
    FoldWordIdempotent(s0[at..at + n]);
    ok := true;
  }

  /** The folding of the prefix in `dict_get_most_used`: the C string
      `word` is case-folded in place, and NULL stands for the empty
      prefix. */
  method FoldPrefix(word: array?<byte>) returns (key: seq<byte>)
    requires word != null ==> Terminated(word[..], 0)
    modifies word
    ensures word != null ==> word[..] == FoldedAt(old(word[..]), 0, Len(old(word[..]), 0))
    ensures key == if word == null then [] else Prefix(old(word[..]))
  {
    key := [];
    if word != null {
      ghost var w0 := word[..];
      var len := FoldString(word, 0);
      key := word[..len];
      FoldedSlice(w0, 0, len);
    }
  }

  /** Adding a storable word keeps every word storable. */
  lemma AddStorable(m: map<seq<byte>, nat>, w: seq<byte>)
    requires AllStorable(m) && Storable(w)
    ensures AllStorable(AddOne(m, w))
  {
  }

  /** The folded C string at index 0 of `s`: the prefix
      `dict_get_most_used` searches for. */
  function Prefix(s: seq<byte>): (r: seq<byte>)
    requires Terminated(s, 0)
    ensures |r| == Len(s, 0) && Folded(r)
  {
    FoldWordIdempotent(s[..Len(s, 0)]);
    FoldWord(s[..Len(s, 0)])
  }

  /** The traversal of `dict_get_most_used` with `dict_used_callback`:
      `number` slots, none taken, then each visited node handed to the
      callback in turn. */
  method Choose(arena: seq<Node>, visited: seq<int>, number: nat) returns (data: CallbackData)
    requires number >= 1 && forall k :: 0 <= k < |visited| ==> 0 <= visited[k] < |arena|
    ensures fresh(data) && fresh(data.nodes) && data.Choosing(arena) && data.max == number
    ensures data.kept == Select(arena, visited, number)
  {
    data := new CallbackData.Choose(arena, number);
    var k := 0;
    while k < |visited|
      invariant k <= |visited| && fresh(data) && fresh(data.nodes)
      invariant data.Choosing(arena) && data.max == number && data.kept == Select(arena, visited[..k], number)
    {
      var _ := data.UsedCallback(arena, visited[k]);
      assert visited[..k + 1][..k] == visited[..k];
      k := k + 1;
    }
    assert visited[..k] == visited;
  }

  /** The listed nodes are nodes of the arena. */
  lemma ListedNodes(t: TT.Tree, g: TT.Labels, key: seq<byte>)
    requires TT.Labelling(t, g)
    ensures var xs := TT.Listed(t.nodes, t.root, key); forall k :: 0 <= k < |xs| ==> 0 <= xs[k] < |t.nodes|
  {
    ListedSound(t, g, key);
  }

  /** What the copy loop needs of the kept nodes: they are nodes of the
      arena, their words are those `MostUsed` describes, short enough for
      a buffer of the default size, and the size the callback kept is the
      length of their packing. */
  lemma ChosenFacts(t: TT.Tree, g: TT.Labels, key: seq<byte>, n: nat, kept: seq<int>)
    requires TT.Labelling(t, g) && AllStorable(g.keys)
    requires kept == Select(t.nodes, TT.Listed(t.nodes, t.root, key), n)
    ensures var ws := MostUsed(t, g, key, n);
      |ws| == |kept| && Weight(t.nodes, kept) == |Packed(ws)|
      && forall k :: 0 <= k < |kept| ==> 0 <= kept[k] < |t.nodes| && g.words[kept[k]] == ws[k] && |ws[k]| < UINT_MAX - 1
  {
    ChosenSound(t, g, key, n);
    PackedWeight(t.nodes, g.words, kept);
  }

  /** The slots that hold the kept nodes, one by one. */
  lemma HoldsAt(a: seq<int>, kept: seq<int>)
    requires Holds(a, kept)
    ensures forall k :: 0 <= k < |kept| ==> a[k] == kept[k]
  {
    forall k | 0 <= k < |kept| ensures a[k] == kept[k] {
      assert a[..|kept|][k] == a[k];
    }
  }

  /** The test of `dict_add` for a string of fewer than two characters. */
  lemma LenShort(s: seq<byte>, at: nat)
    requires at < |s| && Terminated(s, at)
    ensures Len(s, at) < 2 <==> s[at] == 0 || s[at + 1] == 0
  {
    if s[at] != 0 {
      assert Len(s, at) == 1 + Len(s, at + 1);
    }
  }

  /** The folded part of `FoldedAt` is the folded word. */
  lemma FoldedSlice(a: seq<byte>, at: nat, n: nat)
    requires at + n <= |a|
    ensures FoldedAt(a, at, n)[at..at + n] == FoldWord(a[at..at + n])
  {
    var r := FoldedAt(a, at, n);
    assert r == a[..at] + FoldWord(a[at..at + n]) + a[at + n..];
  }
}
