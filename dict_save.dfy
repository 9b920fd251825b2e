/**
 * The export of `dict_get_words_into_string`, on the arena of a tree and
 * its labels: the nodes `dict_string_callback` collects, then the word of
 * each written into one buffer once per occurrence, each time followed by
 * a line feed, and a NUL at the end.
 */
module DictSave {
  import opened Common
  import opened Alpha
  import opened TernaryNodes
  import opened Slots
  import opened Packing
  import opened Dict
  import TT = TernaryTree
  import DT = DictText

  /** Every node of `xs` is a node of the arena whose word fits a buffer of
      the default size and which was added at least once. */
  ghost predicate Writable(nodes: seq<Node>, words: seq<seq<byte>>, xs: seq<int>)
  {
    Sound(nodes, words, xs)
    && forall k :: 0 <= k < |xs| ==> nodes[xs[k]].count >= 1 && |words[xs[k]]| < UINT_MAX - 1
  }

  /** What the traversal of `dict_get_words_into_string` tells the copy: it
      ran to its end exactly when a word is stored, handing over at most as
      many nodes as there are stored words, and then the nodes listed for
      the empty prefix, each of them writable. */
  lemma SaveFacts(t: TT.Tree, g: TT.Labels, ok: bool, visited: seq<int>)
    requires TT.Labelling(t, g) && AllStorable(g.keys)
    requires Level(t.nodes, t.root, []) == NIL ==> !ok && visited == []
    requires Level(t.nodes, t.root, []) != NIL ==> Stopped(ok, visited, TT.Listed(t.nodes, t.root, []), Accepts)
    ensures ok <==> g.keys != map[]
    ensures Sized(t.nodes, g.words, g.lbs, g.ubs) && forall i :: 0 <= i < |t.nodes| ==> Labelled(t.nodes, g.words, g.lbs, g.ubs, i)
    ensures |visited| <= |g.keys| && forall k :: 0 <= k < |visited| ==> 0 <= visited[k] < |t.nodes|
    ensures ok ==> visited == TT.Listed(t.nodes, t.root, []) && Writable(t.nodes, g.words, visited)
  {
    var xs := TT.Listed(t.nodes, t.root, []);
    ListedAll(t, g);
    ListedSound(t, g, []);
    if Level(t.nodes, t.root, []) != NIL {
      StoppedAccepted(ok, visited, xs);
      forall k | 0 <= k < |xs| ensures |g.words[xs[k]]| < UINT_MAX - 1 {
        assert Storable(g.words[xs[k]]);
      }
    }
  }

  /** The text `dict_get_words_into_string` returns, read back by
      `dict_add_words_from_string` into an empty dictionary: when every
      stored word is plain, the C string is the whole saved text and the
      words found in it tally to the stored counts. */
  lemma SavedLoads(t: TT.Tree, g: TT.Labels)
    requires TT.Labelling(t, g) && forall w :: w in g.keys ==> DT.Plain(w)
    ensures var s := Saved(t, g) + [0];
      Terminated(s, 0) && Len(s, 0) == |Saved(t, g)|
      && DT.Tally(map[], DT.Words(s[..Len(s, 0)])) == g.keys
  {
    var x := Saved(t, g);
    SavedNoNul(t, g);
    LenAppended(x);
    SavedRoundTrip(t, g);
    assert (x + [0])[..Len(x + [0], 0)] == x;
  }

  /** A saved dictionary of plain words holds no NUL byte. */
  lemma SavedNoNul(t: TT.Tree, g: TT.Labels)
    requires TT.Labelling(t, g) && forall w :: w in g.keys ==> DT.Plain(w)
    ensures forall k :: 0 <= k < |Saved(t, g)| ==> Saved(t, g)[k] != 0
  {
    var xs := TT.Listed(t.nodes, t.root, []);
    ListedAll(t, g);
    ListedSound(t, g, []);
    var es := Entries(t.nodes, g.words, xs);
    forall i | 0 <= i < |es| ensures DT.Plain(es[i].word) {
      assert es[i].word == g.words[xs[i]] && g.words[xs[i]] in g.keys;
    }
    DT.ExportNoNul(es);
    assert Saved(t, g) == DT.Export(es);
  }

  /** `dict_add` stores any string of two characters or more, but the
      import keeps only runs of letters: a dictionary holding "c3po" once
      saves the line "c3po" and loads it back as "po". */
  lemma SavedNonLetterWord(t: TT.Tree, g: TT.Labels, w: seq<byte>)
    requires w == [99, 51, 112, 111] && TT.Labelling(t, g) && g.keys == map[w := 1]
    ensures Storable(w)
    ensures DT.Import(Saved(t, g)) == map[[112, 111] := 1]
    ensures DT.Import(Saved(t, g)) != g.keys
  {
    NonLetterStorable(w);
    SavedOne(t, g, w, 1);
    DT.NonLetterExport();
    assert w in g.keys;
  }

  /** `dict_add` accepts "c3po": it is long enough and has no upper case. */
  lemma NonLetterStorable(w: seq<byte>)
    requires w == [99, 51, 112, 111]
    ensures Storable(w) && !DT.Plain(w)
  {
    assert !IsAlpha(w[1]);
  }

  /** A dictionary holding the single word `w`, `c` times, saves the lines
      of `w` alone. */
  lemma SavedOne(t: TT.Tree, g: TT.Labels, w: seq<byte>, c: nat)
    requires TT.Labelling(t, g) && g.keys == map[w := c]
    ensures Saved(t, g) == DT.Export([DT.Entry(w, c)])
  {
    var xs := TT.Listed(t.nodes, t.root, []);
    ListedAll(t, g);
    ListedSound(t, g, []);
    WordsDistinct(t, g, xs);
    var es := Entries(t.nodes, g.words, xs);
    EntriesKeys(t.nodes, g.words, g.keys, xs);
    assert |g.keys| == |g.keys.Keys| == |{w}| == 1;
    OneEntry(es, w, c);
  }

  /** A single entry of distinct words that describes the counts
      `map[w := c]` is the entry of `w` with count `c`. */
  lemma OneEntry(es: seq<DT.Entry>, w: seq<byte>, c: nat)
    requires |es| == 1 && DT.DistinctWords(es) && DT.KeysOf(es) == map[w := c]
    ensures es == [DT.Entry(w, c)]
  {
    DT.KeysOfEntries(es);
    assert es[0].word in map[w := c];
  }

  /** The traversal of `dict_get_words_into_string` with
      `dict_string_callback`: room for `capacity` nodes, none collected,
      then each visited node handed to the callback in turn. */
  method CollectAll(arena: seq<Node>, visited: seq<int>, capacity: nat) returns (data: CallbackData)
    requires |visited| <= capacity && forall k :: 0 <= k < |visited| ==> 0 <= visited[k] < |arena|
    ensures fresh(data) && fresh(data.nodes) && data.Collecting(arena)
    ensures data.kept == visited && data.max == |visited|
  {
    data := new CallbackData.Collect(arena, capacity);
    var k := 0;
    while k < |visited|
      invariant k <= |visited| && fresh(data) && fresh(data.nodes) && data.nodes.Length == capacity
      invariant data.Collecting(arena) && data.kept == visited[..k] && data.max == k
    {
      var _ := data.StringCallback(arena, visited[k]);
      assert visited[..k + 1] == visited[..k] + [visited[k]];
      k := k + 1;
    }
    assert visited[..k] == visited;
  }

  /** The copy loop of `dict_get_words_into_string` once the traversal
      handed over the nodes `visited`: `ok` says whether it ran to its end;
      then the collected nodes are written one after the other and the NUL
      ends the text. */
  method WriteOut(nodes: seq<Node>, ghost words: seq<seq<byte>>, ghost lbs: seq<int>, ghost ubs: seq<int>,
                  ok: bool, visited: seq<int>, capacity: nat) returns (result: array?<byte>)
    requires Sized(nodes, words, lbs, ubs) && forall i :: 0 <= i < |nodes| ==> Labelled(nodes, words, lbs, ubs, i)
    requires |visited| <= capacity && forall k :: 0 <= k < |visited| ==> 0 <= visited[k] < |nodes|
    requires ok ==> Writable(nodes, words, visited)
    ensures result == null <==> !ok
    ensures result != null ==> fresh(result) && result[..] == DT.Export(Entries(nodes, words, visited)) + [0]
  {
    var data := CollectAll(nodes, visited, capacity);
    result := null;
    if ok {
      result := new byte[data.size + 1];
      var pos := WriteEntries(nodes, words, lbs, ubs, visited, data.nodes, data.max, result);
      result[pos] := 0;
      assert result[..] == result[..pos] + [0];
    }
  }

  /** The loop over the collected nodes, the first `max` of `slots`: the
      lines of each node one after the other from the start of `result`,
      which has room for them and the NUL. */
  method WriteEntries(nodes: seq<Node>, ghost words: seq<seq<byte>>, ghost lbs: seq<int>, ghost ubs: seq<int>,
                      ghost visited: seq<int>, slots: array<int>, max: nat, result: array<byte>) returns (pos: nat)
    requires Sized(nodes, words, lbs, ubs) && forall i :: 0 <= i < |nodes| ==> Labelled(nodes, words, lbs, ubs, i)
    requires Writable(nodes, words, visited)
    requires max == |visited| <= slots.Length && slots[..max] == visited
    requires result.Length == Volume(nodes, visited) + 1
    modifies result
    ensures pos == Volume(nodes, visited) && result[..pos] == DT.Export(Entries(nodes, words, visited))
  {
    pos := 0;
    var i := 0;
    while i < max
      invariant i <= |visited| && pos == Volume(nodes, visited[..i]) <= Volume(nodes, visited)
      invariant result[..pos] == DT.Export(Entries(nodes, words, visited[..i]))
    {
      var node := slots[i];
      assert node == slots[..max][i] == visited[i];
      VolumeRoom(nodes, words, visited, i);
      ExportStep(nodes, words, visited, i);
      assert visited[..i + 1][..i] == visited[..i];
      pos := WriteLines(nodes, words, lbs, ubs, node, result, pos);
      i := i + 1;
    }
    assert visited[..i] == visited;
    VolumeExport(nodes, words, visited);
  }

  /** One node of the copy loop: `tstree_node_get_key_in_buffer` writes its
      word at `pos`, a line feed replaces the NUL, and when the word was
      added more than once that line is copied with `memcpy` until there
      is one line per occurrence. */
  method WriteLines(nodes: seq<Node>, ghost words: seq<seq<byte>>, ghost lbs: seq<int>, ghost ubs: seq<int>,
                    node: int, buf: array<byte>, pos: nat) returns (next: nat)
    requires Sized(nodes, words, lbs, ubs) && forall i :: 0 <= i < |nodes| ==> Labelled(nodes, words, lbs, ubs, i)
    requires 0 <= node < |nodes| && nodes[node].count >= 1 && |words[node]| < UINT_MAX - 1
    requires pos + (|words[node]| + 1) * nodes[node].count < buf.Length
    modifies buf
    ensures next == pos + (|words[node]| + 1) * nodes[node].count
    ensures buf[..next] == old(buf[..pos]) + DT.Lines(DT.Entry(words[node], nodes[node].count))
  {
    ghost var w := words[node];
    ghost var line := w + [DT.NEWLINE];
    var count := nodes[node].count;
    DT.RepeatLength(line, count);
    DT.RepeatRoom(line, 0, count);
    next := TT.CopyWord(nodes, words, lbs, ubs, node, w, buf, pos);
    ghost var written := buf[..next];
    buf[next - 1] := DT.NEWLINE;
    assert buf[..next] == old(buf[..pos]) + line by {
      assert buf[..next] == written[..next - 1] + [DT.NEWLINE];
    }
    if count > 1 {
      assert buf[pos..next] == buf[..next][pos..];
      next := CopyLines(buf, pos, next - pos, count, line);
    } else {
      assert DT.Repeat(line, 1) == line;
    }
  }

  /** The `memcpy` loop of `dict_get_words_into_string`: the line of `len`
      bytes at `pos` is copied behind itself until it stands there `count`
      times. */
  method CopyLines(buf: array<byte>, pos: nat, len: nat, count: nat, ghost line: seq<byte>) returns (next: nat)
    requires |line| == len && 1 <= count && pos + len * count <= buf.Length
    requires buf[pos..pos + len] == line
    modifies buf
    ensures next == pos + len * count
    ensures buf[..next] == old(buf[..pos]) + DT.Repeat(line, count)
  {
    ghost var head := buf[..pos];
    DT.RepeatLength(line, count);
    DT.RepeatRoom(line, 0, count);
    next := pos + len;
    assert buf[..next] == head + line by {
      assert buf[..next] == buf[..pos] + buf[pos..next];
    }
    assert DT.Repeat(line, 1) == line;
    var j := 1;
    while j < count
      invariant 1 <= j <= count && next == pos + |DT.Repeat(line, j)| <= pos + len * count
      invariant buf[..next] == head + DT.Repeat(line, j)
      invariant buf[pos..pos + len] == line
    {
      DT.RepeatRoom(line, j, count);
      ghost var b := buf[..];
      MemCopy(buf, pos, next, len);
      CopiedLine(b, buf[..], pos, next, len);
      Assoc(head, DT.Repeat(line, j), line);
      next := next + len;
      j := j + 1;
    }
  }

  /** What a copy of a line behind the written text leaves: the text grows
      by the line and the line itself stays. */
  lemma CopiedLine(b: seq<byte>, c: seq<byte>, from: nat, to: nat, len: nat)
    requires from + len <= to && to + len <= |b|
    requires c == b[..to] + b[from..from + len] + b[to + len..]
    ensures c[..to + len] == b[..to] + b[from..from + len]
    ensures c[from..from + len] == b[from..from + len]
  {
    assert c[..to + len] == (b[..to] + b[from..from + len] + b[to + len..])[..to + len];
  }

  /** `memcpy` of `len` bytes from index `from` of a buffer to index `to`
      of the same buffer, the two ranges apart. */
  method MemCopy(a: array<byte>, from: nat, to: nat, len: nat)
    requires from + len <= to && to + len <= a.Length
    modifies a
    ensures a[..] == old(a[..to]) + old(a[from..from + len]) + old(a[to + len..])
  {
    ghost var a0 := a[..];
    var k := 0;
    while k < len
      invariant k <= len
      invariant forall i {:trigger a[i]} :: 0 <= i < a.Length ==> a[i] == if to <= i < to + k then a0[from + i - to] else a0[i]
    {
      assert a[from + k] == a0[from + k];
      a[to + k] := a[from + k];
      k := k + 1;
    }
    ghost var r := a0[..to] + a0[from..from + len] + a0[to + len..];
    forall i | 0 <= i < a.Length ensures a[i] == r[i] {
      if i < to {
        assert r[i] == a0[..to][i];
      } else if i < to + len {
        assert r[i] == a0[from..from + len][i - to];
      } else {
        assert r[i] == a0[to + len..][i - to - len];
      }
    }
    assert a[..] == r;
  }
}
