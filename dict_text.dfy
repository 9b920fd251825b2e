/**
 * The text formats of the dictionary of `dict.c`: the export that writes every
 * word once per occurrence on its own line, the scan that finds the words of
 * a text (maximal runs of at least two letters), and the tally that adds
 * found words to a map from word to count. The round trip is proved here:
 * scanning and tallying an export gives back the words and counts it was
 * made from.
 */
module DictText {
  import opened Common
  import opened Alpha

  /** The line feed that ends every word of an export. */
  const NEWLINE: byte := 10

  /** One exported word with the number of times it was added. */
  datatype Entry = Entry(word: seq<byte>, count: nat)

  /** `s` written `k` times in a row. */
  function Repeat(s: seq<byte>, k: nat): seq<byte>
  {
    if k == 0 then [] else Repeat(s, k - 1) + s
  }

  /** `k` copies of `s` are `k` times as long as `s`. */
  lemma {:induction false} RepeatLength(s: seq<byte>, k: nat)
    ensures |Repeat(s, k)| == |s| * k
  {
    if k != 0 {
      RepeatLength(s, k - 1);
    }
  }

  /** A shorter repetition leaves room for one more copy in a longer one. */
  lemma {:induction false} RepeatRoom(s: seq<byte>, j: nat, k: nat)
    requires j < k
    ensures |Repeat(s, j)| + |s| <= |Repeat(s, k)|
    decreases k
  {
    if j + 1 < k {
      RepeatRoom(s, j, k - 1);
    }
  }

  /** The text of `dict_get_words_into_string` for the entries `es`, in
      order: each word followed by a line feed, as many times as its count. */
  function Export(es: seq<Entry>): seq<byte>
  {
    if es == [] then [] else Export(es[..|es| - 1]) + Lines(es[|es| - 1])
  }

  /** The lines of one entry: its word and a line feed, count times. */
  function Lines(e: Entry): seq<byte>
  {
    Repeat(e.word + [NEWLINE], e.count)
  }

  /** The size `dict_string_callback` accumulates: one byte per character
      and one for the line feed, for every occurrence of every word. */
  function ExportSize(es: seq<Entry>): nat
  {
    if es == [] then 0
    else ExportSize(es[..|es| - 1]) + (|es[|es| - 1].word| + 1) * es[|es| - 1].count
  }

  /** The export is exactly as long as the size accumulated for it. */
  lemma {:induction false} ExportLength(es: seq<Entry>)
    ensures |Export(es)| == ExportSize(es)
  {
    if es != [] {
      ExportLength(es[..|es| - 1]);
      RepeatLength(es[|es| - 1].word + [NEWLINE], es[|es| - 1].count);
      assert |Lines(es[|es| - 1])| == |Repeat(es[|es| - 1].word + [NEWLINE], es[|es| - 1].count)|;
    }
  }

  /** The export of entries that start with `e` starts with the lines of `e`. */
  lemma {:induction false} ExportCons(e: Entry, es: seq<Entry>)
    ensures Export([e] + es) == Lines(e) + Export(es)
    decreases |es|
  {
    var s := [e] + es;
    if es == [] {
      assert s[..|s| - 1] == [];
    } else {
      var init, l := es[..|es| - 1], es[|es| - 1];
      assert s[..|s| - 1] == [e] + init && s[|s| - 1] == l;
      ExportCons(e, init);
      Assoc(Lines(e), Export(init), Lines(l));
    }
  }

  /** The first index from `k` on that holds no letter, or the length of `s`:
      the end of the run of letters at `k`. */
  function RunEnd(s: seq<byte>, k: nat): (e: nat)
    requires k <= |s|
    ensures k <= e <= |s| && (e < |s| ==> !IsAlpha(s[e]))
    ensures forall j :: k <= j < e ==> IsAlpha(s[j])
    decreases |s| - k
  {
    if k == |s| || !IsAlpha(s[k]) then k else RunEnd(s, k + 1)
  }

  /** The words `dict_add_words_from_string` finds in the text `s` from
      `pos` on: the maximal runs of letters of at least two letters, case
      folded as `dict_add` stores them. */
  function Found(s: seq<byte>, pos: nat): seq<seq<byte>>
    requires pos <= |s|
    decreases |s| - pos
  {
    if pos == |s| then []
    else if !IsAlpha(s[pos]) then Found(s, pos + 1)
    else
      var e := RunEnd(s, pos + 1);
      (if e > pos + 1 then [FoldWord(s[pos..e])] else []) + Found(s, e)
  }

  /** The words found in the text `s`. */
  function Words(s: seq<byte>): seq<seq<byte>>
  {
    Found(s, 0)
  }

  /** The text `s` as `dict_add_words_from_string` leaves it once it has
      scanned it from `pos` on: the letters of every word found there are
      case folded in place. */
  function Folding(s: seq<byte>, pos: nat): (r: seq<byte>)
    requires pos <= |s|
    ensures |r| == |s|
    decreases |s| - pos
  {
    if pos == |s| then s
    else if !IsAlpha(s[pos]) then Folding(s, pos + 1)
    else
      var e := RunEnd(s, pos + 1);
      if e > pos + 1 then Folding(s[..pos] + FoldWord(s[pos..e]) + s[e..], e) else Folding(s, e)
  }

  /** The counts after adding the words `ws` in order. */
  function Tally(m: map<seq<byte>, nat>, ws: seq<seq<byte>>): map<seq<byte>, nat>
    decreases |ws|
  {
    if ws == [] then m else Tally(AddOne(m, ws[0]), ws[1..])
  }

  /** Tallying two lists of words one after the other. */
  lemma {:induction false} TallyConcat(m: map<seq<byte>, nat>, a: seq<seq<byte>>, b: seq<seq<byte>>)
    ensures Tally(m, a + b) == Tally(Tally(m, a), b)
    decreases |a|
  {
    if a != [] {
      assert (a + b)[1..] == a[1..] + b;
      TallyConcat(AddOne(m, a[0]), a[1..], b);
    } else {
      assert a + b == b;
    }
  }

  /** `w` written `k` times as a list of words. */
  function Copies(w: seq<byte>, k: nat): (r: seq<seq<byte>>)
    ensures |r| == k && forall j :: 0 <= j < k ==> r[j] == w
  {
    if k == 0 then [] else [w] + Copies(w, k - 1)
  }

  /** Tallying `k` copies of `w` adds `k` to the count of `w` and changes no
      other count. */
  lemma {:induction false} TallyCopies(m: map<seq<byte>, nat>, w: seq<byte>, k: nat)
    ensures Tally(m, Copies(w, k)) == if k == 0 then m else m[w := (if w in m then m[w] else 0) + k]
    decreases k
  {
    if k != 0 {
      assert Copies(w, k)[1..] == Copies(w, k - 1);
      TallyCopies(AddOne(m, w), w, k - 1);
      if k > 1 {
        assert AddOne(m, w)[w := (if w in AddOne(m, w) then AddOne(m, w)[w] else 0) + (k - 1)]
            == m[w := (if w in m then m[w] else 0) + k];
      }
    }
  }

  /** The words an export holds: every entry's word, count times. */
  function Listing(es: seq<Entry>): seq<seq<byte>>
  {
    if es == [] then [] else Copies(es[0].word, es[0].count) + Listing(es[1..])
  }

  /** A word the scan gives back unchanged: at least two letters, none of
      them upper case. */
  predicate Plain(w: seq<byte>)
  {
    |w| >= 2 && Folded(w) && forall k :: 0 <= k < |w| ==> IsAlpha(w[k])
  }

  /** Every word the scan finds is plain: a dictionary filled only from
      text stores plain words. */
  lemma {:induction false} FoundPlain(s: seq<byte>, pos: nat)
    requires pos <= |s|
    ensures forall i :: 0 <= i < |Found(s, pos)| ==> Plain(Found(s, pos)[i])
    decreases |s| - pos
  {
    if pos < |s| {
      if !IsAlpha(s[pos]) {
        FoundPlain(s, pos + 1);
      } else {
        var e := RunEnd(s, pos + 1);
        FoundPlain(s, e);
        if e > pos + 1 {
          var run := s[pos..e];
          var w := FoldWord(run);
          FoldWordIdempotent(run);
          forall k | 0 <= k < |w| ensures IsAlpha(w[k]) {
            assert run[k] == s[pos + k];
            FoldCaseProperties(run[k]);
          }
          assert Plain(w);
          var rest := Found(s, e);
          assert Found(s, pos) == [w] + rest;
          forall i | 0 <= i < |[w] + rest| ensures Plain(([w] + rest)[i]) {
            if i > 0 {
              assert ([w] + rest)[i] == rest[i - 1];
            }
          }
        }
      }
    }
  }

  /** The words found in a text are plain. */
  lemma WordsPlain(s: seq<byte>)
    ensures forall i :: 0 <= i < |Words(s)| ==> Plain(Words(s)[i])
  {
    FoundPlain(s, 0);
  }

  /** A stored word with a byte that is not a letter does not survive the
      export: "c3po", added once, is written as the line "c3po" and read
      back as the word "po". */
  lemma NonLetterExport()
    ensures Import(Export([Entry([99, 51, 112, 111], 1)])) == map[[112, 111] := 1]
  {
    var e := Entry([99, 51, 112, 111], 1);
    var s: seq<byte> := [99, 51, 112, 111, NEWLINE];
    assert [e][..0] == [];
    assert Repeat(e.word + [NEWLINE], 1) == Repeat(e.word + [NEWLINE], 0) + e.word + [NEWLINE];
    assert Export([e]) == s;
    assert RunEnd(s, 1) == 1;
    assert RunEnd(s, 3) == 4 by {
      assert RunEnd(s, 4) == 4;
    }
    assert Found(s, 4) == [] by {
      assert Found(s, 5) == [];
    }
    assert FoldWord([112, 111]) == [112, 111] by {
      assert FoldWord([111]) == [111];
    }
    assert Found(s, 2) == [[112, 111]] by {
      assert s[2..4] == [112, 111];
    }
    assert Words(s) == Found(s, 1) == Found(s, 2);
    assert Tally(map[], [[112, 111]]) == Tally(AddOne(map[], [112, 111]), []);
  }

  /** The scan from the end of a text `x` on does not look at `x`. */
  lemma {:induction false} FoundAfter(x: seq<byte>, y: seq<byte>, p: nat)
    requires p <= |y|
    ensures Found(x + y, |x| + p) == Found(y, p)
    decreases |y| - p
  {
    var s := x + y;
    if p < |y| {
      assert s[|x| + p] == y[p];
      if IsAlpha(y[p]) {
        FoundAfter(x, y, RunEnd(y, p + 1));
        RunAfter(x, y, p);
      } else {
        FoundAfter(x, y, p + 1);
      }
    } else {
      assert |x| + p == |s|;
    }
  }

  /** One run of letters in the second part of a text: once the scan after
      the run ignores `x`, so does the scan from the run's start. */
  lemma RunAfter(x: seq<byte>, y: seq<byte>, p: nat)
    requires p < |y| && IsAlpha(y[p])
    requires Found(x + y, |x| + RunEnd(y, p + 1)) == Found(y, RunEnd(y, p + 1))
    ensures Found(x + y, |x| + p) == Found(y, p)
  {
    var s := x + y;
    assert s[|x| + p] == y[p];
    RunEndAfter(x, y, p + 1);
    var e := RunEnd(y, p + 1);
    SliceAfter(x, y, p, e);
  }

  /** The end of a run in the second part of a text. */
  lemma {:induction false} RunEndAfter(x: seq<byte>, y: seq<byte>, k: nat)
    requires k <= |y|
    ensures RunEnd(x + y, |x| + k) == |x| + RunEnd(y, k)
    decreases |y| - k
  {
    if k < |y| {
      assert (x + y)[|x| + k] == y[k];
      RunEndAfter(x, y, k + 1);
    }
  }

  /** A line of a plain word is found as that word, and the scan goes on
      after the line feed. */
  lemma LineWords(w: seq<byte>, rest: seq<byte>)
    requires Plain(w)
    ensures Words(w + [NEWLINE] + rest) == [w] + Words(rest)
  {
    var tail := [NEWLINE] + rest;
    var s := w + tail;
    assert w + [NEWLINE] + rest == s;
    assert s[0] == w[0];
    RunEndFull(w, tail, 1);
    assert s[0..|w|] == w;
    FoldWordIdempotent(w);
    FoundAfter(w, tail, 0);
    FoundAfter([NEWLINE], rest, 0);
    assert Found(tail, 0) == Found(tail, 1);
  }

  /** The run from inside a word of letters reaches its end. */
  lemma {:induction false} RunEndFull(w: seq<byte>, tail: seq<byte>, k: nat)
    requires k <= |w| && forall j :: 0 <= j < |w| ==> IsAlpha(w[j])
    requires tail != [] && !IsAlpha(tail[0])
    ensures RunEnd(w + tail, k) == |w|
    decreases |w| - k
  {
    var s := w + tail;
    if k < |w| {
      assert s[k] == w[k];
      RunEndFull(w, tail, k + 1);
    } else {
      assert s[k] == tail[0];
    }
  }

  /** The lines of `k` copies of a plain word are found as `k` copies of it. */
  lemma {:induction false} RepeatWords(w: seq<byte>, k: nat, rest: seq<byte>)
    requires Plain(w)
    ensures Words(Repeat(w + [NEWLINE], k) + rest) == Copies(w, k) + Words(rest)
  {
    if k != 0 {
      var line := w + [NEWLINE];
      var tail := Repeat(line, k - 1) + rest;
      RepeatFront(line, k);
      assert Repeat(line, k) + rest == w + [NEWLINE] + tail;
      LineWords(w, tail);
      RepeatWords(w, k - 1, rest);
      assert Copies(w, k) == [w] + Copies(w, k - 1);
      assert [w] + (Copies(w, k - 1) + Words(rest)) == ([w] + Copies(w, k - 1)) + Words(rest);
    } else {
      assert Repeat(w + [NEWLINE], k) + rest == rest;
    }
  }

  /** `k` copies of `s` start with `s`. */
  lemma {:induction false} RepeatFront(s: seq<byte>, k: nat)
    requires k != 0
    ensures Repeat(s, k) == s + Repeat(s, k - 1)
  {
    if k > 1 {
      RepeatFront(s, k - 1);
    }
  }

  /** The scan of an export of plain words lists every word once per
      occurrence, in order. */
  lemma {:induction false} ExportWords(es: seq<Entry>)
    requires forall i :: 0 <= i < |es| ==> Plain(es[i].word)
    ensures Words(Export(es)) == Listing(es)
  {
    if es != [] {
      ExportCons(es[0], es[1..]);
      assert [es[0]] + es[1..] == es;
      RepeatWords(es[0].word, es[0].count, Export(es[1..]));
      ExportWords(es[1..]);
    }
  }

  /** No two entries share a word. */
  predicate DistinctWords(es: seq<Entry>)
  {
    forall i, j :: 0 <= i < j < |es| ==> es[i].word != es[j].word
  }

  /** The map from word to count that entries describe. */
  function KeysOf(es: seq<Entry>): map<seq<byte>, nat>
  {
    if es == [] then map[] else KeysOf(es[1..])[es[0].word := es[0].count]
  }

  /** Entries with distinct words map each word to its count, and map no
      other word. */
  lemma {:induction false} KeysOfEntries(es: seq<Entry>)
    requires DistinctWords(es)
    ensures forall i :: 0 <= i < |es| ==> es[i].word in KeysOf(es) && KeysOf(es)[es[i].word] == es[i].count
    ensures forall v :: v in KeysOf(es) ==> exists i :: 0 <= i < |es| && es[i].word == v
  {
    if es != [] {
      var rest := es[1..];
      assert DistinctWords(rest) by {
        forall i, j | 0 <= i < j < |rest| ensures rest[i].word != rest[j].word {
          assert rest[i] == es[i + 1] && rest[j] == es[j + 1];
        }
      }
      KeysOfEntries(rest);
      forall i | 0 <= i < |es| ensures es[i].word in KeysOf(es) && KeysOf(es)[es[i].word] == es[i].count {
        if i > 0 {
          assert rest[i - 1] == es[i];
        }
      }
      forall v | v in KeysOf(es) ensures exists i :: 0 <= i < |es| && es[i].word == v {
        if v != es[0].word {
          assert v in KeysOf(rest);
          var j :| 0 <= j < |rest| && rest[j].word == v;
          assert es[j + 1].word == v;
        }
      }
    }
  }

  /** Tallying the listing of entries with distinct words and non-zero
      counts adds exactly their counts to counts that have none of them. */
  lemma {:induction false} TallyKeys(m: map<seq<byte>, nat>, es: seq<Entry>)
    requires DistinctWords(es)
    requires forall i :: 0 <= i < |es| ==> es[i].count > 0 && es[i].word !in m
    ensures Tally(m, Listing(es)) == m + KeysOf(es)
    decreases |es|
  {
    if es != [] {
      var e, rest := es[0], es[1..];
      TallyConcat(m, Copies(e.word, e.count), Listing(rest));
      TallyCopies(m, e.word, e.count);
      var m' := m[e.word := e.count];
      RestEntries(m, es);
      TallyKeys(m', rest);
      MergeFirst(m, KeysOf(rest), e.word, e.count);
    } else {
      assert m + map[] == m;
    }
  }

  /** Merging first or last the count of a word the second map lacks. */
  lemma MergeFirst(m: map<seq<byte>, nat>, k: map<seq<byte>, nat>, w: seq<byte>, c: nat)
    requires w !in k
    ensures m[w := c] + k == m + k[w := c]
  {
  }

  /** The entries after the first keep what `TallyKeys` asks of them once
      the first word is counted. */
  lemma RestEntries(m: map<seq<byte>, nat>, es: seq<Entry>)
    requires es != [] && DistinctWords(es)
    requires forall i :: 0 <= i < |es| ==> es[i].count > 0 && es[i].word !in m
    ensures DistinctWords(es[1..])
    ensures forall i :: 0 <= i < |es| - 1 ==>
              es[1..][i].count > 0 && es[1..][i].word !in m[es[0].word := es[0].count]
    ensures es[0].word !in KeysOf(es[1..])
  {
    var rest := es[1..];
    forall i, j | 0 <= i < j < |rest| ensures rest[i].word != rest[j].word {
      assert rest[i] == es[i + 1] && rest[j] == es[j + 1];
    }
    forall i | 0 <= i < |rest| ensures rest[i].count > 0 && rest[i].word !in m[es[0].word := es[0].count] {
      assert rest[i] == es[i + 1];
    }
    forall j | 0 <= j < |rest| ensures rest[j].word != es[0].word {
      assert rest[j] == es[j + 1];
    }
    KeysOfEntries(rest);
  }

  /** The counts `dict_add_words_from_string` gives an empty dictionary
      for the text `s`. */
  function Import(s: seq<byte>): map<seq<byte>, nat>
  {
    Tally(map[], Words(s))
  }

  /** Repeating bytes none of which is a NUL gives no NUL. */
  lemma {:induction false} RepeatNoNul(s: seq<byte>, k: nat)
    requires forall i :: 0 <= i < |s| ==> s[i] != 0
    ensures forall i :: 0 <= i < |Repeat(s, k)| ==> Repeat(s, k)[i] != 0
    decreases k
  {
    if k > 0 {
      RepeatNoNul(s, k - 1);
      var r := Repeat(s, k - 1);
      forall i | 0 <= i < |r + s| ensures (r + s)[i] != 0 {
        if i < |r| {
          assert (r + s)[i] == r[i];
        } else {
          assert (r + s)[i] == s[i - |r|];
        }
      }
    }
  }

  /** The export of plain words holds no NUL: a C string holds all of it. */
  lemma {:induction false} ExportNoNul(es: seq<Entry>)
    requires forall i :: 0 <= i < |es| ==> Plain(es[i].word)
    ensures forall k :: 0 <= k < |Export(es)| ==> Export(es)[k] != 0
    decreases |es|
  {
    if es != [] {
      var init, e := es[..|es| - 1], es[|es| - 1];
      ExportNoNul(init);
      var line := e.word + [NEWLINE];
      forall i | 0 <= i < |line| ensures line[i] != 0 {
        if i < |e.word| {
          assert IsAlpha(e.word[i]);
        }
      }
      RepeatNoNul(line, e.count);
      var x, y := Export(init), Lines(e);
      forall i | 0 <= i < |x + y| ensures (x + y)[i] != 0 {
        if i < |x| {
          assert (x + y)[i] == x[i];
        } else {
          assert (x + y)[i] == y[i - |x|];
        }
      }
    }
  }

  /** Round trip: scanning and tallying the export of entries with distinct
      plain words and non-zero counts, from no counts at all, gives back
      the counts the entries describe. */
  lemma RoundTrip(es: seq<Entry>)
    requires DistinctWords(es)
    requires forall i :: 0 <= i < |es| ==> Plain(es[i].word) && es[i].count > 0
    ensures Import(Export(es)) == KeysOf(es)
  {
    calc {
      Import(Export(es));
    == { ImportExport(es); }
      Tally(map[], Listing(es));
    == { TallyKeys(map[], es); }
      map[] + KeysOf(es);
    ==
      KeysOf(es);
    }
  }

  /** Importing an export of plain words tallies its listing. */
  lemma ImportExport(es: seq<Entry>)
    requires forall i :: 0 <= i < |es| ==> Plain(es[i].word)
    ensures Import(Export(es)) == Tally(map[], Listing(es))
  {
    ExportWords(es);
  }
}
