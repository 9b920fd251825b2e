/**
 * The layout of a compressed file: the header, then as one bit stream the
 * code table (for each byte value its code length in eight bits, then the
 * code) and the code of every data byte, padded with zero bits to a byte.
 */
module HuffmanFormat {
  import opened Common
  import opened HuffmanBits
  import opened HuffmanTree

  /** The concatenation of a sequence of bit strings. */
  function Concat(parts: seq<seq<bool>>): (r: seq<bool>)
  {
    if parts == [] then [] else parts[0] + Concat(parts[1..])
  }

  lemma {:induction false} ConcatAppend(a: seq<seq<bool>>, b: seq<seq<bool>>)
    ensures Concat(a + b) == Concat(a) + Concat(b)
  {
    if a == [] {
      assert a + b == b;
    } else {
      assert (a + b)[1..] == a[1..] + b;
      ConcatAppend(a[1..], b);
    }
  }

  /** A concatenation from part `i` on starts with part `i`. */
  lemma ConcatFrom(parts: seq<seq<bool>>, i: nat)
    requires i < |parts|
    ensures Concat(parts[i..]) == parts[i] + Concat(parts[i + 1..])
  {
    assert parts[i..][0] == parts[i];
    assert parts[i..][1..] == parts[i + 1..];
  }

  /** Every code of the table fits the eight-bit length field. */
  ghost predicate Storable(table: seq<seq<bool>>)
  {
    |table| == 256 && forall c :: 0 <= c < 256 ==> |table[c]| <= 255
  }

  /** One entry of the stored table: the length, then the code. */
  function Entry(code: seq<bool>): (r: seq<bool>)
    requires |code| <= 255
    ensures |r| == 8 + |code| && r[8..] == code
  {
    LowBits(|code|, 8) + code
  }

  ghost function Entries(table: seq<seq<bool>>): (r: seq<seq<bool>>)
    requires Storable(table)
    ensures |r| == 256
  {
    seq(256, c requires 0 <= c < 256 => Entry(table[c]))
  }

  /** The stored table grows by one entry per byte value. */
  lemma EntriesStep(table: seq<seq<bool>>, i: nat)
    requires Storable(table) && i < 256
    ensures Concat(Entries(table)[..i + 1]) == Concat(Entries(table)[..i]) + Entry(table[i])
  {
    var e := Entries(table);
    assert e[..i + 1] == e[..i] + [Entry(table[i])];
    ConcatAppend(e[..i], [Entry(table[i])]);
    assert Concat([Entry(table[i])]) == Entry(table[i]);
  }

  /** The codes of the bytes of `data`, one after the other. */
  ghost function Codes(table: seq<seq<bool>>, data: seq<byte>): (r: seq<seq<bool>>)
    requires |table| == 256
    ensures |r| == |data|
  {
    seq(|data|, k requires 0 <= k < |data| => table[data[k]])
  }

  /** The coded data grows by one code per byte. */
  lemma CodesStep(table: seq<seq<bool>>, data: seq<byte>, i: nat)
    requires |table| == 256 && i < |data|
    ensures Concat(Codes(table, data)[..i + 1]) == Concat(Codes(table, data)[..i]) + table[data[i]]
  {
    var parts := Codes(table, data);
    assert parts[..i + 1] == parts[..i] + [table[data[i]]];
    ConcatAppend(parts[..i], [table[data[i]]]);
    assert Concat([table[data[i]]]) == table[data[i]];
  }

  /** The bit stream after the header. */
  ghost function Stream(table: seq<seq<bool>>, data: seq<byte>): seq<bool>
    requires Storable(table)
  {
    Concat(Entries(table)) + Concat(Codes(table, data))
  }

  /** `file` is the compressed form of `data` under `table`: the header with
      the length of `data`, and, unless `data` is empty, the stream padded
      with zero bits to a whole number of bytes. */
  ghost predicate Encodes(file: seq<byte>, table: seq<seq<bool>>, data: seq<byte>)
  {
    Storable(table) && |data| <= UINT_MAX && |file| >= 8 && file[..8] == Header(|data|)
    && (|data| == 0 ==> |file| == 8)
    && (|data| > 0 ==> BitsOf(file[8..]) == Stream(table, data) + Zeros(PadLength(|Stream(table, data)|)))
  }

  /** A compressed file determines its length field, whatever the table. */
  lemma EncodedLength(file: seq<byte>, table: seq<seq<bool>>, data: seq<byte>)
    requires Encodes(file, table, data)
    ensures file[..4] == Magic && ReadLittleEndian32(file[4..8]) == |data|
  {
    assert file[4..8] == Header(|data|)[4..];
  }
}
