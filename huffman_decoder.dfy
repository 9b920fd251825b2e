/**
 * The decompressor: it rebuilds the decoding tree from the stored code table
 * and then follows the bits of the data from the root to a leaf once per
 * byte.
 */
module HuffmanDecoder {
  import opened Common
  import opened HuffmanBits
  import opened HuffmanBuffers
  import opened HuffmanTree
  import opened HuffmanFormat
  import opened HuffmanTrie

  /** The next bit of the stream, consumed (the source's `GET_BIT`,
      `THE_BIT` and `GOT_BIT`); fails at the end of the file. */
  method NextBit(rb: ReadBuffer) returns (ok: bool, bit: bool)
    requires rb.Valid()
    modifies rb
    ensures rb.Valid()
    ensures ok <==> |old(rb.Remaining())| >= 1
    ensures ok ==> bit == old(rb.Remaining())[0] && rb.Remaining() == old(rb.Remaining())[1..]
  {
    bit := false;
    ok := rb.EnsureBits(1);
    if !ok {
      return;
    }
    bit := rb.TheBit() == 1;
    rb.GotBit();
  }

  /** The next eight bits of the stream as a code length, consumed (the
      source's `GET_BITS(8)`, `THE_BITS(8)` and `GOT_BITS(8)`). */
  method NextLength(rb: ReadBuffer) returns (ok: bool, len: nat)
    requires rb.Valid()
    modifies rb
    ensures rb.Valid()
    ensures ok <==> |old(rb.Remaining())| >= 8
    ensures ok ==> len < 256 && LowBits(len, 8) == old(rb.Remaining())[..8]
                   && rb.Remaining() == old(rb.Remaining())[8..]
  {
    len := 0;
    ok := rb.EnsureBits(8);
    if !ok {
      return;
    }
    len := rb.TheByte();
    rb.GotByte();
  }

  /** One step down the path of a code (the body of the source's inner
      loop): reads a bit and follows the child of `pos` for it, creating an
      empty node there unless the child is a node; fails when the tree is
      full. For the next bit of the code of `i` of a decodable table, the
      step follows or adds the node of the longer prefix. */
  method FollowBit(rb: ReadBuffer, tree: array<DNode>, count0: nat, pos0: int, i: nat,
                   ghost good: bool, ghost table: seq<seq<bool>>, ghost paths0: seq<seq<bool>>,
                   ghost m: nat, ghost after: seq<bool>)
    returns (ok: bool, count: nat, pos: int, ghost paths: seq<seq<bool>>)
    requires rb.Valid() && tree.Length == TreeSize && Links(tree[..], count0) && 1 <= pos0 < count0
    requires good ==> Building(tree[..], count0, paths0, table, i, m, pos0, rb.Remaining(), after)
                      && m + 1 < |table[i]|
    modifies rb, tree
    ensures rb.Valid()
    ensures ok ==> Links(tree[..], count) && 1 <= pos < count
    ensures good ==> ok && Building(tree[..], count, paths, table, i, m + 1, pos, rb.Remaining(), after)
  {
    count, pos, paths := count0, pos0, paths0;
    ghost var t := tree[..];
    ghost var rem := rb.Remaining();
    var bit;
    ok, bit := NextBit(rb);
    if !ok {
      return;
    }
    assert tree[..] == t;
    var child := Child(tree[pos], bit);
    if good {
      BitStep(t, count, paths, table, i, m, pos, rem, after, bit);
    }
    ghost var rem' := rb.Remaining();
    if child <= 1 {
      tree[pos] := WithChild(tree[pos], bit, count);
      if count == TreeSize {
        ok := false;
        return;
      }
      tree[count] := Empty;
      assert tree[..] == t[pos := WithChild(t[pos], bit, count)][count := Empty];
      LinksCreate(t, count, pos, bit);
      if good {
        paths := paths + [table[i][..m + 1]];
      }
      pos := count;
      count := count + 1;
    } else {
      pos := child;
    }
    assert rb.Remaining() == rem';
  }

  /** Reads the last bit of a code and stores the leaf of `i` as the child
      of `pos` for it, whatever was there. For the last bit of the code of
      `i` of a decodable table, this places the leaf of `i`. */
  method PlaceLeaf(rb: ReadBuffer, tree: array<DNode>, count: nat, pos: int, i: nat,
                   ghost good: bool, ghost table: seq<seq<bool>>, ghost paths: seq<seq<bool>>,
                   ghost m: nat, ghost after: seq<bool>)
    returns (ok: bool)
    requires rb.Valid() && tree.Length == TreeSize && Links(tree[..], count) && 1 <= pos < count && i < 256
    requires good ==> Building(tree[..], count, paths, table, i, m, pos, rb.Remaining(), after)
                      && m + 1 == |table[i]|
    modifies rb, tree
    ensures rb.Valid()
    ensures ok ==> Links(tree[..], count)
    ensures good ==> ok && rb.Remaining() == after
                     && Trie(tree[..], count, paths, table, NodePaths(table, i + 1, 0), Placed(table, i + 1))
  {
    ghost var t := tree[..];
    ghost var rem := rb.Remaining();
    var bit;
    ok, bit := NextBit(rb);
    if !ok {
      return;
    }
    assert tree[..] == t;
    tree[pos] := WithChild(tree[pos], bit, -(i as int));
    LinksSet(t, count, pos, bit, -(i as int));
    if good {
      LastBitStep(t, count, paths, table, i, m, pos, rem, after, bit);
    }
  }

  /** Follows or creates the path of a code of `len` bits read from the
      stream and stores the leaf of `i` at its end. For every input the
      children stay safe; when the stream holds the code of `i` of a
      decodable table, the tree grows by exactly that code. */
  method InsertCode(rb: ReadBuffer, tree: array<DNode>, count0: nat, i: nat, len: nat,
                    ghost good: bool, ghost table: seq<seq<bool>>, ghost paths0: seq<seq<bool>>,
                    ghost after: seq<bool>)
    returns (ok: bool, count: nat, ghost paths: seq<seq<bool>>)
    requires rb.Valid() && tree.Length == TreeSize && Links(tree[..], count0) && i < 256 && 1 <= len < 256
    requires good ==> Building(tree[..], count0, paths0, table, i, 0, 1, rb.Remaining(), after) && len == |table[i]|
    modifies rb, tree
    ensures rb.Valid()
    ensures ok ==> Links(tree[..], count)
    ensures good ==> ok && rb.Remaining() == after
                     && Trie(tree[..], count, paths, table, NodePaths(table, i + 1, 0), Placed(table, i + 1))
  {
    count, paths := count0, paths0;
    ok := true;
    var pos := 1;
    assert 1 <= pos < count by {
      if !good {
        assert Links(tree[..], count0);
      }
    }
    var j := 1;
    ghost var m := 0;
    while j < len
      invariant 1 <= j <= len && j == m + 1 && rb.Valid() && Links(tree[..], count) && 1 <= pos < count
      invariant good ==> Building(tree[..], count, paths, table, i, m, pos, rb.Remaining(), after) && len == |table[i]|
    {
      ok, count, pos, paths := FollowBit(rb, tree, count, pos, i, good, table, paths, m, after);
      if !ok {
        return;
      }
      j := j + 1;
      m := m + 1;
    }
    ok := PlaceLeaf(rb, tree, count, pos, i, good, table, paths, m, after);
  }

  /** Reads the entry of byte value `i` of the stored table (the body of
      the source's outer loop): its eight-bit length and, when that is not
      zero, its code, which goes into the tree. For the entry of a decodable
      table, the tree grows by the code of `i`. */
  method ReadEntry(rb: ReadBuffer, tree: array<DNode>, count0: nat, i: nat, ghost good: bool,
                   ghost table: seq<seq<bool>>, ghost paths0: seq<seq<bool>>, ghost rest: seq<bool>)
    returns (ok: bool, count: nat, ghost paths: seq<seq<bool>>)
    requires rb.Valid() && tree.Length == TreeSize && Links(tree[..], count0) && i < 256
    requires good ==> Reading(tree[..], count0, paths0, table, i, rb.Remaining(), rest)
    modifies rb, tree
    ensures rb.Valid()
    ensures ok ==> Links(tree[..], count)
    ensures good ==> ok && Reading(tree[..], count, paths, table, i + 1, rb.Remaining(), rest)
  {
    count, paths := count0, paths0;
    ghost var t := tree[..];
    ghost var rem := rb.Remaining();
    ghost var after := if good then Concat(Entries(table)[i + 1..]) + rest else [];
    if good {
      EntryStart(t, count, paths, table, i, rem, rest);
    }
    var len;
    ok, len := NextLength(rb);
    if !ok {
      return;
    }
    assert tree[..] == t;
    if good {
      assert Pow2(8) == 256;
      LowBitsInjective(len, |table[i]|, 8);
    }
    if len != 0 {
      ok, count, paths := InsertCode(rb, tree, count, i, len, good, table, paths, after);
      if good {
        EntryEnd(tree[..], count, paths, table, i, rest);
      }
    }
  }

  /** Reads the code table and builds the decoding tree from it. For every
      input the children stay safe; for the table of a decodable stream the
      tree is the trie of all its codes and the stream continues right after
      the table. */
  method ReadTable(rb: ReadBuffer, tree: array<DNode>, ghost good: bool, ghost table: seq<seq<bool>>,
                   ghost rest: seq<bool>)
    returns (ok: bool, count: nat, ghost paths: seq<seq<bool>>)
    requires rb.Valid() && tree.Length == TreeSize
    requires good ==> Decodable(table) && rb.Remaining() == Concat(Entries(table)) + rest
    modifies rb, tree
    ensures rb.Valid()
    ensures ok ==> Links(tree[..], count)
    ensures good ==> ok && rb.Remaining() == rest
                     && Trie(tree[..], count, paths, table, NodePaths(table, 256, 0), Placed(table, 256))
  {
    tree[1] := Empty;
    count, paths := 2, [[], []];
    if good {
      TrieInit(tree[..], table);
      assert Entries(table)[0..] == Entries(table);
    }
    assert SafeChild(Child(tree[1], false), 1, 2) && SafeChild(Child(tree[1], true), 1, 2);
    ok := true;
    for i := 0 to 256
      invariant rb.Valid() && Links(tree[..], count)
      invariant good ==> Reading(tree[..], count, paths, table, i, rb.Remaining(), rest)
    {
      ok, count, paths := ReadEntry(rb, tree, count, i, good, table, paths, rest);
      if !ok {
        return;
      }
    }
    if good {
      assert Entries(table)[256..] == [];
    }
  }

  /** Walks from the root along the bits of the stream to a leaf and yields
      its symbol; fails on an absent child or at the end of the file. In a
      trie of a decodable table, the code of `s` yields `s`. */
  method DecodeSymbol(rb: ReadBuffer, tree: array<DNode>, count: nat, ghost good: bool,
                      ghost table: seq<seq<bool>>, ghost paths: seq<seq<bool>>, ghost s: nat,
                      ghost after: seq<bool>)
    returns (ok: bool, sym: byte)
    requires rb.Valid() && tree.Length == TreeSize && Links(tree[..], count)
    requires good ==> Walking(tree[..], count, paths, table, s, 0, 1, rb.Remaining(), after)
    modifies rb
    ensures rb.Valid()
    ensures good ==> ok && sym == s && rb.Remaining() == after
  {
    sym := 0;
    var pos := 1;
    ghost var k := 0;
    assert 1 <= pos < count by {
      if !good {
        assert Links(tree[..], count);
      }
    }
    while true
      invariant rb.Valid() && 1 <= pos < count
      invariant good ==> Walking(tree[..], count, paths, table, s, k, pos, rb.Remaining(), after)
      decreases TreeSize - pos
    {
      ghost var rem := rb.Remaining();
      var bit;
      ok, bit := NextBit(rb);
      if !ok {
        return;
      }
      var next := Child(tree[pos], bit);
      if good {
        WalkBit(tree[..], count, paths, table, s, k, pos, rem, after, bit);
      }
      assert SafeChild(next, pos, count);
      if next == 1 {
        ok := false;
        return;
      }
      if next <= 0 {
        sym := -next;
        return;
      }
      pos := next;
      k := k + 1;
    }
  }

  /** Decodes `size` symbols into a new buffer. For the coded data of
      `payload` it yields `payload`. */
  method ReadData(rb: ReadBuffer, tree: array<DNode>, count: nat, size: nat, ghost good: bool,
                  ghost table: seq<seq<bool>>, ghost paths: seq<seq<bool>>, ghost payload: seq<byte>,
                  ghost pad: nat)
    returns (ok: bool, buffer: array<byte>)
    requires rb.Valid() && tree.Length == TreeSize && Links(tree[..], count)
    requires good ==> |payload| == size && Decoding(tree[..], count, paths, table, payload, 0, rb.Remaining(), pad)
    modifies rb
    ensures fresh(buffer) && buffer.Length == size
    ensures good ==> ok && buffer[..] == payload
  {
    ghost var t := tree[..];
    buffer := new byte[size];
    ok := true;
    for i := 0 to size
      invariant rb.Valid() && tree[..] == t
      invariant good ==> Decoding(t, count, paths, table, payload, i, rb.Remaining(), pad)
                         && buffer[..i] == payload[..i]
    {
      ghost var after := if good then Concat(Codes(table, payload)[i + 1..]) + Zeros(pad) else [];
      if good {
        DataStep(t, count, paths, table, payload, i, rb.Remaining(), pad);
      }
      var sym;
      ok, sym := DecodeSymbol(rb, tree, count, good, table, paths, if good then payload[i] else 0, after);
      if !ok {
        return;
      }
      buffer[i] := sym;
    }
    assert buffer[..] == buffer[..size];
  }

  /** `huffman_read`: checks the header and yields the stored length; unless
      it is zero or the data is not wanted, rebuilds the tree and decodes
      the data. A compressed file of `payload` under a valid table yields
      `payload`. */
  method HuffmanRead(file: seq<byte>, wantData: bool, ghost table: seq<seq<bool>>, ghost payload: seq<byte>)
    returns (ok: bool, size: nat, data: seq<byte>)
    ensures !(|file| >= 8 && file[..4] == Magic) ==> !ok
    ensures ok ==> size == ReadLittleEndian32(file[4..8])
    ensures ok && wantData ==> |data| == size
    ensures !wantData ==> data == []
    ensures Encodes(file, table, payload) && ValidTable(table, payload)
            ==> ok && size == |payload| && (wantData ==> data == payload)
  {
    data := [];
    ghost var good := Encodes(file, table, payload) && ValidTable(table, payload);
    if good {
      EncodedLength(file, table, payload);
      if |payload| > 0 {
        assert |BitsOf(file[8..])| > 0;
      }
    }
    var rb := new ReadBuffer(file);
    ok := rb.Init();
    size := rb.size;
    if !ok || size == 0 || !wantData {
      return;
    }
    var tree := new DNode[TreeSize](_ => Empty);
    ghost var rest := if good then Concat(Codes(table, payload)) + Zeros(PadLength(|Stream(table, payload)|)) else [];
    if good {
      ValidDecodable(table, payload);
      AppendAssoc(Concat(Entries(table)), Concat(Codes(table, payload)), Zeros(PadLength(|Stream(table, payload)|)));
    }
    var count;
    ghost var paths;
    ok, count, paths := ReadTable(rb, tree, good, table, rest);
    if !ok {
      return;
    }
    var buffer;
    ok, buffer := ReadData(rb, tree, count, size, good, table, paths, payload, PadLength(if good then |Stream(table, payload)| else 0));
    data := buffer[..];
  }

}
