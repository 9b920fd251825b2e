/**
 * The read and write buffers of the Huffman codec: a bit accumulator in
 * front of the file. The 1 KB staging buffer and the system calls behind it
 * are not modelled; `file` is the whole content of the file.
 */
module HuffmanBuffers {
  import opened Common
  import opened HuffmanBits

  /** The write buffer: the bytes already handed to the file and an
      accumulator of pending bits, the oldest in the least significant bit. */
  class WriteBuffer {
    var file: seq<byte>
    var byteBuffer: nat
    var bbSize: nat

    /** At least the header is written and fewer than eight bits are pending. */
    ghost predicate Valid()
      reads this
    {
      |file| >= 8 && bbSize < 8 && byteBuffer < Pow2(bbSize)
    }

    /** Every bit written after the header, flushed or pending, in order. */
    ghost function Written(): seq<bool>
      reads this
      requires |file| >= 8
    {
      BitsOf(file[8..]) + LowBits(byteBuffer, bbSize)
    }

    /** Opens the buffer with the eight-byte header: the magic bytes and the
        uncompressed length. */
    constructor (size: nat)
      requires size <= UINT_MAX
      ensures Valid() && file == Header(size) && Written() == []
    {
      file := Header(size);
      byteBuffer := 0;
      bbSize := 0;
    }

    /** Moves every complete byte of the accumulator to the file. */
    method Flush()
      requires |file| >= 8 && bbSize < 16 && byteBuffer < Pow2(bbSize)
      modifies this
      ensures Valid()
      ensures Written() == old(Written())
      ensures |file| >= |old(file)| && file[..|old(file)|] == old(file)
    {
      ghost var start := file;
      while bbSize >= 8
        invariant |file| >= |start| && file[..|start|] == start
        invariant bbSize < 16 && byteBuffer < Pow2(bbSize)
        invariant Written() == old(Written())
        decreases bbSize
      {
        var low := byteBuffer % 256;
        FlushPending(file[8..], byteBuffer, bbSize);
        assert (file + [low])[8..] == file[8..] + [low];
        file := file + [low];
        byteBuffer := byteBuffer / 256;
        bbSize := bbSize - 8;
      }
    }

    /** Appends the `size` low bits of `data` (at most a byte here). */
    method WriteBits(data: nat, size: nat)
      requires Valid() && size <= 8 && data < Pow2(size)
      modifies this
      ensures Valid()
      ensures Written() == old(Written()) + LowBits(data, size)
      ensures |file| >= |old(file)| && file[..|old(file)|] == old(file)
    {
      AppendPending(byteBuffer, bbSize, data, size);
      byteBuffer := byteBuffer + Shl(data, bbSize);
      bbSize := bbSize + size;
      Flush();
    }

    /** Appends a code: the partial last byte first, then the full bytes
        from the last to the first. */
    method WriteCode(code: Code)
      requires Valid() && WellFormedCode(code)
      modifies this
      ensures Valid()
      ensures Written() == old(Written()) + Emitted(code)
      ensures |file| >= |old(file)| && file[..|old(file)|] == old(file)
    {
      var b: int := (code.size - 1) / 8;
      var count := code.size % 8;
      ghost var done: seq<bool> := [];
      ghost var w0, f0 := Written(), file;
      if count != 0 {
        WriteBits(code.bits[b], count);
        done := LowBits(code.bits[b], count);
        b := b - 1;
      }
      assert done + EmitBytes(code.bits, b) == Emitted(code);
      while b >= 0
        invariant -1 <= b < |code.bits|
        invariant Valid()
        invariant Written() == w0 + done
        invariant done + EmitBytes(code.bits, b) == Emitted(code)
        invariant IsPrefix(f0, file)
        decreases b + 1
      {
        assert Pow2(8) == 256;
        var piece := LowBits(code.bits[b], 8);
        var next := b - 1;
        assert EmitBytes(code.bits, b) == piece + EmitBytes(code.bits, next);
        AppendAssoc(done, piece, EmitBytes(code.bits, next));
        AppendAssoc(w0, done, piece);
        ghost var before := file;
        WriteBits(code.bits[b], 8);
        PrefixTrans(f0, before, file);
        done := done + piece;
        b := next;
      }
    }

    /** Writes the pending bits, padded with zeros to a whole byte. */
    method Finish()
      requires Valid()
      modifies this
      ensures |file| >= 8 && file[..8] == old(file[..8])
      ensures BitsOf(file[8..]) == old(Written()) + Zeros(PadLength(|old(Written())|))
    {
      if bbSize != 0 {
        ghost var w := Written();
        var last := byteBuffer;
        FinishPending(file[8..], last, bbSize);
        PadAfterBytes(|file| - 8, bbSize);
        assert |w| == 8 * (|file| - 8) + bbSize;
        assert (file + [last])[8..] == file[8..] + [last];
        assert (file + [last])[..8] == file[..8];
        file := file + [last];
        bbSize := 0;
        byteBuffer := 0;
      } else {
        assert Written() == BitsOf(file[8..]);
        PadAfterBytes(|file| - 8, 0);
      }
    }
  }

  /** The read buffer: the file, the position of the next byte to load, and
      an accumulator of loaded bits not yet consumed, the next one in the
      least significant bit. */
  class ReadBuffer {
    const file: seq<byte>
    var size: nat
    var fbPos: nat
    var bbRemain: nat
    var byteBuffer: nat

    ghost predicate Valid()
      reads this
    {
      fbPos <= |file| && bbRemain <= 16 && byteBuffer < Pow2(bbRemain)
    }

    /** The bits not yet consumed: the accumulator, then the unread bytes. */
    ghost function Remaining(): seq<bool>
      reads this
      requires Valid()
    {
      LowBits(byteBuffer, bbRemain) + BitsOf(file[fbPos..])
    }

    /** A buffer over an opened file, nothing read yet. */
    constructor (file: seq<byte>)
      ensures this.file == file && fbPos == 0 && bbRemain == 0 && byteBuffer == 0 && size == 0
    {
      this.file := file;
      size := 0;
      fbPos := 0;
      bbRemain := 0;
      byteBuffer := 0;
    }

    /** Checks the header and reads the uncompressed length. Fails for a file
        shorter than eight bytes, a wrong magic, or a non-zero length with no
        byte after the header; a zero length succeeds at once. */
    method Init() returns (ok: bool)
      modifies this
      ensures ok <==> |file| >= 8 && file[..4] == Magic
                      && (ReadLittleEndian32(file[4..8]) == 0 || |file| >= 9)
      ensures |file| >= 8 && file[..4] == Magic ==> size == ReadLittleEndian32(file[4..8])
      ensures ok && size != 0 ==> Valid() && Remaining() == BitsOf(file[8..])
    {
      if |file| < 8 || file[0] != 'H' as int || file[1] != 'U' as int
         || file[2] != 'F' as int || file[3] != 'F' as int {
        assert |file| >= 8 ==> file[..4] != Magic;
        return false;
      }
      assert file[..4] == Magic;
      size := file[4] as int + 256 * (file[5] as int) + 65536 * (file[6] as int) + 16777216 * (file[7] as int);
      assert file[4..8][0] == file[4] && file[4..8][1] == file[5];
      assert file[4..8][2] == file[6] && file[4..8][3] == file[7];
      if size == 0 {
        return true;
      }
      if |file| < 9 {
        return false;
      }
      fbPos := 9;
      bbRemain := 8;
      byteBuffer := file[8];
      assert Pow2(8) == 256;
      assert file[8..] == [file[8]] + file[9..];
      assert BitsOf(file[8..]) == LowBits(file[8], 8) + BitsOf(file[9..]);
      ok := true;
    }

    /** Loads the next byte of the file above the pending bits; fails at the
        end of the file. */
    method ReadByte() returns (ok: bool)
      requires Valid() && bbRemain <= 8
      modifies this
      ensures ok == (old(fbPos) < |file|)
      ensures Valid() && Remaining() == old(Remaining())
      ensures ok ==> bbRemain == old(bbRemain) + 8 && fbPos == old(fbPos) + 1
      ensures !ok ==> bbRemain == old(bbRemain) && fbPos == old(fbPos)
    {
      if fbPos == |file| {
        return false;
      }
      LoadByte(byteBuffer, bbRemain, file, fbPos);
      byteBuffer := byteBuffer + Shl(file[fbPos], bbRemain);
      fbPos := fbPos + 1;
      bbRemain := bbRemain + 8;
      ok := true;
    }

    /** Makes sure at least `n` bits are loaded, reading at most one byte;
        fails only when fewer than `n` bits remain in the whole file. */
    method EnsureBits(n: nat) returns (ok: bool)
      requires Valid() && 1 <= n <= 8
      modifies this
      ensures Valid() && Remaining() == old(Remaining())
      ensures ok ==> bbRemain >= n
      ensures ok <==> old(bbRemain) >= n || old(fbPos) < |file|
      ensures !ok ==> |Remaining()| < n
    {
      ok := true;
      if bbRemain < n {
        ok := ReadByte();
        if !ok {
          assert file[fbPos..] == [];
        }
      }
    }

    /** The next bit (the source's `THE_BIT`). */
    function TheBit(): (r: nat)
      reads this
      requires Valid() && 1 <= bbRemain
      ensures r < 2 && |Remaining()| >= 1 && Remaining()[0] == (r == 1)
    {
      TakeBit(byteBuffer, bbRemain);
      byteBuffer % 2
    }

    /** Consumes the next bit (the source's `GOT_BIT`). */
    method GotBit()
      requires Valid() && 1 <= bbRemain
      modifies this
      ensures Valid() && Remaining() == old(Remaining())[1..]
      ensures bbRemain == old(bbRemain) - 1 && fbPos == old(fbPos)
    {
      DropBit(byteBuffer, bbRemain, BitsOf(file[fbPos..]));
      byteBuffer := byteBuffer / 2;
      bbRemain := bbRemain - 1;
    }

    /** The next eight bits, the first in the least significant position
        (the source's `THE_BITS(8)`). */
    function TheByte(): (r: nat)
      reads this
      requires Valid() && 8 <= bbRemain
      ensures r < 256 && |Remaining()| >= 8 && LowBits(r, 8) == Remaining()[..8]
    {
      TakeByte(byteBuffer, bbRemain);
      TakeFront(LowBits(byteBuffer % 256, 8), LowBits(byteBuffer / 256, bbRemain - 8) + BitsOf(file[fbPos..]), 8);
      byteBuffer % 256
    }

    /** Consumes the next eight bits (the source's `GOT_BITS(8)`). */
    method GotByte()
      requires Valid() && 8 <= bbRemain
      modifies this
      ensures Valid() && Remaining() == old(Remaining())[8..]
      ensures bbRemain == old(bbRemain) - 8 && fbPos == old(fbPos)
    {
      DropByte(byteBuffer, bbRemain, BitsOf(file[fbPos..]));
      byteBuffer := byteBuffer / 256;
      bbRemain := bbRemain - 8;
    }
  }
}
