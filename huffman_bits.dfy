/**
 * Bit sequences as the compressed file format of the Huffman codec sees them.
 * A byte contributes its eight bits least significant first; a code table
 * entry stores the bits of a code most significant first.
 */
module HuffmanBits {
  import opened Common

  function Pow2(n: nat): (r: nat)
    ensures r >= 1
  {
    if n == 0 then 1 else 2 * Pow2(n - 1)
  }

  lemma {:induction false} Pow2Add(a: nat, b: nat)
    ensures Pow2(a + b) == Pow2(a) * Pow2(b)
  {
    if a > 0 { Pow2Add(a - 1, b); }
  }

  lemma {:induction false} Pow2Mono(a: nat, b: nat)
    requires a <= b
    ensures Pow2(a) <= Pow2(b)
  {
    if a < b { Pow2Mono(a, b - 1); }
  }

  /** The `n` low bits of `x`, least significant first. */
  function LowBits(x: nat, n: nat): (r: seq<bool>)
    ensures |r| == n
  {
    if n == 0 then [] else [x % 2 == 1] + LowBits(x / 2, n - 1)
  }

  /** The number whose bits, least significant first, are `bits`. */
  function Value(bits: seq<bool>): nat
  {
    if bits == [] then 0 else (if bits[0] then 1 else 0) + 2 * Value(bits[1..])
  }

  /** `Value` inverts `LowBits` on numbers that fit, and is bounded. */
  lemma {:induction false} LowBitsValue(x: nat, n: nat)
    requires x < Pow2(n)
    ensures Value(LowBits(x, n)) == x
  {
    if n > 0 { LowBitsValue(x / 2, n - 1); }
  }

  /** Two numbers below `Pow2(n)` with the same `n` low bits are equal. */
  lemma {:induction false} LowBitsInjective(x: nat, y: nat, n: nat)
    requires x < Pow2(n) && y < Pow2(n)
    requires LowBits(x, n) == LowBits(y, n)
    ensures x == y
  {
    LowBitsValue(x, n);
    LowBitsValue(y, n);
  }

  /** `x << k`: the C left shift, on unbounded numbers. */
  function Shl(x: nat, k: nat): nat
  {
    if k == 0 then x else 2 * Shl(x, k - 1)
  }

  lemma {:induction false} ShlIsProduct(x: nat, k: nat)
    ensures Shl(x, k) == x * Pow2(k)
  {
    if k > 0 {
      ShlIsProduct(x, k - 1);
      assert x * Pow2(k) == 2 * (x * Pow2(k - 1));
    }
  }

  lemma {:induction false} ShlBound(d: nat, k: nat, n: nat)
    requires d < Pow2(n)
    ensures Shl(d, k) + Pow2(k) <= Pow2(k + n)
  {
    if k > 0 { ShlBound(d, k - 1, n); }
  }

  /** Placing `d` above the `k` low bits `a` concatenates the bit sequences:
      this is how the buffers OR new bits in above the pending ones. */
  lemma {:induction false} LowBitsAppend(a: nat, k: nat, d: nat, n: nat)
    requires a < Pow2(k)
    ensures LowBits(a + Shl(d, k), k + n) == LowBits(a, k) + LowBits(d, n)
  {
    if k > 0 {
      var m := Shl(d, k - 1);
      var x := a + Shl(d, k);
      assert x == a + 2 * m;
      assert x % 2 == a % 2;
      assert x / 2 == a / 2 + m;
      LowBitsAppend(a / 2, k - 1, d, n);
      assert LowBits(x, k + n) == [a % 2 == 1] + LowBits(a / 2 + m, k - 1 + n);
    }
  }

  lemma {:induction false} DivMod(x: nat, p: nat)
    requires p > 0
    ensures x == x % p + (x / p) * p
  {
  }

  /** Splitting `x` below bit 8: its `8 + n` low bits are those of its low
      byte followed by those of the rest. */
  lemma {:induction false} LowBitsSplitByte(x: nat, n: nat)
    ensures LowBits(x, 8 + n) == LowBits(x % 256, 8) + LowBits(x / 256, n)
  {
    assert Pow2(8) == 256;
    ShlIsProduct(x / 256, 8);
    DivMod(x, 256);
    assert x == x % 256 + Shl(x / 256, 8);
    LowBitsAppend(x % 256, 8, x / 256, n);
  }

  /** A number below `Pow2(k + n)` shifted right by `k` is below `Pow2(n)`. */
  lemma {:induction false} ShiftBound(x: nat, k: nat, n: nat)
    requires x < Pow2(k + n)
    ensures x / Pow2(k) < Pow2(n)
  {
    Pow2Add(k, n);
    var p, q := Pow2(k), x / Pow2(k);
    DivMod(x, p);
    if q >= Pow2(n) {
      MulMono(Pow2(n), q, p);
      assert false;
    }
  }

  lemma {:induction false} MulMono(a: nat, b: nat, c: nat)
    requires a <= b
    ensures a * c <= b * c
  {
  }

  /** The bits of a byte sequence, each byte least significant bit first,
      as the buffers of the codec read and write them. */
  function BitsOf(bytes: seq<byte>): (r: seq<bool>)
    ensures |r| == 8 * |bytes|
  {
    if bytes == [] then [] else LowBits(bytes[0], 8) + BitsOf(bytes[1..])
  }

  lemma {:induction false} BitsOfAppend(a: seq<byte>, b: seq<byte>)
    ensures BitsOf(a + b) == BitsOf(a) + BitsOf(b)
  {
    if a == [] {
      assert a + b == b;
    } else {
      assert (a + b)[0] == a[0];
      assert (a + b)[1..] == a[1..] + b;
      BitsOfAppend(a[1..], b);
    }
  }

  /** How many zero bits fill the last byte after `n` bits. */
  function PadLength(n: nat): (r: nat)
    ensures r < 8 && (n + r) % 8 == 0
  {
    (8 - n % 8) % 8
  }

  function Zeros(n: nat): (r: seq<bool>)
    ensures |r| == n && forall k :: 0 <= k < n ==> !r[k]
  {
    if n == 0 then [] else [false] + Zeros(n - 1)
  }

  lemma {:induction false} LowBitsZero(n: nat)
    ensures LowBits(0, n) == Zeros(n)
  {
    if n > 0 { LowBitsZero(n - 1); }
  }

  function Reverse<T>(s: seq<T>): (r: seq<T>)
    ensures |r| == |s|
  {
    if s == [] then [] else [s[|s| - 1]] + Reverse(s[..|s| - 1])
  }

  lemma {:induction false} ReverseAppend<T>(a: seq<T>, b: seq<T>)
    ensures Reverse(a + b) == Reverse(b) + Reverse(a)
  {
    if b == [] {
      assert a + b == a;
    } else {
      assert (a + b)[..|a + b| - 1] == a + b[..|b| - 1];
      ReverseAppend(a, b[..|b| - 1]);
    }
  }

  lemma {:induction false} ReverseAt<T>(s: seq<T>, k: nat)
    requires k < |s|
    ensures Reverse(s)[k] == s[|s| - 1 - k]
  {
    if k > 0 { ReverseAt(s[..|s| - 1], k - 1); }
  }

  /** The number whose bits, most significant first, are `s`: the way the
      code table accumulates a code by shifting each new bit in at the right. */
  function MsbValue(s: seq<bool>): (r: nat)
    ensures r < Pow2(|s|)
  {
    if s == [] then 0 else 2 * MsbValue(s[..|s| - 1]) + (if s[|s| - 1] then 1 else 0)
  }

  /** Emitting the low bits of a most-significant-first value reverses it. */
  lemma {:induction false} LowBitsOfMsbValue(s: seq<bool>)
    ensures LowBits(MsbValue(s), |s|) == Reverse(s)
  {
    if s != [] {
      var v := MsbValue(s[..|s| - 1]);
      var x := MsbValue(s);
      assert x % 2 == (if s[|s| - 1] then 1 else 0);
      assert x / 2 == v;
      LowBitsOfMsbValue(s[..|s| - 1]);
    }
  }

  lemma {:induction false} LittleEndian32Digits(n: nat)
    requires n <= UINT_MAX
    ensures n % 256 + 256 * ((n / 256) % 256) + 65536 * ((n / 65536) % 256)
            + 16777216 * ((n / 16777216) % 256) == n
  {
    var q0 := n / 256;
    assert n == n % 256 + 256 * q0;
    var q1 := q0 / 256;
    assert q0 == q0 % 256 + 256 * q1;
    assert q1 == n / 65536;
    var q2 := q1 / 256;
    assert q1 == q1 % 256 + 256 * q2;
    assert q2 == n / 16777216;
    assert q2 < 256;
  }

  /** The 32-bit little-endian encoding of a length. */
  function LittleEndian32(n: nat): (r: seq<byte>)
    requires n <= UINT_MAX
    ensures |r| == 4 && r[0] as int + 256 * (r[1] as int) + 65536 * (r[2] as int) + 16777216 * (r[3] as int) == n
  {
    LittleEndian32Digits(n);
    [n % 256, (n / 256) % 256, (n / 65536) % 256, (n / 16777216) % 256]
  }

  /** The value of four bytes read as a 32-bit little-endian number. */
  function ReadLittleEndian32(b: seq<byte>): (r: nat)
    requires |b| == 4
    ensures r <= UINT_MAX
  {
    b[0] as int + 256 * (b[1] as int) + 65536 * (b[2] as int) + 16777216 * (b[3] as int)
  }

  lemma {:induction false} LittleEndian32RoundTrip(n: nat)
    requires n <= UINT_MAX
    ensures ReadLittleEndian32(LittleEndian32(n)) == n
  {
  }

  /** The four magic bytes "HUFF" that open every compressed file. */
  const Magic: seq<byte> := ['H' as int, 'U' as int, 'F' as int, 'F' as int]

  /** The eight-byte header: the magic bytes and the uncompressed length. */
  function Header(n: nat): (r: seq<byte>)
    requires n <= UINT_MAX
    ensures |r| == 8 && r[..4] == Magic && ReadLittleEndian32(r[4..]) == n
  {
    assert (Magic + LittleEndian32(n))[4..] == LittleEndian32(n);
    Magic + LittleEndian32(n)
  }

  /** One entry of the code table: a code of `size` bits stored most
      significant bit first, eight bits per byte, in 32 bytes. */
  datatype Code = Code(size: nat, bits: seq<byte>)

  /** A code the write buffer can emit: 1 to 255 bits, and no stray bit above
      the partial last byte. */
  predicate WellFormedCode(c: Code)
  {
    1 <= c.size <= 255 && |c.bits| == 32
    && (c.size % 8 != 0 ==> c.bits[(c.size - 1) / 8] < Pow2(c.size % 8))
  }

  /** `c` stores the bit sequence `chain` most significant bit first: byte `k`
      holds bits `8k` to `8k + 7`, the last byte the remaining bits. */
  predicate StoresChain(c: Code, chain: seq<bool>)
  {
    |c.bits| == 32 && c.size == |chain| <= 255
    && (forall k :: 0 <= k < c.size / 8 ==> c.bits[k] == MsbValue(chain[8 * k .. 8 * k + 8]))
    && (c.size % 8 != 0 ==> c.bits[c.size / 8] == MsbValue(chain[8 * (c.size / 8) ..]))
  }

  /** The full bytes `k`, `k - 1`, ..., `0` of a code, each least significant
      bit first. */
  function EmitBytes(bits: seq<byte>, k: int): seq<bool>
    requires k < |bits|
    decreases k + 1
  {
    if k < 0 then [] else LowBits(bits[k], 8) + EmitBytes(bits, k - 1)
  }

  /** The bits the write buffer emits for a code: the partial last byte
      first, then the full bytes from the last to the first. */
  function Emitted(c: Code): seq<bool>
    requires WellFormedCode(c)
  {
    var last := (c.size - 1) / 8;
    if c.size % 8 != 0 then LowBits(c.bits[last], c.size % 8) + EmitBytes(c.bits, last - 1)
    else EmitBytes(c.bits, last)
  }

  lemma {:induction false} EmitBytesReverse(c: Code, chain: seq<bool>, k: nat)
    requires StoresChain(c, chain) && k <= c.size / 8
    ensures EmitBytes(c.bits, k - 1) == Reverse(chain[..8 * k])
  {
    if k > 0 {
      EmitBytesReverse(c, chain, k - 1);
      var piece := chain[8 * (k - 1) .. 8 * k];
      LowBitsOfMsbValue(piece);
      assert chain[..8 * k] == chain[..8 * (k - 1)] + piece;
      ReverseAppend(chain[..8 * (k - 1)], piece);
    }
  }

  lemma {:induction false} EmittedIsReversePartial(c: Code, chain: seq<bool>)
    requires StoresChain(c, chain) && c.size % 8 != 0
    ensures WellFormedCode(c) && Emitted(c) == Reverse(chain)
  {
    var b := c.size / 8;
    assert c.size == 8 * b + c.size % 8;
    assert (c.size - 1) / 8 == b;
    var head, tail := chain[..8 * b], chain[8 * b ..];
    assert |tail| == c.size % 8;
    assert c.bits[b] == MsbValue(tail);
    EmitBytesReverse(c, chain, b);
    LowBitsOfMsbValue(tail);
    assert Emitted(c) == Reverse(tail) + Reverse(head);
    assert chain == head + tail;
    ReverseAppend(head, tail);
  }

  lemma {:induction false} EmittedIsReverseFull(c: Code, chain: seq<bool>)
    requires StoresChain(c, chain) && 1 <= c.size && c.size % 8 == 0
    ensures WellFormedCode(c) && Emitted(c) == Reverse(chain)
  {
    var b := c.size / 8;
    assert (c.size - 1) / 8 == b - 1;
    EmitBytesReverse(c, chain, b);
    assert chain[..8 * b] == chain;
  }

  /** A code that stores `chain` is well formed, and emitting it writes
      `chain` backwards: the code table stores the leaf-to-root path, the
      file receives the root-to-leaf code. */
  lemma EmittedIsReverse(c: Code, chain: seq<bool>)
    requires StoresChain(c, chain) && 1 <= c.size
    ensures WellFormedCode(c)
    ensures Emitted(c) == Reverse(chain)
  {
    if c.size % 8 != 0 {
      EmittedIsReversePartial(c, chain);
    } else {
      EmittedIsReverseFull(c, chain);
    }
  }

  /** Pending bits `bb` (`k` of them) with `data` (`n` bits) ORed in above;
      the two ranges do not overlap, so OR is addition. */
  lemma {:induction false} AppendPending(bb: nat, k: nat, data: nat, n: nat)
    requires bb < Pow2(k) && data < Pow2(n)
    ensures bb + Shl(data, k) < Pow2(k + n)
    ensures LowBits(bb + Shl(data, k), k + n) == LowBits(bb, k) + LowBits(data, n)
  {
    LowBitsAppend(bb, k, data, n);
    ShlBound(data, k, n);
  }

  /** Moving the low byte of `size >= 8` pending bits to the output keeps the
      written bit sequence. */
  lemma {:induction false} FlushPending(out: seq<byte>, bb: nat, size: nat)
    requires 8 <= size && bb < Pow2(size)
    ensures bb / 256 < Pow2(size - 8)
    ensures BitsOf(out + [bb % 256]) + LowBits(bb / 256, size - 8) == BitsOf(out) + LowBits(bb, size)
  {
    var m := size - 8;
    ShiftBound(bb, 8, m);
    assert Pow2(8) == 256;
    var lo, hi := LowBits(bb % 256, 8), LowBits(bb / 256, m);
    LowBitsSplitByte(bb, m);
    assert BitsOf([bb % 256]) == lo + BitsOf([]);
    BitsOfAppend(out, [bb % 256]);
    AppendAssoc(BitsOf(out), lo, hi);
  }

  /** Writing `0 < size < 8` pending bits as one last byte pads them with zeros. */
  lemma {:induction false} FinishPending(out: seq<byte>, bb: nat, size: nat)
    requires 0 < size < 8 && bb < Pow2(size)
    ensures bb < 256
    ensures BitsOf(out + [bb]) == BitsOf(out) + LowBits(bb, size) + Zeros(8 - size)
  {
    Pow2Add(size, 8 - size);
    assert Pow2(8) == 256;
    assert Shl(0, size) == 0 by { ShlIsProduct(0, size); }
    LowBitsAppend(bb, size, 0, 8 - size);
    LowBitsZero(8 - size);
    BitsOfAppend(out, [bb]);
    assert BitsOf([bb]) == LowBits(bb, 8) + BitsOf([]);
  }

  /** Taking the next bit of `rem` pending bits: the mask gives it, the
      shift leaves the rest. */
  lemma {:induction false} TakeBit(bb: nat, rem: nat)
    requires bb < Pow2(rem) && 1 <= rem
    ensures bb / 2 < Pow2(rem - 1)
    ensures LowBits(bb, rem) == [bb % 2 == 1] + LowBits(bb / 2, rem - 1)
  {
  }

  /** Taking the next eight of `rem` pending bits. */
  lemma {:induction false} TakeByte(bb: nat, rem: nat)
    requires bb < Pow2(rem) && 8 <= rem
    ensures bb % 256 < 256 && bb / 256 < Pow2(rem - 8)
    ensures LowBits(bb, rem) == LowBits(bb % 256, 8) + LowBits(bb / 256, rem - 8)
  {
    assert Pow2(8) == 256;
    ShiftBound(bb, 8, rem - 8);
    LowBitsSplitByte(bb, rem - 8);
  }

  /** Loading the byte at `pos` above `rem <= 8` pending bits keeps the
      stream of bits not yet consumed. */
  lemma {:induction false} LoadByte(bb: nat, rem: nat, file: seq<byte>, pos: nat)
    requires bb < Pow2(rem) && rem <= 8 && pos < |file|
    ensures bb + Shl(file[pos], rem) < Pow2(rem + 8)
    ensures LowBits(bb + Shl(file[pos], rem), rem + 8) + BitsOf(file[pos + 1..])
            == LowBits(bb, rem) + BitsOf(file[pos..])
  {
    var b := file[pos];
    assert file[pos..] == [b] + file[pos + 1..];
    assert BitsOf(file[pos..]) == LowBits(b, 8) + BitsOf(file[pos + 1..]);
    assert Pow2(8) == 256;
    AppendPending(bb, rem, b, 8);
    AppendAssoc(LowBits(bb, rem), LowBits(b, 8), BitsOf(file[pos + 1..]));
  }

  /** Dropping the next bit of the pending bits from a stream. */
  lemma {:induction false} DropBit(bb: nat, rem: nat, tail: seq<bool>)
    requires bb < Pow2(rem) && 1 <= rem
    ensures bb / 2 < Pow2(rem - 1)
    ensures (LowBits(bb, rem) + tail)[1..] == LowBits(bb / 2, rem - 1) + tail
  {
    TakeBit(bb, rem);
    TakeFront([bb % 2 == 1], LowBits(bb / 2, rem - 1) + tail, 1);
  }

  /** Dropping the next eight pending bits from a stream. */
  lemma {:induction false} DropByte(bb: nat, rem: nat, tail: seq<bool>)
    requires bb < Pow2(rem) && 8 <= rem
    ensures bb / 256 < Pow2(rem - 8)
    ensures (LowBits(bb, rem) + tail)[8..] == LowBits(bb / 256, rem - 8) + tail
  {
    TakeByte(bb, rem);
    var lo, hi := LowBits(bb % 256, 8), LowBits(bb / 256, rem - 8);
    AppendAssoc(lo, hi, tail);
    TakeFront(lo, hi + tail, 8);
  }

  lemma {:induction false} TakeFront<T>(x: seq<T>, y: seq<T>, n: nat)
    requires |x| == n
    ensures (x + y)[..n] == x && (x + y)[n..] == y
  {
  }

  lemma {:induction false} PadAfterBytes(m: nat, s: nat)
    requires s < 8
    ensures PadLength(8 * m + s) == (if s == 0 then 0 else 8 - s)
  {
    assert (8 * m + s) % 8 == s;
  }

  lemma {:induction false} AppendAssoc<T>(a: seq<T>, b: seq<T>, c: seq<T>)
    ensures (a + b) + c == a + (b + c)
  {
  }
}
