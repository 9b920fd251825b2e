/**
 * The two halves of the codec together: what `huffman_write` stores,
 * `huffman_read` gives back.
 */
module HuffmanCodec {
  import opened Common
  import opened HuffmanTree
  import opened HuffmanFormat
  import opened HuffmanEncoder
  import opened HuffmanDecoder

  /** Compresses the data and decompresses the resulting file: the reader
      succeeds and yields exactly the bytes and the length that were
      written. */
  method RoundTrip(buffer: seq<byte>, size: nat) returns (ok: bool, n: nat, data: seq<byte>)
    requires InputOk(buffer, size)
    ensures ok && n == |Input(buffer, size)| && data == Input(buffer, size)
  {
    var file;
    ghost var table;
    file, table := HuffmanWrite(buffer, size);
    ok, n, data := HuffmanRead(file, true, table, Input(buffer, size));
  }
}
