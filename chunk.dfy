/**
 * xor_chunk_8/16/32/64 and their dispatcher xor_chunk: the XOR of the words of
 * a buffer, accumulated in an `int`.
 *
 * The word loops keep the accumulator as the 32-bit `int` the code declares
 * and perform C's implicit conversions explicitly: 8- and 16-bit words are
 * promoted to `int`; for 32-bit words the accumulator is converted to
 * `unsigned int`, for 64-bit words to `uint64_t` (sign-extended), and each
 * result is stored back into the `int`.
 */
module Chunk {
  import opened CInt
  import opened WordFold
  import opened Folds

  /** What xor_chunk returns for the first bufferSize bytes of data read as
      size-bit words. Only the low 32 bits of 64-bit words survive the `int`
      accumulator, and that value is sign-extended to 64 bits. */
  function ChunkXor(data: seq<U8>, bufferSize: nat, size: int): (r: U64)
    requires bufferSize <= |data|
    ensures size != 8 && size != 16 && size != 32 && size != 64 ==> r == 0
    ensures size == 8 ==> r < 0x100
    ensures size == 16 ==> r < 0x1_0000
    ensures size == 32 ==> r < 0x1_0000_0000
  {
    Pow2Widths();
    if size == 8 then
      XorFoldFits(Words(data, 1, bufferSize), 1);
      XorFold(Words(data, 1, bufferSize))
    else if size == 16 then
      XorFoldFits(Words(data, 2, bufferSize / 2), 2);
      XorFold(Words(data, 2, bufferSize / 2))
    else if size == 32 then
      XorFoldFits(Words(data, 4, bufferSize / 4), 4);
      XorFold(Words(data, 4, bufferSize / 4))
    else if size == 64 then
      Unsigned(ToInt32(XorFold(Words(data, 8, bufferSize / 8))), 64)
    else
      0
  }

  /** xor_chunk_8: the XOR of the first `segments` bytes. */
  method XorChunk8(data: array<U8>, segments: nat) returns (r: U8)
    requires segments <= data.Length
    ensures r == XorFold(Words(data[..], 1, segments))
  {
    Pow2Widths();
    var chunkXor: Int32 := 0;
    for i := 0 to segments
      invariant 0 <= chunkXor && Fits(chunkXor, 1)
      invariant chunkXor == XorFold(Words(data[..], 1, i))
    {
      XorFoldWordsNext(data[..], 1, i);
      WordOfByte(data[..], i);
      XorFits(chunkXor, data[i], 1);
      chunkXor := Xor(chunkXor, data[i]);
    }
    UnsignedOfSmall(chunkXor, 8);
    r := Unsigned(chunkXor, 8);
  }

  /** xor_chunk_16: the XOR of the first `segments` 16-bit words. */
  method XorChunk16(data: array<U8>, segments: nat) returns (r: U16)
    requires 2 * segments <= data.Length
    ensures r == XorFold(Words(data[..], 2, segments))
  {
    Pow2Widths();
    var chunkXor: Int32 := 0;
    for i := 0 to segments
      invariant 0 <= chunkXor && Fits(chunkXor, 2)
      invariant chunkXor == XorFold(Words(data[..], 2, i))
    {
      var word := Word(data[..], 2, i);
      XorFoldWordsNext(data[..], 2, i);
      XorFits(chunkXor, word, 2);
      chunkXor := Xor(chunkXor, word);
    }
    UnsignedOfSmall(chunkXor, 16);
    r := Unsigned(chunkXor, 16);
  }

  /** xor_chunk_32: the XOR of the first `segments` 32-bit words. */
  method XorChunk32(data: array<U8>, segments: nat) returns (r: U32)
    requires 4 * segments <= data.Length
    ensures r == XorFold(Words(data[..], 4, segments))
  {
    Pow2Widths();
    var chunkXor: Int32 := 0;
    UnsignedOfSmall(0, 32);
    for i := 0 to segments
      invariant Unsigned(chunkXor, 32) == XorFold(Words(data[..], 4, i))
    {
      var word := Word(data[..], 4, i);
      var next := Xor(Unsigned(chunkXor, 32), word);
      XorFoldWordsNext(data[..], 4, i);
      XorFits(Unsigned(chunkXor, 32), word, 4);
      ToInt32Low(next);
      UnsignedOfSmall(next, 32);
      chunkXor := ToInt32(next);
    }
    r := Unsigned(chunkXor, 32);
  }

  /** xor_chunk_64: the low 32 bits of the XOR of the first `segments` 64-bit
      words, sign-extended. */
  method XorChunk64(data: array<U8>, segments: nat) returns (r: U64)
    requires 8 * segments <= data.Length
    ensures r == Unsigned(ToInt32(XorFold(Words(data[..], 8, segments))), 64)
  {
    Pow2Widths();
    var chunkXor: Int32 := 0;
    UnsignedOfSmall(0, 32);
    for i := 0 to segments
      invariant chunkXor == ToInt32(XorFold(Words(data[..], 8, i)))
    {
      var word := Word(data[..], 8, i);
      XorFoldWordsNext(data[..], 8, i);
      XorIntoInt32(chunkXor, XorFold(Words(data[..], 8, i)), word);
      chunkXor := ToInt32(Xor(Unsigned(chunkXor, 64), word));
    }
    r := Unsigned(chunkXor, 64);
  }

  /** xor_chunk: dispatch on the width; any other width yields 0. */
  method XorChunk(data: array<U8>, bufferSize: nat, size: int) returns (r: U64)
    requires bufferSize <= data.Length
    ensures r == ChunkXor(data[..], bufferSize, size)
  {
    if size == 8 {
      r := XorChunk8(data, bufferSize);
    } else if size == 16 {
      r := XorChunk16(data, bufferSize / 2);
    } else if size == 32 {
      r := XorChunk32(data, bufferSize / 4);
    } else if size == 64 {
      r := XorChunk64(data, bufferSize / 8);
    } else {
      r := 0;
    }
  }

  /** An all-zero buffer yields 0 at every width. */
  lemma ChunkXorOfZeros(m: nat, bufferSize: nat, size: int)
    requires bufferSize <= m
    ensures ChunkXor(Zeros(m), bufferSize, size) == 0
  {
    XorFoldOfZeroWords(m, 1, bufferSize);
    XorFoldOfZeroWords(m, 2, bufferSize / 2);
    XorFoldOfZeroWords(m, 4, bufferSize / 4);
    XorFoldOfZeroWords(m, 8, bufferSize / 8);
    UnsignedOfSmall(0, 32);
    UnsignedOfSmall(0, 64);
  }

  /** At width 8, a buffer holding the bytes t followed by zeros yields the XOR
      of t. */
  lemma ChunkXorPadded8(t: seq<U8>, bufferSize: nat)
    requires |t| <= bufferSize
    ensures ChunkXor(t + Zeros(bufferSize - |t|), bufferSize, 8) == XorFold(t)
  {
    var data := t + Zeros(bufferSize - |t|);
    WordsOfBytes(data, bufferSize);
    assert data[..bufferSize] == data;
    XorFoldZeroPadded(t, bufferSize - |t|);
  }

  /** The two bytes 0x0F, 0xF0 at the start of an otherwise zero buffer yield 0xFF at width 8. */
  lemma ChunkXorExample(bufferSize: nat)
    requires 2 <= bufferSize
    ensures ChunkXor([0x0F, 0xF0] + Zeros(bufferSize - 2), bufferSize, 8) == 0xFF
  {
    var t: seq<U8> := [0x0F, 0xF0];
    ChunkXorPadded8(t, bufferSize);
    assert XorFold(t) == 0xFF by {
      var empty: seq<nat> := [];
      FoldSnoc(Xor, 0, empty, 0x0F);
      FoldSnoc(Xor, 0, empty + [0x0F], 0xF0);
      assert t == empty + [0x0F] + [0xF0];
      XorZero(0x0F);
      assert Xor(1, 30) == 31;
      assert Xor(3, 60) == 63;
      assert Xor(7, 120) == 127;
      assert Xor(0x0F, 0xF0) == 0xFF;
    }
  }

  /** At width 64 the upper 32 bits of every word are discarded: buffers whose
      words agree in their low 32 bits yield the same value. */
  lemma ChunkXor64LowHalves(s: seq<U8>, t: seq<U8>, bufferSize: nat)
    requires bufferSize <= |s| && bufferSize <= |t|
    requires forall i :: 0 <= i < bufferSize / 8 ==> Unsigned(Word(s, 8, i), 32) == Unsigned(Word(t, 8, i), 32)
    ensures ChunkXor(s, bufferSize, 64) == ChunkXor(t, bufferSize, 64)
  {
    var n := bufferSize / 8;
    XorFoldLow32(Words(s, 8, n), Words(t, 8, n));
    ToInt32OfLow(XorFold(Words(s, 8, n)), XorFold(Words(t, 8, n)));
  }

  /** At width 64 the result is the low 32 bits of the XOR of the words,
      sign-extended from bit 31. */
  lemma ChunkXor64SignExtended(data: seq<U8>, bufferSize: nat)
    requires bufferSize <= |data|
    ensures var low := Unsigned(XorFold(Words(data, 8, bufferSize / 8)), 32);
      ChunkXor(data, bufferSize, 64) == if low < 0x8000_0000 then low else low + 0xFFFF_FFFF_0000_0000
  {
    SignExtension(XorFold(Words(data, 8, bufferSize / 8)));
  }
}
