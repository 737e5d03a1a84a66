# xor — a verified model of a file XOR checksum

`xor <file name> <block size>` prints a fixed-width XOR checksum of a file.
The width must be 8, 16, 32 or 64 bits. The tool reads the file into a
1 MiB buffer (`BUFFER_SIZE`) one block at a time with `fread`. It zeroes the
buffer before every read. When the read loop ends, it reads the buffer as an
array of words of the chosen width, XORs them together in an `int`, and
prints the result as a 64-bit hexadecimal value.

This project models that core in Dafny: `parse_args`, the four word loops
`xor_chunk_8/16/32/64`, the `xor_chunk` dispatch, `compute_xor` with its
`fopen`/`fread`/`feof`/`ferror` loop, and `main`'s decision. It proves what
these compute.

- `CInt` (cint.dfy) states C's integer semantics on mathematical integers.
  `int` is 32-bit two's complement. `Unsigned(x, n)` is the conversion to an
  n-bit unsigned type (x mod 2^n, so a negative `int` widened to `uint64_t` is
  sign-extended). `ToInt32` stores a value into an `int` (its low 32 bits read
  as two's complement). `Xor` is bitwise exclusive or.
- `Folds` (folds.dfy) is a left fold over a sequence, with the facts the XOR
  fold needs: order independence, closure and homomorphism.
- `WordFold` (wordfold.dfy) reads the buffer as k-byte words through an
  explicit little-endian decode and defines `XorFold`, the XOR of a word
  sequence. Each loop is proved against `XorFold`.
- `Chunk` (chunk.dfy) holds the word loops as methods over the byte buffer,
  keeping the `int` accumulator. It also holds the pure function `ChunkXor`
  for `xor_chunk`.
- `Stream` (stream.dfy) models a stdio stream opened with "rb" as a class.
  `fread` of one element follows ISO C 7.21.8.1. The end-of-file and error
  indicators follow 7.21.10.2 and 7.21.10.3.
- `XorTool` (xortool.dfy) holds `compute_xor` as a loop method proved equal
  to the pure `FileXor`, plus `parse_args` and `main`, and the file-level
  properties.

Behaviour reproduced as written:
- Only the block the file ends with is folded. The fold runs once, after the
  loop, over what the buffer then holds: the file's final partial block,
  zero-padded. A file whose length is a multiple of the buffer size yields 0.
- Every value passes through an `int`. A 64-bit word XOR keeps only its low
  32 bits. A 32-bit or 64-bit result with bit 31 set is sign-extended to 64
  bits.

`int chunk_xor` and `int file_xor` truncate every value to 32 bits and
sign-extend it when it is widened to `uint64_t`. A version with unsigned
accumulators would return different values at widths 32 and 64; the model
keeps the `int`s.

## Model

| member | source | states |
|---|---|---|
| `XorTool.ParseArgs` | xor.c:14-35 | Succeeds exactly when there are at least three arguments and `atoi(argv[2])` is 8, 16, 32 or 64 (0 and every other value are rejected). On success it returns `argv[1]` and that width. With fewer than three arguments the error is `TooFewArguments`; otherwise a failure is `InvalidSize` carrying the rejected width. |
| `XorTool.BUFFER_SIZE` | xor.c:7 | Blocks are 1048576 bytes. |
| `CInt.Unsigned` | xor.c:44 | A conversion to an n-bit unsigned type yields a value below 2^n. |
| `CInt.ToInt32` | xor.c:61 | Storing into an `int` leaves every value an `int` can hold unchanged, and yields a negative value exactly when bit 31 is set. |
| `WordFold.DecodeLE` | xor.c:80-86 | k bytes read as one little-endian word give a value below 2^(8k). |
| `WordFold.XorFold` | xor.c:37-75 | The XOR of no words is 0 and the XOR of one word is that word. |
| `Stream.Fread` | xor.c:114 | `fread` of one element keeps the buffer's length, returns at most 1, never moves the position back and never clears an indicator. When it returns 1, it has copied the next whole block of the file and advanced past it. |
| `WordFold.Word` | xor.c:80-86 | A word read through the pointer cast fits its width: a k-byte word is below 2^(8k). |
| `WordFold.WordsOfBytes` | xor.c:80 | Read through a `uint8_t *`, the buffer's words are its bytes. |
| `WordFold.XorFoldWordsNext` | xor.c:40-42 | One more iteration XORs the accumulated value with the next word. |
| `WordFold.XorFoldPermutation` | xor.c:37-75 | The XOR of the words does not depend on their order. |
| `WordFold.XorFoldFits` | xor.c:41 | XORing words of at most k bytes gives a value of at most k bytes. |
| `WordFold.XorFoldLow32` | xor.c:70-71 | The low 32 bits of a XOR depend only on the low 32 bits of the words. |
| `WordFold.XorFoldZeroPadded` | xor.c:112 | Zero bytes appended to a byte sequence do not change its XOR. |
| `WordFold.XorFoldOfZeroWords` | xor.c:112 | Every word of an all-zero buffer is zero at every width, so the words XOR to 0. |
| `CInt.XorSwap` | xor.c:41 | XOR with x and then with q equals XOR with q and then with x. This is the law behind order independence. |
| `CInt.XorBound` | xor.c:41 | XOR keeps values within n bits. |
| `CInt.UnsignedXor` | xor.c:71 | Truncating a XOR to n bits equals XORing the truncated operands. |
| `CInt.UnsignedOfNegative` | xor.c:71 | A negative value converted to an n-bit unsigned type wraps around once, by 2^n. |
| `CInt.SignExtension` | xor.c:74 | An `int` converted to `uint64_t` has upper 32 bits all ones when bit 31 is set and all zeros otherwise. |
| `CInt.ToInt32Low` | xor.c:61 | Storing a value into an `int` keeps its low 32 bits. |
| `CInt.XorIntoInt32` | xor.c:71 | `chunk_xor ^= data[i]` with an `int` accumulator and a `uint64_t` word gives what XORing the accumulator's source value with the word would give, once stored in an `int`. |
| `Chunk.XorChunk8` | xor.c:37-45 | Returns the XOR of the first `segments` bytes of the buffer. |
| `Chunk.XorChunk16` | xor.c:47-55 | Returns the XOR of the first `segments` 16-bit words. |
| `Chunk.XorChunk32` | xor.c:57-65 | Returns the XOR of the first `segments` 32-bit words, although the accumulator is a signed `int`. |
| `Chunk.XorChunk64` | xor.c:67-75 | Returns the low 32 bits of the XOR of the first `segments` 64-bit words, read as an `int` and widened to 64 bits. |
| `Chunk.ChunkXor` | xor.c:77-91 | Any width other than 8, 16, 32 or 64 yields 0. Results at widths 8, 16 and 32 fit in 8, 16 and 32 bits. |
| `Chunk.XorChunk` | xor.c:77-91 | The dispatch returns `ChunkXor`: width 8 reads `buffer_size` bytes, 16 reads `buffer_size >> 1` words, 32 reads `>> 2` words and 64 reads `>> 3` words. |
| `Chunk.ChunkXorOfZeros` | xor.c:77-91 | An all-zero buffer yields 0 at every width. |
| `Chunk.ChunkXorPadded8` | xor.c:37-45 | At width 8, a buffer holding bytes t followed by zeros yields the XOR of t. |
| `Chunk.ChunkXorExample` | xor.c:37-45 | The bytes 0x0F, 0xF0 followed by zeros yield 0xFF at width 8. |
| `Chunk.ChunkXor64LowHalves` | xor.c:67-75 | At width 64, buffers whose words agree in their low 32 bits yield the same value: the upper halves of the words never matter. |
| `Chunk.ChunkXor64SignExtended` | xor.c:67-75 | At width 64 the result is the low 32 bits of the XOR, plus 0xFFFF_FFFF_0000_0000 when bit 31 is set. |
| `Stream.FileStream.Open` | xor.c:103 | A stream opened with `fopen` starts at position 0 with both indicators clear. |
| `Stream.FileStream.Read` | xor.c:114 | `fread(buf, size, 1, f)` behaves as `Fread` says. A zero size changes nothing. The failing call sets the error indicator. A whole element is copied and 1 is returned. A short read copies what is left, sets end-of-file and returns 0. |
| `XorTool.ZeroFill` | xor.c:112 | `memset` leaves the whole buffer zero. |
| `XorTool.LastBlock` | xor.c:110-124 | The buffer left after the loop always has the full block size, whatever the file's length. |
| `XorTool.ReadingStep` | xor.c:110-124 | One iteration of zeroing and reading keeps the loop invariant: one whole block per call, and at end of file every call is made and the buffer holds the final block. It also strictly reduces what is left to read, unless the call fails, and then the file has a failing call. |
| `XorTool.ComputeXor` | xor.c:93-131 | `compute_xor` returns `FileXor`: 0 when `fopen` fails or a read fails, otherwise the value `xor_chunk` gives for the final block, stored into the `int` file_xor and converted to `uint64_t`. |
| `XorTool.FileXor` | xor.c:93-131 | The result is always sign-extended from bit 31: it is below 2^31 or at least 0xFFFF_FFFF_8000_0000. |
| `XorTool.FoldedResult` | xor.c:126-130 | After a loop without error, `file_xor ^= xor_chunk(...)` from 0 and the conversion to `uint64_t` give `FileXor`. |
| `XorTool.FailuresLookLikeEmptyFile` | xor.c:103-121 | An open failure and a read error both yield exactly what an empty file yields, so a caller cannot tell them apart. |
| `XorTool.WholeBlocksYieldZero` | xor.c:110-126 | A file whose length is a multiple of the block size yields 0 at every width. This includes the empty file. |
| `XorTool.OnlyLastBlockCounts` | xor.c:110-126 | Whole blocks in front of a file's contents do not change the result. |
| `XorTool.FileXorBytes` | xor.c:110-126 | At width 8, a file read without error yields the XOR of the bytes of its final block. |
| `XorTool.FileXorExample` | xor.c:93-131 | A file holding 0x0F, 0xF0 yields 0xFF at width 8. |
| `XorTool.FileXorSignExtension` | xor.c:96-130 | Through the `int` file_xor, widths 8, 16 and 64 return `xor_chunk`'s value unchanged. Width 32 returns it plus 0xFFFF_FFFF_0000_0000 exactly when its bit 31 is set. |
| `XorTool.Run` | xor.c:133-152 | `main` exits with -1 and prints nothing when `parse_args` fails. Otherwise it prints `compute_xor`'s value and exits with 0: the `file_xor < 0` test on a `uint64_t` is never true. |

## Left out

- Console output (`print_usage`, the `fprintf` messages, the hexadecimal formatting) is left out. `Run` returns the printed value and the exit status instead.
- The operating system is a parameter. `fopen` is a function from file names to an optional `File`, and the file is a byte sequence with, optionally, the index of the `fread` call that fails. `atoi` is a function supplied by the caller.
- A failing `fread` call is modelled as changing nothing but the error indicator. ISO C leaves the buffer and the file position indeterminate after a read error, and `compute_xor` discards both.
- A short final `fread` copies the bytes that remain. ISO C calls the value of a partially read element indeterminate; the model assumes that the bytes read are stored, which is what common C libraries do.
- Failure of `malloc` is not modelled. The code goes on with a NULL buffer, which is undefined behaviour. `free` is not modelled, and neither is the missing `fclose`.
- Byte order is fixed as little-endian. The code uses the machine's native order through pointer casts.
- `ComputeXor` is proved at `BUFFER_SIZE` = 1048576. The file-level lemmas hold for every block size b > 0.
- The `int i` loop counters are not modelled as 32-bit values. With at most `BUFFER_SIZE` segments they cannot overflow.
