/**
 * compute_xor, parse_args and main: the XOR of a file, read in blocks of
 * BUFFER_SIZE bytes, at a width chosen on the command line.
 *
 * compute_xor reads the whole file block by block but folds only once, after
 * the loop, over whatever the buffer then holds. That is the last block the
 * file ends with: its bytes, zero-padded to the buffer size (a file whose
 * length is a multiple of the buffer size, including an empty file, leaves an
 * all-zero buffer behind). The model reproduces this as written.
 */
module XorTool {
  import opened Wrappers
  import opened CInt
  import opened WordFold
  import opened Chunk
  import opened Stream

  const BUFFER_SIZE: nat := 1048576

  /** The bytes of the buffer after reading a file with contents c in blocks
      of b bytes: the partial block c ends with, then zeros. */
  function LastBlock(c: seq<U8>, b: nat): (block: seq<U8>)
    requires b > 0
    ensures |block| == b
  {
    c[|c| - |c| % b ..] + Zeros(b - |c| % b)
  }

  /** The number of `fread` calls made on a file of n bytes: one per whole
      block, and the one that finds the end of the file. */
  function ReadCalls(n: nat, b: nat): nat
    requires b > 0
  {
    n / b + 1
  }

  /** One of the `fread` calls made on f fails. */
  predicate ReadFails(f: File, b: nat)
    requires b > 0
  {
    f.failingRead.Some? && f.failingRead.value < ReadCalls(|f.contents|, b)
  }

  /** The value compute_xor returns for the file `fopen` gives (None: the
      open failed), at the given width, with buffers of b bytes. */
  function FileXor(file: Option<File>, size: int, b: nat): (r: U64)
    requires b > 0
    ensures r < 0x8000_0000 || 0xFFFF_FFFF_8000_0000 <= r
  {
    match file
    case None => 0
    case Some(f) =>
      if ReadFails(f, b) then 0
      else
        var chunk := ChunkXor(LastBlock(f.contents, b), b, size);
        Pow2Widths();
        SignExtension(chunk);
        Unsigned(ToInt32(chunk), 64)
  }

  /** `memset(buf, 0, buf.Length)`. */
  method ZeroFill(buf: array<U8>)
    modifies buf
    ensures buf[..] == Zeros(buf.Length)
  {
    forall i | 0 <= i < buf.Length {
      buf[i] := 0;
    }
  }

  lemma MulSmall(d: int, b: int)
    requires b > 0 && -b < d * b < b
    ensures d == 0
  {
  }

  lemma MulMonotone(x: nat, y: nat, b: nat)
    requires x * b < y * b
    ensures x < y
  {
  }

  /** A length between k and k + 1 blocks holds k whole blocks. */
  lemma BlockDivision(n: nat, k: nat, b: nat)
    requires b > 0 && k * b <= n < k * b + b
    ensures n / b == k && n % b == n - k * b
  {
    var q, r := n / b, n % b;
    assert n == q * b + r;
    assert (q - k) * b == q * b - k * b;
    MulSmall(q - k, b);
  }

  /** The loop of compute_xor, after some iterations, on file f with buffers
      of b bytes: no error yet, no failing call made yet; before the end of
      the file one whole block has been read per call, and once it is reached
      every call has been made and the buffer holds the last block. */
  ghost predicate Reading(f: File, b: nat, s: State, buffer: seq<U8>)
    requires b > 0
  {
    s.pos <= |f.contents| && !s.error
    && (f.failingRead.Some? ==> s.calls <= f.failingRead.value)
    && (!s.eof ==> s.pos == s.calls * b)
    && (s.eof ==> s.calls == ReadCalls(|f.contents|, b) && buffer == LastBlock(f.contents, b))
  }

  /** What is left to read: the loop's termination measure. */
  ghost function Unread(f: File, s: State): nat
  {
    if s.eof || |f.contents| < s.pos then 0 else |f.contents| - s.pos + 1
  }

  /** One iteration: `memset` and `fread` of a block keep the loop invariant
      unless the call fails, and then one of the calls on f fails. */
  lemma ReadingStep(f: File, b: nat, s: State, s': State, buffer: seq<U8>, buffer': seq<U8>, n: nat)
    requires b > 0 && Reading(f, b, s, buffer) && !s.eof
    requires Fread(f, s, s', Zeros(b), buffer', n)
    ensures s'.error ==> ReadFails(f, b)
    ensures !s'.error ==> Reading(f, b, s', buffer') && Unread(f, s') < Unread(f, s)
  {
    var c := f.contents;
    if s'.error {
      CallsBound(|c|, s.calls, b);
    } else if s.pos + b > |c| {
      BlockDivision(|c|, s.calls, b);
      assert buffer' == LastBlock(c, b);
    } else {
      assert s'.pos == s'.calls * b;
    }
  }

  /** A call made at a position within the file is one of the ReadCalls calls. */
  lemma CallsBound(n: nat, k: nat, b: nat)
    requires b > 0 && k * b <= n
    ensures k < ReadCalls(n, b)
  {
    var q := n / b;
    assert n < q * b + b;
    assert (q + 1) * b == q * b + b;
    MulMonotone(k, q + 1, b);
  }

  /** compute_xor. The file is given as what `fopen` returns; allocation
      failure of the buffer is not modelled. */
  method ComputeXor(file: Option<File>, size: int) returns (r: U64)
    ensures r == FileXor(file, size, BUFFER_SIZE)
  {
    var buffer := new U8[BUFFER_SIZE];
    var fileXor: Int32 := 0;
    if file.None? {
      return 0;
    }
    var f := file.value;
    var stream := new FileStream.Open(f);
    while !stream.eof
      invariant stream.Valid() && stream.Source() == f
      invariant Reading(f, BUFFER_SIZE, stream.Current(), buffer[..])
      decreases Unread(f, stream.Current())
    {
      ZeroFill(buffer);
      ghost var s := stream.Current();
      var bytes := stream.Read(buffer);
      ReadingStep(f, BUFFER_SIZE, s, stream.Current(), buffer[..], buffer[..], bytes);
      if bytes == 0 {
        if stream.error {
          return 0;
        }
        continue;
      }
    }
    var chunk := XorChunk(buffer, BUFFER_SIZE, size);
    fileXor := ToInt32(Xor(Unsigned(fileXor, 64), chunk));
    FoldedResult(f, size, stream.Current(), buffer[..], chunk);
    r := Unsigned(fileXor, 64);
  }

  /** After the loop: `file_xor ^= xor_chunk(...)` from 0, and the conversion
      of the `int` file_xor to the `uint64_t` result. */
  lemma FoldedResult(f: File, size: int, s: State, buffer: seq<U8>, chunk: U64)
    requires Reading(f, BUFFER_SIZE, s, buffer) && s.eof
    requires chunk == ChunkXor(buffer, BUFFER_SIZE, size)
    ensures Unsigned(ToInt32(Xor(Unsigned(0, 64), chunk)), 64) == FileXor(Some(f), size, BUFFER_SIZE)
    ensures Unsigned(ToInt32(Xor(Unsigned(0, 64), chunk)), 64) < 0x1_0000_0000_0000_0000
  {
    UnsignedOfSmall(0, 64);
    XorZero(chunk);
  }

  /** An open failure and a read error both yield 0, exactly what an empty
      file yields: the caller cannot tell them apart. */
  lemma FailuresLookLikeEmptyFile(f: File, size: int, b: nat)
    requires b > 0 && ReadFails(f, b)
    ensures FileXor(Some(f), size, b) == FileXor(None, size, b) == FileXor(Some(File([], None)), size, b)
  {
    assert LastBlock([], b) == Zeros(b);
    ChunkXorOfZeros(b, b, size);
    UnsignedOfSmall(0, 32);
    UnsignedOfSmall(0, 64);
  }

  /** A file whose length is a whole number of blocks (an empty file
      included) leaves an all-zero buffer behind and yields 0. */
  lemma WholeBlocksYieldZero(f: File, size: int, b: nat)
    requires b > 0 && |f.contents| % b == 0
    ensures FileXor(Some(f), size, b) == 0
  {
    assert LastBlock(f.contents, b) == Zeros(b);
    ChunkXorOfZeros(b, b, size);
    UnsignedOfSmall(0, 32);
    UnsignedOfSmall(0, 64);
  }

  lemma ModAddBlocks(p: nat, n: nat, b: nat)
    requires b > 0 && p % b == 0
    ensures (p + n) % b == n % b
  {
    var q, r := n / b, n % b;
    var m := p / b;
    assert p == m * b;
    assert p + n == (m + q) * b + r;
    BlockDivision(p + n, m + q, b);
  }

  /** Only the block a file ends with counts: whole blocks in front of it do
      not change the result. */
  lemma OnlyLastBlockCounts(p: seq<U8>, c: seq<U8>, size: int, b: nat)
    requires b > 0 && |p| % b == 0
    ensures FileXor(Some(File(p + c, None)), size, b) == FileXor(Some(File(c, None)), size, b)
  {
    ModAddBlocks(|p|, |c|, b);
    var pc, r := p + c, |c| % b;
    assert |pc| - |pc| % b == |p| + (|c| - r);
    assert pc[|p| + (|c| - r) ..] == c[|c| - r ..];
    assert LastBlock(pc, b) == LastBlock(c, b);
  }

  /** At width 8 a file read without error yields the XOR of the bytes of the
      block it ends with. */
  lemma FileXorBytes(f: File, b: nat)
    requires b > 0 && !ReadFails(f, b)
    ensures var c := f.contents; FileXor(Some(f), 8, b) == XorFold(c[|c| - |c| % b ..])
  {
    var c := f.contents;
    var tail := c[|c| - |c| % b ..];
    assert LastBlock(c, b) == tail + Zeros(b - |tail|);
    ChunkXorPadded8(tail, b);
    var v := ChunkXor(LastBlock(c, b), b, 8);
    assert v < 0x100;
    Pow2Widths();
    UnsignedOfSmall(v, 32);
    assert ToInt32(v) == v;
    UnsignedOfSmall(v, 64);
  }

  /** A file holding the bytes 0x0F, 0xF0 yields 0xFF at width 8. */
  lemma FileXorExample(b: nat)
    requires b > 2
    ensures FileXor(Some(File([0x0F, 0xF0], None)), 8, b) == 0xFF
  {
    var c: seq<U8> := [0x0F, 0xF0];
    BlockDivision(2, 0, b);
    assert LastBlock(c, b) == [0x0F, 0xF0] + Zeros(b - 2);
    ChunkXorExample(b);
    Pow2Widths();
    UnsignedOfSmall(0xFF, 32);
    UnsignedOfSmall(0xFF, 64);
  }

  /** The `int` file_xor changes the value xor_chunk returned only at width 32,
      where it sign-extends it from bit 31; at width 64 xor_chunk_64 has
      already done so. */
  lemma FileXorSignExtension(f: File, size: int, b: nat)
    requires b > 0 && !ReadFails(f, b)
    ensures var v := ChunkXor(LastBlock(f.contents, b), b, size);
      FileXor(Some(f), size, b) == if size == 32 && 0x8000_0000 <= v then v + 0xFFFF_FFFF_0000_0000 else v
  {
    var v := ChunkXor(LastBlock(f.contents, b), b, size);
    Pow2Widths();
    if size == 64 {
      var x := XorFold(Words(LastBlock(f.contents, b), 8, b / 8));
      UnsignedOfUnsigned(ToInt32(x), 64, 32);
      ToInt32Low(x);
      ToInt32OfLow(v, x);
    } else {
      SignExtension(v);
      UnsignedOfSmall(v, 32);
    }
  }

  /** The command line of xor: the file name and the width. */
  datatype Args = Args(fileName: string, size: Int32)

  datatype ArgError = TooFewArguments | InvalidSize(size: Int32)

  /** parse_args, with argv[0] the program name and atoi supplied by the caller. */
  function ParseArgs(argv: seq<string>, atoi: string -> Int32): (r: Result<Args, ArgError>)
    ensures r.Success? <==> |argv| >= 3 && atoi(argv[2]) in {8, 16, 32, 64}
    ensures r.Success? ==> r.value == Args(argv[1], atoi(argv[2]))
    ensures |argv| < 3 ==> r == Failure(TooFewArguments)
    ensures |argv| >= 3 && r.Failure? ==> r == Failure(InvalidSize(atoi(argv[2])))
  {
    if |argv| < 3 then Failure(TooFewArguments)
    else
      var size := atoi(argv[2]);
      if size == 8 || size == 16 || size == 32 || size == 64 then Success(Args(argv[1], size))
      else Failure(InvalidSize(size))
  }

  /** main: the exit status and the value printed, if any. `fopen` is supplied
      by the caller. The test for a negative result is never true, since the
      result is unsigned. */
  method Run(argv: seq<string>, atoi: string -> Int32, fopen: string -> Option<File>)
    returns (status: int, printed: Option<U64>)
    ensures ParseArgs(argv, atoi).Failure? ==> status == -1 && printed == None
    ensures ParseArgs(argv, atoi).Success? ==>
      status == 0 && printed == Some(FileXor(fopen(argv[1]), atoi(argv[2]), BUFFER_SIZE))
  {
    var args := ParseArgs(argv, atoi);
    if args.Failure? {
      return -1, None;
    }
    var fileXor := ComputeXor(fopen(args.value.fileName), args.value.size);
    if fileXor < 0 {
      return -1, None;
    }
    return 0, Some(fileXor);
  }
}
