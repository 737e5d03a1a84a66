/**
 * Reading a byte buffer as an array of fixed-width words, and the XOR fold
 * over such an array: the specification the loops of xor.c are proved against.
 *
 * xor.c reinterprets its buffer in place with a pointer cast, so its words are
 * in the machine's native byte order. Here that is an explicit decode step
 * with a declared order: little-endian.
 */
module WordFold {
  import opened CInt
  import opened Folds

  /** The size in bytes of a word: width / 8 for the widths xor.c accepts. */
  type WordBytes = k: nat | k == 1 || k == 2 || k == 4 || k == 8 witness 1

  /** n zero bytes: what `memset(buffer, 0, n)` leaves behind. */
  function Zeros(n: nat): (z: seq<U8>)
    ensures |z| == n
    ensures forall i :: 0 <= i < n ==> z[i] == 0
  {
    seq(n, _ => 0)
  }

  /** x has no bit above its low `bytes` bytes. */
  predicate Fits(x: nat, bytes: WordBytes)
  {
    match bytes
    case 1 => x < 0x100
    case 2 => x < 0x1_0000
    case 4 => x < 0x1_0000_0000
    case 8 => x < 0x1_0000_0000_0000_0000
  }

  /** The little-endian value of the bytes b (b[0] is the least significant byte). */
  function DecodeLE(b: seq<U8>): (r: nat)
    ensures r < Pow2(8 * |b|)
  {
    if |b| == 0 then 0 else
      Pow2Plus8(8 * (|b| - 1));
      b[0] + 0x100 * DecodeLE(b[1..])
  }

  lemma WordOfZeros(m: nat, k: WordBytes, i: nat)
    requires k * i + k <= m
    ensures Word(Zeros(m), k, i) == 0
  {
    var lo := k * i;
    assert Zeros(m)[lo .. lo + k] == Zeros(k);
    DecodeZeros(k);
  }

  lemma {:induction false} DecodeZeros(n: nat)
    ensures DecodeLE(Zeros(n)) == 0
  {
    if n > 0 {
      assert Zeros(n)[1..] == Zeros(n - 1);
      DecodeZeros(n - 1);
    }
  }

  /** Word i of s when s is read as an array of k-byte words. */
  function Word(s: seq<U8>, k: WordBytes, i: nat): (w: nat)
    requires k * i + k <= |s|
    ensures Fits(w, k)
  {
    var lo := k * i;
    DecodeFits(s[lo .. lo + k], k);
    DecodeLE(s[lo .. lo + k])
  }

  lemma DecodeFits(b: seq<U8>, k: WordBytes)
    requires |b| == k
    ensures Fits(DecodeLE(b), k)
  {
    Pow2Widths();
  }

  /** Read as 1-byte words, a buffer is its bytes. */
  lemma WordOfByte(s: seq<U8>, i: nat)
    requires i < |s|
    ensures Word(s, 1, i) == s[i]
  {
    assert s[i .. i + 1][1..] == [];
  }

  /** The first n words of s read as an array of k-byte words. */
  function Words(s: seq<U8>, k: WordBytes, n: nat): (ws: seq<nat>)
    requires k * n <= |s|
    ensures |ws| == n
    ensures forall i :: 0 <= i < n ==> ws[i] == Word(s, k, i)
  {
    if n == 0 then [] else Words(s, k, n - 1) + [Word(s, k, n - 1)]
  }

  /** The XOR of all words, starting from 0: 0 for no words, the word itself
      for one. */
  function XorFold(ws: seq<nat>): (r: nat)
    ensures |ws| == 0 ==> r == 0
    ensures |ws| == 1 ==> r == ws[0]
  {
    if |ws| == 1 then
      assert ws[..0] == [];
      assert Fold(Xor, 0, ws) == Xor(Fold(Xor, 0, []), ws[0]);
      XorZero(ws[0]);
      Fold(Xor, 0, ws)
    else
      Fold(Xor, 0, ws)
  }

  /** One more word: the step of the loops. */
  lemma XorFoldWordsNext(s: seq<U8>, k: WordBytes, n: nat)
    requires k * n + k <= |s|
    ensures XorFold(Words(s, k, n + 1)) == Xor(XorFold(Words(s, k, n)), Word(s, k, n))
  {
    FoldSnoc(Xor, 0, Words(s, k, n), Word(s, k, n));
  }

  lemma XorIsRightCommutative()
    ensures RightCommutative(Xor)
  {
    forall p: nat, x: nat, q: nat
      ensures Then(Xor, p, x, q) == Xor(Xor(p, q), x)
    {
      XorSwap(p, x, q);
    }
  }

  /** The XOR of the words does not depend on their order. */
  lemma XorFoldPermutation(a: seq<nat>, b: seq<nat>)
    requires multiset(a) == multiset(b)
    ensures XorFold(a) == XorFold(b)
  {
    XorIsRightCommutative();
    FoldPermutation(Xor, 0, a, b);
  }

  lemma XorFits(a: nat, b: nat, bytes: WordBytes)
    requires Fits(a, bytes) && Fits(b, bytes)
    ensures Fits(Xor(a, b), bytes)
  {
    Pow2Widths();
    XorBound(a, b, 8 * bytes);
  }

  /** Words of at most `bytes` bytes XOR to a value of at most `bytes` bytes. */
  lemma XorFoldFits(ws: seq<nat>, bytes: WordBytes)
    requires forall i :: 0 <= i < |ws| ==> Fits(ws[i], bytes)
    ensures Fits(XorFold(ws), bytes)
  {
    forall a: nat, b: nat | Fits(a, bytes) && Fits(b, bytes)
      ensures Fits(Xor(a, b), bytes)
    {
      XorFits(a, b, bytes);
    }
    FoldClosed(Xor, 0, ws, w => Fits(w, bytes));
  }

  /** The low 32 bits of the XOR depend only on the low 32 bits of the words. */
  lemma XorFoldLow32(ws: seq<nat>, vs: seq<nat>)
    requires |ws| == |vs|
    requires forall i :: 0 <= i < |ws| ==> Unsigned(ws[i], 32) == Unsigned(vs[i], 32)
    ensures Unsigned(XorFold(ws), 32) == Unsigned(XorFold(vs), 32)
  {
    forall a: nat, b: nat
      ensures Unsigned(Xor(a, b), 32) == Xor(Unsigned(a, 32), Unsigned(b, 32))
    {
      UnsignedXor(a, b, 32);
    }
    FoldHomomorphic(Xor, 0, Xor, x => Unsigned(x, 32), ws, vs);
  }

  lemma XorFoldOfZeros(ws: seq<nat>)
    requires forall i :: 0 <= i < |ws| ==> ws[i] == 0
    ensures XorFold(ws) == 0
  {
    forall a: nat, b: nat | a == 0 && b == 0
      ensures Xor(a, b) == 0
    {
    }
    FoldClosed(Xor, 0, ws, w => w == 0);
  }

  /** Every word of an all-zero buffer is zero, whatever the width, so they XOR to 0. */
  lemma XorFoldOfZeroWords(m: nat, k: WordBytes, n: nat)
    requires k * n <= m
    ensures XorFold(Words(Zeros(m), k, n)) == 0
  {
    var ws := Words(Zeros(m), k, n);
    forall i | 0 <= i < n
      ensures ws[i] == 0
    {
      WordOfZeros(m, k, i);
    }
    XorFoldOfZeros(ws);
  }

  /** Read as 1-byte words, the first n bytes of a buffer are those bytes. */
  lemma WordsOfBytes(s: seq<U8>, n: nat)
    requires n <= |s|
    ensures Words(s, 1, n) == s[..n]
  {
    forall i | 0 <= i < n
      ensures Words(s, 1, n)[i] == s[i]
    {
      WordOfByte(s, i);
    }
  }

  /** Zero bytes appended to a sequence of bytes do not change its XOR. */
  lemma {:induction false} XorFoldZeroPadded(t: seq<U8>, m: nat)
    ensures XorFold(t + Zeros(m)) == XorFold(t)
  {
    if m > 0 {
      assert t + Zeros(m) == (t + Zeros(m - 1)) + [0];
      FoldSnoc(Xor, 0, t + Zeros(m - 1), 0);
      XorZero(XorFold(t + Zeros(m - 1)));
      XorFoldZeroPadded(t, m - 1);
    } else {
      assert t + Zeros(m) == t;
    }
  }
}
