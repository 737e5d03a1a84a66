/**
 * The C integer arithmetic of xor.c, on mathematical integers.
 *
 * Assumption: `int` is 32-bit two's complement. The conversions the code
 * performs implicitly are written out: converting any integer to an n-bit
 * unsigned type reduces it modulo 2^n (so an `int` converted to `uint64_t` is
 * sign-extended), and storing an unsigned value into an `int` keeps its low 32
 * bits read as two's complement (the usual implementation-defined behaviour).
 * XOR on non-negative values is defined bit by bit.
 */
module CInt {

  type Int32 = x: int | -0x8000_0000 <= x < 0x8000_0000
  type U8 = x: nat | x < 0x100
  type U16 = x: nat | x < 0x1_0000
  type U32 = x: nat | x < 0x1_0000_0000
  type U64 = x: nat | x < 0x1_0000_0000_0000_0000

  function Pow2(n: nat): (r: nat)
    ensures r > 0
  {
    if n == 0 then 1 else 2 * Pow2(n - 1)
  }

  lemma Pow2Widths()
    ensures Pow2(8) == 0x100 && Pow2(16) == 0x1_0000
    ensures Pow2(32) == 0x1_0000_0000 && Pow2(64) == 0x1_0000_0000_0000_0000
  {
    assert Pow2(4) == 16;
    assert Pow2(8) == 0x100;
    assert Pow2(16) == 0x1_0000 by {
      assert Pow2(12) == 0x1000;
    }
    assert Pow2(32) == 0x1_0000_0000 by {
      assert Pow2(24) == 0x100_0000;
    }
    assert Pow2(40) == 0x100_0000_0000;
    assert Pow2(48) == 0x1_0000_0000_0000;
    assert Pow2(56) == 0x100_0000_0000_0000;
    assert Pow2(64) == 0x1_0000_0000_0000_0000;
  }

  lemma Pow2Plus8(n: nat)
    ensures Pow2(n + 8) == 0x100 * Pow2(n)
  {
    calc {
      Pow2(n + 8);
      2 * Pow2(n + 7);
      4 * Pow2(n + 6);
      8 * Pow2(n + 5);
      16 * Pow2(n + 4);
      32 * Pow2(n + 3);
      64 * Pow2(n + 2);
      128 * Pow2(n + 1);
      256 * Pow2(n);
    }
  }

  /** x converted to an n-bit unsigned type: its low n bits, i.e. x modulo 2^n
      (for a negative x, its two's-complement bit pattern). */
  function Unsigned(x: int, n: nat): (r: nat)
    ensures r < Pow2(n)
    decreases n
  {
    if n == 0 || x == 0 then 0 else 2 * Unsigned(x / 2, n - 1) + x % 2
  }

  /** A value stored into an `int`: its low 32 bits read as two's complement.
      A value an `int` can hold is stored unchanged, and the stored value is
      negative exactly when bit 31 is set. */
  function ToInt32(x: int): (r: Int32)
    ensures -0x8000_0000 <= x < 0x8000_0000 ==> r == x
    ensures r < 0 <==> 0x8000_0000 <= Unsigned(x, 32)
  {
    Pow2Widths();
    UnsignedOfInt32(x);
    var u := Unsigned(x, 32);
    if u < 0x8000_0000 then u else u - 0x1_0000_0000
  }

  /** The 32-bit pattern of a value in the range of `int`. */
  lemma UnsignedOfInt32(x: int)
    ensures 0 <= x < 0x8000_0000 ==> Unsigned(x, 32) == x
    ensures -0x8000_0000 <= x < 0 ==> Unsigned(x, 32) == x + 0x1_0000_0000
  {
    Pow2Widths();
    if 0 <= x < 0x8000_0000 {
      UnsignedOfSmall(x, 32);
    } else if -0x8000_0000 <= x < 0 {
      UnsignedOfNegative(x, 32);
    }
  }

  /** Exclusive or of two bits. */
  function BitXor(a: nat, b: nat): nat
  {
    if a == b then 0 else 1
  }

  /** Bitwise exclusive or of two non-negative values. */
  function Xor(a: nat, b: nat): nat
    decreases a + b
  {
    if a == 0 && b == 0 then 0 else 2 * Xor(a / 2, b / 2) + BitXor(a % 2, b % 2)
  }

  lemma {:induction false} UnsignedOfSmall(x: int, n: nat)
    requires 0 <= x < Pow2(n)
    ensures Unsigned(x, n) == x
    decreases n
  {
    if n > 0 {
      UnsignedOfSmall(x / 2, n - 1);
    }
  }

  /** A negative value converted to an n-bit unsigned type wraps around once. */
  lemma {:induction false} UnsignedOfNegative(x: int, n: nat)
    requires 0 <= x + Pow2(n) && x < 0
    ensures Unsigned(x, n) == x + Pow2(n)
    decreases n
  {
    if n > 0 {
      UnsignedOfNegative(x / 2, n - 1);
    }
  }

  /** Narrowing after widening keeps the low bits. */
  lemma {:induction false} UnsignedOfUnsigned(x: int, m: nat, n: nat)
    requires n <= m
    ensures Unsigned(Unsigned(x, m), n) == Unsigned(x, n)
    decreases n
  {
    if n > 0 {
      UnsignedOfUnsigned(x / 2, m - 1, n - 1);
    }
  }

  lemma UnsignedStep(x: int, n: nat)
    requires n > 0
    ensures Unsigned(x, n) == 2 * Unsigned(x / 2, n - 1) + x % 2
    ensures Unsigned(x, n) / 2 == Unsigned(x / 2, n - 1)
    ensures Unsigned(x, n) % 2 == x % 2
  {
  }

  lemma XorStep(a: nat, b: nat)
    ensures Xor(a, b) == 2 * Xor(a / 2, b / 2) + BitXor(a % 2, b % 2)
    ensures Xor(a, b) / 2 == Xor(a / 2, b / 2)
    ensures Xor(a, b) % 2 == BitXor(a % 2, b % 2)
  {
  }

  /** XOR keeps values within n bits. */
  lemma {:induction false} XorBound(a: nat, b: nat, n: nat)
    requires a < Pow2(n) && b < Pow2(n)
    ensures Xor(a, b) < Pow2(n)
  {
    XorStep(a, b);
    if n > 0 {
      XorBound(a / 2, b / 2, n - 1);
    }
  }

  /** XOR with x and then with q equals XOR with q and then with x. */
  lemma {:induction false} XorSwap(p: nat, x: nat, q: nat)
    ensures Xor(Xor(p, x), q) == Xor(Xor(p, q), x)
    decreases p + x + q
  {
    if p + x + q > 0 {
      var px, pq := Xor(p, x), Xor(p, q);
      XorStep(p, x);
      XorStep(p, q);
      XorStep(px, q);
      XorStep(pq, x);
      XorSwap(p / 2, x / 2, q / 2);
      var high := Xor(px / 2, q / 2);
      assert high == Xor(pq / 2, x / 2);
      var low := BitXor(px % 2, q % 2);
      assert low == BitXor(pq % 2, x % 2);
      assert Xor(px, q) == 2 * high + low;
    } else {
      assert Xor(0, 0) == 0;
    }
  }


  /** The low n bits of a XOR are the XOR of the low n bits. */
  lemma {:induction false} UnsignedXor(a: nat, b: nat, n: nat)
    ensures Unsigned(Xor(a, b), n) == Xor(Unsigned(a, n), Unsigned(b, n))
  {
    if n > 0 {
      var ua, ub, x := Unsigned(a, n), Unsigned(b, n), Xor(a, b);
      var low := BitXor(a % 2, b % 2);
      var ha, hb, m := a / 2, b / 2, n - 1;
      UnsignedXor(ha, hb, m);
      var high := Unsigned(Xor(ha, hb), m);
      calc {
        Unsigned(x, n);
        { UnsignedStep(x, n); }
        2 * Unsigned(x / 2, m) + x % 2;
        { XorStep(a, b); }
        2 * high + low;
        2 * Xor(Unsigned(ha, m), Unsigned(hb, m)) + low;
        { UnsignedStep(a, n); UnsignedStep(b, n); }
        2 * Xor(ua / 2, ub / 2) + BitXor(ua % 2, ub % 2);
        { XorStep(ua, ub); }
        Xor(ua, ub);
      }
    }
  }

  lemma XorZero(a: nat)
    ensures Xor(a, 0) == a && Xor(0, a) == a
  {
  }

  /** ToInt32 keeps the low 32 bits. */
  lemma ToInt32Low(x: int)
    ensures Unsigned(ToInt32(x), 32) == Unsigned(x, 32)
  {
    Pow2Widths();
    var u: int := Unsigned(x, 32);
    if u < 0x8000_0000 {
      UnsignedOfSmall(u, 32);
    } else {
      UnsignedOfNegative(u - 0x1_0000_0000, 32);
    }
  }

  /** An `int` converted to `uint64_t` is sign-extended: its upper 32 bits are
      all ones when bit 31 of the stored value is set, and all zeros otherwise. */
  lemma {:induction false} SignExtension(x: int)
    ensures var u := Unsigned(x, 32);
      Unsigned(ToInt32(x), 64) == if u < 0x8000_0000 then u else u + 0xFFFF_FFFF_0000_0000
  {
    Pow2Widths();
    var u: int := Unsigned(x, 32);
    if u < 0x8000_0000 {
      UnsignedOfSmall(u, 64);
    } else {
      UnsignedOfNegative(u - 0x1_0000_0000, 64);
    }
  }

  /** `acc ^= w` for an `int` acc and a `uint64_t` w: acc is widened, XORed and
      stored back, so only the low 32 bits of acc and w matter. */
  lemma XorIntoInt32(acc: Int32, x: nat, w: nat)
    requires acc == ToInt32(x)
    ensures ToInt32(Xor(Unsigned(acc, 64), w)) == ToInt32(Xor(x, w))
  {
    var wide := Unsigned(acc, 64);
    var low := Xor(Unsigned(x, 32), Unsigned(w, 32));
    calc {
      Unsigned(Xor(wide, w), 32);
      { UnsignedXor(wide, w, 32); }
      Xor(Unsigned(wide, 32), Unsigned(w, 32));
      { UnsignedOfUnsigned(acc, 64, 32); ToInt32Low(x); }
      low;
      { UnsignedXor(x, w, 32); }
      Unsigned(Xor(x, w), 32);
    }
    ToInt32OfLow(Xor(wide, w), Xor(x, w));
  }

  lemma ToInt32OfLow(x: int, y: int)
    requires Unsigned(x, 32) == Unsigned(y, 32)
    ensures ToInt32(x) == ToInt32(y)
  {
  }
}
