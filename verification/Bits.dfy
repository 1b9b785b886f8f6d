/** Unsigned machine words as naturals, read and combined bit by bit. */
module Bits {
  predicate Bit(a: nat, k: nat)
    decreases k
  {
    if k == 0 then a % 2 == 1 else Bit(a / 2, k - 1)
  }

  /** a has at most n bits. */
  predicate Fits(a: nat, n: nat)
    decreases n
  {
    if n == 0 then a == 0 else Fits(a / 2, n - 1)
  }

  function Or(a: nat, b: nat): nat {
    if a == 0 then b else (if a % 2 == 1 || b % 2 == 1 then 1 else 0) + 2 * Or(a / 2, b / 2)
  }

  /** a & ~b */
  function AndNot(a: nat, b: nat): nat {
    if a == 0 then 0 else (if a % 2 == 1 && b % 2 == 0 then 1 else 0) + 2 * AndNot(a / 2, b / 2)
  }

  function Shl(a: nat, k: nat): nat
    decreases k
  {
    if k == 0 then a else 2 * Shl(a, k - 1)
  }

  function Shr(a: nat, k: nat): nat
    decreases k
  {
    if k == 0 then a else Shr(a / 2, k - 1)
  }

  /** The low n bits of a, that is a & (2^n - 1). */
  function Low(a: nat, n: nat): nat
    decreases n
  {
    if n == 0 then 0 else a % 2 + 2 * Low(a / 2, n - 1)
  }

  lemma {:induction false} BitOfZero(k: nat)
    ensures !Bit(0, k)
  {
    if k > 0 {
      BitOfZero(k - 1);
    }
  }

  lemma {:induction false} NonZeroHasBit(a: nat, n: nat) returns (k: nat)
    requires a != 0 && Fits(a, n)
    ensures k < n && Bit(a, k)
    decreases n
  {
    if a % 2 == 1 {
      k := 0;
    } else {
      k := NonZeroHasBit(a / 2, n - 1);
      k := k + 1;
    }
  }

  lemma {:induction false} BitsDecide(a: nat, b: nat, n: nat)
    requires Fits(a, n) && Fits(b, n) && forall k: nat | k < n :: Bit(a, k) == Bit(b, k)
    ensures a == b
    decreases n
  {
    if n > 0 {
      assert Bit(a, 0) == Bit(b, 0);
      forall k: nat | k < n - 1 ensures Bit(a / 2, k) == Bit(b / 2, k) {
        assert Bit(a, k + 1) == Bit(b, k + 1);
      }
      BitsDecide(a / 2, b / 2, n - 1);
    }
  }

  lemma {:induction false} FitsBound(a: nat, n: nat, k: nat)
    requires Fits(a, n) && k >= n
    ensures !Bit(a, k)
    decreases n
  {
    if n == 0 {
      BitOfZero(k);
    } else {
      FitsBound(a / 2, n - 1, k - 1);
    }
  }

  lemma {:induction false} ZeroFits(n: nat)
    ensures Fits(0, n)
  {
    if n > 0 {
      ZeroFits(n - 1);
    }
  }

  lemma {:induction false} OrBit(a: nat, b: nat, k: nat)
    ensures Bit(Or(a, b), k) <==> Bit(a, k) || Bit(b, k)
    decreases k
  {
    if a == 0 {
      BitOfZero(k);
    } else if k > 0 {
      OrBit(a / 2, b / 2, k - 1);
    }
  }

  lemma {:induction false} OrFits(a: nat, b: nat, n: nat)
    requires Fits(a, n) && Fits(b, n)
    ensures Fits(Or(a, b), n)
    decreases n
  {
    if n > 0 && a != 0 {
      OrFits(a / 2, b / 2, n - 1);
    }
  }

  lemma {:induction false} AndNotBit(a: nat, b: nat, k: nat)
    ensures Bit(AndNot(a, b), k) <==> Bit(a, k) && !Bit(b, k)
    decreases k
  {
    if a == 0 {
      BitOfZero(k);
    } else if k > 0 {
      AndNotBit(a / 2, b / 2, k - 1);
    }
  }

  lemma {:induction false} AndNotFits(a: nat, b: nat, n: nat)
    requires Fits(a, n)
    ensures Fits(AndNot(a, b), n)
    decreases n
  {
    if n > 0 && a != 0 {
      AndNotFits(a / 2, b / 2, n - 1);
    }
  }

  lemma {:induction false} ShlBit(a: nat, k: nat, m: nat)
    ensures Bit(Shl(a, k), m) <==> m >= k && Bit(a, m - k)
    decreases k
  {
    if k > 0 && m > 0 {
      ShlBit(a, k - 1, m - 1);
    }
  }

  lemma {:induction false} ShlFits(a: nat, k: nat, n: nat)
    requires Fits(a, n)
    ensures Fits(Shl(a, k), n + k)
    decreases k
  {
    if k > 0 {
      ShlFits(a, k - 1, n);
    }
  }

  lemma {:induction false} FitsMore(a: nat, n: nat, m: nat)
    requires Fits(a, n) && n <= m
    ensures Fits(a, m)
    decreases n
  {
    if n == 0 {
      ZeroFits(m);
    } else {
      FitsMore(a / 2, n - 1, m - 1);
    }
  }

  lemma {:induction false} ShrBit(a: nat, k: nat, m: nat)
    ensures Bit(Shr(a, k), m) == Bit(a, k + m)
    decreases k
  {
    if k > 0 {
      ShrBit(a / 2, k - 1, m);
    }
  }

  lemma {:induction false} LowBit(a: nat, n: nat, k: nat)
    ensures Fits(Low(a, n), n)
    ensures Bit(Low(a, n), k) <==> k < n && Bit(a, k)
    decreases n
  {
    if n == 0 {
      BitOfZero(k);
    } else {
      LowBit(a / 2, n - 1, if k > 0 then k - 1 else 0);
    }
  }

  lemma {:induction false} OneBit(k: nat)
    ensures Bit(1, k) <==> k == 0
    ensures Fits(1, 1)
  {
    if k > 0 {
      BitOfZero(k - 1);
    }
  }

  function Xor(a: nat, b: nat): nat {
    if a == 0 then b else if b == 0 then a
    else (if a % 2 != b % 2 then 1 else 0) + 2 * Xor(a / 2, b / 2)
  }

  lemma {:induction false} XorSelf(a: nat)
    ensures Xor(a, a) == 0
  {
    if a > 0 {
      XorSelf(a / 2);
    }
  }

  lemma {:induction false} XorFits(a: nat, b: nat, n: nat)
    requires Fits(a, n) && Fits(b, n)
    ensures Fits(Xor(a, b), n)
    decreases n
  {
    if a > 0 && b > 0 {
      XorFits(a / 2, b / 2, n - 1);
    }
  }

  lemma {:induction false} XorBit(a: nat, b: nat, k: nat)
    ensures Bit(Xor(a, b), k) <==> Bit(a, k) != Bit(b, k)
    decreases k
  {
    if a == 0 || b == 0 {
      BitOfZero(k);
    } else if k > 0 {
      XorBit(a / 2, b / 2, k - 1);
    }
  }

  lemma {:induction false} XorCancels(a: nat, b: nat, n: nat)
    requires Fits(a, n) && Fits(b, n)
    ensures Xor(Xor(a, b), b) == a
  {
    hide Xor, Bit;
    XorFits(a, b, n);
    XorFits(Xor(a, b), b, n);
    forall k: nat | k < n ensures Bit(Xor(Xor(a, b), b), k) == Bit(a, k) {
      XorBit(Xor(a, b), b, k);
      XorBit(a, b, k);
    }
    BitsDecide(Xor(Xor(a, b), b), a, n);
  }

  // ----- bytes

  type Byte = b: nat | b < 256

  type Bytes = seq<Byte>

  lemma {:induction false} FitsIff(b: nat, n: nat)
    ensures Fits(b, n) <==> b < Shl(1, n)
    decreases n
  {
    if n > 0 {
      FitsIff(b / 2, n - 1);
    }
  }

  lemma ByteFits(b: nat)
    ensures Fits(b, 8) <==> b < 256
  {
    FitsIff(b, 8);
    assert Shl(1, 8) == 256;
  }

  function XorByte(a: Byte, b: Byte): Byte {
    assert Xor(a, b) < 256 by {
      ByteFits(a);
      ByteFits(b);
      XorFits(a, b, 8);
      ByteFits(Xor(a, b));
    }
    Xor(a, b)
  }

  lemma XorByteCancels(a: Byte, b: Byte)
    ensures XorByte(XorByte(a, b), b) == a
  {
    ByteFits(a);
    ByteFits(b);
    XorCancels(a, b, 8);
  }

  /** Byte by byte exclusive or. */
  function XorBytes(a: Bytes, b: Bytes): (r: Bytes)
    requires |a| == |b|
    ensures |r| == |a| && forall i | 0 <= i < |a| :: r[i] == XorByte(a[i], b[i])
  {
    seq(|a|, i requires 0 <= i < |a| => XorByte(a[i], b[i]))
  }

  /** Exclusive or with the same bytes twice changes nothing. */
  lemma XorBytesCancel(a: Bytes, b: Bytes)
    requires |a| == |b|
    ensures XorBytes(XorBytes(a, b), b) == a
  {
    hide XorByte;
    forall i | 0 <= i < |a| ensures XorBytes(XorBytes(a, b), b)[i] == a[i] {
      XorByteCancels(a[i], b[i]);
    }
  }

  // ----- 32-bit words

  const TWO32 := 0x1_0000_0000

  type Word = w: nat | w < TWO32

  lemma WordFits(w: nat)
    ensures Fits(w, 32) <==> w < TWO32
  {
    hide Shl;
    FitsIff(w, 32);
    WordSize();
  }

  lemma WordSize()
    ensures Shl(1, 32) == TWO32
  {
    hide Shl;
    ByteSize();
    ShlAdds(8, 8);
    ShlAdds(16, 16);
  }

  lemma ByteSize()
    ensures Shl(1, 8) == 256
  {
  }

  lemma {:induction false} ShlAdds(a: nat, b: nat)
    ensures Shl(1, a + b) == Shl(1, a) * Shl(1, b)
  {
    if b > 0 {
      ShlAdds(a, b - 1);
      assert Shl(1, a + b) == 2 * Shl(1, a + b - 1);
    }
  }

  /** Byte k of a word, as U32TO8_LITTLE stores it. */
  function ByteOf(w: Word, k: nat): Byte {
    var r := Low(Shr(w, 8 * k), 8);
    assert r < 256 by {
      LowBit(Shr(w, 8 * k), 8, 0);
      ByteFits(r);
    }
    r
  }

  lemma ByteOfBit(w: Word, k: nat, m: nat)
    ensures Bit(ByteOf(w, k), m) <==> m < 8 && Bit(w, 8 * k + m)
  {
    LowBit(Shr(w, 8 * k), 8, m);
    ShrBit(w, 8 * k, m);
  }

  function And(a: nat, b: nat): nat {
    if a == 0 then 0 else (if a % 2 == 1 && b % 2 == 1 then 1 else 0) + 2 * And(a / 2, b / 2)
  }

  lemma {:induction false} AndBit(a: nat, b: nat, k: nat)
    ensures Bit(And(a, b), k) <==> Bit(a, k) && Bit(b, k)
    decreases k
  {
    if a == 0 {
      BitOfZero(k);
    } else if k > 0 {
      AndBit(a / 2, b / 2, k - 1);
    }
  }

  lemma {:induction false} AndFits(a: nat, b: nat, n: nat)
    requires Fits(a, n)
    ensures Fits(And(a, b), n)
    decreases n
  {
    if n > 0 && a != 0 {
      AndFits(a / 2, b / 2, n - 1);
    }
  }

  lemma {:induction false} OnesBit(n: nat, k: nat)
    ensures Shl(1, n) > 0
    ensures Bit(Shl(1, n) - 1, k) <==> k < n
    decreases n
  {
    if n == 0 {
      BitOfZero(k);
    } else {
      OnesBit(n - 1, if k > 0 then k - 1 else 0);
    }
  }
}
