/** Words and bytes as numbers: what shifting, masking and joining come to in arithmetic. */
module Values {
  import opened Bits

  /** The low n bits and the rest make up the number. */
  lemma {:induction false} LowAndRest(a: nat, n: nat)
    ensures a == Low(a, n) + Shl(Shr(a, n), n) && Low(a, n) < Shl(1, n)
    decreases n
  {
    if n > 0 {
      LowAndRest(a / 2, n - 1);
    }
  }

  lemma {:induction false} ShlTimes(a: nat, k: nat)
    ensures Shl(a, k) == a * Shl(1, k)
    decreases k
  {
    if k > 0 {
      ShlTimes(a, k - 1);
      var p := Shl(1, k - 1);
      hide Shl;
      Doubled(a, p);
    }
  }

  lemma Doubled(a: nat, p: nat)
    ensures 2 * (a * p) == a * (2 * p)
  {
  }

  lemma {:induction false} ShrTwice(a: nat, j: nat, k: nat)
    ensures Shr(Shr(a, j), k) == Shr(a, j + k)
    decreases j
  {
    if j > 0 {
      ShrTwice(a / 2, j - 1, k);
    }
  }

  lemma {:induction false} OrDisjoint(a: nat, b: nat, k: nat)
    requires Fits(a, k)
    ensures Or(a, Shl(b, k)) == a + Shl(b, k)
    decreases k
  {
    if k > 0 && a != 0 {
      OrDisjoint(a / 2, b, k - 1);
    }
  }

  lemma Powers()
    ensures Shl(1, 8) == 0x100 && Shl(1, 16) == 0x1_0000 && Shl(1, 24) == 0x100_0000
  {
    hide Shl;
    ByteSize();
    ShlAdds(8, 8);
    ShlAdds(16, 8);
  }

  lemma PlacesUnique(a: nat, u: nat, b: nat, v: nat, base: nat)
    requires u < base && v < base && a * base + u == b * base + v
    ensures a == b && u == v
  {
    if a < b {
      Places(a, b, base);
      assert false;
    } else if b < a {
      Places(b, a, base);
      assert false;
    }
  }

  lemma Places(a: nat, b: nat, base: nat)
    requires a < b
    ensures a * base + base <= b * base
  {
    assert (b - a - 1) * base >= 0;
    assert b * base == a * base + base + (b - a - 1) * base;
  }

  /** The number of four bytes, least significant first. */
  function Little(b0: nat, b1: nat, b2: nat, b3: nat): nat {
    b0 + 0x100 * b1 + 0x1_0000 * b2 + 0x100_0000 * b3
  }

  lemma LittleSmall(x: nat)
    ensures Little(x, 0, 0, 0) == x
  {
  }

  /** Byte k of a word, as a number. */
  lemma ByteOfRest(w: Word, k: nat)
    ensures Shr(w, 8 * k) == ByteOf(w, k) + 0x100 * Shr(w, 8 * (k + 1))
  {
    hide Low, Shl, Shr;
    LowAndRest(Shr(w, 8 * k), 8);
    ShrTwice(w, 8 * k, 8);
    ShlTimes(Shr(w, 8 * k + 8), 8);
    Powers();
  }

  lemma NothingAbove(w: Word)
    ensures Shr(w, 32) == 0 && Shr(w, 0) == w
  {
    assert Shr(w, 0) == w;
    hide Low, Shl, Shr;
    LowAndRest(w, 32);
    ShlTimes(Shr(w, 32), 32);
    WordSize();
    QuotientZero(w, Shr(w, 32), Low(w, 32));
  }

  lemma QuotientZero(w: Word, q: nat, r: nat)
    requires w == r + q * TWO32
    ensures q == 0
  {
  }

  /** The bytes of a word spell it, least significant first. */
  lemma BytesSpellWord(w: Word)
    ensures w == Little(ByteOf(w, 0), ByteOf(w, 1), ByteOf(w, 2), ByteOf(w, 3))
  {
    hide Shr, ByteOf;
    NothingAbove(w);
    ByteOfRest(w, 0);
    ByteOfRest(w, 1);
    ByteOfRest(w, 2);
    ByteOfRest(w, 3);
  }

  lemma LittleUnique(a: Bytes, b: Bytes)
    requires |a| == |b| == 4 && Little(a[0], a[1], a[2], a[3]) == Little(b[0], b[1], b[2], b[3])
    ensures a == b
  {
    var x1: nat, x2: nat, x3: nat := a[1], a[2], a[3];
    var y1: nat, y2: nat, y3: nat := b[1], b[2], b[3];
    LastDigit(a[0], x1 + 0x100 * (x2 + 0x100 * x3), b[0], y1 + 0x100 * (y2 + 0x100 * y3));
    LastDigit(a[1], x2 + 0x100 * x3, b[1], y2 + 0x100 * y3);
    LastDigit(a[2], x3, b[2], y3);
  }

  lemma LastDigit(x: Byte, p: nat, y: Byte, q: nat)
    requires x + 0x100 * p == y + 0x100 * q
    ensures x == y && p == q
  {
  }

  /** The number of a byte string, most significant first. */
  function Big(s: Bytes): nat {
    if s == [] then 0 else 0x100 * Big(s[..|s| - 1]) + s[|s| - 1]
  }

  /** A bit of a number is the parity of what is left after halving that often. */
  lemma {:induction false} BitIsParity(a: nat, k: nat)
    ensures Bit(a, k) <==> Shr(a, k) % 2 == 1
    decreases k
  {
    if k > 0 {
      BitIsParity(a / 2, k - 1);
    }
  }
}
