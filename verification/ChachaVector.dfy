/** Rotation and exclusive or as arithmetic, and a quarter round worked out in numbers. */
module ChachaVector {
  import opened Bits
  import opened Values
  import opened Chacha
  import opened ChachaCore

  lemma {:induction false} OrCommutes(a: nat, b: nat)
    ensures Or(a, b) == Or(b, a)
  {
    if a != 0 && b != 0 {
      OrCommutes(a / 2, b / 2);
    } else if a == 0 {
      OrZero(b);
    } else {
      OrZero(a);
    }
  }

  lemma {:induction false} OrZero(a: nat)
    ensures Or(a, 0) == a
  {
    if a != 0 {
      OrZero(a / 2);
    }
  }

  /** A rotation by n moves the top n bits to the bottom. */
  lemma RotlParts(v: Word, n: nat, hi: nat, lo: nat)
    requires 0 < n < 32 && lo < Shl(1, 32 - n) && hi < Shl(1, n) && v == hi * Shl(1, 32 - n) + lo
    ensures Rotl(v, n) == lo * Shl(1, n) + hi
  {
    hide Shl, Shr, Low, Or, Fits;
    var p, q := Shl(1, 32 - n), Shl(1, n);
    LowAndRest(v, 32 - n);
    ShlTimes(Shr(v, 32 - n), 32 - n);
    PlacesUnique(hi, lo, Shr(v, 32 - n), Low(v, 32 - n), p);
    ShlAdds(32 - n, n);
    WordSize();
    ShlTimes(v, n);
    Regroup(hi, lo, p, q);
    var w := Shl(v, n);
    LowAndRest(w, 32);
    ShlTimes(Shr(w, 32), 32);
    LessTimes(lo, p, q);
    PlacesUnique(hi, lo * q, Shr(w, 32), Low(w, 32), TWO32);
    ShlTimes(lo, n);
    FitsIff(hi, n);
    OrCommutes(Shl(lo, n), hi);
    OrDisjoint(hi, lo, n);
  }

  lemma Regroup(hi: nat, lo: nat, p: nat, q: nat)
    ensures (hi * p + lo) * q == hi * (p * q) + lo * q
  {
  }

  lemma LessTimes(lo: nat, p: nat, q: nat)
    requires lo < p && q > 0
    ensures lo * q < p * q
  {
  }

  lemma {:induction false} XorParts(a: nat, b: nat, x: nat, y: nat, k: nat)
    requires Fits(x, k) && Fits(y, k)
    ensures Xor(Shl(a, k) + x, Shl(b, k) + y) == Shl(Xor(a, b), k) + Xor(x, y)
    decreases k
  {
    hide Xor;
    if k == 0 {
      XorNone(0);
    } else {
      XorParts(a, b, x / 2, y / 2, k - 1);
      XorHalves(Shl(a, k) + x, Shl(b, k) + y);
      XorHalves(x, y);
      hide Shl, Fits;
      HalfOf(a, x, k);
      HalfOf(b, y, k);
      ShlDoubles(Xor(a, b), k);
    }
  }

  lemma ShlDoubles(a: nat, k: nat)
    requires k > 0
    ensures Shl(a, k) == 2 * Shl(a, k - 1)
  {
  }

  lemma HalfOf(a: nat, x: nat, k: nat)
    requires k > 0
    ensures (Shl(a, k) + x) / 2 == Shl(a, k - 1) + x / 2 && (Shl(a, k) + x) % 2 == x % 2
  {
    ShlDoubles(a, k);
  }

  lemma XorNone(a: nat)
    ensures Xor(0, a) == a && Xor(a, 0) == a
  {
  }

  /** The first bits of two numbers, and the rest. */
  lemma XorHalves(a: nat, b: nat)
    ensures Xor(a, b) == (if a % 2 != b % 2 then 1 else 0) + 2 * Xor(a / 2, b / 2)
  {
  }

  // ----- the numbers of one quarter round

  lemma MorePowers()
    ensures Shl(1, 4) == 16 && Shl(1, 7) == 128 && Shl(1, 8) == 256 && Shl(1, 12) == 4096 && Shl(1, 16) == 65536
    ensures Shl(1, 20) == 1048576 && Shl(1, 24) == 16777216 && Shl(1, 25) == 33554432 && Shl(1, 28) == 268435456
  {
    assert Shl(1, 1) == 2 && Shl(1, 4) == 16 && Shl(1, 7) == 128;
    hide Shl;
    Powers();
    ShlAdds(8, 4);
    ShlAdds(16, 4);
    ShlAdds(24, 1);
    ShlAdds(24, 4);
  }

  lemma XorWordIs(a: Word, b: Word, x: Word)
    requires Xor(a, b) == x
    ensures XorWord(a, b) == x
  {
    hide Xor;
  }

  /** A word with nothing to mix in, turned. */
  lemma TurnAlone(v: Word, n: nat, hi: nat, lo: nat)
    requires 0 < n < 32 && lo < Shl(1, 32 - n) && hi < Shl(1, n) && v == hi * Shl(1, 32 - n) + lo
    ensures Rotl(XorWord(0, v), n) == lo * Shl(1, n) + hi
  {
    hide *;
    XorNone(v);
    XorWordIs(0, v, v);
    RotlParts(v, n, hi, lo);
  }

  /** Two words without a common bit, given by their parts above and below bit k, turned. */
  lemma TurnParts(a: nat, b: nat, x: nat, y: nat, k: nat, v: Word, w: Word, u: Word, n: nat, hi: nat, lo: nat)
    requires Fits(x, k) && Fits(y, k) && v == Shl(a, k) + x && w == Shl(b, k) + y
    requires u == Shl(Xor(a, b), k) + Xor(x, y)
    requires 0 < n < 32 && lo < Shl(1, 32 - n) && hi < Shl(1, n) && u == hi * Shl(1, 32 - n) + lo
    ensures Rotl(XorWord(v, w), n) == lo * Shl(1, n) + hi
  {
    hide *;
    XorParts(a, b, x, y, k);
    XorWordIs(v, w, u);
    RotlParts(u, n, hi, lo);
  }

  lemma Small(x: nat, k: nat, p: nat)
    requires Shl(1, k) == p && x < p
    ensures Fits(x, k)
  {
    hide *;
    FitsIff(x, k);
  }

  lemma TurnOne()
    ensures Rotl(XorWord(0, 1), 16) == 65536
  {
    hide Rotl, XorWord, Xor, Shl, Fits;
    MorePowers();
    TurnAlone(1, 16, 0, 1);
  }

  lemma TurnTwo()
    ensures Rotl(XorWord(0, 65536), 12) == 268435456
  {
    hide Rotl, XorWord, Xor, Shl, Fits;
    MorePowers();
    TurnAlone(65536, 12, 0, 65536);
  }

  lemma XorOf4097()
    ensures Xor(1, 4096) == 4097
  {
    hide Rotl, XorWord, Xor, Shl, Fits;
    MorePowers();
    Small(1, 12, 4096);
    Small(0, 12, 4096);
    ShlTimes(0, 12);
    XorNone(1);
    XorParts(0, 1, 1, 0, 12);
  }

  lemma TurnThree()
    ensures Rotl(XorWord(65536, 268435457), 8) == 16777488
  {
    hide Rotl, XorWord, Xor, Shl, Fits;
    MorePowers();
    Small(0, 16, 65536);
    Small(1, 16, 65536);
    ShlTimes(4096, 16);
    ShlTimes(4097, 16);
    XorOf4097();
    XorNone(1);
    TurnParts(1, 4096, 0, 1, 16, 65536, 268435457, 268500993, 8, 16, 65537);
  }

  lemma TurnFour()
    ensures Rotl(XorWord(268435456, 16843024), 7) == 2155907080
  {
    hide Rotl, XorWord, Xor, Shl, Fits;
    MorePowers();
    Small(0, 28, 268435456);
    Small(16843024, 28, 268435456);
    ShlTimes(0, 28);
    XorNone(1);
    XorNone(16843024);
    TurnParts(1, 0, 0, 16843024, 28, 268435456, 16843024, 285278480, 7, 8, 16843024);
  }

  /** A quarter round of the words 1, 0, 0, 0. */
  lemma QuarterOfOne(x: Input, a: nat, b: nat, c: nat, d: nat)
    requires Four(a, b, c, d) && a != c && b != d && x[a] == 1 && x[b] == 0 && x[c] == 0 && x[d] == 0
    ensures var y := QuarterRound(x, a, b, c, d);
      && y[a] == 0x10000001 && y[b] == 0x80808808 && y[c] == 0x01010110 && y[d] == 0x01000110
      && forall i | 0 <= i < 16 && i !in {a, b, c, d} :: y[i] == x[i]
  {
    hide Rotl, XorWord;
    TurnOne();
    TurnTwo();
    TurnThree();
    TurnFour();
    var u: Input := x[d := 65536];
    var v: Input := u[c := 65536];
    var y: Input := v[b := 268435456];
    assert HalfQuarter(x, a, b, c, d, 16, 12) == y;
    var p: Input := y[a := 268435457];
    var q: Input := p[d := 16777488];
    var r: Input := q[c := 16843024];
    var z: Input := r[b := 2155907080];
    assert HalfQuarter(y, a, b, c, d, 8, 7) == z;
  }
}
