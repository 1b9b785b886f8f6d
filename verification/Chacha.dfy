/**
 The ChaCha stream loop of chacha.c, with a 64-bit block counter in words 12 and 13 of the state
 and a 64-bit nonce in words 14 and 15.
 */
module Chacha {
  import opened Bits

  type Input = s: seq<Word> | |s| == 16 witness seq(16, _ => 0)

  // ----- words

  function Plus(a: Word, b: Word): Word {
    (a + b) % TWO32
  }

  function XorWord(a: Word, b: Word): Word {
    assert Xor(a, b) < TWO32 by {
      WordFits(a);
      WordFits(b);
      XorFits(a, b, 32);
      WordFits(Xor(a, b));
    }
    Xor(a, b)
  }

  /** U8TO32_LITTLE */
  function Load32(b: Bytes): Word
    requires |b| == 4
  {
    var r := Or(Or(b[0], Shl(b[1], 8)), Or(Shl(b[2], 16), Shl(b[3], 24)));
    assert r < TWO32 by {
      hide Or, Shl, Fits;
      ByteFits(b[0]);
      ByteFits(b[1]);
      ByteFits(b[2]);
      ByteFits(b[3]);
      ShlFits(b[1], 8, 8);
      ShlFits(b[2], 16, 8);
      ShlFits(b[3], 24, 8);
      FitsMore(b[0], 8, 32);
      FitsMore(Shl(b[1], 8), 16, 32);
      FitsMore(Shl(b[2], 16), 24, 32);
      OrFits(b[0], Shl(b[1], 8), 32);
      OrFits(Shl(b[2], 16), Shl(b[3], 24), 32);
      OrFits(Or(b[0], Shl(b[1], 8)), Or(Shl(b[2], 16), Shl(b[3], 24)), 32);
      WordFits(r);
    }
    r
  }

  function Store32(w: Word): (r: Bytes)
    ensures |r| == 4
  {
    [ByteOf(w, 0), ByteOf(w, 1), ByteOf(w, 2), ByteOf(w, 3)]
  }

  lemma Load32Bit(b: Bytes, n: nat)
    requires |b| == 4 && n < 32
    ensures Bit(Load32(b), n) <==> Bit(b[n / 8], n % 8)
  {
    hide Bit, Or, Shl;
    OrBit(Or(b[0], Shl(b[1], 8)), Or(Shl(b[2], 16), Shl(b[3], 24)), n);
    OrBit(b[0], Shl(b[1], 8), n);
    OrBit(Shl(b[2], 16), Shl(b[3], 24), n);
    ShlBit(b[1], 8, n);
    ShlBit(b[2], 16, n);
    ShlBit(b[3], 24, n);
    NoHighBit(b[0], n);
    if n >= 8 {
      NoHighBit(b[1], n - 8);
    }
    if n >= 16 {
      NoHighBit(b[2], n - 16);
    }
  }

  lemma NoHighBit(b: Byte, n: nat)
    ensures n >= 8 ==> !Bit(b, n)
  {
    ByteFits(b);
    if n >= 8 {
      FitsBound(b, 8, n);
    }
  }

  /** Mixing a loaded word and storing it mixes byte by byte. */
  lemma StoreXorLoad(w: Word, b: Bytes)
    requires |b| == 4
    ensures Store32(XorWord(w, Load32(b))) == XorBytes(Store32(w), b)
  {
    hide Store32, XorByte;
    forall k: nat | k < 4 ensures ByteOf(XorWord(w, Load32(b)), k) == XorByte(ByteOf(w, k), b[k]) {
      ByteOfXor(w, b, k);
    }
    Store32At(w);
    Store32At(XorWord(w, Load32(b)));
  }

  lemma Store32At(w: Word)
    ensures forall k: nat | k < 4 :: Store32(w)[k] == ByteOf(w, k)
  {
  }

  lemma ByteOfXor(w: Word, b: Bytes, k: nat)
    requires |b| == 4 && k < 4
    ensures ByteOf(XorWord(w, Load32(b)), k) == XorByte(ByteOf(w, k), b[k])
  {
    hide Bit, Load32, ByteOf, Fits, Xor;
    var x, y := ByteOf(XorWord(w, Load32(b)), k), XorByte(ByteOf(w, k), b[k]);
    forall m: nat | m < 8 ensures Bit(x, m) == Bit(y, m) {
      ByteOfBit(XorWord(w, Load32(b)), k, m);
      ByteOfBit(w, k, m);
      XorBit(w, Load32(b), 8 * k + m);
      XorBit(ByteOf(w, k), b[k], m);
      Load32Bit(b, 8 * k + m);
      assert (8 * k + m) / 8 == k && (8 * k + m) % 8 == m;
    }
    ByteFits(x);
    ByteFits(y);
    BitsDecide(x, y, 8);
  }

  // ----- the block function

  function StoreWords(ws: seq<Word>): (r: Bytes)
    ensures |r| == 4 * |ws|
  {
    if ws == [] then [] else StoreWords(ws[..|ws| - 1]) + Store32(ws[|ws| - 1])
  }

  /** The block function. What follows holds of any; ChachaCore.Core is the one of the source. */
  type BlockFunction = Input -> Input

  /** The 64 bytes of key stream of a state. */
  function KeyBlock(core: BlockFunction, x: Input): (r: Bytes)
    ensures |r| == 64
  {
    StoreWords(core(x))
  }

  // ----- the counter

  /** j12 and j13 after one block. */
  function Next(x: Input): Input {
    var lo := Plus(x[12], 1);
    x[12 := lo][13 := if lo == 0 then Plus(x[13], 1) else x[13]]
  }

  function After(x: Input, k: nat): Input
    decreases k
  {
    if k == 0 then x else After(Next(x), k - 1)
  }

  function Counter(x: Input): nat {
    x[12] + TWO32 * x[13]
  }

  const TWO64 := TWO32 * TWO32

  lemma NextCounts(x: Input)
    ensures Counter(Next(x)) == (Counter(x) + 1) % TWO64
    ensures forall i | 0 <= i < 16 && i != 12 && i != 13 :: Next(x)[i] == x[i]
  {
  }

  lemma WrapAdd(c: nat, k: nat)
    requires c < TWO64 && k > 0
    ensures ((c + 1) % TWO64 + (k - 1)) % TWO64 == (c + k) % TWO64
  {
    if c + 1 == TWO64 {
      assert (c + 1) % TWO64 == 0;
    } else {
      assert (c + 1) % TWO64 == c + 1;
    }
  }

  /** Words 12 and 13 are one counter modulo 2^64, and nothing else of the state moves. */
  lemma {:induction false} AfterCounts(x: Input, k: nat)
    ensures Counter(After(x, k)) == (Counter(x) + k) % TWO64
    ensures forall i | 0 <= i < 16 && i != 12 && i != 13 :: After(x, k)[i] == x[i]
    decreases k
  {
    if k > 0 {
      hide Next;
      NextCounts(x);
      AfterCounts(Next(x), k - 1);
      WrapAdd(Counter(x), k);
    }
  }

  lemma {:induction false} AfterAdds(x: Input, j: nat, k: nat)
    ensures After(x, j + k) == After(After(x, j), k)
    decreases j
  {
    if j > 0 {
      AfterAdds(Next(x), j - 1, k);
    }
  }

  // ----- the stream

  function Min(a: nat, b: nat): nat {
    if a < b then a else b
  }

  /** Message bytes mixed with the key blocks of consecutive counter values. */
  function Stream(core: BlockFunction, x: Input, m: Bytes): (r: Bytes)
    ensures |r| == |m|
    decreases |m|
  {
    if m == [] then []
    else
      var n := Min(64, |m|);
      XorBytes(m[..n], KeyBlock(core, x)[..n]) + Stream(core, Next(x), m[n..])
  }

  function BlockCount(bytes: nat): nat {
    (bytes + 63) / 64
  }

  /** Applied twice from the same state the stream cancels. */
  lemma {:induction false} StreamTwice(core: BlockFunction, x: Input, m: Bytes)
    ensures Stream(core, x, Stream(core, x, m)) == m
    decreases |m|
  {
    hide KeyBlock, XorByte, Next;
    if m != [] {
      var n := Min(64, |m|);
      var s := Stream(core, x, m);
      assert s[..n] == XorBytes(m[..n], KeyBlock(core, x)[..n]) && s[n..] == Stream(core, Next(x), m[n..]);
      XorBytesCancel(m[..n], KeyBlock(core, x)[..n]);
      StreamTwice(core, Next(x), m[n..]);
      assert m == m[..n] + m[n..];
    }
  }

  lemma StreamHead(core: BlockFunction, x: Input, m: Bytes)
    requires |m| >= 64
    ensures Stream(core, x, m) == XorBytes(m[..64], KeyBlock(core, x)) + Stream(core, Next(x), m[64..])
  {
    hide KeyBlock, XorByte, XorBytes, Next;
    assert KeyBlock(core, x)[..64] == KeyBlock(core, x);
  }

  lemma JoinHead(a: Bytes, b: Bytes)
    requires |a| >= 64
    ensures (a + b)[..64] == a[..64] && (a + b)[64..] == a[64..] + b
  {
  }

  lemma Associates(p: Bytes, q: Bytes, r: Bytes)
    ensures p + (q + r) == (p + q) + r
  {
  }

  lemma StreamOfNone(core: BlockFunction, x: Input, a: Bytes, b: Bytes)
    requires a == []
    ensures Stream(core, x, a + b) == Stream(core, x, a) + Stream(core, After(x, 0), b)
  {
    assert a + b == b;
  }

  lemma {:induction false} StreamAfter(core: BlockFunction, x: Input, a: Bytes, b: Bytes, k: nat)
    requires |a| == 64 * k
    ensures Stream(core, x, a + b) == Stream(core, x, a) + Stream(core, After(x, k), b)
    decreases k
  {
    hide *;
    if k == 0 {
      StreamOfNone(core, x, a, b);
    } else {
      StreamHead(core, x, a + b);
      StreamHead(core, x, a);
      JoinHead(a, b);
      StreamAfter(core, Next(x), a[64..], b, k - 1);
      AfterNext(x, k);
      Associates(XorBytes(a[..64], KeyBlock(core, x)), Stream(core, Next(x), a[64..]), Stream(core, After(x, k), b));
    }
  }

  lemma AfterNext(x: Input, k: nat)
    requires k > 0
    ensures After(x, k) == After(Next(x), k - 1)
  {
  }

  /** Cutting the message at a multiple of 64 and going on from the state left behind. */
  lemma StreamSplits(core: BlockFunction, x: Input, a: Bytes, b: Bytes)
    requires |a| % 64 == 0
    ensures Stream(core, x, a + b) == Stream(core, x, a) + Stream(core, After(x, |a| / 64), b)
    ensures After(x, BlockCount(|a| + |b|)) == After(After(x, |a| / 64), BlockCount(|b|))
  {
    hide *;
    var k := |a| / 64;
    BlockCountAdds(|a|, |b|);
    StreamAfter(core, x, a, b, k);
    AfterAdds(x, k, BlockCount(|b|));
  }

  lemma BlockCountAdds(a: nat, b: nat)
    requires a % 64 == 0
    ensures BlockCount(a + b) == a / 64 + BlockCount(b) && a == 64 * (a / 64)
  {
  }
}
