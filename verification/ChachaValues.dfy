/** The key stream byte by byte, and the state as numbers. */
module ChachaValues {
  import opened Bits
  import opened Values
  import opened Chacha
  import opened ChachaStream

  /** U8TO32_LITTLE as a number. */
  lemma LoadValue(b: Bytes)
    requires |b| == 4
    ensures Load32(b) == Little(b[0], b[1], b[2], b[3])
  {
    hide Or, Shl, Fits;
    ByteFits(b[0]);
    ByteFits(b[2]);
    Powers();
    ShlTimes(b[1], 8);
    ShlTimes(b[2], 16);
    ShlTimes(b[3], 24);
    OrDisjoint(b[0], b[1], 8);
    LowHalf(b[0], b[1]);
    ShlFits(b[2], 16, 8);
    OrDisjoint(Shl(b[2], 16), b[3], 24);
    var b0: nat, b1: nat, b2: nat, b3: nat := b[0], b[1], b[2], b[3];
    var high := b2 + 0x100 * b3;
    ShlTimes(high, 16);
    OrDisjoint(b0 + 0x100 * b1, high, 16);
  }

  lemma LowHalf(x: Byte, y: Byte)
    ensures Fits(x + 0x100 * y, 16)
  {
    FitsIff(x + 0x100 * y, 16);
    Powers();
  }

  /** U32TO8_LITTLE undoes it. */
  lemma LoadStore(w: Word)
    ensures Load32(Store32(w)) == w
  {
    hide Load32, ByteOf;
    LoadValue(Store32(w));
    BytesSpellWord(w);
  }

  lemma {:induction false} StoreWordsAt(ws: seq<Word>, i: nat, b: nat)
    requires i < |ws| && b < 4
    ensures StoreWords(ws)[4 * i + b] == ByteOf(ws[i], b)
  {
    hide ByteOf;
    var n := |ws| - 1;
    if i < n {
      StoreWordsAt(ws[..n], i, b);
    }
  }

  /** Key stream byte 4i + b is byte b, least significant first, of word i of the block. */
  lemma KeyBlockAt(core: BlockFunction, x: Input, i: nat, b: nat)
    requires i < 16 && b < 4
    ensures KeyBlock(core, x)[4 * i + b] == ByteOf(core(x)[i], b)
  {
    hide ByteOf, StoreWords;
    StoreWordsAt(core(x), i, b);
  }

  /** Byte i of the result is byte i of the message XOR byte i mod 64 of the block at counter plus i / 64. */
  lemma {:induction false} StreamAt(core: BlockFunction, x: Input, m: Bytes, i: nat)
    requires i < |m|
    ensures Stream(core, x, m)[i] == XorByte(m[i], KeyBlock(core, After(x, i / 64))[i % 64])
    decreases |m|
  {
    hide KeyBlock, XorByte, Next, After;
    StreamFirst(core, x, m);
    if i < 64 {
      NoBlockYet(x);
    } else {
      StreamAt(core, Next(x), m[64..], i - 64);
      AfterNext(x, i / 64);
      BlockBefore(i);
    }
  }

  lemma NoBlockYet(x: Input)
    ensures After(x, 0) == x
  {
  }

  lemma BlockBefore(i: nat)
    requires i >= 64
    ensures (i - 64) / 64 == i / 64 - 1 && (i - 64) % 64 == i % 64
  {
  }

  lemma StreamFirst(core: BlockFunction, x: Input, m: Bytes)
    requires m != []
    ensures forall i | 0 <= i < |m| && i < 64 :: Stream(core, x, m)[i] == XorByte(m[i], KeyBlock(core, x)[i])
    ensures forall i | 64 <= i < |m| :: Stream(core, x, m)[i] == Stream(core, Next(x), m[64..])[i - 64]
  {
    hide KeyBlock, XorByte, Next;
  }

  // ----- states

  /** The constants, as the numbers that the ChaCha paper gives, and the key, little-endian. */
  lemma ConstantWords(k: Bytes, kbits: nat)
    requires |k| >= if kbits == 256 then 32 else 16
    ensures var w := KeyWords(k, kbits);
      && w[0] == 0x61707865 && w[3] == 0x6b206574
      && w[1] == (if kbits == 256 then 0x3320646e else 0x3120646e)
      && w[2] == (if kbits == 256 then 0x79622d32 else 0x79622d36)
  {
    hide Load32;
    var c := if kbits == 256 then SIGMA else TAU;
    LoadValue(c[0..4]);
    LoadValue(c[4..8]);
    LoadValue(c[8..12]);
    LoadValue(c[12..16]);
  }

  lemma KeyPart(k: Bytes, kbits: nat, i: nat)
    requires |k| >= (if kbits == 256 then 32 else 16) && i < 8
    ensures var at := if i < 4 || kbits == 256 then 4 * i else 4 * i - 16;
      KeyWords(k, kbits)[4 + i] == Little(k[at], k[at + 1], k[at + 2], k[at + 3])
  {
    hide Load32;
    var at := if i < 4 || kbits == 256 then 4 * i else 4 * i - 16;
    LoadValue(k[at..at + 4]);
    if i >= 4 && kbits == 256 {
      assert k[16..][4 * (i - 4)..4 * (i - 4) + 4] == k[at..at + 4];
    }
  }

  /** Counter and nonce of a seeded state, as numbers. */
  lemma SeededValues(key: seq<Word>, counter: Bytes, iv: Bytes)
    requires |key| == 12 && |counter| == 8 && |iv| == 8
    ensures var x := Seeded(key, counter, iv);
      && Counter(x) == Little(counter[0], counter[1], counter[2], counter[3])
                       + TWO32 * Little(counter[4], counter[5], counter[6], counter[7])
      && x[14] == Little(iv[0], iv[1], iv[2], iv[3]) && x[15] == Little(iv[4], iv[5], iv[6], iv[7])
      && x[..12] == key
  {
    hide Load32;
    LoadValue(counter[0..4]);
    LoadValue(counter[4..8]);
    LoadValue(iv[0..4]);
    LoadValue(iv[4..8]);
  }

  /** States with different nonces are different. */
  lemma NonceInState(key: seq<Word>, key': seq<Word>, counter: Bytes, counter': Bytes, iv: Bytes, iv': Bytes)
    requires |key| == |key'| == 12 && |counter| == |counter'| == 8 && |iv| == |iv'| == 8
    requires Seeded(key, counter, iv)[14..] == Seeded(key', counter', iv')[14..]
    ensures iv == iv'
  {
    hide Seeded, Little;
    var x, x' := Seeded(key, counter, iv), Seeded(key', counter', iv');
    SeededValues(key, counter, iv);
    SeededValues(key', counter', iv');
    assert x[14] == x[14..][0] == x'[14] && x[15] == x[14..][1] == x'[15];
    LittleUnique(iv[0..4], iv'[0..4]);
    LittleUnique(iv[4..8], iv'[4..8]);
    assert iv == iv[0..4] + iv[4..8] && iv' == iv'[0..4] + iv'[4..8];
  }
}
