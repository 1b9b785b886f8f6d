/** What the packet transform feeds to the cipher: nonces, counters and keys that never meet. */
module Nonces {
  import opened Bits
  import opened Values
  import opened Chacha
  import opened ChachaStream
  import opened ChachaValues
  import opened Chachapoly

  const TWO_64 := 0x1_0000_0000_0000_0000

  // ----- the sequence number as a nonce

  /** The last k base-256 digits, most significant first. */
  function Digits(n: nat, k: nat): (r: Bytes)
    ensures |r| == k
  {
    seq(k, i requires 0 <= i < k => Digit(n, k - 1 - i))
  }

  function Rest(n: nat, k: nat): nat
    decreases k
  {
    if k == 0 then n else Rest(n / 256, k - 1)
  }

  function Power(k: nat): nat {
    if k == 0 then 1 else 256 * Power(k - 1)
  }

  lemma DigitsPeel(n: nat, k: nat)
    requires k > 0
    ensures Digits(n, k)[..k - 1] == Digits(n / 256, k - 1) && Digits(n, k)[k - 1] == n % 256
  {
    var a, b := Digits(n, k)[..k - 1], Digits(n / 256, k - 1);
    forall i | 0 <= i < k - 1 ensures a[i] == b[i] {
      assert Digit(n, k - 1 - i) == Digit(n / 256, k - 2 - i);
    }
    assert Digits(n, k)[k - 1] == Digit(n, 0);
  }

  lemma {:induction false} DigitsValue(n: nat, k: nat)
    ensures n == Rest(n, k) * Power(k) + Big(Digits(n, k)) && Big(Digits(n, k)) < Power(k)
    decreases k
  {
    if k > 0 {
      hide Digits;
      DigitsPeel(n, k);
      DigitsValue(n / 256, k - 1);
      assert Rest(n, k) * (256 * Power(k - 1)) == 256 * (Rest(n / 256, k - 1) * Power(k - 1));
    }
  }

  /** The nonce of a packet is its sequence number in eight bytes, most significant first. */
  lemma NonceIsNumber(seqnr: nat)
    ensures Big(SeqBytes(seqnr)) == seqnr % TWO_64
  {
    hide Digits, Rest, Big;
    assert SeqBytes(seqnr) == Digits(seqnr, 8) by {
      SeqBytesAreDigits(seqnr);
    }
    DigitsValue(seqnr, 8);
    PowerEight();
    Wraps(seqnr, Rest(seqnr, 8), Big(Digits(seqnr, 8)));
  }

  lemma SeqBytesAreDigits(seqnr: nat)
    ensures SeqBytes(seqnr) == Digits(seqnr, 8)
  {
  }

  lemma PowerEight()
    ensures Power(8) == TWO_64
  {
  }

  lemma Wraps(n: nat, q: nat, r: nat)
    requires n == q * TWO_64 + r && r < TWO_64
    ensures n % TWO_64 == r
  {
  }

  /** No two sequence numbers below 2^64 share a nonce. */
  lemma NonceUnique(a: nat, b: nat)
    requires a < TWO_64 && b < TWO_64
    ensures SeqBytes(a) == SeqBytes(b) <==> a == b
  {
    hide SeqBytes, Big;
    NonceIsNumber(a);
    NonceIsNumber(b);
  }

  // ----- the states behind a packet

  function AuthState(k: Keys, seqnr: nat): Input {
    Seeded(k.main, ZERO8, SeqBytes(seqnr))
  }

  function PayloadState(k: Keys, seqnr: nat, block: nat): Input {
    After(Seeded(k.main, ONE8, SeqBytes(seqnr)), block)
  }

  function HeaderState(k: Keys, seqnr: nat, block: nat): Input {
    After(Seeded(k.header, ZERO8, SeqBytes(seqnr)), block)
  }

  lemma StartCounters(key: KeyHalf, iv: Bytes)
    requires |iv| == 8
    ensures Counter(Seeded(key, ZERO8, iv)) == 0 && Counter(Seeded(key, ONE8, iv)) == 1
  {
    hide Seeded, Counter, Little;
    SeededValues(key, ZERO8, iv);
    SeededValues(key, ONE8, iv);
    LittleSmall(0);
    LittleSmall(1);
  }

  /** The authentication key comes from counter 0, and payload block j from counter 1 + j modulo 2^64. */
  lemma PacketCounters(k: Keys, seqnr: nat, block: nat)
    ensures Counter(AuthState(k, seqnr)) == 0
    ensures Counter(PayloadState(k, seqnr, block)) == (1 + block) % TWO_64
    ensures Counter(HeaderState(k, seqnr, block)) == block % TWO_64
  {
    hide Seeded, Counter, SeqBytes, After;
    StartCounters(k.main, SeqBytes(seqnr));
    StartCounters(k.header, SeqBytes(seqnr));
    AfterCounts(Seeded(k.main, ONE8, SeqBytes(seqnr)), block);
    AfterCounts(Seeded(k.header, ZERO8, SeqBytes(seqnr)), block);
  }

  lemma PayloadNonce(k: Keys, seqnr: nat, block: nat)
    ensures PayloadState(k, seqnr, block)[14..] == Seeded(k.main, ONE8, SeqBytes(seqnr))[14..]
  {
    hide Seeded, Counter, SeqBytes, After;
    AfterCounts(Seeded(k.main, ONE8, SeqBytes(seqnr)), block);
    var x, y := PayloadState(k, seqnr, block), Seeded(k.main, ONE8, SeqBytes(seqnr));
    assert x[14] == y[14] && x[15] == y[15];
  }

  /**
   No key block is used twice: under one key pair, with sequence numbers and block numbers below
   2^64 - 1, two payload blocks have the same state only if they are the same block of the same
   packet, and none has the state behind an authentication key.
   */
  lemma StatesApart(k: Keys, a: nat, i: nat, b: nat, j: nat)
    requires a < TWO_64 && b < TWO_64 && i < TWO_64 - 1 && j < TWO_64 - 1
    ensures PayloadState(k, a, i) == PayloadState(k, b, j) <==> a == b && i == j
    ensures PayloadState(k, a, i) != AuthState(k, b)
    ensures AuthState(k, a) == AuthState(k, b) <==> a == b
  {
    hide Seeded, Counter, SeqBytes, After;
    PacketCounters(k, a, i);
    PacketCounters(k, b, j);
    if PayloadState(k, a, i) == PayloadState(k, b, j) {
      PayloadNonce(k, a, i);
      PayloadNonce(k, b, j);
      NonceInState(k.main, k.main, ONE8, ONE8, SeqBytes(a), SeqBytes(b));
      NonceUnique(a, b);
    }
    if AuthState(k, a) == AuthState(k, b) {
      NonceInState(k.main, k.main, ZERO8, ZERO8, SeqBytes(a), SeqBytes(b));
      NonceUnique(a, b);
    }
  }

  // ----- which key does what

  lemma XorWithNothing(b: Byte)
    ensures XorByte(0, b) == b
  {
  }

  /** The authentication key is the first half of the key block at counter 0. */
  lemma PolyKeyIsKeyBlock(k: Keys, seqnr: nat)
    ensures PolyKey(k, seqnr) == KeyBlock(k.core, AuthState(k, seqnr))[..32]
  {
    hide KeyBlock, XorByte, Seeded, SeqBytes;
    var x := AuthState(k, seqnr);
    StreamShort(k.core, x, ZERO32);
    forall i | 0 <= i < 32 ensures PolyKey(k, seqnr)[i] == KeyBlock(k.core, x)[i] {
      XorWithNothing(KeyBlock(k.core, x)[i]);
    }
  }

  /** Header byte i and payload byte i are XORed with the streams of the header key and of the main key. */
  lemma SealedBytes(k: Keys, seqnr: nat, s: Bytes, aadlen: nat, i: nat)
    requires aadlen <= |s| && i < |s|
    ensures Seal(k, seqnr, s, aadlen)[i] == XorByte(s[i],
      if i < aadlen then KeyBlock(k.core, HeaderState(k, seqnr, i / 64))[i % 64]
      else KeyBlock(k.core, PayloadState(k, seqnr, (i - aadlen) / 64))[(i - aadlen) % 64])
  {
    hide KeyBlock, XorByte, Seeded, SeqBytes, After, Stream, TagOf;
    if i < aadlen {
      StreamAt(k.core, Seeded(k.header, ZERO8, SeqBytes(seqnr)), s[..aadlen], i);
    } else {
      StreamAt(k.core, Seeded(k.main, ONE8, SeqBytes(seqnr)), s[aadlen..], i - aadlen);
    }
  }

  /** The last sixteen bytes authenticate everything before them, under that packet's own key. */
  lemma SealedTag(k: Keys, seqnr: nat, s: Bytes, aadlen: nat)
    requires aadlen <= |s|
    ensures var p := Seal(k, seqnr, s, aadlen);
      |p| == |s| + 16 && p[|s|..] == k.auth(p[..|s|], KeyBlock(k.core, AuthState(k, seqnr))[..32])
  {
    hide KeyBlock, CryptBody, PolyKey, AuthState;
    PolyKeyIsKeyBlock(k, seqnr);
    var body := CryptBody(k, seqnr, s, aadlen);
    assert Seal(k, seqnr, s, aadlen)[..|s|] == body;
  }

  /** A packet opens if and only if its last sixteen bytes are that tag. */
  lemma OpensIff(k: Keys, seqnr: nat, p: Bytes, aadlen: nat)
    requires aadlen + 16 <= |p|
    ensures Open(k, seqnr, p, aadlen).Some? <==>
      p[|p| - 16..] == k.auth(p[..|p| - 16], KeyBlock(k.core, AuthState(k, seqnr))[..32])
  {
    hide KeyBlock, CryptBody, PolyKey, AuthState;
    PolyKeyIsKeyBlock(k, seqnr);
  }

  /** PEEK_U32 reads most significant first. */
  lemma LengthIsBig(b: Bytes)
    requires |b| == 4
    ensures var b0: nat, b1: nat, b2: nat, b3: nat := b[0], b[1], b[2], b[3];
      Big32(b) == 0x100_0000 * b0 + 0x1_0000 * b1 + 0x100 * b2 + b3
  {
  }
}
