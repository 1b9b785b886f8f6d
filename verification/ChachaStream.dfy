/** chacha_encrypt_bytes, chacha_keysetup and chacha_ivsetup, on buffers and in place. */
module ChachaStream {
  import opened Bits
  import opened Chacha
  import opened Wrappers

  lemma XorBytesAppend(a: Bytes, b: Bytes, c: Bytes, d: Bytes)
    requires |a| == |b| && |c| == |d|
    ensures XorBytes(a + c, b + d) == XorBytes(a, b) + XorBytes(c, d)
  {
    hide XorByte;
  }

  lemma XorBytesCommute(a: Bytes, b: Bytes)
    requires |a| == |b|
    ensures XorBytes(a, b) == XorBytes(b, a)
  {
    hide XorByte;
    forall i | 0 <= i < |a| ensures XorByte(a[i], b[i]) == XorByte(b[i], a[i]) {
      XorByteCommutes(a[i], b[i]);
    }
  }

  lemma XorByteCommutes(a: Byte, b: Byte)
    ensures XorByte(a, b) == XorByte(b, a)
  {
    XorCommutes(a, b);
  }

  lemma {:induction false} XorCommutes(a: nat, b: nat)
    ensures Xor(a, b) == Xor(b, a)
  {
    if a > 0 && b > 0 {
      XorCommutes(a / 2, b / 2);
    }
  }

  /** Mix 64 message bytes with one key block, a word at a time. */
  method XorBlock(core: BlockFunction, msg: Bytes, x: Input) returns (out: Bytes)
    requires |msg| == 64
    ensures out == XorBytes(msg, KeyBlock(core, x))
  {
    hide Store32, Load32, XorByte;
    var ks: seq<Word> := core(x);
    out := [];
    for w := 0 to 16
      invariant out == XorBytes(msg[..4 * w], StoreWords(ks[..w]))
    {
      var b := msg[4 * w..4 * w + 4];
      StoreXorLoad(ks[w], b);
      XorBytesCommute(Store32(ks[w]), b);
      assert ks[..w + 1][..w] == ks[..w] && msg[..4 * w + 4] == msg[..4 * w] + b;
      XorBytesAppend(msg[..4 * w], StoreWords(ks[..w]), b, Store32(ks[w]));
      out := out + Store32(XorWord(ks[w], Load32(b)));
    }
    assert ks[..16] == ks && msg[..64] == msg;
  }

  /** A stretch of at most one block is mixed with the start of that block's key stream. */
  lemma StreamShort(core: BlockFunction, x: Input, m: Bytes)
    requires |m| <= 64
    ensures Stream(core, x, m) == XorBytes(m, KeyBlock(core, x)[..|m|])
  {
    hide KeyBlock, XorByte, Next;
    if m != [] {
      assert m[..|m|] == m && m[|m|..] == [];
    }
  }

  /** Going on after pos bytes, a multiple of 64, with a stretch of at most one block. */
  lemma StreamGrows(core: BlockFunction, x: Input, m: Bytes, pos: nat, n: nat)
    requires pos % 64 == 0 && n <= 64 && pos + n <= |m|
    ensures Stream(core, x, m[..pos + n])
      == Stream(core, x, m[..pos]) + XorBytes(m[pos..pos + n], KeyBlock(core, After(x, pos / 64))[..n])
  {
    hide KeyBlock, XorByte, Stream, After;
    assert m[..pos + n] == m[..pos] + m[pos..pos + n];
    StreamSplits(core, x, m[..pos], m[pos..pos + n]);
    StreamShort(core, After(x, pos / 64), m[pos..pos + n]);
  }

  /** The 64 bytes to mix: straight from the message, or a short rest copied into a scratch buffer. */
  method LoadBlock(m: array<Byte>, from: nat, n: nat) returns (block: Bytes)
    requires 0 < n <= 64 && from + n <= m.Length
    ensures |block| == 64 && block[..n] == m[from..from + n]
  {
    if n == 64 {
      return m[from..from + 64];
    }
    var tmp := new Byte[64];
    for i := 0 to n
      invariant forall k | 0 <= k < i :: tmp[k] == m[from + k]
    {
      tmp[i] := m[from + i];
    }
    block := tmp[..];
  }

  method StoreBytes(c: array<Byte>, at: nat, out: Bytes)
    requires at + |out| <= c.Length
    modifies c
    ensures c[at..at + |out|] == out
    ensures forall i | 0 <= i < c.Length && !(at <= i < at + |out|) :: c[i] == old(c[i])
  {
    for i := 0 to |out|
      invariant forall k | 0 <= k < i :: c[at + k] == out[k]
      invariant forall k | 0 <= k < c.Length && !(at <= k < at + |out|) :: c[k] == old(c[k])
    {
      c[at + i] := out[i];
    }
  }

  lemma XorBytesPrefix(a: Bytes, b: Bytes, n: nat)
    requires |a| == |b| && n <= |a|
    ensures XorBytes(a, b)[..n] == XorBytes(a[..n], b[..n])
  {
    hide XorByte;
  }

  /** s with the bytes from at on replaced by out. */
  function Spliced(s: Bytes, at: nat, out: Bytes): Bytes
    requires at + |out| <= |s|
  {
    s[..at] + out + s[at + |out|..]
  }

  /** One more block: n message bytes mixed with the key block of x; the rest of both buffers stays. */
  method CryptBlock(core: BlockFunction, x: Input, m: array<Byte>, from: nat, c: array<Byte>, at: nat, n: nat)
    requires 0 < n <= 64 && from + n <= m.Length && at + n <= c.Length
    requires m != c || from == at
    modifies c
    ensures c[..] == Spliced(old(c[..]), at, XorBytes(old(m[..])[from..from + n], KeyBlock(core, x)[..n]))
    ensures m[..][from + n..] == old(m[..])[from + n..]
  {
    hide KeyBlock, XorBytes;
    var block := LoadBlock(m, from, n);
    var out := XorBlock(core, block, x);
    XorBytesPrefix(block, KeyBlock(core, x), n);
    assert block[..n] == m[..][from..from + n];
    StoreBytes(c, at, out[..n]);
    assert c[..] == c[..at] + c[at..at + n] + c[at + n..];
  }

  const SIGMA: Bytes := [101, 120, 112, 97, 110, 100, 32, 51, 50, 45, 98, 121, 116, 101, 32, 107] // "expand 32-byte k"
  const TAU: Bytes := [101, 120, 112, 97, 110, 100, 32, 49, 54, 45, 98, 121, 116, 101, 32, 107]   // "expand 16-byte k"

  function LoadWords(b: Bytes, n: nat): (r: seq<Word>)
    requires 4 * n <= |b|
    ensures |r| == n
  {
    seq(n, i requires 0 <= i < n => Load32(b[4 * i..4 * i + 4]))
  }

  /** The first twelve words of a state: constants and key. */
  function KeyWords(k: Bytes, kbits: nat): (r: seq<Word>)
    requires |k| >= if kbits == 256 then 32 else 16
    ensures |r| == 12
  {
    LoadWords(if kbits == 256 then SIGMA else TAU, 4) + LoadWords(k, 4) + LoadWords(if kbits == 256 then k[16..] else k, 4)
  }

  /** A state from its key words, counter and nonce. */
  function Seeded(key: seq<Word>, counter: Bytes, iv: Bytes): Input
    requires |key| == 12 && |counter| == 8 && |iv| == 8
  {
    key + LoadWords(counter, 2) + LoadWords(iv, 2)
  }

  const ZERO8: Bytes := [0, 0, 0, 0, 0, 0, 0, 0]

  lemma ZeroWords()
    ensures Load32(ZERO8[0..4]) == 0 && Load32(ZERO8[4..8]) == 0
  {
    hide Load32;
    assert ZERO8[0..4] == ZERO8[4..8] == [0, 0, 0, 0];
    LoadZero();
  }

  lemma LoadZero()
    ensures Load32([0, 0, 0, 0]) == 0
  {
    hide Load32, Bit;
    var z: Bytes := [0, 0, 0, 0];
    forall n: nat | n < 32 ensures Bit(Load32(z), n) == Bit(0, n) {
      Load32Bit(z, n);
      BitOfZero(n % 8);
      BitOfZero(n);
    }
    WordFits(Load32(z));
    WordFits(0);
    BitsDecide(Load32(z), 0, 32);
  }

  /** Twelve words that are, one by one, the constants and the two halves of the key. */
  lemma KeyWordsAre(x: seq<Word>, k: Bytes, kbits: nat)
    requires |x| == 16 && |k| >= if kbits == 256 then 32 else 16
    requires var cs, rest := if kbits == 256 then SIGMA else TAU, if kbits == 256 then k[16..] else k;
      forall i | 0 <= i < 4 ::
        && x[i] == Load32(cs[4 * i..4 * i + 4])
        && x[4 + i] == Load32(k[4 * i..4 * i + 4])
        && x[8 + i] == Load32(rest[4 * i..4 * i + 4])
    ensures x[..12] == KeyWords(k, kbits)
  {
    hide Load32;
    var cs, rest := if kbits == 256 then SIGMA else TAU, if kbits == 256 then k[16..] else k;
    assert x[0..4] == LoadWords(cs, 4);
    assert x[4..8] == LoadWords(k, 4);
    assert x[8..12] == LoadWords(rest, 4);
    assert x[..12] == x[0..4] + x[4..8] + x[8..12];
  }

  lemma SeededWords(x: seq<Word>, key: seq<Word>, counter: Bytes, iv: Bytes)
    requires |x| == 16 && |key| == 12 && |counter| == 8 && |iv| == 8 && x[..12] == key
    requires x[12] == Load32(counter[0..4]) && x[13] == Load32(counter[4..8])
    requires x[14] == Load32(iv[0..4]) && x[15] == Load32(iv[4..8])
    ensures x == Seeded(key, counter, iv)
  {
    hide Load32;
    assert x[12..14] == LoadWords(counter, 2);
    assert x[14..16] == LoadWords(iv, 2);
    assert x == x[..12] + x[12..14] + x[14..16];
  }

  class ChachaCtx {
    const core: BlockFunction
    var input: Input

    constructor (core: BlockFunction)
      ensures this.core == core
    {
      this.core := core;
      input := seq(16, _ => 0);
    }

    ghost function Key(): (r: seq<Word>)
      reads this
      ensures |r| == 12
    {
      input[..12]
    }

    /** chacha_keysetup. */
    method KeySetup(k: Bytes, kbits: nat)
      requires |k| >= if kbits == 256 then 32 else 16
      modifies this
      ensures Key() == KeyWords(k, kbits) && input[12..] == old(input[12..])
    {
      hide Load32;
      var x: seq<Word> := input;
      x := x[4 := Load32(k[0..4])];
      x := x[5 := Load32(k[4..8])];
      x := x[6 := Load32(k[8..12])];
      x := x[7 := Load32(k[12..16])];
      var rest, constants := k, TAU;
      if kbits == 256 {
        rest, constants := k[16..], SIGMA;
      }
      x := x[8 := Load32(rest[0..4])];
      x := x[9 := Load32(rest[4..8])];
      x := x[10 := Load32(rest[8..12])];
      x := x[11 := Load32(rest[12..16])];
      x := x[0 := Load32(constants[0..4])];
      x := x[1 := Load32(constants[4..8])];
      x := x[2 := Load32(constants[8..12])];
      x := x[3 := Load32(constants[12..16])];
      KeyWordsAre(x, k, kbits);
      input := x;
    }

    /** chacha_ivsetup; no counter means zero. */
    method IvSetup(iv: Bytes, counter: Option<Bytes>)
      requires |iv| == 8 && (counter.Some? ==> |counter.value| == 8)
      modifies this
      ensures input == Seeded(old(Key()), if counter.Some? then counter.value else ZERO8, iv)
    {
      hide Load32;
      ZeroWords();
      var x: seq<Word> := input;
      x := x[12 := if counter == None then 0 else Load32(counter.value[0..4])];
      x := x[13 := if counter == None then 0 else Load32(counter.value[4..8])];
      x := x[14 := Load32(iv[0..4])];
      x := x[15 := Load32(iv[4..8])];
      SeededWords(x, input[..12], if counter.Some? then counter.value else ZERO8, iv);
      input := x;
    }

    /**
     chacha_encrypt_bytes. The last, short block goes through a buffer of which only the first
     bytes are ever set; m and c may be the same buffer at the same place.
     */
    method EncryptBytes(m: array<Byte>, from: nat, c: array<Byte>, at: nat, bytes: nat)
      requires from + bytes <= m.Length && at + bytes <= c.Length
      requires m != c || from == at
      modifies this, c
      ensures c[..] == Spliced(old(c[..]), at, Stream(core, old(input), old(m[..])[from..from + bytes]))
      ensures input == After(old(input), BlockCount(bytes))
    {
      hide *;
      ghost var job := Job(core, input, c[..], at, m[..], from, bytes);
      var x, pos := input, 0;
      JobStarts(job);
      while pos < bytes
        invariant pos <= bytes && JobAt(job, c[..], m[..], x, pos)
        modifies c
      {
        var n := if bytes - pos < 64 then bytes - pos else 64;
        ghost var cNow, mNow := c[..], m[..];
        CryptBlock(core, x, m, from + pos, c, at + pos, n);
        JobStep(job, cNow, mNow, c[..], m[..], x, pos, n);
        x := Next(x);
        pos := pos + n;
      }
      JobEnds(job, c[..], m[..], x);
      input := x;
    }
  }

  /** One call of chacha_encrypt_bytes: the state and both buffers as it found them. */
  datatype Job = Job(core: BlockFunction, x: Input, c: Bytes, at: nat, m: Bytes, from: nat, bytes: nat) {
    predicate Valid() {
      from + bytes <= |m| && at + bytes <= |c|
    }

    function Message(): (r: Bytes)
      requires Valid()
      ensures |r| == bytes
    {
      m[from..from + bytes]
    }
  }

  /** The job after pos bytes, whole blocks or everything. */
  predicate JobAt(job: Job, c: Bytes, m: Bytes, x: Input, pos: nat) {
    && job.Valid() && Progress(job.x, x, pos, job.bytes)
    && |m| == |job.m| && m[job.from + pos..] == job.m[job.from + pos..]
    && c == Spliced(job.c, job.at, Stream(job.core, job.x, job.Message()[..pos]))
  }

  lemma JobStarts(job: Job)
    requires job.from + job.bytes <= |job.m| && job.at + job.bytes <= |job.c|
    ensures JobAt(job, job.c, job.m, job.x, 0)
  {
  }

  lemma JobEnds(job: Job, c: Bytes, m: Bytes, x: Input)
    requires JobAt(job, c, m, x, job.bytes)
    ensures c == Spliced(job.c, job.at, Stream(job.core, job.x, job.m[job.from..job.from + job.bytes]))
    ensures x == After(job.x, BlockCount(job.bytes))
  {
    hide Stream, Spliced, After;
    assert job.Message()[..job.bytes] == job.Message();
  }

  lemma JobStep(job: Job, c: Bytes, m: Bytes, c': Bytes, m': Bytes, x: Input, pos: nat, n: nat)
    requires pos < job.bytes && JobAt(job, c, m, x, pos) && n == (if job.bytes - pos < 64 then job.bytes - pos else 64)
    requires job.from + pos + n <= |m| && job.at + pos + n <= |c| == |job.c|
    requires c' == Spliced(c, job.at + pos, XorBytes(m[job.from + pos..job.from + pos + n], KeyBlock(job.core, x)[..n]))
    requires |m'| == |m| && m'[job.from + pos + n..] == m[job.from + pos + n..]
    ensures JobAt(job, c', m', Next(x), pos + n)
  {
    hide Stream, Spliced, After, KeyBlock, XorBytes, Next, BlockCount;
    var msg := job.Message();
    ProgressStep(job.x, x, pos, n, job.bytes);
    StreamGrows(job.core, job.x, msg, pos, n);
    Stretch(m, job.m, job.from, pos, n, job.bytes);
    SplicedMore(job.c, job.at, Stream(job.core, job.x, msg[..pos]), XorBytes(msg[pos..pos + n], KeyBlock(job.core, x)[..n]));
  }

  lemma SplicedMore(s: Bytes, at: nat, a: Bytes, b: Bytes)
    requires at + |a| + |b| <= |s|
    ensures Spliced(Spliced(s, at, a), at + |a|, b) == Spliced(s, at, a + b)
  {
    var t := Spliced(s, at, a);
    assert t[..at + |a|] == s[..at] + a;
    assert t[at + |a| + |b|..] == s[at + |a| + |b|..];
  }

  lemma SuffixAt(a: Bytes, b: Bytes, k: nat)
    requires |a| == |b| && k <= |a| && a[k..] == b[k..]
    ensures forall i | k <= i < |a| :: a[i] == b[i]
  {
    forall i | k <= i < |a| ensures a[i] == b[i] {
      assert a[k..][i - k] == b[k..][i - k];
    }
  }

  lemma Stretch(now: Bytes, was: Bytes, from: nat, pos: nat, n: nat, bytes: nat)
    requires |now| == |was| && from + bytes <= |was| && pos + n <= bytes && now[from + pos..] == was[from + pos..]
    ensures now[from + pos..from + pos + n] == was[from..from + bytes][pos..pos + n]
    ensures now[from + pos + n..] == was[from + pos + n..]
  {
    SuffixAt(now, was, from + pos);
    var a, b := now[from + pos..from + pos + n], was[from..from + bytes][pos..pos + n];
    forall i | 0 <= i < n ensures a[i] == b[i] {
      assert b[i] == was[from + pos + i] && a[i] == now[from + pos + i];
    }
  }

  /** After pos bytes, whole blocks or everything, the working state is that many blocks on. */
  predicate Progress(x0: Input, x: Input, pos: nat, bytes: nat) {
    pos <= bytes && (pos % 64 == 0 || pos == bytes) && x == After(x0, BlockCount(pos))
  }

  lemma ProgressStep(x0: Input, x: Input, pos: nat, n: nat, bytes: nat)
    requires Progress(x0, x, pos, bytes) && pos < bytes && n == Min(64, bytes - pos)
    ensures Progress(x0, Next(x), pos + n, bytes) && x == After(x0, pos / 64) && pos % 64 == 0
  {
    hide Next;
    AfterAdds(x0, pos / 64, 1);
    assert After(After(x0, pos / 64), 1) == Next(After(x0, pos / 64));
    assert BlockCount(pos) == pos / 64 && BlockCount(pos + n) == pos / 64 + 1;
  }
}
