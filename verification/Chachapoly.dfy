/** The packet transform of cipher-chachapoly.c, with Poly1305 an arbitrary function. */
module Chachapoly {
  import opened Bits
  import opened Chacha
  import opened ChachaStream
  import opened Wrappers

  const TAG := 16

  const ONE8: Bytes := [1, 0, 0, 0, 0, 0, 0, 0]
  const ZERO32: Bytes := ZERO8 + ZERO8 + ZERO8 + ZERO8

  type Tag = t: Bytes | |t| == TAG witness seq(TAG, _ => 0)

  /** poly1305_auth: a tag from a message and a one-time key. */
  type Authenticator = (Bytes, Bytes) -> Tag

  type KeyHalf = k: seq<Word> | |k| == 12 witness seq(12, _ => 0)

  /** Everything a packet's transformation depends on. */
  datatype Keys = Keys(core: BlockFunction, auth: Authenticator, main: KeyHalf, header: KeyHalf)

  /** POKE_U64: the sequence number as eight bytes, most significant first. */
  function SeqBytes(seqnr: nat): (r: Bytes)
    ensures |r| == 8
  {
    seq(8, i requires 0 <= i < 8 => Digit(seqnr, 7 - i))
  }

  function Digit(n: nat, k: nat): Byte
    decreases k
  {
    if k == 0 then n % 256 else Digit(n / 256, k - 1)
  }

  function PolyKey(k: Keys, seqnr: nat): Bytes {
    Stream(k.core, Seeded(k.main, ZERO8, SeqBytes(seqnr)), ZERO32)
  }

  function CryptHeader(k: Keys, seqnr: nat, s: Bytes): (r: Bytes)
    ensures |r| == |s|
  {
    Stream(k.core, Seeded(k.header, ZERO8, SeqBytes(seqnr)), s)
  }

  function CryptPayload(k: Keys, seqnr: nat, s: Bytes): (r: Bytes)
    ensures |r| == |s|
  {
    Stream(k.core, Seeded(k.main, ONE8, SeqBytes(seqnr)), s)
  }

  /** Header under one key, payload under the other. */
  function CryptBody(k: Keys, seqnr: nat, s: Bytes, aadlen: nat): (r: Bytes)
    requires aadlen <= |s|
    ensures |r| == |s|
  {
    CryptHeader(k, seqnr, s[..aadlen]) + CryptPayload(k, seqnr, s[aadlen..])
  }

  function TagOf(k: Keys, seqnr: nat, cipher: Bytes): Tag {
    k.auth(cipher, PolyKey(k, seqnr))
  }

  /** An encrypted packet: body and tag over the encrypted body. */
  function Seal(k: Keys, seqnr: nat, s: Bytes, aadlen: nat): (r: Bytes)
    requires aadlen <= |s|
    ensures |r| == |s| + TAG
  {
    var body := CryptBody(k, seqnr, s, aadlen);
    body + TagOf(k, seqnr, body)
  }

  /** None when the tag does not match. */
  function Open(k: Keys, seqnr: nat, packet: Bytes, aadlen: nat): (r: Option<Bytes>)
    requires aadlen + TAG <= |packet|
    ensures r.Some? ==> |r.value| + TAG == |packet|
  {
    var body := packet[..|packet| - TAG];
    if TagOf(k, seqnr, body) != packet[|packet| - TAG..] then None else Some(CryptBody(k, seqnr, body, aadlen))
  }

  lemma CryptBodyTwice(k: Keys, seqnr: nat, s: Bytes, aadlen: nat)
    requires aadlen <= |s|
    ensures CryptBody(k, seqnr, CryptBody(k, seqnr, s, aadlen), aadlen) == s
  {
    hide Stream, Seeded, SeqBytes;
    var body := CryptBody(k, seqnr, s, aadlen);
    assert body[..aadlen] == CryptHeader(k, seqnr, s[..aadlen]) && body[aadlen..] == CryptPayload(k, seqnr, s[aadlen..]);
    StreamTwice(k.core, Seeded(k.header, ZERO8, SeqBytes(seqnr)), s[..aadlen]);
    StreamTwice(k.core, Seeded(k.main, ONE8, SeqBytes(seqnr)), s[aadlen..]);
    assert s == s[..aadlen] + s[aadlen..];
  }

  /** Under the same keys and sequence number a sealed packet opens, and gives back what was sealed. */
  lemma OpenSeal(k: Keys, seqnr: nat, s: Bytes, aadlen: nat)
    requires aadlen <= |s|
    ensures Open(k, seqnr, Seal(k, seqnr, s, aadlen), aadlen) == Some(s)
  {
    hide CryptBody, TagOf;
    var body := CryptBody(k, seqnr, s, aadlen);
    var p := Seal(k, seqnr, s, aadlen);
    assert p[..|p| - TAG] == body && p[|p| - TAG..] == TagOf(k, seqnr, body);
    CryptBodyTwice(k, seqnr, s, aadlen);
  }

  function Big32(b: Bytes): nat
    requires |b| == 4
  {
    var b0: nat, b1: nat, b2: nat, b3: nat := b[0], b[1], b[2], b[3];
    ((b0 * 256 + b1) * 256 + b2) * 256 + b3
  }

  /** The length field can be read off a sealed packet before it is opened. */
  lemma LengthOfSealed(k: Keys, seqnr: nat, s: Bytes, aadlen: nat)
    requires 4 <= aadlen <= |s|
    ensures Big32(CryptHeader(k, seqnr, Seal(k, seqnr, s, aadlen)[..4])) == Big32(s[..4])
  {
    hide Stream, Seeded, SeqBytes, TagOf, Big32;
    var x := Seeded(k.header, ZERO8, SeqBytes(seqnr));
    assert Seal(k, seqnr, s, aadlen)[..4] == CryptHeader(k, seqnr, s[..aadlen])[..4];
    StreamPrefix(k.core, x, s[..aadlen], 4);
    assert s[..aadlen][..4] == s[..4];
    StreamTwice(k.core, x, s[..4]);
  }

  /** Within the first block a shorter message gives a prefix of the result. */
  lemma StreamPrefix(core: BlockFunction, x: Input, m: Bytes, n: nat)
    requires n <= |m| && n <= 64
    ensures Stream(core, x, m)[..n] == Stream(core, x, m[..n])
  {
    hide KeyBlock, XorByte, Next;
    StreamShort(core, x, m[..n]);
    if m != [] {
      var w := Min(64, |m|);
      assert Stream(core, x, m)[..w] == XorBytes(m[..w], KeyBlock(core, x)[..w]);
      assert m[..n] == m[..w][..n] && KeyBlock(core, x)[..n] == KeyBlock(core, x)[..w][..n];
      XorBytesPrefix(m[..w], KeyBlock(core, x)[..w], n);
    }
  }

  // ----- the context

  class ChachapolyCtx {
    const core: BlockFunction
    const auth: Authenticator
    const mainCtx: ChachaCtx
    const headerCtx: ChachaCtx

    ghost predicate Valid() {
      mainCtx != headerCtx && mainCtx.core == core && headerCtx.core == core
    }

    /** The keys; counters and nonces left over from earlier packets are no part of them. */
    ghost function K(): Keys
      reads mainCtx, headerCtx
    {
      Keys(core, auth, mainCtx.Key(), headerCtx.Key())
    }

    constructor (core: BlockFunction, auth: Authenticator)
      ensures Valid() && fresh(mainCtx) && fresh(headerCtx)
      ensures this.core == core && this.auth == auth
    {
      this.core := core;
      this.auth := auth;
      mainCtx := new ChachaCtx(core);
      headerCtx := new ChachaCtx(core);
    }

    /** chachapoly_init: two 256-bit keys, and nothing else, are accepted. */
    method Init(key: Bytes) returns (ok: bool)
      requires Valid()
      modifies mainCtx, headerCtx
      ensures ok <==> |key| == 64
      ensures K() == if ok then Keys(core, auth, KeyWords(key, 256), KeyWords(key[32..], 256)) else old(K())
    {
      hide KeyWords;
      if |key| != 32 + 32 {
        return false;
      }
      mainCtx.KeySetup(key, 256);
      headerCtx.KeySetup(key[32..], 256);
      ok := true;
    }

    /** Seed one of the two contexts and run it over a stretch of the buffers. */
    method Run(ctx: ChachaCtx, seqnr: nat, counter: Option<Bytes>, src: array<Byte>, dest: array<Byte>, at: nat, len: nat)
      requires ctx.core == core && (counter.Some? ==> |counter.value| == 8)
      requires at + len <= src.Length && at + len <= dest.Length
      modifies ctx, dest
      ensures ctx.Key() == old(ctx.Key())
      ensures var x := Seeded(old(ctx.Key()), if counter.Some? then counter.value else ZERO8, SeqBytes(seqnr));
        dest[..] == Spliced(old(dest[..]), at, Stream(core, x, old(src[..])[at..at + len]))
    {
      hide Stream, Spliced, LoadWords, SeqBytes, Load32;
      ctx.IvSetup(SeqBytes(seqnr), counter);
      AfterCounts(ctx.input, BlockCount(len));
      ctx.EncryptBytes(src, at, dest, at, len);
      SeededKey(old(ctx.Key()), if counter.Some? then counter.value else ZERO8, SeqBytes(seqnr));
    }

    /** The one-time authentication key: the first 32 bytes of the main key stream. */
    method MakePolyKey(seqnr: nat) returns (key: Bytes)
      requires Valid()
      modifies mainCtx
      ensures K() == old(K()) && key == PolyKey(K(), seqnr)
    {
      hide Stream, Seeded, SeqBytes, Spliced;
      var buf := new Byte[32](_ => 0);
      assert buf[..] == ZERO32 && ZERO32[0..32] == ZERO32;
      Run(mainCtx, seqnr, None, buf, buf, 0, 32);
      key := buf[..];
      SplicedAll(ZERO32, key, PolyKey(K(), seqnr));
    }

    /** Header and payload from src to dest, each under its own key. */
    method CryptBoth(seqnr: nat, dest: array<Byte>, src: array<Byte>, aadlen: nat, len: nat)
      requires Valid() && aadlen + len <= src.Length && aadlen + len <= dest.Length
      modifies mainCtx, headerCtx, dest
      ensures K() == old(K())
      ensures dest[..] == Spliced(old(dest[..]), 0, CryptBody(K(), seqnr, old(src[..])[..aadlen + len], aadlen))
    {
      hide Stream, Seeded, SeqBytes, Spliced;
      ghost var k, d0, s0 := K(), dest[..], src[..];
      ghost var h := CryptHeader(k, seqnr, s0[0..aadlen]);
      if aadlen > 0 {
        Run(headerCtx, seqnr, None, src, dest, 0, aadlen);
      } else {
        EmptySplice(d0, h);
      }
      HeaderLeavesPayload(s0, h, len);
      Run(mainCtx, seqnr, Some(ONE8), src, dest, aadlen, len);
      BodyInTwoRuns(k, seqnr, s0, d0, aadlen, len);
    }

    /**
     chachapoly_crypt, with dest another buffer or src itself. Encrypting seals the packet;
     decrypting checks the tag first and, on a mismatch, reports SSH_ERR_MAC_INVALID (false)
     with the destination untouched.
     */
    method Crypt(seqnr: nat, dest: array<Byte>, src: array<Byte>, len: nat, aadlen: nat, encrypting: bool) returns (ok: bool)
      requires Valid()
      requires aadlen + len + (if encrypting then 0 else TAG) <= src.Length
      requires aadlen + len + (if encrypting then TAG else 0) <= dest.Length
      modifies mainCtx, headerCtx, dest
      ensures K() == old(K())
      ensures encrypting ==> ok
      ensures encrypting ==> dest[..] == Spliced(old(dest[..]), 0, Seal(K(), seqnr, old(src[..])[..aadlen + len], aadlen))
      ensures !encrypting ==>
        (var body := Open(K(), seqnr, old(src[..])[..aadlen + len + TAG], aadlen);
        ok == body.Some? && dest[..] == if ok then Spliced(old(dest[..]), 0, body.value) else old(dest[..]))
    {
      hide Stream, Seeded, SeqBytes, Spliced, Open, CryptBody, PolyKey, Seal;
      ghost var k, s0, d0, n := K(), src[..], dest[..], aadlen + len;
      var key := MakePolyKey(seqnr);
      if !encrypting {
        var tag := auth(src[..aadlen + len], key);
        OpenCases(k, seqnr, s0, n, aadlen);
        if tag != src[aadlen + len..aadlen + len + TAG] {
          return false;
        }
      }
      CryptBoth(seqnr, dest, src, aadlen, len);
      if encrypting {
        var tag := auth(dest[..aadlen + len], key);
        ghost var d1 := dest[..];
        StoreBytes(dest, aadlen + len, tag);
        StoredIsSpliced(d1, dest[..], n, tag);
        SealInTwo(k, seqnr, s0[..n], d0, aadlen);
      }
      ok := true;
    }

    /** chachapoly_get_length: the length field of a packet of which at least four bytes have come. */
    method GetLength(seqnr: nat, cp: array<Byte>, len: nat) returns (plen: Option<nat>)
      requires Valid() && len <= cp.Length
      modifies headerCtx
      ensures K() == old(K())
      ensures plen == if len < 4 then None else Some(Big32(CryptHeader(K(), seqnr, cp[..4])))
    {
      hide Stream, Seeded, SeqBytes, Spliced;
      if len < 4 {
        return None;
      }
      var buf := new Byte[4];
      ghost var b0 := buf[..];
      assert cp[..][0..4] == cp[..4];
      Run(headerCtx, seqnr, None, cp, buf, 0, 4);
      SplicedAll(b0, buf[..], CryptHeader(K(), seqnr, cp[..4]));
      plen := Some(Big32(buf[..]));
    }
  }

  lemma SeededKey(key: seq<Word>, counter: Bytes, iv: Bytes)
    requires |key| == 12 && |counter| == 8 && |iv| == 8
    ensures Seeded(key, counter, iv)[..12] == key
  {
  }

  lemma SplicedAll(s: Bytes, t: Bytes, out: Bytes)
    requires |out| == |s| && t == Spliced(s, 0, out)
    ensures t == out
  {
  }

  lemma EmptySplice(s: Bytes, out: Bytes)
    requires out == []
    ensures Spliced(s, 0, out) == s
  {
  }

  lemma HeaderLeavesPayload(s: Bytes, h: Bytes, len: nat)
    requires |h| + len <= |s|
    ensures Spliced(s, 0, h)[|h|..|h| + len] == s[|h|..|h| + len]
  {
  }

  lemma BodyInTwoRuns(k: Keys, seqnr: nat, s: Bytes, d: Bytes, aadlen: nat, len: nat)
    requires aadlen + len <= |s| && aadlen + len <= |d|
    ensures var h, p := CryptHeader(k, seqnr, s[0..aadlen]), CryptPayload(k, seqnr, s[aadlen..aadlen + len]);
      Spliced(Spliced(d, 0, h), aadlen, p) == Spliced(d, 0, CryptBody(k, seqnr, s[..aadlen + len], aadlen))
  {
    hide Spliced, CryptHeader, CryptPayload;
    assert s[..aadlen + len][..aadlen] == s[0..aadlen] && s[..aadlen + len][aadlen..] == s[aadlen..aadlen + len];
    SplicedMore(d, 0, CryptHeader(k, seqnr, s[0..aadlen]), CryptPayload(k, seqnr, s[aadlen..aadlen + len]));
  }

  lemma OpenCases(k: Keys, seqnr: nat, s: Bytes, n: nat, aadlen: nat)
    requires aadlen <= n && n + TAG <= |s|
    ensures Open(k, seqnr, s[..n + TAG], aadlen)
      == if TagOf(k, seqnr, s[..n]) != s[n..n + TAG] then None else Some(CryptBody(k, seqnr, s[..n], aadlen))
  {
    hide CryptBody, TagOf;
    assert s[..n + TAG][..n] == s[..n] && s[..n + TAG][n..] == s[n..n + TAG];
  }

  lemma StoredIsSpliced(s: Bytes, t: Bytes, at: nat, out: Bytes)
    requires |s| == |t| && at + |out| <= |s| && t[at..at + |out|] == out
    requires forall i | 0 <= i < |s| && !(at <= i < at + |out|) :: t[i] == s[i]
    ensures t == Spliced(s, at, out)
  {
    assert t == t[..at] + t[at..at + |out|] + t[at + |out|..];
  }

  /** Writing the body and then the tag over the written body is writing the sealed packet. */
  lemma SealInTwo(k: Keys, seqnr: nat, s: Bytes, d: Bytes, aadlen: nat)
    requires aadlen <= |s| && |s| + TAG <= |d|
    ensures var d1 := Spliced(d, 0, CryptBody(k, seqnr, s, aadlen));
      |d1| == |d| && Spliced(d1, |s|, TagOf(k, seqnr, d1[..|s|])) == Spliced(d, 0, Seal(k, seqnr, s, aadlen))
  {
    hide CryptBody, TagOf;
    var body := CryptBody(k, seqnr, s, aadlen);
    assert Spliced(d, 0, body)[..|s|] == body;
    SplicedMore(d, 0, body, TagOf(k, seqnr, body));
  }
}
