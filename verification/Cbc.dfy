/**
 ssh_rijndael_cbc of cipher-aes.c over an arbitrary block permutation. Decryption runs backwards
 so that it can work in place, each block still finding the ciphertext block before it.
 */
module Cbc {
  import opened Bits

  const BLOCK := 16

  type Block = b: Bytes | |b| == BLOCK witness seq(BLOCK, _ => 0)

  /** rijndael_encrypt and rijndael_decrypt under one key. */
  datatype Cipher = Cipher(encrypt: Block -> Block, decrypt: Block -> Block) {
    ghost predicate Inverse() {
      forall b :: decrypt(encrypt(b)) == b
    }
  }

  function Mix(a: Block, b: Block): Block {
    XorBytes(a, b)
  }

  lemma MixCancels(a: Block, b: Block)
    ensures Mix(Mix(a, b), b) == a
  {
    XorBytesCancel(a, b);
  }

  /** Cipher block chaining: each block is mixed with the ciphertext before it, then encrypted. */
  function Encrypt(c: Cipher, iv: Block, s: seq<Block>): (r: seq<Block>)
    ensures |r| == |s|
    decreases |s|
  {
    if s == [] then []
    else
      var b := c.encrypt(Mix(s[0], iv));
      [b] + Encrypt(c, b, s[1..])
  }

  function Decrypt(c: Cipher, iv: Block, s: seq<Block>): (r: seq<Block>)
    ensures |r| == |s|
    ensures forall i | 0 <= i < |s| :: r[i] == Mix(c.decrypt(s[i]), if i == 0 then iv else s[i - 1])
    decreases |s|
  {
    if s == [] then [] else [Mix(c.decrypt(s[0]), iv)] + Decrypt(c, s[0], s[1..])
  }

  /** The chaining value after a call: the last ciphertext block, or the old one if there was none. */
  function Chain(iv: Block, cipher: seq<Block>): Block {
    if cipher == [] then iv else cipher[|cipher| - 1]
  }

  /** Decryption inverts encryption under the same starting value. */
  lemma {:induction false} DecryptEncrypt(c: Cipher, iv: Block, s: seq<Block>)
    requires c.Inverse()
    ensures Decrypt(c, iv, Encrypt(c, iv, s)) == s
    decreases |s|
  {
    hide Mix;
    if s != [] {
      var b := c.encrypt(Mix(s[0], iv));
      MixCancels(s[0], iv);
      assert Encrypt(c, iv, s)[1..] == Encrypt(c, b, s[1..]);
      DecryptEncrypt(c, b, s[1..]);
    }
  }

  /** Two calls, the second starting from the chaining value the first left, are one call. */
  lemma {:induction false} EncryptSplits(c: Cipher, iv: Block, a: seq<Block>, b: seq<Block>)
    ensures var e := Encrypt(c, iv, a); var f := Encrypt(c, Chain(iv, e), b);
      Encrypt(c, iv, a + b) == e + f && Chain(iv, e + f) == Chain(Chain(iv, e), f)
    decreases |a|
  {
    hide Mix;
    if a == [] {
      assert a + b == b;
    } else {
      var x := c.encrypt(Mix(a[0], iv));
      assert (a + b)[1..] == a[1..] + b;
      EncryptSplits(c, x, a[1..], b);
      var e := Encrypt(c, x, a[1..]);
      assert Chain(iv, [x] + e) == Chain(x, e);
      var f := Encrypt(c, Chain(x, e), b);
      assert [x] + (e + f) == ([x] + e) + f;
    }
  }

  lemma DecryptSplits(c: Cipher, iv: Block, a: seq<Block>, b: seq<Block>)
    ensures Decrypt(c, iv, a + b) == Decrypt(c, iv, a) + Decrypt(c, Chain(iv, a), b)
    ensures Chain(iv, a + b) == Chain(Chain(iv, a), b)
  {
    hide Mix;
    var l, r := Decrypt(c, iv, a + b), Decrypt(c, iv, a) + Decrypt(c, Chain(iv, a), b);
    forall i | 0 <= i < |l| ensures l[i] == r[i] {
      if i < |a| {
        assert (a + b)[i] == a[i] && (i > 0 ==> (a + b)[i - 1] == a[i - 1]);
      } else {
        assert (a + b)[i] == b[i - |a|];
        assert i > 0 ==> (a + b)[i - 1] == if i == |a| then Chain(iv, a) else b[i - |a| - 1];
      }
    }
  }

  lemma {:induction false} EncryptAt(c: Cipher, iv: Block, s: seq<Block>, i: nat)
    requires i < |s|
    ensures var e := Encrypt(c, iv, s); e[i] == c.encrypt(Mix(s[i], if i == 0 then iv else e[i - 1]))
    decreases |s|
  {
    hide Mix;
    if i > 0 {
      var b := c.encrypt(Mix(s[0], iv));
      EncryptAt(c, b, s[1..], i - 1);
    }
  }

  // ----- the buffers

  ghost function BlockAt(a: array<Byte>, i: nat): Block
    requires BLOCK * i + BLOCK <= a.Length
    reads a
  {
    a[BLOCK * i..BLOCK * i + BLOCK]
  }

  /** The first n blocks of a buffer. */
  ghost function BlocksOf(a: array<Byte>, n: nat): (r: seq<Block>)
    requires BLOCK * n <= a.Length
    reads a
    ensures |r| == n && forall i | 0 <= i < n :: r[i] == BlockAt(a, i)
  {
    seq(n, i requires 0 <= i < n reads a => BlockAt(a, i))
  }

  /** Load block i of src, exclusive or-ed with iv. */
  method LoadMixed(src: array<Byte>, i: nat, iv: Block) returns (buf: Block)
    requires BLOCK * i + BLOCK <= src.Length
    ensures buf == Mix(BlockAt(src, i), iv)
  {
    hide XorByte;
    var r: Bytes := [];
    for j := 0 to BLOCK
      invariant |r| == j && forall x | 0 <= x < j :: r[x] == XorByte(src[BLOCK * i + x], iv[x])
    {
      r := r + [XorByte(src[BLOCK * i + j], iv[j])];
    }
    buf := r;
  }

  method StoreBlock(dest: array<Byte>, i: nat, b: Block)
    requires BLOCK * i + BLOCK <= dest.Length
    modifies dest
    ensures BlockAt(dest, i) == b
    ensures forall k: nat | k != i && BLOCK * k + BLOCK <= dest.Length :: BlockAt(dest, k) == old(BlockAt(dest, k))
    ensures forall x | BLOCK * i + BLOCK <= x < dest.Length :: dest[x] == old(dest[x])
  {
    for j := 0 to BLOCK
      invariant forall x | 0 <= x < j :: dest[BLOCK * i + x] == b[x]
      invariant forall x | 0 <= x < dest.Length && !(BLOCK * i <= x < BLOCK * i + BLOCK) :: dest[x] == old(dest[x])
    {
      dest[BLOCK * i + j] := b[j];
    }
  }

  lemma DecryptAt(c: Cipher, iv: Block, s: seq<Block>, i: nat)
    requires i < |s|
    ensures Decrypt(c, iv, s)[i] == Mix(c.decrypt(s[i]), if i == 0 then iv else s[i - 1])
  {
    hide Mix;
  }

  /** Ciphertext block i encrypts, byte by byte, the plaintext XOR what precedes it. */
  lemma EncryptsXored(c: Cipher, iv: Block, s: seq<Block>, i: nat, x: Block)
    requires i < |s| && forall j | 0 <= j < 16 :: x[j] == XorByte(s[i][j], if i == 0 then iv[j] else Encrypt(c, iv, s)[i - 1][j])
    ensures Encrypt(c, iv, s)[i] == c.encrypt(x)
  {
    hide Encrypt, XorByte;
    EncryptAt(c, iv, s, i);
    assert x == Mix(s[i], if i == 0 then iv else Encrypt(c, iv, s)[i - 1]);
  }

  /** Plaintext block i is, byte by byte, the decrypted block XOR the ciphertext that precedes it. */
  lemma DecryptsXored(c: Cipher, iv: Block, s: seq<Block>, i: nat, j: nat)
    requires i < |s| && j < 16
    ensures Decrypt(c, iv, s)[i][j] == XorByte(c.decrypt(s[i])[j], if i == 0 then iv[j] else s[i - 1][j])
  {
    hide Decrypt, XorByte;
    DecryptAt(c, iv, s, i);
  }

  /** Under a cipher that merges no blocks, two blocks look alike exactly when their XORs do. */
  lemma AlikeIff(c: Cipher, iv: Block, s: seq<Block>, i: nat, j: nat)
    requires i < |s| && j < |s| && c.Inverse()
    ensures var e := Encrypt(c, iv, s);
      e[i] == e[j] <==>
        forall b | 0 <= b < 16 ::
          XorByte(s[i][b], if i == 0 then iv[b] else e[i - 1][b]) == XorByte(s[j][b], if j == 0 then iv[b] else e[j - 1][b])
  {
    hide Encrypt, XorByte;
    var e := Encrypt(c, iv, s);
    var x, y := Mix(s[i], if i == 0 then iv else e[i - 1]), Mix(s[j], if j == 0 then iv else e[j - 1]);
    EncryptsXored(c, iv, s, i, x);
    EncryptsXored(c, iv, s, j, y);
    assert c.decrypt(c.encrypt(x)) == x && c.decrypt(c.encrypt(y)) == y;
    assert x == y <==> forall b | 0 <= b < 16 :: x[b] == y[b];
  }

  /** The context: key schedule and running chaining value. */
  class CbcContext {
    const cipher: Cipher
    var iv: Block

    constructor (cipher: Cipher, iv: Block)
      ensures this.cipher == cipher && this.iv == iv
    {
      this.cipher := cipher;
      this.iv := iv;
    }

    /** The encrypting half of ssh_rijndael_cbc; dest and src may be the same buffer. */
    method EncryptBlocks(dest: array<Byte>, src: array<Byte>, blocks: nat)
      requires BLOCK * blocks <= src.Length && BLOCK * blocks <= dest.Length
      modifies this`iv, dest
      ensures BlocksOf(dest, blocks) == Encrypt(cipher, old(iv), old(BlocksOf(src, blocks)))
      ensures iv == Chain(old(iv), BlocksOf(dest, blocks))
      ensures dest[BLOCK * blocks..] == old(dest[BLOCK * blocks..])
    {
      hide Mix, Encrypt, BlockAt;
      ghost var s := BlocksOf(src, blocks);
      ghost var e := Encrypt(cipher, iv, s);
      var prev := iv;
      for i := 0 to blocks
        invariant prev == if i == 0 then iv else e[i - 1]
        invariant iv == old(iv)
        invariant forall k | 0 <= k < i :: BlockAt(dest, k) == e[k]
        invariant forall k | i <= k < blocks :: BlockAt(src, k) == s[k]
        invariant forall x | BLOCK * i <= x < dest.Length :: dest[x] == old(dest[x])
      {
        var buf := LoadMixed(src, i, prev);
        EncryptAt(cipher, iv, s, i);
        prev := cipher.encrypt(buf);
        StoreBlock(dest, i, prev);
      }
      iv := prev;
    }

    /** Decrypt block i into place, then mix in the ciphertext before it, or the chaining value. */
    method DecryptBlock(dest: array<Byte>, src: array<Byte>, i: nat)
      requires BLOCK * i + BLOCK <= src.Length && BLOCK * i + BLOCK <= dest.Length
      modifies dest
      ensures BlockAt(dest, i)
        == Mix(cipher.decrypt(old(BlockAt(src, i))), if i == 0 then iv else old(BlockAt(src, i - 1)))
      ensures forall k: nat | k != i && BLOCK * k + BLOCK <= src.Length :: BlockAt(src, k) == old(BlockAt(src, k))
      ensures forall k: nat | k != i && BLOCK * k + BLOCK <= dest.Length :: BlockAt(dest, k) == old(BlockAt(dest, k))
      ensures forall x | BLOCK * i + BLOCK <= x < dest.Length :: dest[x] == old(dest[x])
    {
      hide Mix;
      var cnow: Block := src[BLOCK * i..BLOCK * i + BLOCK];
      assert cnow == BlockAt(src, i);
      StoreBlock(dest, i, cipher.decrypt(cnow));
      var ivp: Block := if i == 0 then iv else src[BLOCK * (i - 1)..BLOCK * i];
      assert i > 0 ==> ivp == BlockAt(src, i - 1) && ivp == old(BlockAt(src, i - 1));
      var plain := LoadMixed(dest, i, ivp);
      StoreBlock(dest, i, plain);
    }

    /** The decrypting half: from the last block to the first. */
    method DecryptBlocks(dest: array<Byte>, src: array<Byte>, blocks: nat)
      requires 0 < blocks && BLOCK * blocks <= src.Length && BLOCK * blocks <= dest.Length
      modifies this`iv, dest
      ensures BlocksOf(dest, blocks) == Decrypt(cipher, old(iv), old(BlocksOf(src, blocks)))
      ensures iv == Chain(old(iv), old(BlocksOf(src, blocks)))
      ensures dest[BLOCK * blocks..] == old(dest[BLOCK * blocks..])
    {
      hide Mix, Decrypt;
      ghost var s := BlocksOf(src, blocks);
      ghost var d := Decrypt(cipher, iv, s);
      var last: Block := src[BLOCK * (blocks - 1)..BLOCK * blocks];
      assert last == BlockAt(src, blocks - 1);
      hide BlockAt;
      var i := blocks;
      while i > 0
        invariant i <= blocks && iv == old(iv)
        invariant forall k | i <= k < blocks :: BlockAt(dest, k) == d[k]
        invariant forall k | 0 <= k < i :: BlockAt(src, k) == s[k]
        invariant forall x | BLOCK * blocks <= x < dest.Length :: dest[x] == old(dest[x])
      {
        i := i - 1;
        assert BlockAt(src, i) == s[i] && (i > 0 ==> BlockAt(src, i - 1) == s[i - 1]);
        DecryptAt(cipher, iv, s, i);
        DecryptBlock(dest, src, i);
        assert BlockAt(dest, i) == d[i];
      }
      iv := last;
    }

    /** ssh_rijndael_cbc: false stands for the fatal error on a length that is no multiple of 16. */
    method Crypt(encrypting: bool, dest: array<Byte>, src: array<Byte>, len: nat) returns (ok: bool)
      requires len <= src.Length && len <= dest.Length
      modifies this`iv, dest
      ensures ok <==> len % BLOCK == 0
      ensures !ok ==> iv == old(iv) && dest[..] == old(dest[..])
      ensures ok ==> dest[len..] == old(dest[len..])
      ensures ok ==> var s := old(BlocksOf(src, len / BLOCK)); var d := BlocksOf(dest, len / BLOCK);
        if encrypting then d == Encrypt(cipher, old(iv), s) && iv == Chain(old(iv), d)
        else d == Decrypt(cipher, old(iv), s) && iv == Chain(old(iv), s)
    {
      hide Encrypt, Decrypt;
      if len % BLOCK != 0 {
        return false;
      }
      ok := true;
      if encrypting {
        EncryptBlocks(dest, src, len / BLOCK);
      } else if len > 0 {
        DecryptBlocks(dest, src, len / BLOCK);
      }
    }
  }

  /** A whole number of blocks, block by block. */
  function SplitBlocks(s: Bytes): (r: seq<Block>)
    ensures |r| == |s| / BLOCK && forall i | 0 <= i < |r| :: r[i] == s[BLOCK * i..BLOCK * i + BLOCK]
  {
    seq(|s| / BLOCK, i requires 0 <= i < |s| / BLOCK => s[BLOCK * i..BLOCK * i + BLOCK])
  }

  lemma SplitPrefix(a: array<Byte>, len: nat)
    requires len <= a.Length && len % BLOCK == 0
    ensures SplitBlocks(a[..len]) == BlocksOf(a, len / BLOCK)
  {
    forall i: nat | i < len / BLOCK ensures a[..len][BLOCK * i..BLOCK * i + BLOCK] == BlockAt(a, i) {
    }
  }

  /** One context encrypts in place, another with the same starting value decrypts in place. */
  method RoundTrip(enc: CbcContext, dec: CbcContext, a: array<Byte>, len: nat) returns (sent: Bytes)
    requires enc != dec && enc.cipher == dec.cipher && enc.iv == dec.iv && enc.cipher.Inverse()
    requires len <= a.Length && len % BLOCK == 0
    modifies enc`iv, dec`iv, a
    ensures |sent| == len && SplitBlocks(sent) == Encrypt(enc.cipher, old(enc.iv), old(BlocksOf(a, len / BLOCK)))
    ensures BlocksOf(a, len / BLOCK) == old(BlocksOf(a, len / BLOCK))
    ensures enc.iv == dec.iv == Chain(old(enc.iv), SplitBlocks(sent))
  {
    hide Encrypt, Decrypt, Mix;
    ghost var s, iv := BlocksOf(a, len / BLOCK), enc.iv;
    var ok := enc.Crypt(true, a, a, len);
    sent := a[..len];
    SplitPrefix(a, len);
    DecryptEncrypt(enc.cipher, iv, s);
    ok := dec.Crypt(false, a, a, len);
  }
}
