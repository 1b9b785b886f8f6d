/** The serial-line framing of sig_service.c: XOR byte, escaping and delimiters, all in one buffer. */
module Framing {
  import opened Bits

  const END: Byte := 0xC0
  const ESC: Byte := 0xDB
  const ESC_END: Byte := 0xDC
  const ESC_ESC: Byte := 0xDD

  predicate NeedsEscape(b: Byte) {
    b == END || b == ESC
  }

  function Escape(b: Byte): Bytes {
    if b == END then [ESC, ESC_END] else if b == ESC then [ESC, ESC_ESC] else [b]
  }

  function Encode(s: Bytes): Bytes {
    if s == [] then [] else Escape(s[0]) + Encode(s[1..])
  }

  /** next is the byte after s in the buffer, which the decoder looks at when s ends in ESC. */
  function Decode(s: Bytes, next: Byte): Bytes {
    if s == [] then []
    else
      var follow := if |s| > 1 then s[1] else next;
      if s[0] == ESC && (follow == ESC_END || follow == ESC_ESC) then
        if |s| == 1 then []
        else [if follow == ESC_END then END else ESC] + Decode(s[2..], next)
      else [s[0]] + Decode(s[1..], next)
  }

  function Checksum(s: Bytes): Byte {
    if s == [] then 0 else XorByte(Checksum(s[..|s| - 1]), s[|s| - 1])
  }

  function Escapes(s: Bytes): nat {
    if s == [] then 0 else (if NeedsEscape(s[0]) then 1 else 0) + Escapes(s[1..])
  }

  // ----- what the encoding promises

  lemma {:induction false} EncodeShape(s: Bytes)
    ensures END !in Encode(s)
    ensures |Encode(s)| == |s| + Escapes(s)
  {
    if s != [] {
      EncodeShape(s[1..]);
    }
  }

  /** Decoding undoes encoding, whatever byte happens to follow in the buffer. */
  lemma {:induction false} DecodeEncode(s: Bytes, next: Byte)
    ensures Decode(Encode(s), next) == s
  {
    if s != [] {
      var e, rest := Encode(s), Encode(s[1..]);
      DecodeEncode(s[1..], next);
      if NeedsEscape(s[0]) {
        assert e[2..] == rest;
      } else {
        assert e[1..] == rest;
      }
    }
  }

  /** Appending the checksum makes the whole XOR to zero. */
  lemma ChecksumCancels(s: Bytes)
    ensures Checksum(s + [Checksum(s)]) == 0
  {
    var t := s + [Checksum(s)];
    assert t[..|t| - 1] == s;
    XorSelf(Checksum(s));
  }

  // ----- the bytes on the wire

  lemma {:induction false} EncodeConcat(a: Bytes, b: Bytes)
    ensures Encode(a + b) == Encode(a) + Encode(b)
  {
    if a == [] {
      assert a + b == b;
    } else {
      assert (a + b)[1..] == a[1..] + b;
      EncodeConcat(a[1..], b);
    }
  }

  /** Only 0xC0 and 0xDB are escaped, to 0xDB 0xDC and 0xDB 0xDD. */
  lemma WireBytes(b: Byte)
    ensures Encode([b]) == if b == 0xC0 then [0xDB, 0xDC] else if b == 0xDB then [0xDB, 0xDD] else [b]
  {
    assert [b][1..] == [];
  }

  /** How any received bytes are read, whether or not they were encoded. */
  lemma ReadBytes(b: Byte, s: Bytes, next: Byte)
    ensures Decode([0xDB, 0xDC] + s, next) == [0xC0] + Decode(s, next)
    ensures Decode([0xDB, 0xDD] + s, next) == [0xDB] + Decode(s, next)
    ensures b != 0xDB || (s != [] && s[0] != 0xDC && s[0] != 0xDD) ==> Decode([b] + s, next) == [b] + Decode(s, next)
    ensures Decode([0xDB], next) == if next == 0xDC || next == 0xDD then [] else [0xDB]
  {
    var x: Bytes, y: Bytes := [0xDB, 0xDC] + s, [0xDB, 0xDD] + s;
    assert x[2..] == s && y[2..] == s;
    assert ([b] + s)[1..] == s;
  }

  lemma XorByteAssociates(a: Byte, b: Byte, c: Byte)
    ensures XorByte(XorByte(a, b), c) == XorByte(a, XorByte(b, c))
  {
    hide Xor, Bit, Fits;
    var x, y := XorByte(XorByte(a, b), c), XorByte(a, XorByte(b, c));
    forall k: nat | k < 8 ensures Bit(x, k) == Bit(y, k) {
      XorBit(XorByte(a, b), c, k);
      XorBit(a, b, k);
      XorBit(a, XorByte(b, c), k);
      XorBit(b, c, k);
    }
    ByteFits(x);
    ByteFits(y);
    BitsDecide(x, y, 8);
  }

  /** The checksum is the exclusive or of all bytes, starting from nothing. */
  lemma {:induction false} ChecksumConcat(a: Bytes, b: Bytes)
    ensures Checksum(a + b) == XorByte(Checksum(a), Checksum(b))
    decreases |b|
  {
    hide XorByte;
    if b == [] {
      assert a + b == a;
      XorNothing(Checksum(a));
    } else {
      var n := |b| - 1;
      assert (a + b)[..|a + b| - 1] == a + b[..n];
      ChecksumConcat(a, b[..n]);
      XorByteAssociates(Checksum(a), Checksum(b[..n]), b[n]);
    }
  }

  lemma XorNothing(a: Byte)
    ensures XorByte(a, 0) == a && XorByte(0, a) == a
  {
  }

  lemma ChecksumOne(b: Byte)
    ensures Checksum([b]) == b && Checksum([]) == 0
  {
    hide XorByte;
    assert [b][..0] == [];
    XorNothing(b);
  }

  // ----- externalProtocolEncode

  /** buff[j] = buff[j-1] for j from hi down to lo + 1. */
  method ShiftUp(buff: array<Byte>, lo: nat, hi: nat)
    requires lo <= hi < buff.Length
    modifies buff
    ensures forall x | 0 <= x < buff.Length :: buff[x] == if lo < x <= hi then old(buff[x - 1]) else old(buff[x])
  {
    var j := hi;
    while j > lo
      invariant lo <= j <= hi
      invariant forall x | 0 <= x < buff.Length :: buff[x] == if j < x <= hi then old(buff[x - 1]) else old(buff[x])
    {
      buff[j] := buff[j - 1];
      j := j - 1;
    }
  }

  /** Replace the byte at offset i by its two-byte escape, moving the rest of the payload up. */
  method InsertEscape(buff: array<Byte>, off: nat, size: nat, i: nat, second: Byte)
    requires i < size && off + size < buff.Length
    modifies buff
    ensures buff[..off] == old(buff[..off]) && buff[off..off + i] == old(buff[off..off + i])
    ensures buff[off + i] == ESC && buff[off + i + 1] == second
    ensures buff[off + i + 2..off + size + 1] == old(buff[off + i + 1..off + size])
  {
    buff[off + i] := ESC;
    ShiftUp(buff, off + i + 1, off + size);
    buff[off + i + 1] := second;
  }

  lemma SliceHead(buff: array<Byte>, lo: nat, hi: nat)
    requires lo < hi <= buff.Length
    ensures buff[lo..hi] == [buff[lo]] + buff[lo + 1..hi]
    ensures buff[lo..hi][1..] == buff[lo + 1..hi]
  {
  }

  lemma SliceLast(buff: array<Byte>, lo: nat, hi: nat)
    requires lo <= hi < buff.Length
    ensures buff[lo..hi + 1] == buff[lo..hi] + [buff[hi]]
  {
  }

  /** Settling one more byte of the result. */
  lemma Settle(done: Bytes, b: Byte, rest: Bytes)
    ensures done + ([b] + rest) == (done + [b]) + rest
  {
  }

  /** The second byte of an escape encodes to itself, so it may be looked at again. */
  lemma EncodeCases(s: Bytes)
    requires s != []
    ensures Encode(s) == Escape(s[0]) + Encode(s[1..])
    ensures forall second | second == ESC_END || second == ESC_ESC ::
      Encode([second] + s[1..]) == [second] + Encode(s[1..])
  {
    forall second: Byte | second == ESC_END || second == ESC_ESC
      ensures Encode([second] + s[1..]) == [second] + Encode(s[1..])
    {
      assert ([second] + s[1..])[1..] == s[1..];
    }
  }

  /** Encode the byte at offset i where it stands; the payload grows by one if it needs an escape. */
  method EncodeByte(buff: array<Byte>, off: nat, size: nat, i: nat) returns (size': nat)
    requires i < size && off + size <= buff.Length
    requires off + i + |Encode(buff[off + i..off + size])| <= buff.Length
    modifies buff
    ensures size <= size' && off + size' <= buff.Length
    ensures buff[..off] == old(buff[..off]) && buff[off..off + i] == old(buff[off..off + i])
    ensures Encode(old(buff[off + i..off + size])) == [buff[off + i]] + Encode(buff[off + i + 1..off + size'])
  {
    hide Encode, Escape, Escapes;
    ghost var rest := buff[off + i + 1..off + size];
    SliceHead(buff, off + i, off + size);
    EncodeCases(buff[off + i..off + size]);
    EncodeShape(rest);
    EscapeOf(buff[off + i]);
    size' := size;
    var b := buff[off + i];
    if NeedsEscape(b) {
      var second := if b == END then ESC_END else ESC_ESC;
      InsertEscape(buff, off, size, i, second);
      size' := size + 1;
      SliceHead(buff, off + i + 1, off + size');
      EscapedTwice(b, second, Encode(rest));
    }
  }

  lemma EscapeOf(b: Byte)
    ensures Escape(b) == if NeedsEscape(b) then [ESC, if b == END then ESC_END else ESC_ESC] else [b]
  {
  }

  lemma EscapedTwice(b: Byte, second: Byte, rest: Bytes)
    requires Escape(b) == [ESC, second]
    ensures Escape(b) + rest == [ESC] + ([second] + rest)
  {
  }

  /**
   externalProtocolEncode: the loop runs over the payload while it grows, so that after an
   insertion the next byte looked at is the second half of the escape.
   */
  method EncodeInPlace(buff: array<Byte>, off: nat, size0: nat) returns (size: nat)
    requires off + size0 <= buff.Length
    requires off + |Encode(buff[off..off + size0])| <= buff.Length
    modifies buff
    ensures size == |Encode(old(buff[off..off + size0]))|
    ensures buff[off..off + size] == Encode(old(buff[off..off + size0]))
    ensures buff[..off] == old(buff[..off])
  {
    hide Encode;
    ghost var want := Encode(buff[off..off + size0]);
    var i := 0;
    size := size0;
    assert buff[off..off] == [];
    while i < size
      invariant i <= size && off + size <= buff.Length
      invariant want == buff[off..off + i] + Encode(buff[off + i..off + size])
      invariant buff[..off] == old(buff[..off])
      decreases |want| - i
    {
      ghost var done := buff[off..off + i];
      size := EncodeByte(buff, off, size, i);
      SliceLast(buff, off, off + i);
      Settle(done, buff[off + i], Encode(buff[off + i + 1..off + size]));
      i := i + 1;
    }
    assert buff[off + i..off + size] == [];
    EncodeShape([]);
  }

  // ----- externalProtocolDecode

  /** buff[j] = buff[j+1] for j from lo up to hi - 1. */
  method ShiftDown(buff: array<Byte>, lo: nat, hi: nat)
    requires lo <= hi < buff.Length
    modifies buff
    ensures forall x | 0 <= x < buff.Length :: buff[x] == if lo <= x < hi then old(buff[x + 1]) else old(buff[x])
  {
    for j := lo to hi
      invariant forall x | 0 <= x < buff.Length :: buff[x] == if lo <= x < j then old(buff[x + 1]) else old(buff[x])
    {
      buff[j] := buff[j + 1];
    }
  }

  /** Replace the escape at offset i by the byte it stands for, moving the rest down. */
  method RemoveEscape(buff: array<Byte>, off: nat, size: nat, i: nat, b: Byte)
    requires i < size && off + size < buff.Length
    modifies buff
    ensures buff[off..off + i] == old(buff[off..off + i]) && buff[off + i] == b
    ensures i + 1 < size ==> buff[off + i + 1..off + size - 1] == old(buff[off + i + 2..off + size])
    ensures i + 1 < size ==> buff[off + size - 1] == old(buff[off + size])
    ensures buff[..off] == old(buff[..off]) && buff[off + size..] == old(buff[off + size..])
  {
    buff[off + i] := b;
    if i + 1 < size {
      ShiftDown(buff, off + i + 1, off + size);
    }
  }

  predicate IsEscape(b: Byte, follow: Byte) {
    b == ESC && (follow == ESC_END || follow == ESC_ESC)
  }

  function Meant(follow: Byte): Byte {
    if follow == ESC_END then END else ESC
  }

  lemma DecodeCases(s: Bytes, next: Byte)
    requires s != []
    ensures var follow := if |s| > 1 then s[1] else next;
      Decode(s, next) == if !IsEscape(s[0], follow) then [s[0]] + Decode(s[1..], next)
                         else if |s| == 1 then [] else [Meant(follow)] + Decode(s[2..], next)
  {
  }

  /** One pass of the loop: the byte at i is final, or, at the very end, gone. */
  method DecodeByte(buff: array<Byte>, off: nat, size: nat, i: nat) returns (size': nat)
    requires i < size && off + size < buff.Length
    modifies buff
    ensures i <= size' <= size
    ensures buff[..off] == old(buff[..off]) && buff[off..off + i] == old(buff[off..off + i])
    ensures i < size' ==> buff[off + size'] == old(buff[off + size])
    ensures Decode(old(buff[off + i..off + size]), old(buff[off + size]))
      == if i < size' then [buff[off + i]] + Decode(buff[off + i + 1..off + size'], buff[off + size']) else []
  {
    hide Decode;
    ghost var todo := buff[off + i..off + size];
    DecodeCases(todo, buff[off + size]);
    var b, follow := buff[off + i], buff[off + i + 1];
    assert follow == if |todo| > 1 then todo[1] else buff[off + size];
    size' := size;
    if IsEscape(b, follow) {
      RemoveEscape(buff, off, size, i, Meant(follow));
      size' := size - 1;
      if i < size' {
        assert buff[off + i + 1..off + size'] == todo[2..];
      }
    } else {
      assert buff[off + i + 1..off + size] == todo[1..];
    }
  }

  /** Settling one more byte of what is to be decoded. */
  lemma DecodeStep(want: Bytes, done: Bytes, done': Bytes, b: Byte, rest: Bytes, next: Byte)
    requires want == done + ([b] + Decode(rest, next)) && done' == done + [b]
    ensures want == done' + Decode(rest, next)
  {
    hide Decode;
    Settle(done, b, Decode(rest, next));
  }

  lemma DecodeNone(next: Byte)
    ensures Decode([], next) == []
  {
  }

  /** externalProtocolDecode: reads, and moves along, the byte after the payload. */
  method DecodeInPlace(buff: array<Byte>, off: nat, size0: nat) returns (size: nat)
    requires off + size0 < buff.Length
    modifies buff
    ensures size <= size0
    ensures buff[off..off + size] == Decode(old(buff[off..off + size0]), old(buff[off + size0]))
    ensures buff[..off] == old(buff[..off])
  {
    hide Decode;
    ghost var next := buff[off + size0];
    ghost var want := Decode(buff[off..off + size0], next);
    var i := 0;
    size := size0;
    assert buff[off..off] == [];
    while i < size
      invariant i <= size <= size0
      invariant i < size ==> buff[off + size] == next
      invariant want == buff[off..off + i] + Decode(buff[off + i..off + size], next)
      invariant buff[..off] == old(buff[..off])
      decreases size - i
    {
      ghost var done := buff[off..off + i];
      size := DecodeByte(buff, off, size, i);
      if i < size {
        SliceLast(buff, off, off + i);
        DecodeStep(want, done, buff[off..off + i + 1], buff[off + i], buff[off + i + 1..off + size], next);
        i := i + 1;
      } else {
        assert buff[off + i..off + size] == [];
        DecodeNone(next);
      }
    }
    assert buff[off + i..off + size] == [];
    DecodeNone(next);
  }

  // ----- a whole frame

  /** externalProtocolAddCrcCode. */
  method AddChecksum(buff: array<Byte>, off: nat, size: nat) returns (size': nat)
    requires off + size < buff.Length
    modifies buff
    ensures size' == size + 1
    ensures buff[off..off + size'] == old(buff[off..off + size]) + [Checksum(old(buff[off..off + size]))]
    ensures forall x | 0 <= x < buff.Length && x != off + size :: buff[x] == old(buff[x])
  {
    var x: Byte := 0;
    ghost var s := buff[off..off + size];
    for i := 0 to size
      invariant x == Checksum(s[..i])
    {
      assert s[..i + 1][..i] == s[..i] && s[i] == buff[off + i];
      x := XorByte(x, buff[off + i]);
    }
    assert s[..size] == s;
    buff[off + size] := x;
    size' := size + 1;
  }

  /** The body in buff[1..size+1] becomes a delimited frame in buff[..n]. */
  method BuildFrame(buff: array<Byte>, size: nat) returns (n: nat)
    requires size + 2 <= buff.Length
    requires var body := buff[1..size + 1]; |Encode(body + [Checksum(body)])| + 2 <= buff.Length
    modifies buff
    ensures var body := old(buff[1..size + 1]); var payload := Encode(body + [Checksum(body)]);
      && n == |payload| + 2 <= buff.Length
      && buff[..n] == [0xC0] + payload + [0xC0]
  {
    hide Encode, Checksum;
    var m := AddChecksum(buff, 1, size);
    m := EncodeInPlace(buff, 1, m);
    buff[0] := END;
    buff[m + 1] := END;
    n := m + 2;
    assert buff[..n] == [END] + buff[1..m + 1] + [END];
  }

  /** Strip the delimiters and decode what is between them, in place. */
  method OpenFrame(buff: array<Byte>, n: nat) returns (size: nat)
    requires 2 <= n <= buff.Length
    modifies buff
    ensures size + 2 <= n
    ensures buff[1..size + 1] == Decode(old(buff[1..n - 1]), old(buff[n - 1]))
  {
    size := DecodeInPlace(buff, 1, n - 2);
  }

  /** A frame has END at its two ends only, one byte more than the body and its escapes in between. */
  lemma FrameShape(body: Bytes)
    ensures var full := body + [Checksum(body)]; var payload := Encode(full);
      var frame: Bytes := [0xC0] + payload + [0xC0];
      && |payload| == |body| + 1 + Escapes(full)
      && forall i | 0 <= i < |frame| :: frame[i] == 0xC0 <==> i == 0 || i == |frame| - 1
  {
    EncodeShape(body + [Checksum(body)]);
  }

  /** Sending and opening a frame gives back the body and its checksum. */
  method SendAndOpen(buff: array<Byte>, size: nat) returns (frame: Bytes, got: nat)
    requires size + 2 <= buff.Length
    requires var body := buff[1..size + 1]; |Encode(body + [Checksum(body)])| + 2 <= buff.Length
    modifies buff
    ensures var body := old(buff[1..size + 1]); frame == [0xC0] + Encode(body + [Checksum(body)]) + [0xC0]
    ensures got == size + 1 && got + 1 <= buff.Length
    ensures var body := old(buff[1..size + 1]);
      buff[1..got + 1] == body + [Checksum(body)] && Checksum(buff[1..got + 1]) == 0
  {
    hide Encode, Decode, Checksum;
    ghost var body := buff[1..size + 1];
    ghost var full := body + [Checksum(body)];
    var n := BuildFrame(buff, size);
    frame := buff[..n];
    FramePayload(frame, Encode(full));
    assert buff[1..n - 1] == frame[1..n - 1];
    DecodeEncode(full, buff[n - 1]);
    got := OpenFrame(buff, n);
    ChecksumCancels(body);
  }

  lemma FramePayload(frame: Bytes, payload: Bytes)
    requires frame == [END] + payload + [END]
    ensures frame[1..|frame| - 1] == payload
  {
  }
}
