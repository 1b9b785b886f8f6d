/** crc32.c and the CRC part of deattack.c: table lookup against division bit by bit. */
module Crc {
  type Bytes = seq<bv8>

  function Xor(x: bv32, y: bv32): bv32 {
    x ^ y
  }

  function Half(x: bv32): bv32 {
    x >> 1
  }

  /** The quotient bit's share of the polynomial. */
  function Tap(x: bv32): bv32 {
    if x & 1 == 1 then 0xEDB88320 else 0
  }

  /** One step of reflected division by 0xEDB88320. */
  function Bit(x: bv32): bv32 {
    Xor(Half(x), Tap(x))
  }

  function Eight(x: bv32): bv32 {
    Bit(Bit(Bit(Bit(Bit(Bit(Bit(Bit(x))))))))
  }

  // ----- crc32tab

  function Pick(i: bv32, a: bv32, b: bv32, c: bv32, d: bv32, e: bv32, f: bv32, g: bv32, h: bv32): bv32 {
    if i & 4 == 0 then
      if i & 2 == 0 then if i & 1 == 0 then a else b else if i & 1 == 0 then c else d
    else
      if i & 2 == 0 then if i & 1 == 0 then e else f else if i & 1 == 0 then g else h
  }

  function Quarter0(i: bv32): bv32 {
    if i < 8 then Pick(i, 0x00000000, 0x77073096, 0xee0e612c, 0x990951ba, 0x076dc419, 0x706af48f, 0xe963a535, 0x9e6495a3) else
    if i < 16 then Pick(i, 0x0edb8832, 0x79dcb8a4, 0xe0d5e91e, 0x97d2d988, 0x09b64c2b, 0x7eb17cbd, 0xe7b82d07, 0x90bf1d91) else
    if i < 24 then Pick(i, 0x1db71064, 0x6ab020f2, 0xf3b97148, 0x84be41de, 0x1adad47d, 0x6ddde4eb, 0xf4d4b551, 0x83d385c7) else
    if i < 32 then Pick(i, 0x136c9856, 0x646ba8c0, 0xfd62f97a, 0x8a65c9ec, 0x14015c4f, 0x63066cd9, 0xfa0f3d63, 0x8d080df5) else
    if i < 40 then Pick(i, 0x3b6e20c8, 0x4c69105e, 0xd56041e4, 0xa2677172, 0x3c03e4d1, 0x4b04d447, 0xd20d85fd, 0xa50ab56b) else
    if i < 48 then Pick(i, 0x35b5a8fa, 0x42b2986c, 0xdbbbc9d6, 0xacbcf940, 0x32d86ce3, 0x45df5c75, 0xdcd60dcf, 0xabd13d59) else
    if i < 56 then Pick(i, 0x26d930ac, 0x51de003a, 0xc8d75180, 0xbfd06116, 0x21b4f4b5, 0x56b3c423, 0xcfba9599, 0xb8bda50f) else
    Pick(i, 0x2802b89e, 0x5f058808, 0xc60cd9b2, 0xb10be924, 0x2f6f7c87, 0x58684c11, 0xc1611dab, 0xb6662d3d)
  }

  function Quarter1(i: bv32): bv32 {
    if i < 72 then Pick(i, 0x76dc4190, 0x01db7106, 0x98d220bc, 0xefd5102a, 0x71b18589, 0x06b6b51f, 0x9fbfe4a5, 0xe8b8d433) else
    if i < 80 then Pick(i, 0x7807c9a2, 0x0f00f934, 0x9609a88e, 0xe10e9818, 0x7f6a0dbb, 0x086d3d2d, 0x91646c97, 0xe6635c01) else
    if i < 88 then Pick(i, 0x6b6b51f4, 0x1c6c6162, 0x856530d8, 0xf262004e, 0x6c0695ed, 0x1b01a57b, 0x8208f4c1, 0xf50fc457) else
    if i < 96 then Pick(i, 0x65b0d9c6, 0x12b7e950, 0x8bbeb8ea, 0xfcb9887c, 0x62dd1ddf, 0x15da2d49, 0x8cd37cf3, 0xfbd44c65) else
    if i < 104 then Pick(i, 0x4db26158, 0x3ab551ce, 0xa3bc0074, 0xd4bb30e2, 0x4adfa541, 0x3dd895d7, 0xa4d1c46d, 0xd3d6f4fb) else
    if i < 112 then Pick(i, 0x4369e96a, 0x346ed9fc, 0xad678846, 0xda60b8d0, 0x44042d73, 0x33031de5, 0xaa0a4c5f, 0xdd0d7cc9) else
    if i < 120 then Pick(i, 0x5005713c, 0x270241aa, 0xbe0b1010, 0xc90c2086, 0x5768b525, 0x206f85b3, 0xb966d409, 0xce61e49f) else
    Pick(i, 0x5edef90e, 0x29d9c998, 0xb0d09822, 0xc7d7a8b4, 0x59b33d17, 0x2eb40d81, 0xb7bd5c3b, 0xc0ba6cad)
  }

  function Quarter2(i: bv32): bv32 {
    if i < 136 then Pick(i, 0xedb88320, 0x9abfb3b6, 0x03b6e20c, 0x74b1d29a, 0xead54739, 0x9dd277af, 0x04db2615, 0x73dc1683) else
    if i < 144 then Pick(i, 0xe3630b12, 0x94643b84, 0x0d6d6a3e, 0x7a6a5aa8, 0xe40ecf0b, 0x9309ff9d, 0x0a00ae27, 0x7d079eb1) else
    if i < 152 then Pick(i, 0xf00f9344, 0x8708a3d2, 0x1e01f268, 0x6906c2fe, 0xf762575d, 0x806567cb, 0x196c3671, 0x6e6b06e7) else
    if i < 160 then Pick(i, 0xfed41b76, 0x89d32be0, 0x10da7a5a, 0x67dd4acc, 0xf9b9df6f, 0x8ebeeff9, 0x17b7be43, 0x60b08ed5) else
    if i < 168 then Pick(i, 0xd6d6a3e8, 0xa1d1937e, 0x38d8c2c4, 0x4fdff252, 0xd1bb67f1, 0xa6bc5767, 0x3fb506dd, 0x48b2364b) else
    if i < 176 then Pick(i, 0xd80d2bda, 0xaf0a1b4c, 0x36034af6, 0x41047a60, 0xdf60efc3, 0xa867df55, 0x316e8eef, 0x4669be79) else
    if i < 184 then Pick(i, 0xcb61b38c, 0xbc66831a, 0x256fd2a0, 0x5268e236, 0xcc0c7795, 0xbb0b4703, 0x220216b9, 0x5505262f) else
    Pick(i, 0xc5ba3bbe, 0xb2bd0b28, 0x2bb45a92, 0x5cb36a04, 0xc2d7ffa7, 0xb5d0cf31, 0x2cd99e8b, 0x5bdeae1d)
  }

  function Quarter3(i: bv32): bv32 {
    if i < 200 then Pick(i, 0x9b64c2b0, 0xec63f226, 0x756aa39c, 0x026d930a, 0x9c0906a9, 0xeb0e363f, 0x72076785, 0x05005713) else
    if i < 208 then Pick(i, 0x95bf4a82, 0xe2b87a14, 0x7bb12bae, 0x0cb61b38, 0x92d28e9b, 0xe5d5be0d, 0x7cdcefb7, 0x0bdbdf21) else
    if i < 216 then Pick(i, 0x86d3d2d4, 0xf1d4e242, 0x68ddb3f8, 0x1fda836e, 0x81be16cd, 0xf6b9265b, 0x6fb077e1, 0x18b74777) else
    if i < 224 then Pick(i, 0x88085ae6, 0xff0f6a70, 0x66063bca, 0x11010b5c, 0x8f659eff, 0xf862ae69, 0x616bffd3, 0x166ccf45) else
    if i < 232 then Pick(i, 0xa00ae278, 0xd70dd2ee, 0x4e048354, 0x3903b3c2, 0xa7672661, 0xd06016f7, 0x4969474d, 0x3e6e77db) else
    if i < 240 then Pick(i, 0xaed16a4a, 0xd9d65adc, 0x40df0b66, 0x37d83bf0, 0xa9bcae53, 0xdebb9ec5, 0x47b2cf7f, 0x30b5ffe9) else
    if i < 248 then Pick(i, 0xbdbdf21c, 0xcabac28a, 0x53b39330, 0x24b4a3a6, 0xbad03605, 0xcdd70693, 0x54de5729, 0x23d967bf) else
    Pick(i, 0xb3667a2e, 0xc4614ab8, 0x5d681b02, 0x2a6f2b94, 0xb40bbe37, 0xc30c8ea1, 0x5a05df1b, 0x2d02ef8d)
  }

  lemma Quarter0IsDivision(i: bv32)
    requires 0 <= i < 64
    ensures Quarter0(i) == Eight(i)
  {
    if i < 8 {
    } else if i < 16 {
    } else if i < 24 {
    } else if i < 32 {
    } else if i < 40 {
    } else if i < 48 {
    } else if i < 56 {
    } else {
    }
  }

  lemma Quarter1IsDivision(i: bv32)
    requires 64 <= i < 128
    ensures Quarter1(i) == Eight(i)
  {
    if i < 72 {
    } else if i < 80 {
    } else if i < 88 {
    } else if i < 96 {
    } else if i < 104 {
    } else if i < 112 {
    } else if i < 120 {
    } else {
    }
  }

  lemma Quarter2IsDivision(i: bv32)
    requires 128 <= i < 192
    ensures Quarter2(i) == Eight(i)
  {
    if i < 136 {
    } else if i < 144 {
    } else if i < 152 {
    } else if i < 160 {
    } else if i < 168 {
    } else if i < 176 {
    } else if i < 184 {
    } else {
    }
  }

  lemma Quarter3IsDivision(i: bv32)
    requires 192 <= i < 256
    ensures Quarter3(i) == Eight(i)
  {
    if i < 200 {
    } else if i < 208 {
    } else if i < 216 {
    } else if i < 224 {
    } else if i < 232 {
    } else if i < 240 {
    } else if i < 248 {
    } else {
    }
  }

  /** crc32tab[i]. */
  function Crc32Tab(i: bv32): bv32 {
    if i < 64 then Quarter0(i) else if i < 128 then Quarter1(i) else if i < 192 then Quarter2(i) else Quarter3(i)
  }

  /** Every one of the 256 entries is its index divided bit by bit. */
  lemma TableIsDivision(i: bv32)
    requires i < 256
    ensures Crc32Tab(i) == Eight(i)
  {
    if i < 64 {
      Quarter0IsDivision(i);
    } else if i < 128 {
      Quarter1IsDivision(i);
    } else if i < 192 {
      Quarter2IsDivision(i);
    } else {
      Quarter3IsDivision(i);
    }
  }

  // ----- linearity

  lemma XorCommutes(a: bv32, b: bv32)
    ensures Xor(a, b) == Xor(b, a)
  {
  }

  lemma XorAssociates(a: bv32, b: bv32, c: bv32)
    ensures Xor(Xor(a, b), c) == Xor(a, Xor(b, c))
  {
  }

  lemma XorShuffle(a: bv32, b: bv32, c: bv32, d: bv32)
    ensures Xor(Xor(a, b), Xor(c, d)) == Xor(Xor(a, c), Xor(b, d))
  {
    hide Xor;
    calc {
      Xor(Xor(a, b), Xor(c, d));
      { XorAssociates(a, b, Xor(c, d)); XorAssociates(b, c, d); }
      Xor(a, Xor(Xor(b, c), d));
      { XorCommutes(b, c); XorAssociates(c, b, d); XorAssociates(a, c, Xor(b, d)); }
      Xor(Xor(a, c), Xor(b, d));
    }
  }

  lemma TapLinear(x: bv32, y: bv32)
    ensures Tap(Xor(x, y)) == Xor(Tap(x), Tap(y))
  {
    assert (x ^ y) & 1 == (x & 1) ^ (y & 1);
  }

  lemma HalfLinear(x: bv32, y: bv32)
    ensures Half(Xor(x, y)) == Xor(Half(x), Half(y))
  {
    assert (x ^ y) >> 1 == (x >> 1) ^ (y >> 1);
  }

  lemma BitLinear(x: bv32, y: bv32)
    ensures Bit(Xor(x, y)) == Xor(Bit(x), Bit(y))
  {
    hide Xor, Tap, Half;
    HalfLinear(x, y);
    TapLinear(x, y);
    XorShuffle(Half(x), Half(y), Tap(x), Tap(y));
  }

  /** A byte's worth of division is linear. */
  lemma EightLinear(x: bv32, y: bv32)
    ensures Eight(Xor(x, y)) == Xor(Eight(x), Eight(y))
  {
    hide Bit, Xor;
    BitLinear(x, y);
    var x1, y1 := Bit(x), Bit(y);
    BitLinear(x1, y1);
    var x2, y2 := Bit(x1), Bit(y1);
    BitLinear(x2, y2);
    var x3, y3 := Bit(x2), Bit(y2);
    BitLinear(x3, y3);
    var x4, y4 := Bit(x3), Bit(y3);
    BitLinear(x4, y4);
    var x5, y5 := Bit(x4), Bit(y4);
    BitLinear(x5, y5);
    var x6, y6 := Bit(x5), Bit(y5);
    BitLinear(x6, y6);
    BitLinear(Bit(x6), Bit(y6));
  }

  // ----- ssh_crc32

  function Low(x: bv32): bv32 { x & 0xff }

  function High(x: bv32): bv32 { x & 0xffffff00 }

  function DropByte(x: bv32): bv32 { x >> 8 }

  function Widen(b: bv8): bv32 { b as bv32 }

  lemma SplitLow(x: bv32)
    ensures x == Xor(Low(x), High(x))
    ensures DropByte(High(x)) == DropByte(x)
    ensures Low(x) < 256
  {
  }

  lemma EightOfHigh(x: bv32)
    ensures Eight(High(x)) == DropByte(High(x))
  {
  }

  lemma HighUntouched(crc: bv32, b: bv8)
    ensures DropByte(Xor(crc, Widen(b))) == DropByte(crc)
  {
  }

  /** The table step of ssh_crc32. */
  function TableStep(crc: bv32, b: bv8): bv32 {
    Xor(Crc32Tab(Low(Xor(crc, Widen(b)))), DropByte(crc))
  }

  /** One lookup advances the division by a byte. */
  lemma TableStepIsDivision(crc: bv32, b: bv8)
    ensures TableStep(crc, b) == Eight(Xor(crc, Widen(b)))
  {
    hide Crc32Tab, Eight, Xor, Low, High, DropByte, Widen;
    var x := Xor(crc, Widen(b));
    SplitLow(x);
    HighUntouched(crc, b);
    TableIsDivision(Low(x));
    EightOfHigh(x);
    EightLinear(Low(x), High(x));
  }

  /** Division of the whole message, bit by bit, from a zero register. */
  function Divide(buf: Bytes): bv32 {
    if buf == [] then 0 else Eight(Xor(Divide(buf[..|buf| - 1]), Widen(buf[|buf| - 1])))
  }

  /** ssh_crc32 computes the remainder of bitwise division. */
  method SshCrc32(buf: Bytes) returns (crc: bv32)
    ensures crc == Divide(buf)
  {
    hide TableStep, Eight, Xor, Widen;
    crc := 0;
    for i := 0 to |buf|
      invariant crc == Divide(buf[..i])
    {
      TableStepIsDivision(crc, buf[i]);
      assert buf[..i + 1][..i] == buf[..i];
      crc := TableStep(crc, buf[i]);
    }
    assert buf[..|buf|] == buf;
  }

  function XorByte(x: bv8, y: bv8): bv8 {
    x ^ y
  }

  /** c is the byte by byte exclusive or of a and b. */
  predicate IsXor(a: Bytes, b: Bytes, c: Bytes) {
    |a| == |b| == |c| && forall i | 0 <= i < |a| :: c[i] == XorByte(a[i], b[i])
  }

  lemma WidenXor(x: bv8, y: bv8)
    ensures Widen(XorByte(x, y)) == Xor(Widen(x), Widen(y))
  {
  }

  lemma XorZero()
    ensures Xor(0, 0) == 0
  {
  }

  /** On messages of equal length the CRC is linear. */
  lemma {:induction false} DivideLinear(a: Bytes, b: Bytes, c: Bytes)
    requires IsXor(a, b, c)
    ensures Divide(c) == Xor(Divide(a), Divide(b))
  {
    hide Eight, Xor, XorByte, Widen;
    if a == [] {
      XorZero();
    } else {
      var n := |a| - 1;
      DivideLinear(a[..n], b[..n], c[..n]);
      WidenXor(a[n], b[n]);
      var p, q := Divide(a[..n]), Divide(b[..n]);
      XorShuffle(p, q, Widen(a[n]), Widen(b[n]));
      EightLinear(Xor(p, Widen(a[n])), Xor(q, Widen(b[n])));
    }
  }

  // ----- crc_update and check_crc

  function Byte0(w: bv32): bv8 { (w & 0xff) as bv8 }

  function Byte1(w: bv32): bv8 { ((w >> 8) & 0xff) as bv8 }

  function Byte2(w: bv32): bv8 { ((w >> 16) & 0xff) as bv8 }

  function Byte3(w: bv32): bv8 { ((w >> 24) & 0xff) as bv8 }

  /** The four bytes of a word as a little-endian machine stores them. */
  function LittleEndian(w: bv32): (r: Bytes)
    ensures |r| == 4
  {
    [Byte0(w), Byte1(w), Byte2(w), Byte3(w)]
  }

  lemma BytesXorBits(x: bv32, y: bv32)
    ensures Byte0(x ^ y) == Byte0(x) ^ Byte0(y) && Byte1(x ^ y) == Byte1(x) ^ Byte1(y)
    ensures Byte2(x ^ y) == Byte2(x) ^ Byte2(y) && Byte3(x ^ y) == Byte3(x) ^ Byte3(y)
  {
  }

  lemma BytesXor(x: bv32, y: bv32)
    ensures Byte0(Xor(x, y)) == XorByte(Byte0(x), Byte0(y))
    ensures Byte1(Xor(x, y)) == XorByte(Byte1(x), Byte1(y))
    ensures Byte2(Xor(x, y)) == XorByte(Byte2(x), Byte2(y))
    ensures Byte3(Xor(x, y)) == XorByte(Byte3(x), Byte3(y))
  {
    hide Byte0, Byte1, Byte2, Byte3;
    BytesXorBits(x, y);
  }

  lemma LittleEndianXor(x: bv32, y: bv32)
    ensures IsXor(LittleEndian(x), LittleEndian(y), LittleEndian(Xor(x, y)))
  {
    hide Xor, XorByte, Byte0, Byte1, Byte2, Byte3;
    BytesXor(x, y);
  }

  /** crc_update on a register holding x, the other operand being zero. */
  function WordStep(x: bv32): bv32 {
    Divide(LittleEndian(x))
  }

  lemma WordStepLinear(x: bv32, y: bv32)
    ensures WordStep(Xor(x, y)) == Xor(WordStep(x), WordStep(y))
  {
    hide Divide, LittleEndian, Xor;
    LittleEndianXor(x, y);
    DivideLinear(LittleEndian(x), LittleEndian(y), LittleEndian(Xor(x, y)));
  }

  function WordSteps(x: bv32, n: nat): bv32
    decreases n
  {
    if n == 0 then x else WordSteps(WordStep(x), n - 1)
  }

  lemma {:induction false} WordStepsLinear(x: bv32, y: bv32, n: nat)
    ensures WordSteps(Xor(x, y), n) == Xor(WordSteps(x, n), WordSteps(y, n))
    decreases n
  {
    hide WordStep, Xor;
    if n > 0 {
      WordStepLinear(x, y);
      WordStepsLinear(WordStep(x), WordStep(y), n - 1);
    }
  }
}
