/** What the verdicts of the attack detector mean, without the scan that finds them. */
module Verdicts {
  import opened Crc
  import opened Deattack

  // ----- the register as the CRC of a message

  lemma XorZeroes(x: bv32)
    ensures Xor(x, 0) == x && Xor(0, x) == x
  {
  }

  /** Division takes the low byte and lets the others move down. */
  lemma EightSplits(x: bv32)
    ensures Eight(x) == Xor(Eight(Low(x)), DropByte(x))
  {
    hide Eight, Xor, Low, High, DropByte;
    SplitLow(x);
    EightOfHigh(x);
    EightLinear(Low(x), High(x));
  }

  lemma BytesOf(r: bv32)
    ensures Widen(Byte0(r)) == Low(r) && Widen(Byte1(r)) == Low(DropByte(r))
    ensures Widen(Byte2(r)) == Low(DropByte(DropByte(r)))
    ensures Widen(Byte3(r)) == DropByte(DropByte(DropByte(r)))
  {
  }

  /** Four bytes of division, from a register and with four message bytes. */
  function Feed(r: bv32, a: bv32, b: bv32, c: bv32, d: bv32): bv32 {
    Eight(Xor(Eight(Xor(Eight(Xor(Eight(Xor(r, a)), b)), c)), d))
  }

  /** One more byte out of the register, and the rest of it still to come. */
  lemma FeedStep(done: bv32, rest: bv32)
    ensures Eight(Xor(done, rest)) == Xor(Eight(Xor(done, Low(rest))), DropByte(rest))
  {
    hide Eight, Xor, Low, DropByte;
    EightLinear(done, rest);
    EightSplits(rest);
    EightLinear(done, Low(rest));
    XorAssociates(Eight(done), Eight(Low(rest)), DropByte(rest));
  }

  /** Dividing what is in the register is feeding its own bytes to an empty one. */
  lemma RegisterIsMessage(r: bv32)
    ensures Feed(r, 0, 0, 0, 0) == Feed(0, Widen(Byte0(r)), Widen(Byte1(r)), Widen(Byte2(r)), Widen(Byte3(r)))
  {
    hide Eight, Xor, Low, DropByte, Widen, Byte0, Byte1, Byte2, Byte3;
    BytesOf(r);
    var r1 := DropByte(r);
    var r2 := DropByte(r1);
    var r3 := DropByte(r2);
    var e1 := Eight(Xor(0, Low(r)));
    var e2 := Eight(Xor(e1, Low(r1)));
    var e3 := Eight(Xor(e2, Low(r2)));
    FeedStep(0, r);
    FeedStep(e1, r1);
    FeedStep(e2, r2);
    XorZeroes(r);
    XorZeroes(Eight(r));
    XorZeroes(Eight(Eight(r)));
    XorZeroes(Eight(Eight(Eight(r))));
  }

  lemma FeedLinear(r: bv32, a: bv32, b: bv32, c: bv32, d: bv32, r': bv32, a': bv32, b': bv32, c': bv32, d': bv32)
    ensures Feed(Xor(r, r'), Xor(a, a'), Xor(b, b'), Xor(c, c'), Xor(d, d')) == Xor(Feed(r, a, b, c, d), Feed(r', a', b', c', d'))
  {
    hide Eight, Xor;
    FeedOne(r, a, r', a');
    var r1, r1' := Eight(Xor(r, a)), Eight(Xor(r', a'));
    FeedOne(r1, b, r1', b');
    var r2, r2' := Eight(Xor(r1, b)), Eight(Xor(r1', b'));
    FeedOne(r2, c, r2', c');
    FeedOne(Eight(Xor(r2, c)), d, Eight(Xor(r2', c')), d');
  }

  lemma FeedOne(r: bv32, a: bv32, r': bv32, a': bv32)
    ensures Eight(Xor(Xor(r, r'), Xor(a, a'))) == Xor(Eight(Xor(r, a)), Eight(Xor(r', a')))
  {
    hide Eight, Xor;
    XorShuffle(r, r', a, a');
    EightLinear(Xor(r, a), Xor(r', a'));
  }

  function FeedWord(r: bv32, w: bv32): bv32 {
    Feed(r, Widen(Byte0(w)), Widen(Byte1(w)), Widen(Byte2(w)), Widen(Byte3(w)))
  }

  lemma WidenedBytesXor(x: bv32, y: bv32)
    ensures Widen(Byte0(Xor(x, y))) == Xor(Widen(Byte0(x)), Widen(Byte0(y)))
    ensures Widen(Byte1(Xor(x, y))) == Xor(Widen(Byte1(x)), Widen(Byte1(y)))
    ensures Widen(Byte2(Xor(x, y))) == Xor(Widen(Byte2(x)), Widen(Byte2(y)))
    ensures Widen(Byte3(Xor(x, y))) == Xor(Widen(Byte3(x)), Widen(Byte3(y)))
  {
    hide Widen, Xor, XorByte, Byte0, Byte1, Byte2, Byte3;
    BytesXor(x, y);
    WidenXor(Byte0(x), Byte0(y));
    WidenXor(Byte1(x), Byte1(y));
    WidenXor(Byte2(x), Byte2(y));
    WidenXor(Byte3(x), Byte3(y));
  }

  /** crc_update is what the CRC does with four more message bytes. */
  lemma FeedIsStep(r: bv32, w: bv32)
    ensures FeedWord(r, w) == FeedWord(0, Xor(r, w))
  {
    hide Feed, Widen, Xor, Byte0, Byte1, Byte2, Byte3;
    var a, b, c, d := Widen(Byte0(w)), Widen(Byte1(w)), Widen(Byte2(w)), Widen(Byte3(w));
    WidenedBytesXor(r, w);
    RegisterIsMessage(r);
    FeedLinear(r, 0, 0, 0, 0, 0, a, b, c, d);
    FeedLinear(0, Widen(Byte0(r)), Widen(Byte1(r)), Widen(Byte2(r)), Widen(Byte3(r)), 0, a, b, c, d);
    XorZeroes(r);
    XorZeroes(a);
    XorZeroes(b);
    XorZeroes(c);
    XorZeroes(d);
    XorZeroes(0);
  }

  lemma DivideOne(m: Bytes, b: bv8)
    ensures Divide(m + [b]) == Eight(Xor(Divide(m), Widen(b)))
  {
    hide Eight, Xor, Widen;
    assert (m + [b])[..|m|] == m;
  }

  lemma DivideWord(m: Bytes, w: bv32)
    ensures Divide(m + LittleEndian(w)) == FeedWord(Divide(m), w)
  {
    hide Eight, Xor, Widen, Divide, Byte0, Byte1, Byte2, Byte3;
    DivideOne(m, Byte0(w));
    DivideOne(m + [Byte0(w)], Byte1(w));
    DivideOne(m + [Byte0(w)] + [Byte1(w)], Byte2(w));
    DivideOne(m + [Byte0(w)] + [Byte1(w)] + [Byte2(w)], Byte3(w));
    assert m + LittleEndian(w) == m + [Byte0(w)] + [Byte1(w)] + [Byte2(w)] + [Byte3(w)];
  }

  /** So updating the register with a word appends the word to the message. */
  lemma UpdateAppends(m: Bytes, w: bv32)
    ensures WordStep(Xor(Divide(m), w)) == Divide(m + LittleEndian(w))
  {
    hide FeedWord, Xor, Divide, LittleEndian;
    DivideWord(m, w);
    FeedIsStep(Divide(m), w);
    DivideWord([], Xor(Divide(m), w));
    assert [] + LittleEndian(Xor(Divide(m), w)) == LittleEndian(Xor(Divide(m), w));
    DivideNothing();
  }

  lemma DivideNothing()
    ensures Divide([]) == 0
  {
  }

  // ----- check_crc

  /** The packet with a one at the start of every block equal to s, and zeros elsewhere. */
  function Marked(s: Bytes, buf: Bytes, blocks: nat): Bytes
    requires blocks <= Blocks(buf)
  {
    seq(8 * blocks, i requires 0 <= i < 8 * blocks => if i % 8 == 0 && Block(buf, i / 8) == s then 1 else 0)
  }

  lemma WordBytes()
    ensures LittleEndian(1) == [1, 0, 0, 0] && LittleEndian(0) == [0, 0, 0, 0]
  {
  }

  lemma MarkedMore(s: Bytes, buf: Bytes, p: nat)
    requires p < Blocks(buf)
    ensures Marked(s, buf, p + 1)
      == Marked(s, buf, p) + LittleEndian(if Block(buf, p) == s then 1 else 0) + LittleEndian(0)
  {
    hide LittleEndian, Block;
    WordBytes();
    var more := LittleEndian(if Block(buf, p) == s then 1 else 0) + LittleEndian(0);
    assert |more| == 8;
    var whole := Marked(s, buf, p + 1);
    forall i | 8 * p <= i < 8 * p + 8 ensures whole[i] == more[i - 8 * p] {
      assert i / 8 == p && i % 8 == i - 8 * p;
    }
    assert whole == whole[..8 * p] + whole[8 * p..];
    assert whole[8 * p..] == more;
    assert whole[..8 * p] == Marked(s, buf, p);
  }

  /** What has been divided so far, and what the remaining positions will add. */
  lemma {:induction false} SignatureSplits(s: Bytes, buf: Bytes, p: nat)
    requires p <= Blocks(buf)
    ensures Xor(WordSteps(Divide(Marked(s, buf, p)), 2 * (Blocks(buf) - p)), Signature(s, buf, p)) == Signature(s, buf, 0)
  {
    hide WordStep, Xor, Divide, Marked, Block;
    if p == 0 {
      NothingMarked(s, buf);
      WordStepsOfZero(2 * Blocks(buf));
      XorZeroes(Signature(s, buf, 0));
    } else {
      var q, k := p - 1, 2 * (Blocks(buf) - p + 1);
      SignatureSplits(s, buf, q);
      var m: bv32 := if Block(buf, q) == s then 1 else 0;
      var before := Divide(Marked(s, buf, q));
      MarkedMore(s, buf, q);
      UpdateAppends(Marked(s, buf, q), m);
      UpdateAppends(Marked(s, buf, q) + LittleEndian(m), 0);
      XorZeroes(WordStep(Xor(before, m)));
      RegisterStep(before, m, k);
      WordStepsOfZero(k);
      XorAssociates(WordSteps(before, k), WordSteps(m, k), Signature(s, buf, p));
    }
  }

  lemma NothingMarked(s: Bytes, buf: Bytes)
    ensures Divide(Marked(s, buf, 0)) == 0
  {
    assert Marked(s, buf, 0) == [];
  }

  /** The signature that check_crc compares with zero is the CRC of the marked packet. */
  lemma SignatureIsCrc(s: Bytes, buf: Bytes)
    ensures Signature(s, buf, 0) == Divide(Marked(s, buf, |buf| / 8))
  {
    hide WordStep, Xor, Divide, Marked, Block;
    var n := Blocks(buf);
    SignatureSplits(s, buf, n);
    XorZeroes(Divide(Marked(s, buf, n)));
  }

  // ----- the scan

  /** How many of the first j blocks had an equal block before them. */
  ghost function Repeats(buf: Bytes, j: nat): nat
    requires j <= Blocks(buf)
  {
    |RepeatSet(buf, j)|
  }

  ghost function RepeatSet(buf: Bytes, j: nat): set<nat>
    requires j <= Blocks(buf)
  {
    set k: nat | k < j && SeenBefore(buf, k)
  }

  lemma RepeatsMore(buf: Bytes, j: nat)
    requires j < Blocks(buf)
    ensures Repeats(buf, j + 1) == Repeats(buf, j) + if SeenBefore(buf, j) then 1 else 0
  {
    hide SeenBefore;
    assert RepeatSet(buf, j + 1) == RepeatSet(buf, j) + if SeenBefore(buf, j) then {j} else {};
  }

  lemma {:induction false} RepeatsGrow(buf: Bytes, i: nat, j: nat)
    requires i <= j <= Blocks(buf)
    ensures Repeats(buf, i) <= Repeats(buf, j)
    decreases j - i
  {
    hide Repeats, SeenBefore;
    if i < j {
      RepeatsGrow(buf, i, j - 1);
      RepeatsMore(buf, j - 1);
    }
  }

  /** A repeated block, fewer than 32 repeats in, whose marked packet has a zero CRC. */
  ghost predicate Hit(buf: Bytes, j: nat) {
    j < |buf| / 8 && SeenBefore(buf, j) && Repeats(buf, j) < 32 && Divide(Marked(Block(buf, j), buf, |buf| / 8)) == 0
  }

  ghost predicate HitFrom(buf: Bytes, j: nat) {
    exists i: nat :: j <= i && Hit(buf, i)
  }

  lemma {:induction false} ScanFrom(buf: Bytes, j: nat)
    requires j <= Blocks(buf) && Repeats(buf, j) <= 32
    ensures Scan(buf, j, Repeats(buf, j)) ==
      if HitFrom(buf, j) then Detected else if Repeats(buf, Blocks(buf)) > 32 then DosDetected else Ok
    decreases Blocks(buf) - j
  {
    hide SeenBefore, Repeats, Signature, Block, Divide, Marked;
    if j < Blocks(buf) {
      RepeatsMore(buf, j);
      SignatureIsCrc(Block(buf, j), buf);
      HitSplits(buf, j);
      if SeenBefore(buf, j) && Repeats(buf, j) == 32 {
        RepeatsGrow(buf, j + 1, Blocks(buf));
        NoHitLater(buf, j);
      } else if !Hit(buf, j) {
        ScanFrom(buf, j + 1);
      }
    }
  }

  lemma HitSplits(buf: Bytes, j: nat)
    ensures HitFrom(buf, j) <==> Hit(buf, j) || HitFrom(buf, j + 1)
  {
    hide Hit;
    if HitFrom(buf, j) {
      var i: nat :| j <= i && Hit(buf, i);
      assert i == j || j + 1 <= i;
    }
  }

  lemma NoHitLater(buf: Bytes, j: nat)
    requires j < Blocks(buf) && Repeats(buf, j) == 32
    ensures !HitFrom(buf, j)
  {
    hide SeenBefore, Repeats, Block, Divide, Marked;
    forall i: nat | j <= i ensures !Hit(buf, i) {
      if i < Blocks(buf) {
        RepeatsGrow(buf, j, i);
      }
    }
  }

  /**
   The verdict on a packet: DETECTED if and only if some repeated block, fewer than 32 repeats in,
   has a marked packet of CRC zero; otherwise DOS if and only if more than 32 blocks are repeats.
   */
  lemma VerdictMeaning(buf: Bytes)
    ensures Scan(buf, 0, 0) ==
      if exists j: nat :: Hit(buf, j) then Detected else if Repeats(buf, |buf| / 8) > 32 then DosDetected else Ok
  {
    hide Scan, Hit, SeenBefore;
    assert RepeatSet(buf, 0) == {};
    ScanFrom(buf, 0);
    assert HitFrom(buf, 0) <==> exists j: nat :: Hit(buf, j);
  }

  /** The lengths that are refused, and the room that an answer leaves. */
  lemma AnswerMeaning(room: Room, buf: Bytes, memory: bool)
    requires room.size > 0
    ensures Answer(room, buf, memory) == Error <==>
      |buf| > 262144 || |buf| % 8 != 0 || (!memory && !(room.present && room.size >= |buf| / 8 * 3 / 2))
    ensures Answer(room, buf, memory) != Error ==>
      (var next := NextRoom(room, buf, memory); next.present && next.size >= |buf| / 8 * 3 / 2)
  {
    hide Scan;
  }
}
