/** bitmap.c: a growing word array with a lazy top index, standing for a set of naturals. */
module BitmapSet {
  import opened Bits
  import opened Values

  const WORD := 32
  const BITMAP_MAX := 0x100_0000

  /** bit n of a big-endian byte string. */
  predicate StringBit(s: seq<nat>, n: nat) {
    n / 8 < |s| && Bit(s[|s| - 1 - n / 8], n % 8)
  }

  predicate ByteString(s: seq<nat>) {
    forall i | 0 <= i < |s| :: Fits(s[i], 8)
  }

  /** The set of naturals a big-endian byte string writes down. */
  ghost function Denoted(s: seq<nat>): iset<nat> {
    iset n: nat | StringBit(s, n)
  }

  /** No shorter string writes down the same set: there is no leading zero byte. */
  predicate Minimal(s: seq<nat>) {
    s != [] ==> s[0] != 0
  }

  lemma LeadingByteHasBit(s: seq<nat>) returns (n: nat)
    requires ByteString(s) && s != [] && s[0] != 0
    ensures StringBit(s, n) && n / 8 == |s| - 1
  {
    var k := NonZeroHasBit(s[0], 8);
    n := 8 * (|s| - 1) + k;
  }

  /** A set has only one minimal numeral, and every other numeral of it is longer. */
  lemma MinimalIsUnique(s: seq<nat>, t: seq<nat>)
    requires ByteString(s) && ByteString(t) && Minimal(s) && Denoted(s) == Denoted(t)
    ensures |s| <= |t|
    ensures Minimal(t) ==> s == t
  {
    LongEnough(s, t);
    if Minimal(t) {
      LongEnough(t, s);
      forall i | 0 <= i < |s| ensures s[i] == t[i] {
        forall k: nat | k < 8 ensures Bit(s[i], k) == Bit(t[i], k) {
          var n := 8 * (|s| - 1 - i) + k;
          assert n in Denoted(s) <==> StringBit(s, n);
          assert n in Denoted(t) <==> StringBit(t, n);
        }
        BitsDecide(s[i], t[i], 8);
      }
    }
  }

  lemma LongEnough(s: seq<nat>, t: seq<nat>)
    requires ByteString(s) && Minimal(s) && Denoted(s) <= Denoted(t)
    ensures |s| <= |t|
  {
    if s != [] {
      var n := LeadingByteHasBit(s);
      assert n in Denoted(s) && n in Denoted(t);
    }
  }

  /** The number that a byte string writes down, most significant byte first. */
  function Number(s: seq<nat>): nat {
    if s == [] then 0 else 256 * Number(s[..|s| - 1]) + s[|s| - 1]
  }

  lemma BitOfJoined(high: nat, low: nat, n: nat)
    requires Fits(low, 8)
    ensures Bit(256 * high + low, n) <==> if n < 8 then Bit(low, n) else Bit(high, n - 8)
  {
    hide Bit, Fits, Or, Shl;
    OrDisjoint(low, high, 8);
    ShlTimes(high, 8);
    ByteSize();
    OrBit(low, Shl(high, 8), n);
    ShlBit(high, 8, n);
    if n >= 8 {
      FitsBound(low, 8, n);
    }
  }

  /** The set that a string denotes is where the binary digits of its number are one. */
  lemma {:induction false} DenotesNumber(s: seq<nat>, n: nat)
    requires ByteString(s)
    ensures n in Denoted(s) <==> Bit(Number(s), n)
  {
    hide Bit, Fits;
    if s == [] {
      BitOfZero(n);
    } else {
      var m := |s| - 1;
      BitOfJoined(Number(s[..m]), s[m], n);
      if n >= 8 {
        DenotesNumber(s[..m], n - 8);
        assert (n - 8) / 8 == n / 8 - 1 && (n - 8) % 8 == n % 8;
        assert StringBit(s, n) <==> StringBit(s[..m], n - 8);
      }
    }
  }

  /** Byte j of a word, (w >> 8j) & 0xff. */
  function WordByte(w: nat, j: nat): nat {
    Low(Shr(w, 8 * j), 8)
  }

  lemma WordByteBit(w: nat, j: nat, k: nat)
    ensures Fits(WordByte(w, j), 8)
    ensures Bit(WordByte(w, j), k) <==> k < 8 && Bit(w, 8 * j + k)
  {
    LowBit(Shr(w, 8 * j), 8, k);
    ShrBit(w, 8 * j, k);
  }

  /** l bytes hold every element. */
  ghost predicate Holds(c: iset<nat>, l: nat) {
    forall n <- c :: n < 8 * l
  }

  /** need bytes hold every element, and no fewer do. */
  ghost predicate Spans(c: iset<nat>, need: nat) {
    Holds(c, need) && (need > 0 ==> exists n :: n in c && n / 8 == need - 1)
  }

  /** The number of bytes a set takes decides which buffers hold it. */
  lemma SpansDecides(c: iset<nat>, need: nat, l: nat)
    requires Spans(c, need)
    ensures need <= l <==> Holds(c, l)
  {
    if need > 0 {
      var n :| n in c && n / 8 == need - 1;
    }
  }

  /** The bytes a set takes exceed BITMAP_MAX / 8 only because of BITMAP_MAX itself. */
  lemma NeedBound(c: iset<nat>, need: nat)
    requires Spans(c, need) && forall n <- c :: n <= BITMAP_MAX
    ensures need <= BITMAP_MAX / 8 <==> BITMAP_MAX !in c
  {
    SpansDecides(c, need, BITMAP_MAX / 8);
  }

  /** What or-ing in, and masking out, the single bit 1 << k does to a word. */
  lemma MaskBit(w: nat, k: nat, m: nat)
    requires Fits(w, WORD) && k < WORD
    ensures Fits(Or(w, Shl(1, k)), WORD) && Fits(AndNot(w, Shl(1, k)), WORD)
    ensures Bit(Or(w, Shl(1, k)), m) <==> Bit(w, m) || m == k
    ensures Bit(AndNot(w, Shl(1, k)), m) <==> Bit(w, m) && m != k
  {
    hide Bit, Fits, Or, AndNot, Shl;
    var mask := Shl(1, k);
    OneBit(0);
    ShlFits(1, k, 1);
    FitsMore(mask, k + 1, WORD);
    OrFits(w, mask, WORD);
    AndNotFits(w, mask, WORD);
    OrBit(w, mask, m);
    AndNotBit(w, mask, m);
    ShlBit(1, k, m);
    if m >= k {
      OneBit(m - k);
    }
  }

  /** The loop of bitmap_nbits: shift a non-zero word left until its top bit is set. */
  method ShiftToTop(word: nat, start: nat) returns (bits: nat)
    requires word != 0 && Fits(word, WORD) && start >= WORD
    ensures start - WORD < bits <= start && Bit(word, bits - 1 - (start - WORD))
    ensures forall m: nat | bits - (start - WORD) <= m < WORD :: !Bit(word, m)
  {
    ghost var k := NonZeroHasBit(word, WORD);
    bits := start;
    var w := word;
    ghost var c := 0;
    while !Bit(w, WORD - 1)
      invariant c < WORD && bits == start - c && w == Shl(word, c)
      invariant forall m: nat | WORD - c <= m < WORD :: !Bit(word, m)
      decreases WORD - c
    {
      ShlBit(word, c, WORD - 1);
      w := Shl(w, 1);
      bits := bits - 1;
      c := c + 1;
    }
    ShlBit(word, c, WORD - 1);
  }

  class Bitmap {
    var d: array<nat>
    var top: nat

    ghost predicate Has(n: nat)
      reads this`d, d
    {
      n / WORD < d.Length && Bit(d[n / WORD], n % WORD)
    }

    ghost function Contents(): iset<nat>
      reads this`d, d
    {
      iset n: nat | Has(n)
    }

    /** Words fit 32 bits, those above top are zero, and no element exceeds BITMAP_MAX. */
    ghost predicate Valid()
      reads this, d
    {
      && top < d.Length
      && (forall i | 0 <= i < d.Length :: Fits(d[i], WORD))
      && (forall i | top < i < d.Length :: d[i] == 0)
      && (forall n: nat | Has(n) :: n <= BITMAP_MAX)
    }

    /** bitmap_new. */
    constructor ()
      ensures Valid() && fresh(d) && Contents() == iset{}
    {
      d := new nat[1](_ => 0);
      top := 0;
      new;
      ZeroFits(WORD);
      NoBits();
    }

    lemma NoBits()
      requires forall i | 0 <= i < d.Length :: d[i] == 0
      ensures Contents() == iset{}
    {
      forall n: nat ensures !Has(n) {
        BitOfZero(n % WORD);
      }
    }

    /** bitmap_zero. */
    method Zero()
      requires d.Length > 0
      modifies this`top, d
      ensures Valid() && Contents() == iset{}
      ensures forall i | 0 <= i < d.Length :: d[i] == 0
    {
      forall i | 0 <= i < d.Length {
        d[i] := 0;
      }
      top := 0;
      ZeroFits(WORD);
      NoBits();
      assert forall n: nat :: Has(n) <==> n in Contents();
    }

    /** bitmap_test_bit. */
    method TestBit(n: nat) returns (r: bool)
      requires Valid()
      ensures r <==> n in Contents()
    {
      if n / WORD > top {
        BitOfZero(n % WORD);
        return false;
      }
      r := Bit(d[n / WORD], n % WORD);
    }

    /** reserve: room for bit n, the new words zero; memory says whether reallocarray succeeds. */
    method Reserve(n: nat, memory: bool) returns (ok: bool)
      requires Valid()
      modifies this`d
      ensures Valid() && Contents() == old(Contents()) && (d == old(d) || fresh(d))
      ensures ok <==> n <= BITMAP_MAX && (memory || n / WORD < old(d.Length))
      ensures d.Length == if ok && old(d.Length) <= n / WORD then n / WORD + 1 else old(d.Length)
      ensures !ok || n / WORD < old(d.Length) ==> d == old(d)
    {
      if n > BITMAP_MAX {
        return false;
      }
      var len := n / WORD + 1;
      if d.Length < len {
        if !memory {
          return false;
        }
        var old_d := d;
        d := new nat[len](i requires 0 <= i < len reads old_d => if i < old_d.Length then old_d[i] else 0);
        ZeroFits(WORD);
        forall m: nat ensures Has(m) <==> old(Has(m)) {
          BitOfZero(m % WORD);
        }
      }
      ok := true;
    }

    /** bitmap_set_bit. */
    method SetBit(n: nat, memory: bool) returns (ok: bool)
      requires Valid()
      modifies this, d
      ensures Valid() && (d == old(d) || fresh(d))
      ensures ok <==> n <= BITMAP_MAX && (memory || n / WORD < old(d.Length))
      ensures d.Length == if ok && old(d.Length) <= n / WORD then n / WORD + 1 else old(d.Length)
      ensures Contents() == if ok then old(Contents()) + iset{n} else old(Contents())
    {
      ok := Reserve(n, memory);
      hide Bit, Fits, Or, Shl;
      if ok {
        var offset := n / WORD;
        if offset > top {
          top := offset;
        }
        OrMask(n);
      }
    }

    /** d[n / 32] |= 1 << (n & 31). */
    method OrMask(n: nat)
      requires Valid() && n / WORD <= top && n <= BITMAP_MAX
      modifies d
      ensures Valid() && Contents() == old(Contents()) + iset{n}
    {
      hide Bit, Fits, Or, Shl;
      var offset := n / WORD;
      d[offset] := Or(d[offset], Shl(1, n % WORD));
      assert forall m: nat | old(Has(m)) :: m <= BITMAP_MAX;
      forall m: nat ensures Has(m) <==> old(Has(m)) || m == n {
        MaskBit(old(d[offset]), n % WORD, m % WORD);
      }
      MaskBit(old(d[offset]), n % WORD, 0);
    }

    /** retop: lower top past zero words. */
    method Retop()
      requires Valid()
      modifies this`top
      ensures Valid() && Contents() == old(Contents())
      ensures top == 0 || d[top] != 0
    {
      while top > 0 && d[top] == 0
        invariant top < d.Length && forall i | top < i < d.Length :: d[i] == 0
      {
        top := top - 1;
      }
    }

    /** bitmap_clear_bit. */
    method ClearBit(n: nat)
      requires Valid()
      modifies this, d
      ensures Valid() && d == old(d) && Contents() == old(Contents()) - iset{n}
    {
      hide Bit, Fits, AndNot, Shl;
      if n > BITMAP_MAX || n / WORD > top {
        BitOfZero(n % WORD);
        return;
      }
      var offset := n / WORD;
      var mask := Shl(1, n % WORD);
      d[offset] := AndNot(d[offset], mask);
      forall m: nat ensures Has(m) <==> old(Has(m)) && m != n {
        MaskBit(old(d[offset]), n % WORD, m % WORD);
      }
      MaskBit(old(d[offset]), n % WORD, 0);
      Retop();
    }

    /** bitmap_nbits: one more than the largest element, 0 for the empty set. */
    method NBits() returns (bits: nat)
      requires Valid()
      modifies this`top
      ensures Valid() && Contents() == old(Contents())
      ensures forall n <- Contents() :: n < bits
      ensures bits > 0 ==> bits - 1 in Contents()
      ensures bits <= WORD * (top + 1) && bits <= BITMAP_MAX + 1
    {
      hide Bit, Fits;
      Retop();
      if top == 0 && d[0] == 0 {
        forall n: nat ensures !Has(n) {
          BitOfZero(n % WORD);
        }
        return 0;
      }
      bits := ShiftToTop(d[top], (top + 1) * WORD);
      assert Has(bits - 1);
      forall n: nat | Has(n) ensures n < bits {
        if n / WORD > top {
          BitOfZero(n % WORD);
        }
      }
    }

    /** bitmap_nbytes. */
    method NBytes() returns (need: nat)
      requires Valid()
      modifies this`top
      ensures Valid() && Contents() == old(Contents())
      ensures Spans(Contents(), need)
      ensures need <= 4 * (top + 1)
    {
      var bits := NBits();
      need := (bits + 7) / 8;
      if need > 0 {
        assert (bits - 1) / 8 == need - 1;
      }
    }

    /** Byte k of the word array, counted from the least significant. */
    ghost function ByteAt(k: nat): nat
      requires k / 4 < d.Length
      reads this`d, d
    {
      WordByte(d[k / 4], k % 4)
    }

    lemma ByteAtBit(n: nat)
      requires n / 8 / 4 < d.Length
      ensures Bit(ByteAt(n / 8), n % 8) <==> Has(n)
      ensures Fits(ByteAt(n / 8), 8)
    {
      WordByteBit(d[n / 8 / 4], n / 8 % 4, n % 8);
      assert n / 8 / 4 == n / WORD && 8 * (n / 8 % 4) + n % 8 == n % WORD;
    }

    /** The loops of bitmap_to_string: bytes from the least significant, backwards from need. */
    method CopyBytes(p: array<nat>, need: nat)
      requires Valid() && need <= p.Length && need <= 4 * (top + 1) && p != d
      modifies p
      ensures forall m: nat | m < need :: p[need - 1 - m] == ByteAt(m)
      ensures p[need..] == old(p[need..])
    {
      hide WordByte;
      var i, k := 0, 0;
      while i < top + 1
        invariant i <= top + 1 && k == (if 4 * i < need then 4 * i else need)
        invariant forall m: nat | m < k :: p[need - 1 - m] == ByteAt(m)
        invariant p[need..] == old(p[need..])
        modifies p
      {
        var j := 0;
        while j < 4 && k < need
          invariant j <= 4 && k == (if 4 * i + j < need then 4 * i + j else need)
          invariant forall m: nat | m < k :: p[need - 1 - m] == ByteAt(m)
          invariant p[need..] == old(p[need..])
          modifies p
        {
          p[need - 1 - k] := WordByte(d[i], j);
          assert k / 4 == i && k % 4 == j;
          j, k := j + 1, k + 1;
        }
        i := i + 1;
      }
    }

    /**
     bitmap_to_string: the minimal big-endian numeral of the set, at the start of the buffer,
     exactly when l bytes can hold it.
     */
    method ToString(p: array<nat>, l: nat) returns (ok: bool, need: nat)
      requires Valid() && l <= p.Length && p != d
      modifies this`top, p
      ensures Valid() && Contents() == old(Contents())
      ensures ok <==> Holds(Contents(), l)
      ensures Spans(Contents(), need)
      ensures !ok ==> p[..] == old(p[..])
      ensures ok ==> ByteString(p[..need]) && Denoted(p[..need]) == Contents() && Minimal(p[..need])
      ensures ok ==> need <= l && p[need..] == old(p[need..])
    {
      need := NBytes();
      SpansDecides(Contents(), need, l);
      if l < need {
        return false, need;
      }
      ghost var c := Contents();
      CopyBytes(p, need);
      assert Contents() == c;
      NumeralIsMinimal(p, need);
      ok := true;
    }

    lemma NumeralBytes(p: array<nat>, need: nat)
      requires Valid() && need <= p.Length && need <= 4 * (top + 1)
      requires forall m: nat | m < need :: p[need - 1 - m] == ByteAt(m)
      ensures ByteString(p[..need])
    {
      hide Bit, Fits, WordByte;
      var s := p[..need];
      forall i | 0 <= i < need ensures Fits(s[i], 8) {
        var m := need - 1 - i;
        assert 8 * m / 8 == m;
        ByteAtBit(8 * m);
        assert s[i] == ByteAt(m);
      }
    }

    lemma NumeralBits(p: array<nat>, need: nat, n: nat)
      requires Valid() && need <= p.Length && need <= 4 * (top + 1)
      requires forall m: nat | m < need :: p[need - 1 - m] == ByteAt(m)
      requires forall m <- Contents() :: m < 8 * need
      ensures StringBit(p[..need], n) <==> Has(n)
    {
      hide Bit, Fits, WordByte;
      if n / 8 < need {
        ByteAtBit(n);
        assert p[..need][need - 1 - n / 8] == ByteAt(n / 8);
      } else {
        assert Has(n) <==> n in Contents();
      }
    }

    lemma NumeralIsMinimal(p: array<nat>, need: nat)
      requires Valid() && need <= p.Length && need <= 4 * (top + 1)
      requires forall m: nat | m < need :: p[need - 1 - m] == ByteAt(m)
      requires Spans(Contents(), need)
      ensures ByteString(p[..need]) && Denoted(p[..need]) == Contents() && Minimal(p[..need])
    {
      hide Bit, Fits, ByteAt;
      NumeralBytes(p, need);
      forall n: nat ensures StringBit(p[..need], n) <==> Has(n) {
        NumeralBits(p, need, n);
      }
      if need > 0 {
        var n :| n in Contents() && n / 8 == need - 1;
        assert StringBit(p[..need], n);
        BitOfZero(n % 8);
      }
    }

    /** bitmap_from_string: fails only on a string over BITMAP_MAX / 8 bytes or for want of memory. */
    method FromString(s: seq<nat>, memory: bool) returns (ok: bool)
      requires Valid() && ByteString(s)
      modifies this, d
      ensures Valid() && (d == old(d) || fresh(d))
      ensures ok <==> |s| <= BITMAP_MAX / 8 && (memory || |s| / 4 < old(d.Length))
      ensures Contents() == if ok then Denoted(s) else old(Contents())
    {
      var l := |s|;
      if l > BITMAP_MAX / 8 {
        return false;
      }
      ok := Reserve(8 * l, memory);
      if ok {
        Zero();
        if l > 0 {
          LoadBytes(s);
          Retop();
        } else {
          assert forall n: nat :: !StringBit(s, n);
        }
      }
    }

    /** d[offset] |= b << shift. */
    method PlaceByte(offset: nat, shift: nat, b: nat)
      requires offset < d.Length && shift + 8 <= WORD && Fits(b, 8) && Fits(d[offset], WORD)
      modifies d
      ensures forall k | 0 <= k < d.Length && k != offset :: d[k] == old(d[k])
      ensures Fits(d[offset], WORD)
      ensures forall n: nat :: Has(n) <==>
        old(Has(n)) || (n / WORD == offset && shift <= n % WORD < shift + 8 && Bit(b, n % WORD - shift))
    {
      var v := Shl(b, shift);
      d[offset] := Or(d[offset], v);
      ShlFits(b, shift, 8);
      FitsMore(v, shift + 8, WORD);
      OrFits(old(d[offset]), v, WORD);
      forall n: nat | n / WORD == offset
        ensures Has(n) <==> old(Has(n)) || (shift <= n % WORD < shift + 8 && Bit(b, n % WORD - shift))
      {
        OrBit(old(d[offset]), v, n % WORD);
        ShlBit(b, shift, n % WORD);
        if n % WORD >= shift + 8 {
          FitsBound(b, 8, n % WORD - shift);
        }
      }
    }

    /** The loop of bitmap_from_string over the zeroed words. */
    method LoadBytes(s: seq<nat>)
      requires ByteString(s) && 0 < |s| <= BITMAP_MAX / 8 && |s| / 4 < d.Length
      requires forall i | 0 <= i < d.Length :: d[i] == 0
      modifies this`top, d
      ensures Valid() && Contents() == Denoted(s)
    {
      hide Bit, Fits;
      var l := |s|;
      top := (l + 3) / 4 - 1;
      var offset: int, shift: nat := top, (l + 3) % 4 * 8;
      ZeroFits(WORD);
      forall n: nat ensures !Has(n) {
        BitOfZero(n % WORD);
      }
      for i := 0 to l
        invariant i < l ==> offset == (l - 1 - i) / 4 && shift == 8 * ((l - 1 - i) % 4)
        invariant forall k | 0 <= k < d.Length :: Fits(d[k], WORD)
        invariant forall k | top < k < d.Length :: d[k] == 0
        invariant forall n: nat :: Has(n) <==> n / 8 >= l - i && StringBit(s, n)
        modifies d
      {
        label Before:
        PlaceByte(offset, shift, s[i]);
        forall n: nat ensures Has(n) <==> n / 8 >= l - (i + 1) && StringBit(s, n) {
          assert old@Before(Has(n)) <==> n / 8 >= l - i && StringBit(s, n);
          assert (n / WORD == offset && shift <= n % WORD < shift + 8) <==> n / 8 == l - 1 - i;
          assert n / 8 == l - 1 - i ==> n % WORD - shift == n % 8;
        }
        if shift == 0 {
          offset, shift := offset - 1, WORD - 8;
        } else {
          shift := shift - 8;
        }
      }
    }
  }

  lemma ElementsBounded(b: Bitmap)
    requires b.Valid()
    ensures forall n <- b.Contents() :: n <= BITMAP_MAX
  {
    forall n | n in b.Contents() ensures n <= BITMAP_MAX {
      assert b.Has(n);
    }
  }

  /**
   Writing a set out and reading it back restores it exactly when l bytes hold the set, memory
   allows, and the set does not hold BITMAP_MAX itself, which bitmap_set_bit accepts but no
   string can carry. A failed import leaves the target as it was.
   */
  method Reload(from: Bitmap, to: Bitmap, p: array<nat>, l: nat, memory: bool) returns (ok: bool, need: nat)
    requires Apart(from, to, p) && l <= p.Length
    modifies from`top, to, to.d, p
    ensures from.Valid() && to.Valid() && from.Contents() == old(from.Contents())
    ensures to.d == old(to.d) || fresh(to.d)
    ensures Spans(from.Contents(), need)
    ensures ok <==> Holds(from.Contents(), l) && BITMAP_MAX !in from.Contents()
                    && (memory || need / 4 < old(to.d.Length))
    ensures to.Contents() == if ok then from.Contents() else old(to.Contents())
  {
    hide Denoted, Spans, Holds, Minimal;
    ok, need := from.ToString(p, l);
    ElementsBounded(from);
    NeedBound(from.Contents(), need);
    if ok {
      ok := to.FromString(p[..need], memory);
    }
  }

  /** BITMAP_MAX can be set, and then no buffer is large enough to bring the set back. */
  method MaxIsLost(from: Bitmap, to: Bitmap, p: array<nat>, l: nat) returns (added: bool, ok: bool)
    requires Apart(from, to, p) && l <= p.Length
    modifies from, from.d, to, to.d, p
    ensures from.Valid() && to.Valid()
    ensures added && from.Contents() == old(from.Contents()) + iset{BITMAP_MAX}
    ensures !ok && to.Contents() == old(to.Contents())
  {
    added := from.SetBit(BITMAP_MAX, true);
    assert BITMAP_MAX in from.Contents();
    var need;
    ok, need := Reload(from, to, p, l, true);
  }

  /** Any smaller element comes along, through a buffer that reaches it and all others. */
  method OneMoreComesBack(from: Bitmap, to: Bitmap, p: array<nat>, l: nat, n: nat) returns (ok: bool)
    requires Apart(from, to, p) && l <= p.Length
    requires n < BITMAP_MAX && BITMAP_MAX !in from.Contents() && n < 8 * l && Holds(from.Contents(), l)
    modifies from, from.d, to, to.d, p
    ensures from.Valid() && to.Valid()
    ensures ok && to.Contents() == from.Contents() == old(from.Contents()) + iset{n}
  {
    hide Spans, Bit, Fits;
    var added := from.SetBit(n, true);
    var need;
    ok, need := Reload(from, to, p, l, true);
  }

  /** Two bitmaps and a buffer that share no memory. */
  ghost predicate Apart(from: Bitmap, to: Bitmap, p: array<nat>)
    reads from, from.d, to, to.d
  {
    from != to && from.d != to.d && p != from.d && p != to.d && from.Valid() && to.Valid()
  }
}
