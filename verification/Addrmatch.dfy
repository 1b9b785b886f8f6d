/** CIDR matching of addrmatch.c, on parsed addresses. */
module Addrmatch {
  import opened Bits
  import opened Values
  import opened Wrappers

  datatype Family = Inet | Inet6 | OtherFamily

  type Quad = s: seq<Word> | |s| == 4 witness [0, 0, 0, 0]

  /** struct xaddr; each word of the address is the number that ntohl gives. IPv4 uses the first. */
  datatype Xaddr = Xaddr(af: Family, addr32: Quad, scope: Word)

  /** addr_unicast_masklen, with zero for a family that has none. */
  function Width(af: Family): nat {
    match af
    case Inet => 32
    case Inet6 => 128
    case OtherFamily => 0
  }

  predicate MasklenValid(af: Family, l: nat) {
    af != OtherFamily && l <= Width(af)
  }

  /** Bit k of an address, counted from the most significant. */
  predicate AddrBit(a: Xaddr, k: nat)
    requires k < 128
  {
    Bit(a.addr32[k / 32], 31 - k % 32)
  }

  predicate HostZero(a: Xaddr, l: nat) {
    forall k: nat | l <= k < Width(a.af) :: !AddrBit(a, k)
  }

  predicate SameBits(a: Xaddr, b: Xaddr, l: nat)
    requires l <= 128
  {
    forall k: nat | k < l :: AddrBit(a, k) == AddrBit(b, k)
  }

  /** What a CIDR block means: same family, same first l bits and, for IPv6, same scope. */
  predicate InNetwork(host: Xaddr, net: Xaddr, l: nat) {
    && host.af == net.af && MasklenValid(host.af, l)
    && SameBits(host, net, l)
    && (host.af == Inet6 ==> host.scope == net.scope)
  }

  /**
   Two blocks are nested or disjoint: the smaller lies wholly in the larger when its base
   address does, and otherwise they share no address.
   */
  lemma NestedOrDisjoint(big: Xaddr, l1: nat, small: Xaddr, l2: nat)
    requires l1 <= l2 && MasklenValid(small.af, l2)
    ensures InNetwork(small, big, l1) ==> forall h | InNetwork(h, small, l2) :: InNetwork(h, big, l1)
    ensures !InNetwork(small, big, l1) ==> forall h :: !(InNetwork(h, small, l2) && InNetwork(h, big, l1))
  {
    hide AddrBit;
    forall h | InNetwork(h, small, l2)
      ensures InNetwork(h, big, l1) <==> InNetwork(small, big, l1)
    {
      assert SameBits(h, small, l1);
    }
  }

  // ----- masks

  const ONES: Word := 0xffff_ffff

  lemma OnesWord(k: nat)
    ensures Bit(ONES, k) <==> k < 32
  {
    hide Bit, Shl;
    WordSize();
    OnesBit(32, k);
  }

  /** (0xffffffff << (32 - l)) & 0xffffffff */
  function MaskWord(l: nat): Word
    requires 0 < l <= 32
  {
    var r := Low(Shl(ONES, 32 - l), 32);
    assert r < TWO32 by {
      hide Low, Shl;
      LowBit(Shl(ONES, 32 - l), 32, 0);
      WordFits(r);
    }
    r
  }

  lemma MaskWordBit(l: nat, k: nat)
    requires 0 < l <= 32 && k < 32
    ensures Bit(MaskWord(l), k) <==> 32 - l <= k
  {
    hide Low, Shl, Bit;
    LowBit(Shl(ONES, 32 - l), 32, k);
    ShlBit(ONES, 32 - l, k);
    if 32 - l <= k {
      OnesWord(k - (32 - l));
    }
  }

  /** Word i of the mask of length l. */
  function MaskAt(l: nat, i: nat): Word {
    if l <= 32 * i then 0 else if 32 * i + 32 <= l then ONES else MaskWord(l - 32 * i)
  }

  lemma MaskAtBit(l: nat, i: nat, k: nat)
    requires k < 32
    ensures Bit(MaskAt(l, i), 31 - k) <==> 32 * i + k < l
  {
    hide Bit, MaskWord;
    if l <= 32 * i {
      BitOfZero(31 - k);
    } else if 32 * i + 32 <= l {
      OnesWord(31 - k);
    } else {
      MaskWordBit(l - 32 * i, 31 - k);
    }
  }

  lemma MaskBits(n: Xaddr, l: nat)
    requires forall i: nat | i < 4 :: n.addr32[i] == MaskAt(l, i)
    ensures forall k: nat | k < 128 :: AddrBit(n, k) <==> k < l
  {
    hide MaskAt, Bit;
    forall k: nat | k < 128 ensures AddrBit(n, k) <==> k < l {
      MaskAtBit(l, k / 32, k % 32);
    }
  }

  /** addr_netmask */
  method Netmask(af: Family, l: nat) returns (n: Option<Xaddr>)
    ensures n.Some? <==> MasklenValid(af, l)
    ensures n.Some? ==> n.value.af == af && n.value.scope == 0
    ensures n.Some? ==> forall k: nat | k < 128 :: AddrBit(n.value, k) <==> k < l
  {
    hide MaskWord, AddrBit;
    if !MasklenValid(af, l) {
      return None;
    }
    var words: Quad := [0, 0, 0, 0];
    if af == Inet {
      if l != 0 {
        words := words[0 := MaskWord(l)];
        assert l == 32 ==> words[0] == ONES by {
          FullMask();
        }
      }
    } else {
      var i, rest := 0, l;
      while i < 4 && rest >= 32
        invariant i <= 4 && rest == l - 32 * i
        invariant forall j | 0 <= j < 4 :: words[j] == if j < i then ONES else 0
      {
        words := words[i := ONES];
        i, rest := i + 1, rest - 32;
      }
      if i < 4 && rest != 0 {
        words := words[i := MaskWord(rest)];
      }
    }
    MaskBits(Xaddr(af, words, 0), l);
    n := Some(Xaddr(af, words, 0));
  }

  lemma FullMask()
    ensures MaskWord(32) == ONES
  {
    hide Bit, MaskWord;
    forall k: nat | k < 32 ensures Bit(MaskWord(32), k) == Bit(ONES, k) {
      MaskWordBit(32, k);
      OnesWord(k);
    }
    WordFits(MaskWord(32));
    WordFits(ONES);
    BitsDecide(MaskWord(32), ONES, 32);
  }

  function AndWord(a: Word, b: Word): Word {
    assert And(a, b) < TWO32 by {
      hide And;
      WordFits(a);
      AndFits(a, b, 32);
      WordFits(And(a, b));
    }
    And(a, b)
  }

  function NotWord(a: Word): Word {
    assert AndNot(ONES, a) < TWO32 by {
      hide AndNot;
      WordFits(ONES);
      AndNotFits(ONES, a, 32);
      WordFits(AndNot(ONES, a));
    }
    AndNot(ONES, a)
  }

  /** addr_and: the family and scope of a, with the bits in use that both have. */
  method AddrAnd(a: Xaddr, b: Xaddr) returns (r: Option<Xaddr>)
    ensures r.Some? <==> a.af == b.af && a.af != OtherFamily
    ensures r.Some? ==> r.value.af == a.af && r.value.scope == a.scope
    ensures r.Some? ==> forall k: nat | k < 128 ::
      AddrBit(r.value, k) <==> AddrBit(a, k) && (k < Width(a.af) ==> AddrBit(b, k))
  {
    hide And, Bit;
    if a.af != b.af || a.af == OtherFamily {
      return None;
    }
    var words := a.addr32;
    var n := if a.af == Inet then 1 else 4;
    for i := 0 to n
      invariant forall j | 0 <= j < 4 :: words[j] == if j < i then AndWord(a.addr32[j], b.addr32[j]) else a.addr32[j]
    {
      words := words[i := AndWord(words[i], b.addr32[i])];
    }
    r := Some(a.(addr32 := words));
    forall k: nat | k < 128
      ensures AddrBit(r.value, k) <==> AddrBit(a, k) && (k < Width(a.af) ==> AddrBit(b, k))
    {
      AndBit(a.addr32[k / 32], b.addr32[k / 32], 31 - k % 32);
    }
  }

  /** addr_invert: every bit in use flipped. */
  method AddrInvert(a: Xaddr) returns (r: Option<Xaddr>)
    ensures r.Some? <==> a.af != OtherFamily
    ensures r.Some? ==> r.value.af == a.af && r.value.scope == a.scope
    ensures r.Some? ==> forall k: nat | k < 128 :: AddrBit(r.value, k) <==> (AddrBit(a, k) != (k < Width(a.af)))
  {
    hide AndNot, Bit;
    if a.af == OtherFamily {
      return None;
    }
    var words := a.addr32;
    var n := if a.af == Inet then 1 else 4;
    for i := 0 to n
      invariant forall j | 0 <= j < 4 :: words[j] == if j < i then NotWord(a.addr32[j]) else a.addr32[j]
    {
      words := words[i := NotWord(words[i])];
    }
    r := Some(a.(addr32 := words));
    forall k: nat | k < 128
      ensures AddrBit(r.value, k) <==> (AddrBit(a, k) != (k < Width(a.af)))
    {
      AndNotBit(ONES, a.addr32[k / 32], 31 - k % 32);
      OnesWord(31 - k % 32);
    }
  }

  /** addr_hostmask */
  method Hostmask(af: Family, l: nat) returns (n: Option<Xaddr>)
    ensures n.Some? <==> MasklenValid(af, l)
    ensures n.Some? ==> n.value.af == af
    ensures n.Some? ==> forall k: nat | k < Width(af) :: AddrBit(n.value, k) <==> l <= k
  {
    hide AddrBit;
    n := Netmask(af, l);
    if n.Some? {
      n := AddrInvert(n.value);
    }
  }

  lemma ZeroWords(a: Xaddr, n: nat)
    requires n <= 4
    ensures (forall i | 0 <= i < n :: a.addr32[i] == 0) <==> (forall k: nat | k < 32 * n :: !AddrBit(a, k))
  {
    hide Bit;
    if forall i | 0 <= i < n :: a.addr32[i] == 0 {
      forall k: nat | k < 32 * n ensures !AddrBit(a, k) {
        BitOfZero(31 - k % 32);
      }
    } else {
      var i: nat :| i < n && a.addr32[i] != 0;
      WordFits(a.addr32[i]);
      var k := NonZeroHasBit(a.addr32[i], 32);
      var at := 32 * i + (31 - k);
      assert at / 32 == i && at % 32 == 31 - k;
      assert AddrBit(a, at);
    }
  }

  /** addr_is_all0s */
  method IsAll0s(a: Xaddr) returns (zero: bool)
    ensures zero <==> a.af != OtherFamily && HostZero(a, 0)
  {
    hide AddrBit;
    if a.af == OtherFamily {
      return false;
    }
    var n := if a.af == Inet then 1 else 4;
    ZeroWords(a, n);
    for i := 0 to n
      invariant forall j | 0 <= j < i :: a.addr32[j] == 0
    {
      if a.addr32[i] != 0 {
        return false;
      }
    }
    zero := true;
  }

  /** addr_host_is_all0s */
  method HostIsAll0s(a: Xaddr, l: nat) returns (zero: bool)
    ensures zero <==> MasklenValid(a.af, l) && HostZero(a, l)
  {
    hide AddrBit;
    var mask := Hostmask(a.af, l);
    if mask == None {
      return false;
    }
    var host := AddrAnd(a, mask.value);
    zero := IsAll0s(host.value);
    assert forall k: nat | k < Width(a.af) :: AddrBit(host.value, k) <==> AddrBit(a, k) && l <= k;
  }

  // ----- comparing

  /** addr8[i]: the address byte by byte, in network order. */
  function Octet(a: Xaddr, i: nat): Byte
    requires i < 16
  {
    ByteOf(a.addr32[i / 4], 3 - i % 4)
  }

  function Sign(a: nat, b: nat): int {
    if a == b then 0 else if a > b then 1 else -1
  }

  /** The byte loop of addr_cmp from byte i on; the scope decides between equal addresses. */
  function CmpOctets(a: Xaddr, b: Xaddr, i: nat): int
    requires i <= 16
    decreases 16 - i
  {
    if i == 16 then Sign(a.scope, b.scope)
    else if Octet(a, i) != Octet(b, i) then Sign(Octet(a, i), Octet(b, i))
    else CmpOctets(a, b, i + 1)
  }

  /** addr_cmp */
  function AddrCmp(a: Xaddr, b: Xaddr): int {
    if a.af != b.af then (if a.af == Inet6 then 1 else -1)
    else match a.af
      case Inet => Sign(a.addr32[0], b.addr32[0])
      case Inet6 => CmpOctets(a, b, 0)
      case OtherFamily => -1
  }

  lemma {:induction false} CmpOctetsOrders(a: Xaddr, b: Xaddr, c: Xaddr, i: nat)
    requires i <= 16
    ensures CmpOctets(a, b, i) == -CmpOctets(b, a, i)
    ensures CmpOctets(a, b, i) <= 0 && CmpOctets(b, c, i) <= 0 ==> CmpOctets(a, c, i) <= 0
    decreases 16 - i
  {
    hide Octet;
    if i < 16 {
      CmpOctetsOrders(a, b, c, i + 1);
    }
  }

  lemma {:induction false} CmpOctetsZero(a: Xaddr, b: Xaddr, i: nat)
    requires i <= 16
    ensures CmpOctets(a, b, i) == 0 <==> a.scope == b.scope && forall j | i <= j < 16 :: Octet(a, j) == Octet(b, j)
    decreases 16 - i
  {
    hide Octet;
    if i < 16 {
      CmpOctetsZero(a, b, i + 1);
    }
  }

  lemma WordBits(v: Word, w: Word)
    requires forall k: nat | k < 32 :: Bit(v, k) == Bit(w, k)
    ensures v == w
  {
    hide Bit;
    WordFits(v);
    WordFits(w);
    BitsDecide(v, w, 32);
  }

  lemma OctetsDecideWord(v: Word, w: Word)
    requires forall j: nat | j < 4 :: ByteOf(v, j) == ByteOf(w, j)
    ensures v == w
  {
    hide Bit, ByteOf;
    forall k: nat | k < 32 ensures Bit(v, k) == Bit(w, k) {
      ByteOfBit(v, k / 8, k % 8);
      ByteOfBit(w, k / 8, k % 8);
    }
    WordBits(v, w);
  }

  lemma OctetsDecide(a: Xaddr, b: Xaddr)
    ensures a.addr32 == b.addr32 <==> forall j | 0 <= j < 16 :: Octet(a, j) == Octet(b, j)
  {
    hide ByteOf;
    if forall j | 0 <= j < 16 :: Octet(a, j) == Octet(b, j) {
      forall i: nat | i < 4 ensures a.addr32[i] == b.addr32[i] {
        forall j: nat | j < 4 ensures ByteOf(a.addr32[i], j) == ByteOf(b.addr32[i], j) {
          var o := 4 * i + 3 - j;
          assert o / 4 == i && 3 - o % 4 == j;
          assert Octet(a, o) == Octet(b, o);
        }
        OctetsDecideWord(a.addr32[i], b.addr32[i]);
      }
    }
  }

  lemma SameBitsIffWords(a: Xaddr, b: Xaddr, n: nat)
    requires n <= 4
    ensures SameBits(a, b, 32 * n) <==> forall i | 0 <= i < n :: a.addr32[i] == b.addr32[i]
  {
    hide Bit;
    if SameBits(a, b, 32 * n) {
      forall i: nat | i < n ensures a.addr32[i] == b.addr32[i] {
        forall k: nat | k < 32 ensures Bit(a.addr32[i], k) == Bit(b.addr32[i], k) {
          var at := 32 * i + (31 - k);
          assert at / 32 == i && at % 32 == 31 - k;
          assert AddrBit(a, at) == AddrBit(b, at);
        }
        WordBits(a.addr32[i], b.addr32[i]);
      }
    }
  }

  /** Comparison says equal exactly of addresses with the same family, bits and (IPv6) scope. */
  lemma CmpZero(a: Xaddr, b: Xaddr)
    ensures AddrCmp(a, b) == 0 <==> InNetwork(a, b, Width(a.af))
  {
    hide AddrBit, SameBits;
    if a.af == b.af == Inet {
      SameBitsIffWords(a, b, 1);
    } else if a.af == b.af == Inet6 {
      SameBitsIffWords(a, b, 4);
      OctetsDecide(a, b);
      CmpOctetsZero(a, b, 0);
    }
  }

  /** addr_cmp is a total order on IPv4 and IPv6 addresses: antisymmetric, transitive, total. */
  lemma CmpIsTotalOrder(a: Xaddr, b: Xaddr, c: Xaddr)
    requires a.af != OtherFamily && b.af != OtherFamily && c.af != OtherFamily
    ensures AddrCmp(a, b) == -AddrCmp(b, a)
    ensures AddrCmp(a, b) <= 0 && AddrCmp(b, c) <= 0 ==> AddrCmp(a, c) <= 0
  {
    CmpOctetsOrders(a, b, c, 0);
  }

  /** Four octets decide as the word that they spell. */
  lemma WordsDecide(v: Word, w: Word)
    ensures v > w <==>
      || ByteOf(v, 3) > ByteOf(w, 3)
      || (ByteOf(v, 3) == ByteOf(w, 3) &&
          (|| ByteOf(v, 2) > ByteOf(w, 2)
           || (ByteOf(v, 2) == ByteOf(w, 2) &&
               (|| ByteOf(v, 1) > ByteOf(w, 1)
                || (ByteOf(v, 1) == ByteOf(w, 1) && ByteOf(v, 0) > ByteOf(w, 0))))))
  {
    hide ByteOf;
    BytesSpellWord(v);
    BytesSpellWord(w);
  }

  lemma CmpStep(a: Xaddr, b: Xaddr, i: nat, k: nat)
    requires i < 4 && k < 4
    ensures var u, v := ByteOf(a.addr32[i], 3 - k), ByteOf(b.addr32[i], 3 - k);
      CmpOctets(a, b, 4 * i + k) == if u == v then CmpOctets(a, b, 4 * i + k + 1) else if u > v then 1 else -1
  {
    hide ByteOf;
    assert (4 * i + k) / 4 == i && (4 * i + k) % 4 == k;
  }

  lemma CmpOneWord(a: Xaddr, b: Xaddr, i: nat)
    requires i < 4
    ensures var v, w := a.addr32[i], b.addr32[i];
      CmpOctets(a, b, 4 * i) == if v == w then CmpOctets(a, b, 4 * i + 4) else if v > w then 1 else -1
  {
    hide ByteOf, CmpOctets, Octet;
    WordsDecide(a.addr32[i], b.addr32[i]);
    WordsDecide(b.addr32[i], a.addr32[i]);
    CmpStep(a, b, i, 0);
    CmpStep(a, b, i, 1);
    CmpStep(a, b, i, 2);
    CmpStep(a, b, i, 3);
  }

  /** IPv4 before IPv6, then the words as numbers, the first deciding, then the scope of IPv6. */
  predicate Later(a: Xaddr, b: Xaddr) {
    var v, w := a.addr32, b.addr32;
    if a.af != b.af then a.af == Inet6
    else if v[0] != w[0] then v[0] > w[0]
    else if a.af == Inet then false
    else if v[1] != w[1] then v[1] > w[1]
    else if v[2] != w[2] then v[2] > w[2]
    else if v[3] != w[3] then v[3] > w[3]
    else a.scope > b.scope
  }

  lemma CmpScope(a: Xaddr, b: Xaddr)
    ensures CmpOctets(a, b, 16) > 0 <==> a.scope > b.scope
  {
  }

  /** Which of two addresses the comparison puts later. */
  lemma CmpMeaning(a: Xaddr, b: Xaddr)
    requires a.af != OtherFamily && b.af != OtherFamily
    ensures AddrCmp(a, b) > 0 <==> Later(a, b)
  {
    hide CmpOctets;
    if a.af == b.af == Inet6 {
      CmpOneWord(a, b, 0);
      CmpOneWord(a, b, 1);
      CmpOneWord(a, b, 2);
      CmpOneWord(a, b, 3);
      CmpScope(a, b);
    }
  }

  /** A mask word of length l is 2^32 - 2^(32 - l). */
  lemma MaskWordValue(l: nat)
    requires 0 < l <= 32
    ensures MaskWord(l) + Shl(1, 32 - l) == TWO32
  {
    hide Low, Shl, Shr;
    var p, v := Shl(1, 32 - l), Shl(ONES, 32 - l);
    ShlTimes(ONES, 32 - l);
    LowAndRest(v, 32);
    ShlTimes(Shr(v, 32), 32);
    WordSize();
    ShlAdds(32 - l, l);
    OnesBit(32 - l, 0);
    OnesBit(l, 0);
    TimesOnes(p, Shl(1, l));
    PlacesUnique(p - 1, TWO32 - p, Shr(v, 32), Low(v, 32), TWO32);
  }

  lemma TimesOnes(p: nat, q: nat)
    requires p * q == TWO32 && p > 0 && q > 0
    ensures ONES * p == (p - 1) * TWO32 + (TWO32 - p) && p <= TWO32
  {
    assert p * (q - 1) >= 0;
  }

  /** addr_netmatch: zero exactly when the host is in the network and the network has no host bits. */
  method Netmatch(host: Xaddr, net: Xaddr, masklen: nat) returns (r: int)
    ensures r == 0 <==> InNetwork(host, net, masklen) && HostZero(net, masklen)
  {
    hide AddrBit, AddrCmp;
    if host.af != net.af {
      return -1;
    }
    var mask := Netmask(host.af, masklen);
    if mask == None {
      return -1;
    }
    var part := AddrAnd(host, mask.value);
    CmpZero(part.value, net);
    assert forall k: nat | k < Width(host.af) :: AddrBit(part.value, k) <==> AddrBit(host, k) && k < masklen;
    r := AddrCmp(part.value, net);
  }

  // ----- lists

  /** What follows the address in a list entry. */
  datatype Suffix = NoSlash | Masklen(l: nat) | BadMasklen

  datatype Parsed = Network(net: Xaddr, l: nat) | Unreadable | Inconsistent

  /** The text is a numeric address, with nothing after it or a length of at most 128. */
  predicate Readable(addr: Option<Xaddr>, suffix: Suffix) {
    addr.Some? && suffix != BadMasklen && (suffix.Masklen? ==> suffix.l <= 128)
  }

  /** The length that is written, or the whole address. */
  function LengthOf(a: Xaddr, suffix: Suffix): nat {
    if suffix.Masklen? then suffix.l else Width(a.af)
  }

  /** A length that the family has, and no host bits. */
  predicate Consistent(a: Xaddr, l: nat) {
    MasklenValid(a.af, l) && HostZero(a, l)
  }

  /** addr_pton_cidr after its text is taken apart; no address when it is not a numeric one. */
  method PtonCidr(addr: Option<Xaddr>, suffix: Suffix) returns (r: Parsed)
    ensures r.Unreadable? <==> !Readable(addr, suffix)
    ensures r.Network? <==> Readable(addr, suffix) && Consistent(addr.value, LengthOf(addr.value, suffix))
    ensures r.Network? ==> r.net == addr.value && r.l == LengthOf(r.net, suffix)
  {
    hide HostZero;
    if suffix == BadMasklen || (suffix.Masklen? && suffix.l > 128) || addr == None {
      return Unreadable;
    }
    var masklen := if suffix.Masklen? then suffix.l else Width(addr.value.af);
    if !MasklenValid(addr.value.af, masklen) {
      return Inconsistent;
    }
    var zero := HostIsAll0s(addr.value, masklen);
    r := if zero then Network(addr.value, masklen) else Inconsistent;
  }

  /**
   One element of a pattern list: negated or not, empty or not, its reading as a CIDR block, and
   whether match_pattern takes the subject by its text.
   */
  datatype Entry = Entry(negated: bool, blank: bool, addr: Option<Xaddr>, suffix: Suffix, wildcard: bool)

  /** An entry that no list may hold. */
  predicate Bad(e: Entry) {
    e.blank || (Readable(e.addr, e.suffix) && !Consistent(e.addr.value, LengthOf(e.addr.value, e.suffix)))
  }

  /** The entry, its sign aside, covers the subject. */
  predicate Covers(e: Entry, subject: Xaddr) {
    if Readable(e.addr, e.suffix) then InNetwork(subject, e.addr.value, LengthOf(e.addr.value, e.suffix)) else e.wildcard
  }

  predicate Hits(e: Entry, subject: Option<Xaddr>) {
    subject.Some? && Covers(e, subject.value)
  }

  /** The list is read up to its first bad entry or negated hit. */
  predicate Stops(e: Entry, subject: Option<Xaddr>) {
    Bad(e) || (e.negated && Hits(e, subject))
  }

  predicate RunsTo(list: seq<Entry>, subject: Option<Xaddr>, i: nat)
    requires i <= |list|
  {
    forall j | 0 <= j < i :: !Stops(list[j], subject)
  }

  /**
   The loop of addr_match_list for a subject that could be read, or for none at all: -2 for a bad
   entry, -1 for a negated hit, whichever comes first; 1 for a hit in a list read to its end.
   */
  method MatchList(subject: Option<Xaddr>, list: seq<Entry>) returns (ret: int)
    ensures ret in {-2, -1, 0, 1}
    ensures ret == -2 <==> exists i | 0 <= i < |list| :: RunsTo(list, subject, i) && Bad(list[i])
    ensures ret == -1 <==> exists i | 0 <= i < |list| :: RunsTo(list, subject, i) && !Bad(list[i]) && list[i].negated && Hits(list[i], subject)
    ensures ret == 1 <==> RunsTo(list, subject, |list|) && exists i | 0 <= i < |list| :: Hits(list[i], subject)
  {
    hide Readable, InNetwork, HostZero;
    ret := 0;
    for n := 0 to |list|
      invariant RunsTo(list, subject, n)
      invariant ret == if exists i | 0 <= i < n :: Hits(list[i], subject) then 1 else 0
    {
      var e := list[n];
      if e.blank {
        return -2;
      }
      var p := PtonCidr(e.addr, e.suffix);
      if p == Inconsistent {
        return -2;
      }
      var hit := false;
      if subject.Some? {
        if p.Network? {
          var r := Netmatch(subject.value, p.net, p.l);
          hit := r == 0;
        } else {
          hit := e.wildcard;
        }
      }
      if hit {
        if e.negated {
          return -1;
        }
        ret := 1;
      }
    }
  }
}
