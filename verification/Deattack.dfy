/**
 The CRC compensation attack detector: an open-addressing hash table over the blocks of a
 packet, against a plain scan that asks of each block whether an equal one came earlier.
 */
module Deattack {
  import opened Crc

  const BLOCK := 8
  const MAX_BLOCKS := 32 * 1024
  const MIN_BLOCKS := 7
  const MAX_IDENTICAL := 32
  const INITIAL_SIZE := 4096
  const UNUSED := 0xffff

  datatype Verdict = Ok | Detected | DosDetected | Error

  function Blocks(buf: Bytes): nat {
    |buf| / BLOCK
  }

  function Block(buf: Bytes, i: nat): Bytes
    requires i < Blocks(buf)
  {
    buf[BLOCK * i..BLOCK * i + BLOCK]
  }

  // ----- check_crc

  /** The XOR, over the positions p that hold s, of 2(n-p) four-byte CRC steps applied to 1. */
  function Signature(s: Bytes, buf: Bytes, p: nat): bv32
    requires p <= Blocks(buf)
    decreases Blocks(buf) - p
  {
    if p == Blocks(buf) then 0
    else Xor(if Block(buf, p) == s then WordSteps(1, 2 * (Blocks(buf) - p)) else 0, Signature(s, buf, p + 1))
  }

  lemma WordStepOfZero()
    ensures WordStep(0) == 0
  {
    hide WordStep;
    WordStepLinear(0, 0);
    assert Xor(0, 0) == 0 && Xor(WordStep(0), WordStep(0)) == 0;
  }

  lemma {:induction false} WordStepsOfZero(n: nat)
    ensures WordSteps(0, n) == 0
  {
    if n > 0 {
      WordStepOfZero();
      WordStepsOfZero(n - 1);
    }
  }

  lemma XorWithZero(x: bv32)
    ensures Xor(x, 0) == x && Xor(0, x) == x
  {
  }

  /** crc_update: fold a word into the register with four table steps. */
  method CrcUpdate(a: bv32, b: bv32) returns (r: bv32)
    ensures r == WordStep(Xor(a, b))
  {
    r := SshCrc32(LittleEndian(Xor(b, a)));
    XorCommutes(a, b);
  }

  /** check_crc holds exactly when the contributions of the matching blocks cancel out. */
  method CheckCrc(s: Bytes, buf: Bytes) returns (r: bool)
    requires |buf| % BLOCK == 0
    ensures r <==> Signature(s, buf, 0) == 0
  {
    hide WordStep, Xor;
    var crc: bv32 := 0;
    var n := Blocks(buf);
    WordStepsOfZero(2 * n);
    XorWithZero(Signature(s, buf, 0));
    for p := 0 to n
      invariant Xor(WordSteps(crc, 2 * (n - p)), Signature(s, buf, p)) == Signature(s, buf, 0)
    {
      var m: bv32 := if Block(buf, p) == s then 1 else 0;
      ghost var k := 2 * (n - p);
      ghost var before := crc;
      crc := CrcUpdate(crc, m);
      XorWithZero(crc);
      crc := CrcUpdate(crc, 0);
      RegisterStep(before, m, k);
      WordStepsOfZero(k);
      XorAssociates(WordSteps(before, k), WordSteps(m, k), Signature(s, buf, p + 1));
    }
    XorWithZero(crc);
    r := crc == 0;
  }

  lemma RegisterStep(crc: bv32, m: bv32, k: nat)
    requires k >= 2
    ensures WordSteps(WordStep(WordStep(Xor(crc, m))), k - 2) == Xor(WordSteps(crc, k), WordSteps(m, k))
  {
    hide WordStep, Xor;
    WordStepsLinear(crc, m, k);
    var x := Xor(crc, m);
    assert WordSteps(x, k) == WordSteps(WordStep(x), k - 1);
  }

  // ----- the reference scan

  ghost predicate SeenBefore(buf: Bytes, j: nat)
    requires j < Blocks(buf)
  {
    exists k: nat | k < j :: Block(buf, k) == Block(buf, j)
  }

  ghost function Scan(buf: Bytes, j: nat, same: nat): (r: Verdict)
    requires j <= Blocks(buf)
    ensures r != Error
    decreases Blocks(buf) - j
  {
    if j == Blocks(buf) then Ok
    else if !SeenBefore(buf, j) then Scan(buf, j + 1, same)
    else if same + 1 > MAX_IDENTICAL then DosDetected
    else if Signature(Block(buf, j), buf, 0) == 0 then Detected
    else Scan(buf, j + 1, same + 1)
  }

  // ----- linear probing

  /** The slot d places after slot p, in a table of n slots. */
  function At(p: nat, d: nat, n: nat): nat
    requires p < n && d < n
  {
    if p + d < n then p + d else p + d - n
  }

  /** How many places slot s lies after slot p. */
  function Dist(p: nat, s: nat, n: nat): nat
    requires p < n && s < n
  {
    if s >= p then s - p else s - p + n
  }

  function Home(hash: Bytes -> nat, b: Bytes, n: nat): (p: nat)
    requires n > 0
    ensures p < n
  {
    hash(b) % n
  }

  predicate Used(t: seq<nat>, s: nat)
    requires s < |t|
  {
    t[s] != UNUSED
  }

  /** Every slot from a key's home up to distance d is taken. */
  ghost predicate PathUsed(t: seq<nat>, p: nat, d: nat)
    requires p < |t| && d <= |t|
  {
    forall e: nat | e < d :: Used(t, At(p, e, |t|))
  }

  ghost predicate Stored(t: seq<nat>, buf: Bytes, b: Bytes) {
    exists s: nat | s < |t| && Used(t, s) :: t[s] < Blocks(buf) && Block(buf, t[s]) == b
  }

  /** A stored index is below j, and probing from its block's home reaches it. */
  ghost predicate Reachable(hash: Bytes -> nat, t: seq<nat>, buf: Bytes, j: nat)
    requires j <= Blocks(buf) && |t| > 0
  {
    forall s: nat | s < |t| && Used(t, s) ::
      t[s] < j && var h := Home(hash, Block(buf, t[s]), |t|); PathUsed(t, h, Dist(h, s, |t|))
  }

  predicate Bounded(t: seq<nat>, j: nat) {
    forall s: nat | s < |t| && Used(t, s) :: t[s] < j
  }

  ghost predicate Unique(t: seq<nat>, buf: Bytes, j: nat)
    requires j <= Blocks(buf) && Bounded(t, j)
  {
    forall s: nat, s': nat | s < s' < |t| && Used(t, s) && Used(t, s') :: Block(buf, t[s]) != Block(buf, t[s'])
  }

  ghost predicate Covers(t: seq<nat>, buf: Bytes, j: nat)
    requires j <= Blocks(buf)
  {
    forall k: nat | k < j :: Stored(t, buf, Block(buf, k))
  }

  /** The table holds one index below j for each distinct block before j, reachable from its home. */
  ghost predicate TableOk(hash: Bytes -> nat, t: seq<nat>, buf: Bytes, j: nat)
    requires j <= Blocks(buf)
  {
    |t| > 0 && Reachable(hash, t, buf, j) && Unique(t, buf, j) && Covers(t, buf, j)
  }

  function Below(j: nat): (r: set<nat>)
    ensures |r| == j && forall x: nat :: x in r <==> x < j
  {
    if j == 0 then {} else Below(j - 1) + {j - 1}
  }

  lemma {:induction false} CountDistinct(t: seq<nat>)
    requires forall s: nat, s': nat | s < s' < |t| :: t[s] != t[s']
    ensures |set s: nat | s < |t| :: t[s]| == |t|
  {
    if t != [] {
      var n := |t| - 1;
      CountDistinct(t[..n]);
      assert (set s: nat | s < |t| :: t[s]) == (set s: nat | s < n :: t[..n][s]) + {t[n]};
    }
  }

  lemma {:induction false} SubsetCount(a: set<nat>, b: set<nat>)
    requires a <= b
    ensures |a| <= |b|
  {
    if x :| x in a {
      SubsetCount(a - {x}, b - {x});
    }
  }

  lemma Pigeonhole(t: seq<nat>, j: nat)
    requires forall s: nat, s': nat | s < s' < |t| :: t[s] != t[s']
    requires forall s: nat | s < |t| :: t[s] < j
    ensures |t| <= j
  {
    CountDistinct(t);
    SubsetCount(set s: nat | s < |t| :: t[s], Below(j));
  }

  /** Distinct slots hold distinct indices below j, so with more than j slots one is free. */
  lemma FreeSlot(t: seq<nat>, j: nat)
    requires Bounded(t, j)
    requires forall s: nat, s': nat | s < s' < |t| && Used(t, s) && Used(t, s') :: t[s] != t[s']
    ensures |t| <= j || exists f: nat | f < |t| :: !Used(t, f)
  {
    if forall s: nat | s < |t| :: Used(t, s) {
      Pigeonhole(t, j);
    }
  }

  /** A block seen before is met on the way from its home, before any free slot. */
  lemma SeenIsMet(hash: Bytes -> nat, t: seq<nat>, buf: Bytes, j: nat) returns (d: nat)
    requires j < Blocks(buf) && TableOk(hash, t, buf, j) && SeenBefore(buf, j)
    ensures var p := Home(hash, Block(buf, j), |t|);
      && d < |t| && PathUsed(t, p, d) && Used(t, At(p, d, |t|))
      && t[At(p, d, |t|)] < j && Block(buf, t[At(p, d, |t|)]) == Block(buf, j)
  {
    hide Block, Home;
    var k: nat :| k < j && Block(buf, k) == Block(buf, j);
    assert Stored(t, buf, Block(buf, k));
    var s: nat :| s < |t| && Used(t, s) && t[s] < Blocks(buf) && Block(buf, t[s]) == Block(buf, j);
    d := Dist(Home(hash, Block(buf, j), |t|), s, |t|);
  }

  /** A free slot met on the way from home proves that no equal block was stored. */
  lemma FreeMeansNew(hash: Bytes -> nat, t: seq<nat>, buf: Bytes, j: nat, d: nat)
    requires j < Blocks(buf) && TableOk(hash, t, buf, j) && d < |t|
    requires var p := Home(hash, Block(buf, j), |t|);
      && !Used(t, At(p, d, |t|))
      && forall e: nat | e < d :: Used(t, At(p, e, |t|)) && Block(buf, t[At(p, e, |t|)]) != Block(buf, j)
    ensures !SeenBefore(buf, j)
  {
    if SeenBefore(buf, j) {
      var met := SeenIsMet(hash, t, buf, j);
      assert false;
    }
  }

  /** Probing for block j from its home stopped after d places, at its own block or at a free slot. */
  ghost predicate Stopped(hash: Bytes -> nat, t: seq<nat>, buf: Bytes, j: nat, i: nat, d: nat)
    requires j < Blocks(buf) && |t| > 0
  {
    && i < |t| && d < |t|
    && i == At(Home(hash, Block(buf, j), |t|), d, |t|)
    && PathUsed(t, Home(hash, Block(buf, j), |t|), d)
    && if Used(t, i) then t[i] < j && Block(buf, t[i]) == Block(buf, j) else !SeenBefore(buf, j)
  }

  lemma StoreReachable(hash: Bytes -> nat, t: seq<nat>, buf: Bytes, j: nat, i: nat, d: nat)
    requires j < Blocks(buf) && j < UNUSED && |t| > 0 && Reachable(hash, t, buf, j) && Stopped(hash, t, buf, j, i, d)
    ensures Reachable(hash, t[i := j], buf, j + 1)
  {
    hide Block, Home;
    var t' := t[i := j];
    forall s: nat | s < |t'| && Used(t', s)
      ensures t'[s] < j + 1 && var h := Home(hash, Block(buf, t'[s]), |t'|); PathUsed(t', h, Dist(h, s, |t'|))
    {
      var h := Home(hash, Block(buf, t'[s]), |t|);
      if s == i {
        assert Dist(h, s, |t|) == d;
      }
      assert PathUsed(t, h, Dist(h, s, |t|));
    }
  }

  lemma StoreUnique(hash: Bytes -> nat, t: seq<nat>, buf: Bytes, j: nat, i: nat, d: nat)
    requires j < Blocks(buf) && |t| > 0 && Reachable(hash, t, buf, j) && Unique(t, buf, j) && Stopped(hash, t, buf, j, i, d)
    ensures Bounded(t[i := j], j + 1)
    ensures Unique(t[i := j], buf, j + 1)
  {
    hide Block, Home, PathUsed;
    var t' := t[i := j];
    forall s: nat | s < |t| && s != i && Used(t', s)
      ensures Block(buf, t'[s]) != Block(buf, j)
    {
      assert t'[s] == t[s] && Used(t, s);
    }
  }

  lemma StoreCovers(t: seq<nat>, buf: Bytes, j: nat, i: nat)
    requires j < Blocks(buf) && j < UNUSED && i < |t| && Covers(t, buf, j)
    requires Used(t, i) ==> t[i] < j && Block(buf, t[i]) == Block(buf, j)
    ensures Covers(t[i := j], buf, j + 1)
  {
    hide Block;
    var t' := t[i := j];
    forall k: nat | k < j + 1 ensures Stored(t', buf, Block(buf, k)) {
      if Block(buf, k) == Block(buf, j) {
        assert Used(t', i) && t'[i] == j;
      } else {
        assert Stored(t, buf, Block(buf, k));
        var s: nat :| s < |t| && Used(t, s) && t[s] < Blocks(buf) && Block(buf, t[s]) == Block(buf, k);
        assert Used(t', s) && t'[s] == t[s];
      }
    }
  }

  /** Writing j at the slot where probing stopped keeps the table in order. */
  lemma {:induction false} StoreKeepsTable(hash: Bytes -> nat, t: seq<nat>, buf: Bytes, j: nat, i: nat, d: nat)
    requires j < Blocks(buf) && j < UNUSED && TableOk(hash, t, buf, j) && Stopped(hash, t, buf, j, i, d)
    ensures TableOk(hash, t[i := j], buf, j + 1)
  {
    StoreReachable(hash, t, buf, j, i, d);
    StoreUnique(hash, t, buf, j, i, d);
    StoreCovers(t, buf, j, i);
  }

  // ----- detect_attack

  /** Sizes the table can take: 4096 quadrupled any number of times. */
  ghost predicate PowerOfTwo(n: nat) {
    exists k: nat :: n == Pow2(k)
  }

  function Pow2(k: nat): nat {
    if k == 0 then 1 else 2 * Pow2(k - 1)
  }

  lemma Quadruple(n: nat)
    requires PowerOfTwo(n)
    ensures PowerOfTwo(4 * n)
  {
    var k: nat :| n == Pow2(k);
    assert Pow2(k + 2) == 4 * n;
  }

  lemma InitialIsPowerOfTwo()
    ensures PowerOfTwo(INITIAL_SIZE)
  {
    assert Pow2(12) == INITIAL_SIZE;
  }

  /** The packet lengths detect_attack does not refuse. */
  predicate Fits(buf: Bytes) {
    |buf| <= MAX_BLOCKS * BLOCK && |buf| % BLOCK == 0
  }

  /** Slots wanted for a packet: HASH_FACTOR of its blocks. */
  function Wanted(buf: Bytes): nat {
    Blocks(buf) * 3 / 2
  }

  /** The first of n, 4n, 16n, ... that is large enough. */
  function Grown(n: nat, wanted: nat): (r: nat)
    requires n > 0
    ensures r >= n && r >= wanted
    ensures r == n || r < 4 * wanted
    decreases wanted - n
  {
    if n >= wanted then n else Grown(4 * n, wanted)
  }

  lemma {:induction false} GrownIsPowerOfTwo(n: nat, wanted: nat)
    requires n > 0 && PowerOfTwo(n)
    ensures PowerOfTwo(Grown(n, wanted))
    decreases wanted - n
  {
    if n < wanted {
      Quadruple(n);
      GrownIsPowerOfTwo(4 * n, wanted);
    }
  }

  /** What one packet leaves for the next: whether there is a table, and its size. */
  datatype Room = Room(present: bool, size: nat)

  const NO_TABLE := Room(false, INITIAL_SIZE)

  predicate Suffices(room: Room, buf: Bytes) {
    room.present && room.size >= Wanted(buf)
  }

  /** The table after a packet; memory says whether an allocation would succeed. */
  function NextRoom(room: Room, buf: Bytes, memory: bool): Room
    requires room.size > 0
  {
    if !Fits(buf) || Suffices(room, buf) then room
    else if memory then Room(true, Grown(room.size, Wanted(buf)))
    else Room(false, room.size)
  }

  ghost function Answer(room: Room, buf: Bytes, memory: bool): Verdict {
    if Fits(buf) && (memory || Suffices(room, buf)) then Scan(buf, 0, 0) else Error
  }

  /** A packet, and whether memory can be had while it is looked at. */
  datatype Arrival = Arrival(buf: Bytes, memory: bool)

  function RoomAfter(room: Room, arrivals: seq<Arrival>): (r: Room)
    requires room.size > 0
    ensures r.size >= room.size
  {
    if arrivals == [] then room
    else
      var last := arrivals[|arrivals| - 1];
      NextRoom(RoomAfter(room, arrivals[..|arrivals| - 1]), last.buf, last.memory)
  }

  /** Whatever comes, the table has 4096, 16384 or 65536 slots. */
  lemma {:induction false} ThreeSizes(arrivals: seq<Arrival>)
    ensures RoomAfter(NO_TABLE, arrivals).size in {4096, 16384, 65536}
  {
    if arrivals != [] {
      var n := |arrivals| - 1;
      ThreeSizes(arrivals[..n]);
      GrownFrom(RoomAfter(NO_TABLE, arrivals[..n]).size, Wanted(arrivals[n].buf));
    }
  }

  lemma GrownFrom(n: nat, wanted: nat)
    requires n in {4096, 16384, 65536}
    ensures wanted <= 65536 ==> Grown(n, wanted) in {4096, 16384, 65536}
  {
    assert Grown(n, wanted) == if n >= wanted then n else Grown(4 * n, wanted);
    assert Grown(4 * n, wanted) == if 4 * n >= wanted then 4 * n else Grown(16 * n, wanted);
  }

  /** As long as every larger packet finds memory, a packet that there was room for keeps its room. */
  lemma {:induction false} RoomStays(room: Room, arrivals: seq<Arrival>, buf: Bytes)
    requires room.size > 0 && Suffices(room, buf)
    requires forall a <- arrivals | Fits(a.buf) :: a.memory || Blocks(a.buf) <= Blocks(buf)
    ensures Suffices(RoomAfter(room, arrivals), buf)
  {
    if arrivals != [] {
      var n := |arrivals| - 1;
      assert forall a <- arrivals[..n] :: a in arrivals;
      assert arrivals[n] in arrivals;
      RoomStays(room, arrivals[..n], buf);
    }
  }

  class DeattackCtx {
    const hash: Bytes -> nat
    var h: array?<nat>
    var n: nat

    ghost predicate Valid()
      reads this
    {
      n >= INITIAL_SIZE && PowerOfTwo(n) && (h != null ==> h.Length == n)
    }

    /** deattack_init. */
    constructor (hash: Bytes -> nat)
      ensures Valid() && this.hash == hash && Now() == NO_TABLE
    {
      this.hash := hash;
      h, n := null, INITIAL_SIZE;
      new;
      InitialIsPowerOfTwo();
    }

    ghost function Now(): Room
      reads this
    {
      Room(h != null, n)
    }

    /**
     Make room for the packet, asking for memory only when there is none; on failure the table is
     gone but its size is remembered.
     */
    method Reserve(buf: Bytes, memory: bool) returns (ok: bool)
      requires Valid() && Fits(buf)
      modifies this
      ensures Valid() && Now() == NextRoom(old(Now()), buf, memory)
      ensures ok <==> memory || Suffices(old(Now()), buf)
      ensures ok ==> Suffices(Now(), buf) && (h == old(h) || fresh(h))
      ensures !ok ==> h == null
    {
      var l := n;
      while l < Blocks(buf) * 3 / 2
        invariant l >= n && Grown(l, Wanted(buf)) == Grown(n, Wanted(buf))
        modifies {}
      {
        l := 4 * l;
      }
      GrownIsPowerOfTwo(n, Wanted(buf));
      if h == null || l > n {
        if !memory {
          h := null;
          return false;
        }
        h := new nat[l];
        n := l;
      }
      return true;
    }

    /** The scan of a short packet, block against earlier block. */
    method ScanShort(buf: Bytes) returns (r: Verdict)
      requires Fits(buf) && Blocks(buf) <= MIN_BLOCKS
      ensures r == Scan(buf, 0, 0)
    {
      hide Block, Signature;
      ghost var same := 0;
      for c := 0 to Blocks(buf)
        invariant same <= c && Scan(buf, c, same) == Scan(buf, 0, 0)
      {
        var d := 0;
        while d < c && Block(buf, c) != Block(buf, d)
          invariant d <= c && forall k: nat | k < d :: Block(buf, k) != Block(buf, c)
        {
          d := d + 1;
        }
        if d < c {
          assert SeenBefore(buf, c);
          var hit := CheckCrc(Block(buf, c), buf);
          if hit {
            return Detected;
          }
          same := same + 1;
        }
      }
      return Ok;
    }

    /** Probe for block j: stop at an equal block or at a free slot. */
    method Probe(buf: Bytes, j: nat) returns (i: nat, hit: bool, ghost d: nat)
      requires Valid() && h != null && j < Blocks(buf) < n && Blocks(buf) < UNUSED
      requires TableOk(hash, h[..], buf, j)
      ensures Stopped(hash, h[..], buf, j, i, d)
      ensures hit == Used(h[..], i) == SeenBefore(buf, j)
    {
      hide Block, Home;
      ghost var t := h[..];
      ghost var b := Block(buf, j);
      ghost var p := Home(hash, b, n);
      FreeSlot(t, j);
      ghost var f: nat :| f < n && !Used(t, f);
      i, d := Home(hash, Block(buf, j), n), 0;
      while h[i] != UNUSED
        invariant d <= Dist(p, f, n) && i == At(p, d, n)
        invariant forall e: nat | e < d :: Used(t, At(p, e, n)) && Block(buf, t[At(p, e, n)]) != b
        decreases n - d
      {
        assert Used(t, i);
        assert At(p, Dist(p, f, n), n) == f;
        if Block(buf, j) == Block(buf, h[i]) {
          hit := true;
          assert Block(buf, t[i]) == b && t[i] < j;
          assert SeenBefore(buf, j);
          return;
        }
        i := if i + 1 == n then 0 else i + 1;
        d := d + 1;
      }
      assert !Used(t, i);
      FreeMeansNew(hash, t, buf, j, d);
      hit := false;
    }

    method ClearTable(ghost buf: Bytes)
      requires Valid() && h != null
      modifies h
      ensures TableOk(hash, h[..], buf, 0)
    {
      forall i | 0 <= i < h.Length {
        h[i] := UNUSED;
      }
      assert forall s: nat | s < n :: !Used(h[..], s);
    }

    method Store(ghost buf: Bytes, j: nat, i: nat, ghost d: nat)
      requires Valid() && h != null && j < Blocks(buf) && j < UNUSED
      requires TableOk(hash, h[..], buf, j) && Stopped(hash, h[..], buf, j, i, d)
      modifies h
      ensures TableOk(hash, h[..], buf, j + 1)
    {
      StoreKeepsTable(hash, h[..], buf, j, i, d);
      ghost var t := h[..];
      h[i] := j;
      assert h[..] == t[i := j];
    }

    method ScanLong(buf: Bytes) returns (r: Verdict)
      requires Valid() && h != null && Fits(buf) && Blocks(buf) < n
      modifies h
      ensures Valid() && r == Scan(buf, 0, 0)
    {
      hide TableOk, Stopped, Signature, SeenBefore;
      ClearTable(buf);
      var same: nat, j: nat := 0, 0;
      while j < Blocks(buf)
        invariant j <= Blocks(buf) && Valid()
        invariant TableOk(hash, h[..], buf, j)
        invariant Scan(buf, j, same) == Scan(buf, 0, 0)
      {
        var i, hit, d := Probe(buf, j);
        if hit {
          same := same + 1;
          if same > MAX_IDENTICAL {
            return DosDetected;
          }
          var cancels := CheckCrc(Block(buf, j), buf);
          if cancels {
            return Detected;
          }
        }
        Store(buf, j, i, d);
        j := j + 1;
      }
      r := Ok;
    }

    /**
     detect_attack: refuses a bad length, and a packet that the table has no room for when no
     memory is to be had; otherwise it gives the verdict of the reference scan, whatever the hash
     function and whatever packets came before.
     */
    method DetectAttack(buf: Bytes, memory: bool) returns (r: Verdict)
      requires Valid()
      modifies this, h
      ensures Valid() && Now() == NextRoom(old(Now()), buf, memory)
      ensures h == old(h) || h == null || fresh(h)
      ensures r == Answer(old(Now()), buf, memory)
    {
      if !Fits(buf) {
        return Error;
      }
      var ok := Reserve(buf, memory);
      if !ok {
        return Error;
      }
      if Blocks(buf) <= MIN_BLOCKS {
        r := ScanShort(buf);
      } else {
        r := ScanLong(buf);
      }
    }
  }

  /** The answer to packet i, given the table that the packets before it leave. */
  ghost function AnswerAt(start: Room, arrivals: seq<Arrival>, i: nat): Verdict
    requires start.size > 0 && i < |arrivals|
  {
    Answer(RoomAfter(start, arrivals[..i]), arrivals[i].buf, arrivals[i].memory)
  }

  lemma RoomAfterMore(start: Room, arrivals: seq<Arrival>, k: nat)
    requires start.size > 0 && k < |arrivals|
    ensures RoomAfter(start, arrivals[..k + 1])
      == NextRoom(RoomAfter(start, arrivals[..k]), arrivals[k].buf, arrivals[k].memory)
  {
    hide NextRoom;
    assert arrivals[..k + 1][..k] == arrivals[..k];
  }

  /**
   A whole connection: each packet gets the verdict of the reference scan, or an error exactly
   when its length is bad or the table that the earlier packets left has no room and none can be had.
   */
  method DetectAll(ctx: DeattackCtx, arrivals: seq<Arrival>) returns (rs: seq<Verdict>)
    requires ctx.Valid()
    modifies ctx, ctx.h
    ensures ctx.Valid() && ctx.Now() == RoomAfter(old(ctx.Now()), arrivals)
    ensures ctx.h == old(ctx.h) || ctx.h == null || fresh(ctx.h)
    ensures |rs| == |arrivals| && forall i: nat | i < |arrivals| :: rs[i] == AnswerAt(old(ctx.Now()), arrivals, i)
  {
    hide NextRoom, RoomAfter;
    ghost var start := ctx.Now();
    NoArrivals(start);
    rs := [];
    for k := 0 to |arrivals|
      invariant ctx.Valid() && ctx.Now() == RoomAfter(start, arrivals[..k])
      invariant ctx.h == old(ctx.h) || ctx.h == null || fresh(ctx.h)
      invariant |rs| == k && forall i: nat | i < k :: rs[i] == AnswerAt(start, arrivals, i)
    {
      hide Answer;
      RoomAfterMore(start, arrivals, k);
      var r := ctx.DetectAttack(arrivals[k].buf, arrivals[k].memory);
      assert r == AnswerAt(start, arrivals, k);
      rs := rs + [r];
    }
    assert arrivals[..|arrivals|] == arrivals;
  }

  lemma NoArrivals(room: Room)
    requires room.size > 0
    ensures RoomAfter(room, []) == room
  {
  }
}
