/** The vectored full-transfer loop of atomicio.c, with the system call as an oracle. */
module Atomicio {
  /** A stretch of memory. */
  datatype Iovec = Iovec(base: nat, len: nat)

  /** One return of readv or writev, with what the progress callback then says. */
  datatype Outcome =
    | Interrupted                      // EINTR
    | WouldBlock                       // EAGAIN, EWOULDBLOCK, after waiting in poll
    | Failed                           // any other error
    | Count(n: nat, aborted: bool)

  datatype Errno = NoError | EINVAL | EPIPE | EFAULT | EINTR | FromCall

  /** What the caller sees; Unfinished when the oracle has said no more. */
  datatype Report = Returned(count: nat, errno: Errno) | Unfinished

  function Range(v: Iovec): (r: seq<nat>)
    ensures |r| == v.len
  {
    seq(v.len, i requires 0 <= i < v.len => v.base + i)
  }

  /** The addresses of all bytes of all entries, in order. */
  function Flat(vs: seq<Iovec>): seq<nat> {
    if vs == [] then [] else Range(vs[0]) + Flat(vs[1..])
  }

  // ----- the loop on one stretch of bytes

  /** What a loop over a single run of total bytes reports after pos of them, and how many go through. */
  function Transfer(total: nat, script: seq<Outcome>, pos: nat): (r: (Report, nat))
    requires pos <= total
    ensures pos <= r.1 <= total
    decreases |script|
  {
    if pos == total then (Returned(pos, NoError), pos)
    else if script == [] then (Unfinished, pos)
    else match script[0]
      case Interrupted => Transfer(total, script[1..], pos)
      case WouldBlock => Transfer(total, script[1..], pos)
      case Failed => (Returned(0, FromCall), pos)
      case Count(n, aborted) =>
        if n == 0 then (Returned(pos, EPIPE), pos)
        else if n > total - pos then (Returned(0, EFAULT), total)
        else if aborted then (Returned(pos + n, EINTR), pos + n)
        else Transfer(total, script[1..], pos + n)
  }

  /** A count is what went through or zero; without an error, it is everything. */
  lemma {:induction false} CountIsTransferred(total: nat, script: seq<Outcome>, pos: nat)
    requires pos <= total
    ensures var (report, sent) := Transfer(total, script, pos);
      report.Returned? ==>
        && (report.count == 0 || report.count == sent)
        && (report.errno == NoError ==> report.count == sent == total)
        && (report.count == total > 0 ==> sent == total)
    decreases |script|
  {
    if pos < total && script != [] {
      match script[0]
      case Interrupted => CountIsTransferred(total, script[1..], pos);
      case WouldBlock => CountIsTransferred(total, script[1..], pos);
      case Failed =>
      case Count(n, _) =>
        if n <= total - pos {
          CountIsTransferred(total, script[1..], pos + n);
        }
    }
  }

  predicate Retried(o: Outcome) {
    o == Interrupted || o == WouldBlock
  }

  /** An outcome after which the loop goes on. */
  predicate Continues(o: Outcome) {
    Retried(o) || (o.Count? && o.n > 0 && !o.aborted)
  }

  /** The script without the outcomes after which the call is simply made again. */
  function Decisive(script: seq<Outcome>): seq<Outcome> {
    if script == [] then [] else (if Retried(script[0]) then [] else [script[0]]) + Decisive(script[1..])
  }

  /** Interruptions and full queues change nothing, wherever they fall. */
  lemma {:induction false} RetriesInvisible(total: nat, script: seq<Outcome>, pos: nat)
    requires pos <= total
    ensures Transfer(total, Decisive(script), pos) == Transfer(total, script, pos)
    decreases |script|
  {
    if script != [] {
      var d := Decisive(script);
      if Retried(script[0]) {
        assert d == Decisive(script[1..]);
        RetriesInvisible(total, script[1..], pos);
      } else {
        assert d[0] == script[0] && d[1..] == Decisive(script[1..]);
        if script[0].Count? && script[0].n <= total - pos {
          RetriesInvisible(total, script[1..], pos + script[0].n);
        }
      }
    }
  }

  /** Retries and short counts are gone through before anything else is looked at. */
  lemma {:induction false} GoneThrough(total: nat, good: seq<Outcome>, more: seq<Outcome>, pos: nat)
    requires pos + Total(good) < total && forall o <- good :: Continues(o)
    ensures Transfer(total, good + more, pos) == Transfer(total, more, pos + Total(good))
    decreases |good|
  {
    if good == [] {
      assert good + more == more;
    } else {
      assert good[0] in good && forall o <- good[1..] :: o in good;
      assert (good + more)[0] == good[0] && (good + more)[1..] == good[1..] + more;
      GoneThrough(total, good[1..], more, pos + if good[0].Count? then good[0].n else 0);
    }
  }

  /** What the first other outcome makes of it, with p bytes gone through so far. */
  lemma EndMeaning(total: nat, good: seq<Outcome>, o: Outcome, rest: seq<Outcome>)
    requires Total(good) < total && forall g <- good :: Continues(g)
    ensures var t, p := Transfer(total, good + ([o] + rest), 0), Total(good);
      match o
      case Interrupted => t == Transfer(total, rest, p)
      case WouldBlock => t == Transfer(total, rest, p)
      case Failed => t == (Returned(0, FromCall), p)
      case Count(n, aborted) =>
        if n == 0 then t == (Returned(p, EPIPE), p)
        else if n > total - p then t == (Returned(0, EFAULT), total)
        else if aborted then t == (Returned(p + n, EINTR), p + n)
        else if p + n == total then t == (Returned(total, NoError), total)
        else t == Transfer(total, rest, p + n)
  {
    GoneThrough(total, good, [o] + rest, 0);
    assert ([o] + rest)[0] == o && ([o] + rest)[1..] == rest;
  }

  /** The sum of all counts of a script. */
  function Total(script: seq<Outcome>): nat {
    if script == [] then 0 else (if script[0].Count? then script[0].n else 0) + Total(script[1..])
  }

  /** Short counts, however cut, that add up to the whole and meet no error give success. */
  lemma {:induction false} CountsThatAddUp(total: nat, script: seq<Outcome>, pos: nat)
    requires pos + Total(script) == total
    requires forall o <- script :: Continues(o)
    ensures Transfer(total, script, pos) == (Returned(total, NoError), total)
    decreases |script|
  {
    if pos < total {
      assert script[0] in script;
      CountsThatAddUp(total, script[1..], pos + if script[0].Count? then script[0].n else 0);
    }
  }

  // ----- the loop on entries

  /** Step over the entries that rem bytes complete. */
  method SkipDone(iov: array<Iovec>, at: nat, rem: nat) returns (at': nat, rem': nat)
    requires at <= iov.Length
    ensures at <= at' <= iov.Length && rem' <= rem
    ensures at' < iov.Length ==> rem' < iov[at'].len
    ensures |Flat(iov[at..])| - rem == |Flat(iov[at'..])| - rem'
    ensures rem <= |Flat(iov[at..])| ==> Flat(iov[at..])[rem..] == Flat(iov[at'..])[rem'..]
  {
    at', rem' := at, rem;
    ghost var all := Flat(iov[at..]);
    while at' < iov.Length && rem' >= iov[at'].len
      invariant at <= at' <= iov.Length && rem' <= rem
      invariant |all| - rem == |Flat(iov[at'..])| - rem'
      invariant rem <= |all| ==> all[rem..] == Flat(iov[at'..])[rem'..]
    {
      assert iov[at'..][1..] == iov[at' + 1..];
      DropEntry(iov[at'..], rem');
      rem' := rem' - iov[at'].len;
      at' := at' + 1;
    }
  }

  lemma DropEntry(vs: seq<Iovec>, rem: nat)
    requires vs != [] && rem >= vs[0].len
    ensures |Flat(vs)| == vs[0].len + |Flat(vs[1..])|
    ensures rem <= |Flat(vs)| ==> Flat(vs)[rem..] == Flat(vs[1..])[rem - vs[0].len..]
  {
    hide Range;
  }

  lemma ShortenEntry(vs: seq<Iovec>, rem: nat)
    requires vs != [] && rem < vs[0].len
    ensures rem <= |Flat(vs)|
    ensures Flat([Iovec(vs[0].base + rem, vs[0].len - rem)] + vs[1..]) == Flat(vs)[rem..]
  {
    hide Range;
    var short := Iovec(vs[0].base + rem, vs[0].len - rem);
    RangeTail(vs[0], rem);
    var rest := [short] + vs[1..];
    assert rest[0] == short && rest[1..] == vs[1..];
    assert Flat(rest) == Range(vs[0])[rem..] + Flat(vs[1..]);
    assert (Range(vs[0]) + Flat(vs[1..]))[rem..] == Range(vs[0])[rem..] + Flat(vs[1..]);
  }

  lemma RangeTail(v: Iovec, rem: nat)
    requires rem <= v.len
    ensures Range(Iovec(v.base + rem, v.len - rem)) == Range(v)[rem..]
  {
  }

  /** n more bytes off the front of the rest. */
  lemma Taken(all: seq<nat>, pos: nat, n: nat)
    requires pos + n <= |all|
    ensures all[..pos + n] == all[..pos] + all[pos..][..n] && all[pos..][n..] == all[pos + n..]
  {
  }

  /** Account for res transferred bytes; fault when there were not that many. */
  method Advance(iov: array<Iovec>, at: nat, res: nat) returns (at': nat, fault: bool)
    requires at <= iov.Length
    modifies iov
    ensures at' <= iov.Length
    ensures fault <==> res > |old(Flat(iov[at..]))|
    ensures !fault ==> Flat(iov[at'..]) == old(Flat(iov[at..]))[res..]
    ensures !fault && at' < iov.Length ==> iov[at'].len > 0
  {
    var rem: nat;
    at', rem := SkipDone(iov, at, res);
    if rem > 0 && (at' == iov.Length || rem > iov[at'].len) {
      return at', true;
    }
    fault := false;
    if at' < iov.Length {
      ghost var vs := iov[at'..];
      ShortenEntry(vs, rem);
      iov[at'] := Iovec(iov[at'].base + rem, iov[at'].len - rem);
      assert iov[at'..] == [iov[at']] + vs[1..];
    }
  }

  /**
   What the call reports and how many bytes go through: too many entries are refused, an empty
   first entry ends it at once, and otherwise it is the loop on one stretch.
   */
  function Expected(iovMax: nat, entries: seq<Iovec>, script: seq<Outcome>): (r: (Report, nat))
    ensures r.1 <= |Flat(entries)|
  {
    if |entries| > iovMax then (Returned(0, EINVAL), 0)
    else if entries != [] && entries[0].len == 0 then (Returned(0, NoError), 0)
    else Transfer(|Flat(entries)|, script, 0)
  }

  /**
   atomiciov6, where iovMax is the platform's IOV_MAX. The bytes handed over are the first so
   many of the entries, in order, however the calls cut them across entries.
   */
  method Atomiciov(iovMax: nat, entries: seq<Iovec>, script: seq<Outcome>) returns (report: Report, sent: seq<nat>)
    ensures report == Expected(iovMax, entries, script).0
    ensures sent == Flat(entries)[..Expected(iovMax, entries, script).1]
  {
    hide Range, Flat;
    sent := [];
    if |entries| > iovMax {
      return Returned(0, EINVAL), sent;
    }
    var iov := new Iovec[|entries|](i requires 0 <= i < |entries| => entries[i]);
    assert iov[..] == entries == iov[0..];
    ghost var all := Flat(entries);
    var at: nat, pos: nat, k: nat := 0, 0, 0;
    FlatEmpty(entries);
    if at < iov.Length && iov[at].len == 0 {
      return Returned(0, NoError), sent;
    }
    while at < iov.Length && iov[at].len > 0
      invariant at <= iov.Length && k <= |script| && pos <= |all|
      invariant sent == all[..pos] && Flat(iov[at..]) == all[pos..]
      invariant at < iov.Length ==> iov[at].len > 0
      invariant Transfer(|all|, script, 0) == Transfer(|all|, script[k..], pos)
      decreases |script| - k
    {
      FlatEmpty(iov[at..]);
      if k == |script| {
        return Unfinished, sent;
      }
      var o := script[k];
      k := k + 1;
      assert script[k - 1..][0] == o && script[k - 1..][1..] == script[k..];
      match o {
        case Interrupted =>
        case WouldBlock =>
        case Failed => return Returned(0, FromCall), sent;
        case Count(n, aborted) =>
          if n == 0 {
            return Returned(pos, EPIPE), sent;
          }
          var given := Flat(iov[at..]); // what the call was asked to transfer
          var fault;
          at, fault := Advance(iov, at, n);
          if fault {
            assert all == all[..pos] + given;
            return Returned(0, EFAULT), sent + given;
          }
          Taken(all, pos, n);
          pos := pos + n;
          sent := sent + given[..n];
          if aborted {
            return Returned(pos, EINTR), sent;
          }
      }
    }
    FlatEmpty(iov[at..]);
    report := Returned(pos, NoError);
  }

  lemma FlatEmpty(vs: seq<Iovec>)
    ensures vs == [] ==> Flat(vs) == []
    ensures vs != [] && vs[0].len > 0 ==> Flat(vs) != []
  {
    hide Range;
  }

  /** The loop goes on exactly as long as nothing but retries and short counts have come, too few in all. */
  lemma {:induction false} UnfinishedIff(total: nat, script: seq<Outcome>, pos: nat)
    requires pos <= total
    ensures var (report, sent) := Transfer(total, script, pos);
      && (report.Unfinished? <==> (forall o <- script :: Continues(o)) && pos + Total(script) < total)
      && (report.Unfinished? ==> sent == pos + Total(script))
    decreases |script|
  {
    if pos < total && script != [] {
      var o := script[0];
      assert o in script && forall p <- script[1..] :: p in script;
      assert script == [o] + script[1..];
      if Retried(o) {
        UnfinishedIff(total, script[1..], pos);
      } else if o.Count? && o.n <= total - pos {
        UnfinishedIff(total, script[1..], pos + o.n);
      }
    }
  }

  /**
   A count of everything means that everything went through. An end without an error means it
   unless the first entry was empty and a later one was not. The loop is still going only when
   no outcome has ended it and the counts do not add up yet.
   */
  lemma TransferMeaning(iovMax: nat, entries: seq<Iovec>, script: seq<Outcome>)
    ensures var (report, sent) := Expected(iovMax, entries, script); var total := |Flat(entries)|;
      && (report.Returned? && report.count == total ==> sent == total)
      && (report.Returned? && report.errno == NoError ==> (sent == total <==> total == 0 || entries[0].len > 0))
      && (report.Unfinished? <==>
            && |entries| <= iovMax && total > Total(script) && entries[0].len > 0
            && forall o <- script :: Continues(o))
      && (report.Unfinished? ==> sent == Total(script))
  {
    hide Flat, Transfer, Total;
    CountIsTransferred(|Flat(entries)|, script, 0);
    UnfinishedIff(|Flat(entries)|, script, 0);
    FlatEmpty(entries);
  }
}
