/** What the successes of a run rest on: the verdicts that came with the packets. */
module AuthEvidence {
  import opened Wrappers
  import opened AuthLists
  import opened AuthMachine
  import opened AuthRuns

  /** What it takes for the method named in the request to succeed, once it is looked up. */
  predicate Convincing(cfg: Config, p: Packet)
    requires p.Request?
  {
    if p.name == "none" then cfg.permitEmpty && p.proof.secretOk
    else if p.name == "publickey" then
      p.proof.key.Some? && p.proof.typeOk && p.proof.signed && p.proof.keyAllowed && p.proof.verified
    else p.name != KBDINT && p.proof.secretOk
  }

  /** The key a request offers has not been used before. */
  predicate KeyUnused(cfg: Config, keys: seq<Key>, p: Packet)
    requires p.Request?
  {
    p.name == "publickey" && p.proof.key.Some? ==> !AlreadyUsed(cfg, keys, p.proof.key.value)
  }

  /** A convincing request for an enabled method, with tries left, in a state that has entered its user. */
  predicate Good(cfg: Config, e: State, p: Packet) {
    && p.Request? && e.phase.Running? && e.valid && e.failures < cfg.maxAuthTries && !p.env.rootRefused
    && Enabled(cfg, e.noneEnabled, p.name) && Convincing(cfg, p) && KeyUnused(cfg, e.keys, p)
  }

  lemma ConvincingSucceeds(cfg: Config, s: State, p: Packet)
    requires Good(cfg, s, p)
    ensures Userauth(cfg, s, p.name, p.proof, p.env).authenticated
  {
  }

  /** The packet's own verdicts say so. */
  predicate Earned(cfg: Config, p: Packet, ev: Event) {
    match p
    case Request(_, _, name, _, _, env) =>
      ev == RequestEvent(p) && Enabled(cfg, true, name) && Convincing(cfg, p) && !env.rootRefused
    case Response(wellFormed, answer, _, env) =>
      && wellFormed && answer.Correct? && !env.rootRefused
      && ev.name == KBDINT && ev.key == None && ev.sub.Some? && ev.sub.value in cfg.devices
  }

  lemma FinishEarns(cfg: Config, s: State, authenticated: bool, ev: Event, env: Env, started: Option<nat>)
    ensures var f := Finish(cfg, s, authenticated, ev, env, started);
      f.report.event.Some? ==> f.report.event == Some(ev) && authenticated && !env.rootRefused
  {
    hide UpdateFrom;
  }

  lemma TryEarns(cfg: Config, s: State, p: Packet)
    requires p.Request?
    ensures TryMethod(cfg, s, p).authenticated ==>
      Enabled(cfg, s.noneEnabled, p.name) && Convincing(cfg, p) && KeyUnused(cfg, s.keys, p)
  {
    hide ChallengeStart, MethodAllowed, AlreadyUsed;
  }

  lemma HandleEarns(cfg: Config, s: State, p: Packet)
    ensures var h := Handle(cfg, s, p); h.report.event.Some? ==> Earned(cfg, p, h.report.event.value)
  {
    hide Finish, TryMethod, ChallengeStart, Convincing, Enter;
    if s.phase.Running? && p.Request? {
      var e := Enter(cfg, s, p);
      var t := TryMethod(cfg, e.(kbdint := None, postponed := false), p);
      TryEarns(cfg, e.(kbdint := None, postponed := false), p);
      FinishEarns(cfg, t.state, t.authenticated, RequestEvent(p), p.env, t.started);
    } else if s.phase.Running? && Challenged(cfg, s) && p.wellFormed {
      var k := s.kbdint.value;
      var ev := Event(KBDINT, Some(cfg.devices[k.device.value]), None);
      var s1 := s.(postponed := p.answer.NeedMore? && p.queryOk);
      var st := ChallengeStart(cfg, s1, k, p.env);
      FinishEarns(cfg, s1, false, ev, p.env, None);
      FinishEarns(cfg, s1.(kbdint := None), true, ev, p.env, None);
      FinishEarns(cfg, st.state, false, ev, p.env, st.started);
    }
  }

  /**
   In every run each success rests on its own packet: a request that names an enabled method and
   convinces it, or a correct answer on a configured device; and the root policy did not object.
   */
  lemma {:induction false} EventsAreEarned(cfg: Config, packets: seq<Packet>, i: nat)
    requires i < |packets| && Exec(cfg, packets).reports[i].event.Some?
    ensures Earned(cfg, packets[i], Exec(cfg, packets).reports[i].event.value)
  {
    hide Handle, Earned;
    var n := |packets| - 1;
    if i < n {
      assert Exec(cfg, packets[..n]).reports[i] == Exec(cfg, packets).reports[i];
      EventsAreEarned(cfg, packets[..n], i);
    } else {
      HandleEarns(cfg, Exec(cfg, packets[..n]).state, packets[n]);
    }
  }

  // ----- and no good request goes unnoticed

  /** Some list waits for this very method, or none is configured. */
  predicate Awaited(cfg: Config, lists: seq<string>, name: string) {
    cfg.lists == [] || exists l <- lists :: Elements(l)[0] == name
  }

  lemma AwaitedIsAllowed(cfg: Config, lists: seq<string>, name: string)
    requires name in METHODS && Awaited(cfg, lists, name)
    ensures MethodAllowed(cfg, lists, name, None)
  {
    hide ListStartsWith, Elements;
    MethodNamesPlain(name);
    if cfg.lists != [] {
      var l :| l in lists && Elements(l)[0] == name;
      ListStartsWithMeaning(l, name, None);
    }
  }

  /** An update finds its method exactly when some list's head fits. */
  lemma FoundIffHeadFits(lists: seq<string>, ev: Event)
    requires PlainName(ev.name) && PlainSubmethod(ev.sub)
    ensures var u := UpdateFrom(lists, 0, Taker(ev.name, ev.sub), false);
      u.complete || u.found <==> exists l <- lists :: FitsEvent(Elements(l)[0], ev)
  {
    var take := Taker(ev.name, ev.sub);
    forall l | l in lists ensures TakesHead(take, l, ev) {
      TakerTakesHead(l, ev);
    }
    TakenIffHeadFits(lists, take, ev);
  }

  lemma TakenIffHeadFits(lists: seq<string>, take: string -> Option<string>, ev: Event)
    requires forall l <- lists :: TakesHead(take, l, ev)
    ensures var u := UpdateFrom(lists, 0, take, false);
      u.complete || u.found <==> exists l <- lists :: FitsEvent(Elements(l)[0], ev)
  {
    UpdateMeaning(lists, 0, take, false);
    var u := UpdateFrom(lists, 0, take, false);
    if u.complete || u.found {
      var j :| 0 <= j < |lists| && take(lists[j]).Some?;
      assert TakesHead(take, lists[j], ev);
      assert lists[j] in lists && FitsEvent(Elements(lists[j])[0], ev);
    } else {
      forall l | l in lists ensures !FitsEvent(Elements(l)[0], ev) {
        var j :| 0 <= j < |lists| && lists[j] == l;
        assert take(lists[j]).None?;
      }
    }
  }

  lemma GoodTry(cfg: Config, e: State, p: Packet)
    requires Good(cfg, e, p) && !e.postponed
    ensures var t := TryMethod(cfg, e, p);
      && t.authenticated == MethodAllowed(cfg, e.lists, p.name, None)
      && SameRecord(e, t.state) && (t.authenticated ==> !t.state.postponed)
  {
    hide Userauth, MethodAllowed, Convincing;
    ConvincingSucceeds(cfg, e, p);
    UserauthFrame(cfg, e, p.name, p.proof, p.env);
  }

  /** After any run a good request counts as a success exactly when some list waits for its method. */
  lemma GoodRequestCounts(cfg: Config, packets: seq<Packet>, p: Packet)
    requires var s := Exec(cfg, packets).state; p.Request? && s.phase.Running? && Good(cfg, Enter(cfg, s, p), p)
    ensures var s := Exec(cfg, packets).state;
      OnRequest(cfg, s, p).report.event == if Awaited(cfg, Enter(cfg, s, p).lists, p.name) then Some(RequestEvent(p)) else None
  {
    hide TryMethod, MethodAllowed, Convincing, Enter, Elements, UpdateFrom;
    var e := Enter(cfg, Exec(cfg, packets).state, p);
    var s1 := e.(kbdint := None, postponed := false);
    GoodTry(cfg, s1, p);
    MethodNamesPlain(p.name);
    FoundIffHeadFits(e.lists, RequestEvent(p));
    assert forall l <- e.lists :: FitsEvent(Elements(l)[0], RequestEvent(p)) <==> Elements(l)[0] == p.name;
    if Awaited(cfg, e.lists, p.name) {
      AwaitedIsAllowed(cfg, e.lists, p.name);
    }
  }
}
