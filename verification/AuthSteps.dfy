/** How every packet of a run ends: which answer is given, what it is charged, and whether the run goes on. */
module AuthSteps {
  import opened Wrappers
  import opened AuthLists
  import opened AuthMachine
  import opened AuthRuns
  import opened AuthKeys
  import opened AuthKbdint
  import opened AuthEvidence
  import opened AuthExits

  // ----- one packet

  lemma FinishEnds(cfg: Config, s: State, authenticated: bool, ev: Event, env: Env, started: Option<nat>)
    requires s.phase.Running?
    ensures var f := Finish(cfg, s, authenticated, ev, env, started); var o := f.report.outcome;
      && (f.state.phase == Success <==> o == Accepted && !env.pamDenied)
      && (f.state.phase == Closed(PamDenied) <==> o == Accepted && env.pamDenied)
      && (o == Accepted || o == Partial <==> f.report.event.Some?)
      && (cfg.lists == [] ==> o != Partial)
      && f.state.postponed == s.postponed && f.state.attempt == s.attempt && f.report.started == started
  {
    hide UpdateFrom;
  }

  /** An answer other than success leaves the run going exactly while the failures are below the limit. */
  lemma FinishCharges(cfg: Config, s: State, authenticated: bool, ev: Event, env: Env, started: Option<nat>)
    requires s.phase.Running? && (authenticated ==> s.valid && !s.postponed)
    ensures var f := Finish(cfg, s, authenticated, ev, env, started); var o := f.report.outcome;
      && f.state.failures == s.failures + (if o == Failed && !(s.attempt <= 1 && ev.name == "none") then 1 else 0)
      && (o == Failed <==> f.report.event.None? && !s.postponed && f.state.phase != Closed(NotInLists))
      && (f.state.phase == Closed(TooManyFailures) <==> (o == Failed || o == Partial) && f.state.failures >= cfg.maxAuthTries)
      && (f.state.phase.Running? <==>
            && f.state.phase != Closed(NotInLists) && o != Accepted
            && (o == Silent || f.state.failures < cfg.maxAuthTries))
  {
    hide UpdateFrom;
  }

  /** A success is accepted or partial, and accepted means Success unless PAM denies. */
  predicate EndsWell(cfg: Config, p: Packet, h: Step) {
    && (h.state.phase == Success <==> h.report.outcome == Accepted && !p.env.pamDenied)
    && (h.state.phase == Closed(PamDenied) <==> h.report.outcome == Accepted && p.env.pamDenied)
    && (h.report.outcome == Accepted || h.report.outcome == Partial <==> h.report.event.Some?)
    && (cfg.lists == [] ==> h.report.outcome != Partial)
  }

  lemma RequestEnds(cfg: Config, s: State, p: Packet)
    requires p.Request? && s.phase.Running?
    ensures EndsWell(cfg, p, OnRequest(cfg, s, p))
  {
    hide Finish, TryMethod, Enter, Admitted;
    var e := Enter(cfg, s, p);
    EnterAdmits(cfg, s, p);
    if e.phase.Running? {
      var s1 := e.(kbdint := None, postponed := false);
      var t := TryMethod(cfg, s1, p);
      TryFrame(cfg, s1, p);
      FinishEnds(cfg, t.state, t.authenticated, RequestEvent(p), p.env, t.started);
    }
  }

  lemma ResponseEnds(cfg: Config, s: State, p: Packet)
    requires p.Response? && s.phase.Running?
    ensures EndsWell(cfg, p, OnResponse(cfg, s, p))
  {
    hide Finish, ChallengeStart;
    if Challenged(cfg, s) && p.wellFormed {
      var k := s.kbdint.value;
      var ev := Event(KBDINT, Some(cfg.devices[k.device.value]), None);
      var s1 := s.(postponed := p.answer.NeedMore? && p.queryOk);
      if s1.postponed {
        FinishEnds(cfg, s1, false, ev, p.env, None);
      } else if p.answer.Correct? && s1.valid {
        FinishEnds(cfg, s1.(kbdint := None), true, ev, p.env, None);
      } else {
        var st := ChallengeStart(cfg, s1, k, p.env);
        ChallengeStartFrame(cfg, s1, k, p.env);
        FinishEnds(cfg, st.state, false, ev, p.env, st.started);
      }
    }
  }

  lemma HandleEnds(cfg: Config, s: State, p: Packet)
    requires s.phase.Running?
    ensures EndsWell(cfg, p, Handle(cfg, s, p))
  {
    hide OnRequest, OnResponse, EndsWell;
    if p.Request? {
      RequestEnds(cfg, s, p);
    } else {
      ResponseEnds(cfg, s, p);
    }
  }

  // ----- the end of a login

  lemma ExecMore(cfg: Config, packets: seq<Packet>, p: Packet)
    ensures var before, r := Exec(cfg, packets), Exec(cfg, packets + [p]);
      var h := Handle(cfg, before.state, p);
      && r.state == h.state && r.reports == before.reports + [h.report] && |before.reports| == |packets|
      && Events(r.reports) == Extended(Events(before.reports), h.report.event)
  {
    hide Handle;
    assert (packets + [p])[..|packets|] == packets;
    var before, r := Exec(cfg, packets), Exec(cfg, packets + [p]);
    assert r.reports[..|packets|] == before.reports;
  }

  /** The packet brought a success, and with it some surviving list is complete, or none is configured. */
  ghost predicate Through(cfg: Config, report: Report, evs: seq<Event>) {
    report.event.Some? && (cfg.lists == [] || SomeListEmbedded(cfg, evs))
  }

  /**
   The packet that brings a run through ends it in Success, or in the PAM refusal if PAM denies
   the account, and no other packet ends it in either; a success short of that is a partial one.
   */
  lemma LoginEnds(cfg: Config, packets: seq<Packet>, p: Packet)
    requires PlainDevices(cfg) && Exec(cfg, packets).state.phase.Running?
    ensures var r := Exec(cfg, packets + [p]); var report := r.reports[|packets|];
      var through := Through(cfg, report, Events(r.reports));
      && (r.state.phase == Success <==> through && !p.env.pamDenied)
      && (r.state.phase == Closed(PamDenied) <==> through && p.env.pamDenied)
      && (report.outcome == Accepted <==> through)
      && (report.outcome == Partial <==> report.event.Some? && !through)
  {
    hide Handle, SomeListEmbedded, SomeListEndsNow, Surviving;
    ExecMore(cfg, packets, p);
    HandleEnds(cfg, Exec(cfg, packets).state, p);
    if cfg.lists != [] {
      SuccessIffListCompleted(cfg, packets + [p]);
    }
  }

  // ----- failures

  /** The first request of all, and it asks for "none". */
  predicate FreeNone(packets: seq<Packet>, i: nat)
    requires i < |packets|
  {
    packets[i].Request? && packets[i].name == "none" && FirstRequest(packets[..i]) == None
  }

  /** The answers that are charged: every failure but that of the free initial "none". */
  function Charged(packets: seq<Packet>, reports: seq<Report>): nat
    requires |packets| == |reports|
  {
    if packets == [] then 0
    else
      var n := |packets| - 1;
      Charged(packets[..n], reports[..n]) + if reports[n].outcome == Failed && !FreeNone(packets, n) then 1 else 0
  }

  /** What one packet is charged, and when that is too much. */
  predicate ChargedFor(cfg: Config, s: State, p: Packet, h: Step) {
    && h.state.failures == s.failures + (if h.report.outcome == Failed
                                            && !(p.Request? && p.name == "none" && s.attempt == 0) then 1 else 0)
    && (h.state.phase == Closed(TooManyFailures) <==>
          (h.report.outcome == Failed || h.report.outcome == Partial) && h.state.failures >= cfg.maxAuthTries)
  }

  lemma RequestCharges(cfg: Config, s: State, p: Packet)
    requires p.Request? && s.phase.Running?
    ensures ChargedFor(cfg, s, p, OnRequest(cfg, s, p))
  {
    hide Finish, TryMethod, Enter, Admitted;
    var e := Enter(cfg, s, p);
    EnterAdmits(cfg, s, p);
    EnterSameFailures(cfg, s, p);
    if e.phase.Running? {
      var s1 := e.(kbdint := None, postponed := false);
      var t := TryMethod(cfg, s1, p);
      TryFrame(cfg, s1, p);
      FinishCharges(cfg, t.state, t.authenticated, RequestEvent(p), p.env, t.started);
    }
  }

  lemma EnterSameFailures(cfg: Config, s: State, p: Packet)
    requires p.Request?
    ensures Enter(cfg, s, p).failures == s.failures
  {
    hide Pruned;
  }

  lemma ResponseCharges(cfg: Config, s: State, p: Packet)
    requires p.Response? && s.phase.Running? && (s.attempt == 0 ==> s.kbdint == None)
    ensures ChargedFor(cfg, s, p, OnResponse(cfg, s, p))
  {
    hide Finish, ChallengeStart;
    if Challenged(cfg, s) && p.wellFormed {
      var k := s.kbdint.value;
      var ev := Event(KBDINT, Some(cfg.devices[k.device.value]), None);
      var s1 := s.(postponed := p.answer.NeedMore? && p.queryOk);
      if s1.postponed {
        FinishCharges(cfg, s1, false, ev, p.env, None);
      } else if p.answer.Correct? && s1.valid {
        FinishCharges(cfg, s1.(kbdint := None), true, ev, p.env, None);
      } else {
        var st := ChallengeStart(cfg, s1, k, p.env);
        ChallengeStartFrame(cfg, s1, k, p.env);
        FinishCharges(cfg, st.state, false, ev, p.env, st.started);
      }
    }
  }

  lemma HandleCharges(cfg: Config, s: State, p: Packet)
    requires s.phase.Running? && (s.attempt == 0 ==> s.kbdint == None)
    ensures ChargedFor(cfg, s, p, Handle(cfg, s, p))
  {
    hide OnRequest, OnResponse, ChargedFor;
    if p.Request? {
      RequestCharges(cfg, s, p);
    } else {
      ResponseCharges(cfg, s, p);
    }
  }

  /** In every run the failure counter is the number of charged answers. */
  lemma {:induction false} FailuresAreCharged(cfg: Config, packets: seq<Packet>)
    ensures var r := Exec(cfg, packets); r.state.failures == Charged(packets, r.reports)
  {
    if packets != [] {
      var n := |packets| - 1;
      var init := packets[..n];
      FailuresAreCharged(cfg, init);
      RunIdentity(cfg, init);
      var before, r := Exec(cfg, init), Exec(cfg, packets);
      assert r.reports[..n] == before.reports;
      if before.state.phase.Running? {
        hide Handle;
        HandleCharges(cfg, before.state, packets[n]);
      }
    }
  }

  /**
   A run is closed for too many failures by exactly those failures and partial successes that
   find the charged answers, their own included, at the limit.
   */
  lemma TooManyFailuresIff(cfg: Config, packets: seq<Packet>, p: Packet)
    requires Exec(cfg, packets).state.phase.Running?
    ensures var r := Exec(cfg, packets + [p]); var o := r.reports[|packets|].outcome;
      r.state.phase == Closed(TooManyFailures) <==>
        (o == Failed || o == Partial) && Charged(packets + [p], r.reports) >= cfg.maxAuthTries
  {
    hide Handle, Charged;
    RunIdentity(cfg, packets);
    ExecMore(cfg, packets, p);
    HandleCharges(cfg, Exec(cfg, packets).state, p);
    FailuresAreCharged(cfg, packets + [p]);
  }

  // ----- which requests are answered how

  /** The request is for the user and service of the run, and there is something to authenticate with. */
  predicate Admitted(cfg: Config, s: State, p: Packet)
    requires p.Request?
  {
    if s.attempt == 0 then cfg.lists == [] || exists l <- cfg.lists :: MethodsValid(cfg, s.noneEnabled, l)
    else p.user == s.user && p.service == s.service
  }

  /** A key is offered without a signature, and it would do. */
  predicate GoodQuery(cfg: Config, e: State, p: Packet)
    requires p.Request?
  {
    && p.name == "publickey" && e.valid && p.proof.key.Some? && KeyUnused(cfg, e.keys, p)
    && p.proof.typeOk && !p.proof.signed && p.proof.keyAllowed
  }

  lemma {:induction false} PrunedEmpty(cfg: Config, noneEnabled: bool, lists: seq<string>)
    ensures Pruned(cfg, noneEnabled, lists) == [] <==> forall l <- lists :: !MethodsValid(cfg, noneEnabled, l)
  {
    if lists != [] {
      var n := |lists| - 1;
      PrunedEmpty(cfg, noneEnabled, lists[..n]);
      assert lists == lists[..n] + [lists[n]];
    }
  }

  /** Entering refuses exactly what is not admitted, and says why. */
  lemma EnterAdmits(cfg: Config, s: State, p: Packet)
    requires p.Request? && s.phase.Running?
    ensures var e := Enter(cfg, s, p);
      e.attempt == s.attempt + 1
      && e.phase == if Admitted(cfg, s, p) then Running else Closed(if s.attempt == 0 then NoMethodsLeft else UserChanged)
  {
    hide MethodsValid;
    PrunedEmpty(cfg, s.noneEnabled, cfg.lists);
  }

  /** Only an acceptable key query and a started device that is ready leave a request unanswered. */
  lemma TryPostpones(cfg: Config, e: State, p: Packet)
    requires p.Request? && !e.postponed && e.kbdint == None
    ensures var t := TryMethod(cfg, e, p);
      && (t.state.postponed <==>
            && Lookup(cfg, e, p.name) && e.failures < cfg.maxAuthTries
            && (GoodQuery(cfg, e, p) || (p.name == KBDINT && t.started.Some? && p.env.deviceReady)))
      && (p.name != KBDINT ==> t.started == None)
      && (t.started.Some? && !p.env.deviceReady ==> t.state.kbdint == None)
  {
    hide NextDevice, Lookup, KbdintAlloc;
  }

  /**
   A request that is not admitted closes the run without an answer. One that is gets exactly one
   of: nothing yet, when its query is acceptable or its device is started and ready; a success;
   the "not in lists" exit; or else a failure.
   */
  lemma RequestAnswers(cfg: Config, packets: seq<Packet>, p: Packet)
    requires p.Request? && Exec(cfg, packets).state.phase.Running?
    ensures var s := Exec(cfg, packets).state; var h := OnRequest(cfg, s, p); var e := Enter(cfg, s, p);
      if !Admitted(cfg, s, p) then h.report == QUIET && h.state.phase == Closed(if s.attempt == 0 then NoMethodsLeft else UserChanged)
      else
        && (h.state.postponed <==>
              && Lookup(cfg, e, p.name) && e.failures < cfg.maxAuthTries
              && (GoodQuery(cfg, e, p) || (p.name == KBDINT && h.report.started.Some? && p.env.deviceReady)))
        && (h.report.outcome == Failed <==>
              h.report.event.None? && !h.state.postponed && h.state.phase != Closed(NotInLists))
        && (h.state.phase.Running? <==>
              && h.state.phase != Closed(NotInLists) && h.report.outcome != Accepted
              && (h.report.outcome == Silent || h.state.failures < cfg.maxAuthTries))
  {
    hide Finish, TryMethod, Enter, Admitted, Lookup, GoodQuery;
    var s := Exec(cfg, packets).state;
    var e := Enter(cfg, s, p);
    EnterAdmits(cfg, s, p);
    if Admitted(cfg, s, p) {
      var s1 := e.(kbdint := None, postponed := false);
      var t := TryMethod(cfg, s1, p);
      TryFrame(cfg, s1, p);
      TryPostpones(cfg, s1, p);
      QueryAndLookupSame(cfg, e, s1, p);
      FinishEnds(cfg, t.state, t.authenticated, RequestEvent(p), p.env, t.started);
      FinishCharges(cfg, t.state, t.authenticated, RequestEvent(p), p.env, t.started);
    }
  }

  lemma QueryAndLookupSame(cfg: Config, e: State, e': State, p: Packet)
    requires p.Request? && e' == e.(kbdint := None, postponed := false)
    ensures Lookup(cfg, e, p.name) == Lookup(cfg, e', p.name) && GoodQuery(cfg, e, p) == GoodQuery(cfg, e', p)
  {
    hide MethodAllowed, AlreadyUsed;
  }

  /** "none" is tried at most once: no run has two successes by it. */
  lemma {:induction false} NoneSucceedsOnce(cfg: Config, packets: seq<Packet>)
    ensures var r := Exec(cfg, packets);
      |Nones(Events(r.reports))| <= if r.state.noneEnabled then 0 else 1
  {
    if packets != [] {
      var n := |packets| - 1;
      NoneSucceedsOnce(cfg, packets[..n]);
      var before, r := Exec(cfg, packets[..n]), Exec(cfg, packets);
      assert r.reports[..n] == before.reports;
      NoneStep(cfg, before.state, packets[n]);
      NonesMore(Events(before.reports), Handle(cfg, before.state, packets[n]).report.event);
    }
  }

  function Nones(evs: seq<Event>): seq<Event> {
    if evs == [] then []
    else Nones(evs[..|evs| - 1]) + if evs[|evs| - 1].name == "none" then [evs[|evs| - 1]] else []
  }

  lemma NonesMore(evs: seq<Event>, event: Option<Event>)
    ensures |Nones(Extended(evs, event))| == |Nones(evs)| + if event.Some? && event.value.name == "none" then 1 else 0
  {
    if event.Some? {
      assert Extended(evs, event)[..|evs|] == evs;
    } else {
      assert Extended(evs, event) == evs;
    }
  }

  lemma NoneStep(cfg: Config, s: State, p: Packet)
    ensures var h := Handle(cfg, s, p);
      && (h.state.noneEnabled ==> s.noneEnabled)
      && (h.report.event.Some? && h.report.event.value.name == "none" ==> s.noneEnabled && !h.state.noneEnabled)
  {
    hide Finish, TryMethod, ChallengeStart, Enter, Challenged;
    if s.phase.Running? && p.Request? {
      var e := Enter(cfg, s, p);
      EnterSameNone(cfg, s, p);
      var s1 := e.(kbdint := None, postponed := false);
      var t := TryMethod(cfg, s1, p);
      TryNone(cfg, s1, p);
      FinishSameNone(cfg, t.state, t.authenticated, RequestEvent(p), p.env, t.started);
    } else if s.phase.Running? && Challenged(cfg, s) && p.wellFormed {
      ChallengedHasDevice(cfg, s);
      var k := s.kbdint.value;
      var ev := Event(KBDINT, Some(cfg.devices[k.device.value]), None);
      var s1 := s.(postponed := p.answer.NeedMore? && p.queryOk);
      var st := ChallengeStart(cfg, s1, k, p.env);
      ChallengeSameNone(cfg, s1, k, p.env);
      FinishSameNone(cfg, s1, false, ev, p.env, None);
      FinishSameNone(cfg, s1.(kbdint := None), true, ev, p.env, None);
      FinishSameNone(cfg, st.state, false, ev, p.env, st.started);
    }
  }

  lemma ChallengedHasDevice(cfg: Config, s: State)
    requires Challenged(cfg, s)
    ensures s.kbdint.Some? && s.kbdint.value.device.Some? && s.kbdint.value.device.value < |cfg.devices|
  {
  }

  lemma EnterSameNone(cfg: Config, s: State, p: Packet)
    requires p.Request?
    ensures Enter(cfg, s, p).noneEnabled == s.noneEnabled
  {
    hide Pruned;
  }

  lemma TryNone(cfg: Config, s: State, p: Packet)
    requires p.Request?
    ensures var t := TryMethod(cfg, s, p);
      && (t.state.noneEnabled ==> s.noneEnabled)
      && (t.authenticated && p.name == "none" ==> s.noneEnabled && !t.state.noneEnabled)
  {
    hide NextDevice, MethodAllowed, AlreadyUsed, KbdintAlloc;
  }

  lemma FinishSameNone(cfg: Config, s: State, authenticated: bool, ev: Event, env: Env, started: Option<nat>)
    ensures var f := Finish(cfg, s, authenticated, ev, env, started);
      f.state.noneEnabled == s.noneEnabled && (f.report.event.Some? ==> f.report.event == Some(ev) && authenticated)
  {
    hide UpdateFrom;
  }

  lemma ChallengeSameNone(cfg: Config, s: State, k: Kbdint, env: Env)
    ensures ChallengeStart(cfg, s, k, env).state.noneEnabled == s.noneEnabled
  {
    hide NextDevice;
  }
}
