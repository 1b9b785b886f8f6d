/** How many answers a client can get out of one connection. */
module AuthBudget {
  import opened Wrappers
  import opened AuthLists
  import opened AuthMachine
  import opened AuthRuns

  /** Number of answers other than "postponed" that were sent or ended the run. */
  function Answers(reports: seq<Report>): nat {
    if reports == [] then 0
    else Answers(reports[..|reports| - 1]) + if reports[|reports| - 1].outcome.Silent? then 0 else 1
  }

  function TotalElements(lists: seq<string>): nat {
    if lists == [] then 0 else TotalElements(lists[..|lists| - 1]) + |Elements(lists[|lists| - 1])|
  }

  function Tries(cfg: Config): nat {
    if cfg.maxAuthTries < 0 then 0 else cfg.maxAuthTries
  }

  function Budget(cfg: Config): nat {
    Tries(cfg) + TotalElements(Surviving(cfg)) + 1
  }

  /** What a running state can still spend: tries, list elements, and the free initial "none". */
  function Remaining(cfg: Config, s: State): nat {
    (if cfg.maxAuthTries > s.failures then cfg.maxAuthTries - s.failures else 0)
    + if s.attempt == 0 then 1 + TotalElements(Surviving(cfg)) else TotalElements(s.lists)
  }

  predicate WithinBudget(cfg: Config, s: State, answers: nat) {
    if s.phase.Running? then
      && (s.attempt == 0 ==> s.failures == 0 && s.noneEnabled && s.kbdint == None)
      && (s.attempt > 0 ==> s.failures < cfg.maxAuthTries)
      && answers + Remaining(cfg, s) <= Budget(cfg)
    else answers <= Budget(cfg)
  }

  predicate NotLonger(a: string, b: string) {
    |Elements(a)| <= |Elements(b)|
  }

  lemma {:induction false} TotalShrinks(a: seq<string>, b: seq<string>)
    requires |a| == |b| && forall i | 0 <= i < |a| :: NotLonger(a[i], b[i])
    ensures TotalElements(a) <= TotalElements(b)
    ensures (exists i :: 0 <= i < |a| && |Elements(a[i])| < |Elements(b[i])|) ==> TotalElements(a) < TotalElements(b)
  {
    hide Elements;
    if a != [] {
      var n := |a| - 1;
      assert NotLonger(a[n], b[n]);
      assert forall i | 0 <= i < n :: a[..n][i] == a[i] && b[..n][i] == b[i];
      TotalShrinks(a[..n], b[..n]);
    }
  }

  /** A partial success uses up at least one element. */
  lemma PartialSpends(lists: seq<string>, ev: Event)
    requires PlainName(ev.name) && PlainSubmethod(ev.sub)
    ensures var u := UpdateFrom(lists, 0, Taker(ev.name, ev.sub), false);
      !u.complete && u.found ==> TotalElements(u.lists) < TotalElements(lists)
  {
    var take := Taker(ev.name, ev.sub);
    forall l | l in lists ensures TakesHead(take, l, ev) {
      TakerTakesHead(l, ev);
    }
    UpdateSpends(lists, take, ev);
  }

  lemma UpdateSpends(lists: seq<string>, take: string -> Option<string>, ev: Event)
    requires forall l <- lists :: TakesHead(take, l, ev)
    ensures var u := UpdateFrom(lists, 0, take, false);
      !u.complete && u.found ==> TotalElements(u.lists) < TotalElements(lists)
  {
    var u := UpdateFrom(lists, 0, take, false);
    UpdateMeaning(lists, 0, take, false);
    if !u.complete && u.found {
      forall i | 0 <= i < |lists|
        ensures NotLonger(u.lists[i], lists[i])
        ensures take(lists[i]).Some? ==> |Elements(u.lists[i])| < |Elements(lists[i])|
      {
        assert TakesHead(take, lists[i], ev) && u.lists[i] == Taken(lists[i], take);
      }
      TotalShrinks(u.lists, lists);
    }
  }

  /** One more answer can be paid for: from the tries left, or from the free initial "none". */
  predicate Payable(cfg: Config, s: State, answers: nat, name: string) {
    || (s.failures < cfg.maxAuthTries && (s.attempt > 1 || name != "none") && answers + Remaining(cfg, s) <= Budget(cfg))
    || (s.attempt == 1 && answers + Remaining(cfg, s) + 1 <= Budget(cfg))
  }

  lemma EnterPayable(cfg: Config, s: State, answers: nat, p: Packet)
    requires p.Request? && s.phase.Running? && WithinBudget(cfg, s, answers)
    ensures var e := Enter(cfg, s, p); e.phase.Running? ==> e.attempt > 0 && Payable(cfg, e, answers, p.name)
    ensures !Enter(cfg, s, p).phase.Running? ==> WithinBudget(cfg, Enter(cfg, s, p), answers)
  {
  }

  /** Every outcome of userauth_finish costs at least one unit, or ends the run. */
  lemma FinishSpends(cfg: Config, s: State, answers: nat, authenticated: bool, ev: Event, env: Env, started: Option<nat>)
    requires s.phase.Running? && s.attempt > 0
    requires authenticated ==> PlainName(ev.name) && PlainSubmethod(ev.sub)
    requires s.postponed || authenticated ==> s.failures < cfg.maxAuthTries
    requires Payable(cfg, s, answers, ev.name)
    ensures var f := Finish(cfg, s, authenticated, ev, env, started);
      WithinBudget(cfg, f.state, answers + if f.report.outcome.Silent? then 0 else 1)
  {
    if authenticated && cfg.lists != [] {
      PartialSpends(s.lists, ev);
    }
  }

  lemma RequestSpends(cfg: Config, s: State, answers: nat, p: Packet)
    requires p.Request? && s.phase.Running? && WithinBudget(cfg, s, answers)
    ensures var h := OnRequest(cfg, s, p);
      WithinBudget(cfg, h.state, answers + if h.report.outcome.Silent? then 0 else 1)
  {
    var e := Enter(cfg, s, p);
    EnterPayable(cfg, s, answers, p);
    if e.phase.Running? {
      var s1 := e.(kbdint := None, postponed := false);
      TryFrame(cfg, s1, p);
      var t := TryMethod(cfg, s1, p);
      FinishSpends(cfg, t.state, answers, t.authenticated, RequestEvent(p), p.env, t.started);
    }
  }

  lemma ResponseSpends(cfg: Config, s: State, answers: nat, p: Packet)
    requires PlainDevices(cfg)
    requires p.Response? && s.phase.Running? && WithinBudget(cfg, s, answers)
    ensures var h := OnResponse(cfg, s, p);
      WithinBudget(cfg, h.state, answers + if h.report.outcome.Silent? then 0 else 1)
  {
    hide Finish, ChallengeStart, TotalElements, Budget;
    if Challenged(cfg, s) && p.wellFormed {
      var k := s.kbdint.value;
      var ev := Event(KBDINT, Some(cfg.devices[k.device.value]), None);
      MethodNamesPlain(KBDINT);
      var s1 := s.(postponed := p.answer.NeedMore? && p.queryOk);
      assert Remaining(cfg, s1) == Remaining(cfg, s);
      if s1.postponed {
        FinishSpends(cfg, s1, answers, false, ev, p.env, None);
      } else if p.answer.Correct? && s1.valid {
        FinishSpends(cfg, s1.(kbdint := None), answers, true, ev, p.env, None);
      } else {
        var st := ChallengeStart(cfg, s1, k, p.env);
        ChallengeStartFrame(cfg, s1, k, p.env);
        FinishSpends(cfg, st.state, answers, false, ev, p.env, st.started);
      }
    }
  }

  lemma {:induction false} RunWithinBudget(cfg: Config, packets: seq<Packet>)
    requires PlainDevices(cfg)
    ensures var r := Exec(cfg, packets); WithinBudget(cfg, r.state, Answers(r.reports))
  {
    if packets != [] {
      var init := packets[..|packets| - 1];
      RunWithinBudget(cfg, init);
      var before := Exec(cfg, init);
      var p := packets[|packets| - 1];
      if before.state.phase.Running? {
        if p.Request? {
          RequestSpends(cfg, before.state, Answers(before.reports), p);
        } else {
          ResponseSpends(cfg, before.state, Answers(before.reports), p);
        }
      }
      var r := Exec(cfg, packets);
      assert r.reports[..|r.reports| - 1] == before.reports;
    }
  }

  /**
   However the client behaves, one connection yields at most max_authtries answers, plus one for
   each element of the surviving lists, plus one for the free initial "none"; and while the
   connection lives on after its first request, the failures stay below max_authtries.
   */
  lemma AnswersAreBounded(cfg: Config, packets: seq<Packet>)
    requires PlainDevices(cfg)
    ensures var r := Exec(cfg, packets);
      && Answers(r.reports) <= Tries(cfg) + TotalElements(Surviving(cfg)) + 1
      && (r.state.phase.Running? && r.state.attempt > 0 ==> r.state.failures < cfg.maxAuthTries)
  {
    RunWithinBudget(cfg, packets);
  }
}
