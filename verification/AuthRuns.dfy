/** What holds over every run of the user-authentication state machine. */
module AuthRuns {
  import opened Wrappers
  import opened AuthLists
  import opened AuthMachine

  /** Device names are constants of the device table and hold no comma. */
  predicate PlainDevices(cfg: Config) {
    forall d <- cfg.devices :: ',' !in d
  }

  /** The successes of a run, in order. */
  function Events(reports: seq<Report>): seq<Event> {
    if reports == [] then []
    else
      var r := reports[|reports| - 1];
      Events(reports[..|reports| - 1]) + if r.event.Some? then [r.event.value] else []
  }

  // ----- lists consumed greedily, and as subsequences

  predicate FitsEvent(element: string, ev: Event) {
    Fits(element, ev.name, ev.sub)
  }

  /** The elements still owed after the events, each event taking the first owed element it fits. */
  function Owed(es: seq<string>, evs: seq<Event>): seq<string> {
    if evs == [] then es
    else
      var o := Owed(es, evs[..|evs| - 1]);
      if o != [] && FitsEvent(o[0], evs[|evs| - 1]) then o[1..] else o
  }

  /** es is a subsequence of evs, es[i] being matched by evs[at[i]]. */
  ghost predicate Embeds(es: seq<string>, evs: seq<Event>, at: seq<nat>) {
    && |at| == |es|
    && (forall i | 0 <= i < |at| :: at[i] < |evs| && FitsEvent(es[i], evs[at[i]]))
    && (forall i, j | 0 <= i < j < |at| :: at[i] < at[j])
  }

  lemma {:induction false} OwedIsSuffix(es: seq<string>, evs: seq<Event>) returns (at: seq<nat>)
    ensures |at| <= |es| && Owed(es, evs) == es[|at|..]
    ensures Embeds(es[..|at|], evs, at)
    ensures evs != [] && Owed(es, evs) != Owed(es, evs[..|evs| - 1])
      ==> at != [] && at[|at| - 1] == |evs| - 1
  {
    hide FitsEvent;
    if evs == [] {
      at := [];
    } else {
      var n := |evs| - 1;
      at := OwedIsSuffix(es, evs[..n]);
      var k := |at|;
      if k < |es| && FitsEvent(es[k], evs[n]) {
        EmbedOneMore(es, evs, at);
        assert es[k..][1..] == es[k + 1..];
        at := at + [n];
      } else {
        EmbedLonger(es[..k], evs, at);
      }
    }
  }

  lemma EmbedLonger(es: seq<string>, evs: seq<Event>, at: seq<nat>)
    requires evs != [] && Embeds(es, evs[..|evs| - 1], at)
    ensures Embeds(es, evs, at)
  {
    hide FitsEvent;
    assert forall i: nat | i < |evs| - 1 :: evs[..|evs| - 1][i] == evs[i];
  }

  lemma EmbedOneMore(es: seq<string>, evs: seq<Event>, at: seq<nat>)
    requires evs != [] && |at| < |es| && Embeds(es[..|at|], evs[..|evs| - 1], at)
    requires FitsEvent(es[|at|], evs[|evs| - 1])
    ensures Embeds(es[..|at| + 1], evs, at + [|evs| - 1])
  {
    hide FitsEvent;
    var at' := at + [|evs| - 1];
    assert forall i: nat | i < |evs| - 1 :: evs[..|evs| - 1][i] == evs[i];
    assert forall i | 0 <= i < |at| :: es[..|at| + 1][i] == es[..|at|][i] && at'[i] == at[i];
  }

  /** Taking elements greedily is optimal: k elements that can be embedded are no longer owed. */
  lemma {:induction false} GreedyIsOptimal(es: seq<string>, evs: seq<Event>, k: nat, at: seq<nat>)
    requires k <= |es| && Embeds(es[..k], evs, at)
    ensures |Owed(es, evs)| <= |es| - k
    decreases |evs|
  {
    var before := OwedIsSuffix(es, evs);
    if k > 0 {
      assert at[k - 1] < |evs|;
      var init := evs[..|evs| - 1];
      if at[k - 1] < |evs| - 1 {
        assert forall i | 0 <= i < k :: at[i] <= at[k - 1];
        assert Embeds(es[..k], init, at);
        GreedyIsOptimal(es, init, k, at);
      } else {
        assert Embeds(es[..k - 1], init, at[..k - 1]) by {
          assert forall i | 0 <= i < k - 1 :: es[..k - 1][i] == es[..k][i] && at[..k - 1][i] == at[i] < at[k - 1];
        }
        GreedyIsOptimal(es, init, k - 1, at[..k - 1]);
        var pre := OwedIsSuffix(es, init);
        if |Owed(es, init)| == |es| - k + 1 {
          assert Owed(es, init)[0] == es[..k][k - 1];
        }
      }
    }
  }

  lemma OwedNothingIffEmbeds(es: seq<string>, evs: seq<Event>)
    ensures Owed(es, evs) == [] <==> exists at :: Embeds(es, evs, at)
  {
    var at := OwedIsSuffix(es, evs);
    if Owed(es, evs) == [] {
      assert es[..|at|] == es;
    }
    if w :| Embeds(es, evs, w) {
      assert es[..|es|] == es;
      GreedyIsOptimal(es, evs, |es|, w);
    }
  }

  // ----- one update of all lists

  predicate Tracks(text: string, owed: seq<string>) {
    owed != [] && text != "" && Elements(text) == owed
  }

  function Taken(l: string, take: string -> Option<string>): string {
    var r := take(l);
    if r.Some? then r.value else l
  }

  lemma {:induction false} UpdateMeaning(lists: seq<string>, i: nat, take: string -> Option<string>, found: bool)
    requires i <= |lists|
    ensures var u := UpdateFrom(lists, i, take, found);
      && |u.lists| == |lists|
      && (u.complete ==> exists j :: i <= j < |lists| && take(lists[j]) == Some(""))
      && (!u.complete ==>
            && (forall j | i <= j < |lists| :: take(lists[j]) != Some(""))
            && (forall j | 0 <= j < i :: u.lists[j] == lists[j])
            && (forall j | i <= j < |lists| :: u.lists[j] == Taken(lists[j], take))
            && (u.found <==> found || exists j :: i <= j < |lists| && take(lists[j]).Some?))
    decreases |lists| - i
  {
    if i < |lists| {
      match take(lists[i]) {
        case None =>
          UpdateMeaning(lists, i + 1, take, found);
        case Some(rest) =>
          if rest != "" {
            UpdateMeaning(lists[i := rest], i + 1, take, true);
            assert forall j | i < j < |lists| :: lists[i := rest][j] == lists[j];
          }
      }
    }
  }

  lemma MethodNamesPlain(name: string)
    requires name in METHODS
    ensures PlainName(name)
  {
  }

  lemma {:induction false} SurvivorsValid(cfg: Config, noneEnabled: bool, lists: seq<string>, l: string)
    requires l in Pruned(cfg, noneEnabled, lists)
    ensures l in lists && MethodsValid(cfg, noneEnabled, l)
    ensures "" !in Elements(l)
  {
    var last := lists[|lists| - 1];
    if l in Pruned(cfg, noneEnabled, lists[..|lists| - 1]) {
      SurvivorsValid(cfg, noneEnabled, lists[..|lists| - 1], l);
    }
    assert MethodPart("") == "";
  }

  /** Pruning keeps every valid list, as often as it is configured, in order, and no other. */
  lemma {:induction false} SurvivorsExactly(cfg: Config, noneEnabled: bool, lists: seq<string>) returns (at: seq<nat>)
    ensures var kept := Pruned(cfg, noneEnabled, lists);
      && |at| == |kept| && (forall j | 0 <= j < |at| :: at[j] < |lists| && kept[j] == lists[at[j]])
      && (forall i, j | 0 <= i < j < |at| :: at[i] < at[j])
    ensures forall i | 0 <= i < |lists| :: i in at <==> MethodsValid(cfg, noneEnabled, lists[i])
  {
    hide MethodsValid;
    at := [];
    if lists != [] {
      var n := |lists| - 1;
      at := SurvivorsExactly(cfg, noneEnabled, lists[..n]);
      assert n !in at;
      if MethodsValid(cfg, noneEnabled, lists[n]) {
        at := at + [n];
      }
    }
  }

  /** A list is valid when it is not empty and the method of each element is in the table and on. */
  lemma ValidMeaning(cfg: Config, noneEnabled: bool, l: string)
    ensures MethodsValid(cfg, noneEnabled, l) <==>
      l != "" && forall e <- Elements(l) ::
        var name := MethodPart(e);
        (name == "none" && noneEnabled)
        || (name in {"publickey", "password", "keyboard-interactive", "hostbased"} && name in cfg.enabled)
  {
    hide MethodPart, Elements;
    forall e | e in Elements(l)
      ensures Enabled(cfg, noneEnabled, MethodPart(e)) <==>
        (var name := MethodPart(e);
         (name == "none" && noneEnabled)
         || (name in {"publickey", "password", "keyboard-interactive", "hostbased"} && name in cfg.enabled))
    {
      TableIs(MethodPart(e));
    }
  }

  lemma TableIs(name: string)
    ensures name in METHODS <==> name in {"none", "publickey", "password", "keyboard-interactive", "hostbased"}
  {
  }

  /** The method of an element is what precedes its first colon. */
  lemma {:induction false} MethodPartMeaning(e: string)
    ensures var name := MethodPart(e);
      name <= e && ':' !in name && (|name| < |e| ==> e[|name|] == ':')
  {
    if e != "" && e[0] != ':' {
      MethodPartMeaning(e[1..]);
      assert e == [e[0]] + e[1..];
    }
  }

  predicate InStep(take: string -> Option<string>, text: string, owed: seq<string>) {
    if take(text) == Some("") then owed == [] else Tracks(Taken(text, take), owed)
  }

  /** take behaves on this text as consuming its head element when that fits. */
  predicate TakesHead(take: string -> Option<string>, text: string, ev: Event) {
    var r := take(text);
    && (r.Some? <==> FitsEvent(Elements(text)[0], ev))
    && (r.Some? ==> if |Elements(text)| == 1 then r.value == "" else Elements(r.value) == Elements(text)[1..])
  }

  lemma TakerTakesHead(text: string, ev: Event)
    requires PlainName(ev.name) && PlainSubmethod(ev.sub)
    ensures TakesHead(Taker(ev.name, ev.sub), text, ev)
  {
    RemoveMethodTakesHead(text, ev.name, ev.sub);
  }

  /** Text and elements stay in step through one success. */
  lemma TrackStep(take: string -> Option<string>, text: string, es: seq<string>, evs: seq<Event>, ev: Event)
    requires Tracks(text, Owed(es, evs)) && "" !in es && TakesHead(take, text, ev)
    ensures InStep(take, text, Owed(es, evs + [ev]))
  {
    assert (evs + [ev])[..|evs|] == evs;
    var at := OwedIsSuffix(es, evs + [ev]);
    assert Elements("") == [""];
    assert forall e <- es[|at|..] :: e in es;
  }

  // ----- success completes a list

  predicate Done(phase: Phase) {
    phase.Success? || phase == Closed(PamDenied)
  }

  ghost predicate Completed(es: seq<string>, evs: seq<Event>) {
    evs != [] && Owed(es, evs) == [] && Owed(es, evs[..|evs| - 1]) != []
  }

  ghost predicate ListsOk(cfg: Config, s: State, evs: seq<Event>) {
    var lists := Surviving(cfg);
    if Done(s.phase) then
      if cfg.lists == [] then |evs| == 1 else exists l <- lists :: Completed(Elements(l), evs)
    else
      && (cfg.lists == [] || s.attempt == 0 ==> evs == [])
      && (s.attempt == 0 ==> s.noneEnabled && s.kbdint == None)
      && (forall l <- lists :: Owed(Elements(l), evs) != [])
      && (s.phase.Running? && s.attempt > 0 ==>
            && |s.lists| == |lists|
            && forall i | 0 <= i < |lists| :: Tracks(s.lists[i], Owed(Elements(lists[i]), evs)))
  }

  function Extended(evs: seq<Event>, event: Option<Event>): seq<Event> {
    evs + if event.Some? then [event.value] else []
  }

  lemma UpdateKeepsTracks(lists: seq<string>, texts: seq<string>, take: string -> Option<string>, evs: seq<Event>)
    requires |texts| == |lists|
    requires forall i | 0 <= i < |lists| :: InStep(take, texts[i], Owed(Elements(lists[i]), evs))
    ensures var u := UpdateFrom(texts, 0, take, false);
      && |u.lists| == |lists|
      && (u.complete ==> exists l <- lists :: Owed(Elements(l), evs) == [])
      && (!u.complete ==> forall i | 0 <= i < |lists| :: Tracks(u.lists[i], Owed(Elements(lists[i]), evs)))
  {
    UpdateMeaning(texts, 0, take, false);
    var u := UpdateFrom(texts, 0, take, false);
    if u.complete {
      var j :| 0 <= j < |texts| && take(texts[j]) == Some("");
      assert Owed(Elements(lists[j]), evs) == [] && lists[j] in lists;
    }
  }

  lemma SuccessKeepsTracks(cfg: Config, s: State, evs: seq<Event>, ev: Event)
    requires ListsOk(cfg, s, evs) && s.phase.Running? && s.attempt > 0
    requires PlainName(ev.name) && PlainSubmethod(ev.sub)
    ensures var u := UpdateFrom(s.lists, 0, Taker(ev.name, ev.sub), false); var lists := Surviving(cfg);
      && |u.lists| == |lists|
      && (u.complete ==> exists l <- lists :: Owed(Elements(l), evs + [ev]) == [])
      && (!u.complete ==> forall i | 0 <= i < |lists| :: Tracks(u.lists[i], Owed(Elements(lists[i]), evs + [ev])))
  {
    var lists := Surviving(cfg);
    var take := Taker(ev.name, ev.sub);
    forall i | 0 <= i < |lists|
      ensures InStep(take, s.lists[i], Owed(Elements(lists[i]), evs + [ev]))
    {
      SurvivorsValid(cfg, true, cfg.lists, lists[i]);
      TakerTakesHead(s.lists[i], ev);
      TrackStep(take, s.lists[i], Elements(lists[i]), evs, ev);
    }
    UpdateKeepsTracks(lists, s.lists, take, evs + [ev]);
  }

  /** What userauth_finish does to phase and lists, leaving the lists' meaning aside. */
  lemma FinishShape(cfg: Config, s: State, authenticated: bool, ev: Event, env: Env, started: Option<nat>)
    requires s.phase.Running?
    ensures var f := Finish(cfg, s, authenticated, ev, env, started);
      && f.state.attempt == s.attempt
      && (f.report.event.None? ==> f.state.lists == s.lists && !Done(f.state.phase))
      && (f.report.event.Some? ==>
            && f.report.event.value == ev && authenticated
            && if cfg.lists == [] then Done(f.state.phase)
               else
                 var u := UpdateFrom(s.lists, 0, Taker(ev.name, ev.sub), false);
                 f.state.lists == u.lists && (Done(f.state.phase) <==> u.complete))
  {
  }

  lemma TracksMeanListsOk(cfg: Config, s: State, evs: seq<Event>)
    requires !Done(s.phase) && s.attempt > 0 && cfg.lists != []
    requires var lists := Surviving(cfg);
      |s.lists| == |lists| && forall i | 0 <= i < |lists| :: Tracks(s.lists[i], Owed(Elements(lists[i]), evs))
    ensures ListsOk(cfg, s, evs)
  {
    var lists := Surviving(cfg);
    forall l | l in lists ensures Owed(Elements(l), evs) != [] {
      var i :| 0 <= i < |lists| && lists[i] == l;
      assert Tracks(s.lists[i], Owed(Elements(lists[i]), evs));
    }
  }

  lemma FinishKeepsLists(cfg: Config, s: State, evs: seq<Event>, authenticated: bool, ev: Event, env: Env, started: Option<nat>)
    requires ListsOk(cfg, s, evs) && s.phase.Running? && s.attempt > 0
    requires authenticated ==> PlainName(ev.name) && PlainSubmethod(ev.sub)
    ensures var f := Finish(cfg, s, authenticated, ev, env, started);
      ListsOk(cfg, f.state, Extended(evs, f.report.event))
  {
    var f := Finish(cfg, s, authenticated, ev, env, started);
    FinishShape(cfg, s, authenticated, ev, env, started);
    if f.report.event.None? {
      assert Extended(evs, f.report.event) == evs;
    } else if cfg.lists != [] {
      SuccessKeepsTracks(cfg, s, evs, ev);
      if Done(f.state.phase) {
        var l :| l in Surviving(cfg) && Owed(Elements(l), evs + [ev]) == [];
        assert (evs + [ev])[..|evs|] == evs;
        assert Completed(Elements(l), evs + [ev]);
      } else {
        TracksMeanListsOk(cfg, f.state, evs + [ev]);
      }
    }
  }

  predicate SameRecord(s: State, s': State) {
    && s'.phase == s.phase && s'.attempt == s.attempt && s'.failures == s.failures && s'.lists == s.lists
    && s'.user == s.user && s'.service == s.service && s'.valid == s.valid
  }

  lemma ChallengeStartFrame(cfg: Config, s: State, k: Kbdint, env: Env)
    ensures SameRecord(s, ChallengeStart(cfg, s, k, env).state)
  {
    hide NextDevice;
  }

  lemma UserauthFrame(cfg: Config, s: State, name: string, p: Proof, env: Env)
    ensures var t := Userauth(cfg, s, name, p, env);
      && SameRecord(s, t.state)
      && (t.authenticated ==> t.state.postponed == s.postponed && s.valid)
  {
    hide ChallengeStart, KbdintAlloc, AlreadyUsed;
    if name == KBDINT {
      ChallengeStartFrame(cfg, s, KbdintAlloc(cfg, p.devs), env);
    }
  }

  lemma TryFrame(cfg: Config, s: State, p: Packet)
    requires p.Request? && !s.postponed
    ensures var t := TryMethod(cfg, s, p);
      && SameRecord(s, t.state)
      && (t.authenticated ==> !t.state.postponed && PlainName(p.name) && s.valid)
      && (t.authenticated || t.state.postponed ==> s.failures < cfg.maxAuthTries)
  {
    hide Userauth, MethodAllowed;
    UserauthFrame(cfg, s, p.name, p.proof, p.env);
    if p.name in METHODS {
      MethodNamesPlain(p.name);
    }
  }

  lemma EnterKeepsLists(cfg: Config, s: State, evs: seq<Event>, p: Packet)
    requires p.Request? && s.phase.Running? && ListsOk(cfg, s, evs)
    ensures var e := Enter(cfg, s, p); e.attempt > 0 && !Done(e.phase) && ListsOk(cfg, e, evs)
  {
    var e := Enter(cfg, s, p);
    if s.attempt == 0 {
      var lists := Surviving(cfg);
      forall i | 0 <= i < |lists| ensures Tracks(lists[i], Owed(Elements(lists[i]), evs)) {
        SurvivorsValid(cfg, true, cfg.lists, lists[i]);
      }
    }
  }

  lemma HandleKeepsLists(cfg: Config, s: State, evs: seq<Event>, p: Packet)
    requires PlainDevices(cfg) && ListsOk(cfg, s, evs)
    ensures var h := Handle(cfg, s, p); ListsOk(cfg, h.state, Extended(evs, h.report.event))
  {
    assert Extended(evs, None) == evs;
    if s.phase.Running? {
      if p.Request? {
        EnterKeepsLists(cfg, s, evs, p);
        RequestKeepsLists(cfg, s, evs, p);
      } else {
        ResponseKeepsLists(cfg, s, evs, p);
      }
    }
  }

  lemma RequestKeepsLists(cfg: Config, s: State, evs: seq<Event>, p: Packet)
    requires p.Request? && s.phase.Running?
    requires var e := Enter(cfg, s, p); e.attempt > 0 && ListsOk(cfg, e, evs)
    ensures var h := OnRequest(cfg, s, p); ListsOk(cfg, h.state, Extended(evs, h.report.event))
  {
    hide Finish, TryMethod, Surviving, Elements, Owed, Completed;
    assert Extended(evs, None) == evs;
    var e := Enter(cfg, s, p);
    if e.phase.Running? {
      var s1 := e.(kbdint := None, postponed := false);
      TryFrame(cfg, s1, p);
      var t := TryMethod(cfg, s1, p);
      FinishKeepsLists(cfg, t.state, evs, t.authenticated, RequestEvent(p), p.env, t.started);
    }
  }

  lemma ResponseKeepsLists(cfg: Config, s: State, evs: seq<Event>, p: Packet)
    requires p.Response? && s.phase.Running? && PlainDevices(cfg) && ListsOk(cfg, s, evs)
    requires s.attempt == 0 ==> s.kbdint == None
    ensures var h := OnResponse(cfg, s, p); ListsOk(cfg, h.state, Extended(evs, h.report.event))
  {
    hide Finish, ChallengeStart, Surviving, Elements, Owed, Completed;
    assert Extended(evs, None) == evs;
    if Challenged(cfg, s) && p.wellFormed {
      var k := s.kbdint.value;
      var ev := Event(KBDINT, Some(cfg.devices[k.device.value]), None);
      MethodNamesPlain(KBDINT);
      var s1 := s.(postponed := p.answer.NeedMore? && p.queryOk);
      if s1.postponed {
        FinishKeepsLists(cfg, s1, evs, false, ev, p.env, None);
      } else if p.answer.Correct? && s1.valid {
        FinishKeepsLists(cfg, s1.(kbdint := None), evs, true, ev, p.env, None);
      } else {
        var st := ChallengeStart(cfg, s1, k, p.env);
        ChallengeStartFrame(cfg, s1, k, p.env);
        FinishKeepsLists(cfg, st.state, evs, false, ev, p.env, st.started);
      }
    }
  }

  lemma {:induction false} RunKeepsLists(cfg: Config, packets: seq<Packet>)
    requires PlainDevices(cfg)
    ensures var r := Exec(cfg, packets); ListsOk(cfg, r.state, Events(r.reports))
  {
    if packets != [] {
      var init := packets[..|packets| - 1];
      RunKeepsLists(cfg, init);
      var before := Exec(cfg, init);
      HandleKeepsLists(cfg, before.state, Events(before.reports), packets[|packets| - 1]);
      var r := Exec(cfg, packets);
      assert r.reports[..|r.reports| - 1] == before.reports;
    }
  }

  ghost predicate SomeListEmbedded(cfg: Config, evs: seq<Event>) {
    exists l, at :: l in Surviving(cfg) && Embeds(Elements(l), evs, at)
  }

  ghost predicate SomeListEndsNow(cfg: Config, evs: seq<Event>) {
    exists l, at :: l in Surviving(cfg) && Embeds(Elements(l), evs, at) && at[|at| - 1] == |evs| - 1
  }

  lemma ListsOkMeaning(cfg: Config, s: State, evs: seq<Event>)
    requires cfg.lists != [] && ListsOk(cfg, s, evs)
    ensures Done(s.phase) <==> SomeListEmbedded(cfg, evs)
    ensures Done(s.phase) ==> SomeListEndsNow(cfg, evs)
  {
    if Done(s.phase) {
      var l :| l in Surviving(cfg) && Completed(Elements(l), evs);
      var at := OwedIsSuffix(Elements(l), evs);
      assert Elements(l)[..|at|] == Elements(l);
      assert Embeds(Elements(l), evs, at) && at[|at| - 1] == |evs| - 1;
    } else {
      forall l, at | l in Surviving(cfg) ensures !Embeds(Elements(l), evs, at) {
        OwedNothingIffEmbeds(Elements(l), evs);
      }
    }
  }

  /**
   With AuthenticationMethods configured, a run is let in (or stopped by PAM on the way in)
   exactly when the successes so far contain, in order, every element of one surviving list;
   and then the last of these elements is matched by the very last success.
   */
  lemma {:induction false} SuccessIffListCompleted(cfg: Config, packets: seq<Packet>)
    requires PlainDevices(cfg) && cfg.lists != []
    ensures var r := Exec(cfg, packets); var evs := Events(r.reports);
      && (Done(r.state.phase) <==> SomeListEmbedded(cfg, evs))
      && (Done(r.state.phase) ==> SomeListEndsNow(cfg, evs))
  {
    RunKeepsLists(cfg, packets);
    ListsOkMeaning(cfg, Exec(cfg, packets).state, Events(Exec(cfg, packets).reports));
  }

  /** Without AuthenticationMethods one success is enough, and none is ever ignored. */
  lemma {:induction false} SuccessWithoutLists(cfg: Config, packets: seq<Packet>)
    requires PlainDevices(cfg) && cfg.lists == []
    ensures var r := Exec(cfg, packets);
      |Events(r.reports)| == if Done(r.state.phase) then 1 else 0
  {
    RunKeepsLists(cfg, packets);
  }
}
