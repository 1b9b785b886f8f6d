/** Which keyboard-interactive device is started, when, and what an answer to it does. */
module AuthDevices {
  import opened Wrappers
  import opened AuthLists
  import opened AuthMachine
  import opened AuthRuns
  import opened AuthKbdint
  import opened AuthEvidence
  import opened AuthExits
  import opened AuthSteps

  // ----- the pass over the device table

  /** The devices from i on that are unused, allowed, and whose name starts with the wanted text. */
  function Matching(cfg: Config, lists: seq<string>, done: set<nat>, want: string, i: nat): set<nat> {
    set j | i <= j < |cfg.devices|
      && j !in done && MethodAllowed(cfg, lists, KBDINT, Some(cfg.devices[j])) && want <= cfg.devices[j]
  }

  /** All of them are used up, and the last is chosen. */
  lemma {:induction false} ScanMeaning(cfg: Config, lists: seq<string>, k: Kbdint, want: string, i: nat)
    requires i <= |cfg.devices|
    ensures var k', found := ScanDevices(cfg, lists, k, want, i), Matching(cfg, lists, k.done, want, i);
      && k'.devices == k.devices && k'.done == k.done + found
      && if found == {} then k'.device == k.device
         else k'.device.Some? && k'.device.value in found && forall j <- found :: j <= k'.device.value
    decreases |cfg.devices| - i
  {
    hide MethodAllowed;
    if i < |cfg.devices| {
      var k1 := if Candidate(cfg, lists, k.done, want, i) then k.(device := Some(i), done := k.done + {i}) else k;
      ScanMeaning(cfg, lists, k1, want, i + 1);
      var later := Matching(cfg, lists, k.done, want, i + 1);
      assert Matching(cfg, lists, k1.done, want, i + 1) == later;
      assert Matching(cfg, lists, k.done, want, i) == if Candidate(cfg, lists, k.done, want, i) then {i} + later else later;
    }
  }

  // ----- the walk over the device string

  /** The m-th wanted text has a device, and no text up to it is empty. */
  ghost predicate Usable(cfg: Config, lists: seq<string>, done: set<nat>, wanted: seq<string>, m: nat) {
    && m < |wanted| && (forall j | 0 <= j <= m :: wanted[j] != "")
    && Matching(cfg, lists, done, wanted[m], 0) != {}
  }

  /** The first text with a device decides: it has its last device chosen, and what follows it is kept. */
  ghost predicate Chosen(cfg: Config, lists: seq<string>, k: Kbdint, wanted: seq<string>, m: nat, k': Kbdint) {
    && Usable(cfg, lists, k.done, wanted, m) && (forall j: nat | j < m :: !Usable(cfg, lists, k.done, wanted, j))
    && (var found := Matching(cfg, lists, k.done, wanted[m], 0);
        && k'.done == k.done + found
        && k'.device.Some? && k'.device.value in found && forall j <- found :: j <= k'.device.value)
    && (if m + 1 == |wanted| then k'.devices == None
        else k'.devices.Some? && Elements(k'.devices.value) == wanted[m + 1..])
  }

  lemma UsableTail(cfg: Config, lists: seq<string>, done: set<nat>, w: string, rest: seq<string>, m: nat)
    requires w != "" && m > 0
    ensures Usable(cfg, lists, done, [w] + rest, m) <==> Usable(cfg, lists, done, rest, m - 1)
  {
    hide Matching;
    var wanted := [w] + rest;
    assert forall j | 0 <= j < |rest| :: wanted[j + 1] == rest[j];
    if Usable(cfg, lists, done, rest, m - 1) {
      forall j | 0 <= j <= m ensures wanted[j] != "" {
        if j > 0 {
          assert rest[j - 1] != "";
        }
      }
    } else if m < |wanted| && forall j | 0 <= j <= m :: wanted[j] != "" {
      forall j | 0 <= j <= m - 1 ensures rest[j] != "" {
        assert wanted[j + 1] != "";
      }
    }
  }

  /** What one wanted text does: nothing, or it decides. */
  lemma NextUnfolds(cfg: Config, lists: seq<string>, k: Kbdint, text: string)
    requires k.device.None? && k.devices == Some(text)
    ensures var k', len := NextDevice(cfg, lists, k), CommaAt(text);
      var found := Matching(cfg, lists, k.done, text[..len], 0);
      if len == 0 then k' == k
      else if found == {} then
        if len == |text| then k' == k.(devices := None)
        else k' == NextDevice(cfg, lists, k.(devices := Some(text[len + 1..])))
      else
        && k'.done == k.done + found && k'.device.Some? && k'.device.value in found
        && (forall j <- found :: j <= k'.device.value)
        && k'.devices == if len == |text| then None else Some(text[len + 1..])
  {
    hide ScanDevices, Matching, CommaAt;
    var len := CommaAt(text);
    ScanMeaning(cfg, lists, k, text[..len], 0);
    var found := Matching(cfg, lists, k.done, text[..len], 0);
    if found == {} {
      assert ScanDevices(cfg, lists, k, text[..len], 0) == k.(done := k.done + found) == k;
    }
  }

  /** A device is chosen exactly when some wanted text is usable; otherwise none is used up. */
  lemma {:induction false} NextMeaning(cfg: Config, lists: seq<string>, k: Kbdint, text: string) returns (m: nat)
    requires k.device.None? && k.devices == Some(text)
    ensures var k', wanted := NextDevice(cfg, lists, k), Elements(text);
      if k'.device.Some? then Chosen(cfg, lists, k, wanted, m, k')
      else k'.done == k.done && forall j: nat :: !Usable(cfg, lists, k.done, wanted, j)
    decreases |text|
  {
    hide NextDevice, Matching, Elements;
    m := 0;
    var len, es := CommaAt(text), Elements(text);
    ElementsTail(text);
    NextUnfolds(cfg, lists, k, text);
    var found := Matching(cfg, lists, k.done, text[..len], 0);
    if len == 0 {
      assert forall j: nat | Usable(cfg, lists, k.done, es, j) :: es[0] != "";
    } else if found != {} {
      assert len < |text| ==> es[1..] == Elements(text[len + 1..]);
    } else if len < |text| {
      var rest := text[len + 1..];
      m := NextMeaning(cfg, lists, k.(devices := Some(rest)), rest);
      TailChosen(cfg, lists, k, text[..len], rest, m);
      m := m + 1;
    }
  }

  /** A text without a device only delays the choice. */
  lemma TailChosen(cfg: Config, lists: seq<string>, k: Kbdint, w: string, rest: string, m: nat)
    requires w != "" && Matching(cfg, lists, k.done, w, 0) == {}
    ensures var k1, wanted := k.(devices := Some(rest)), [w] + Elements(rest);
      && (forall k' | Chosen(cfg, lists, k1, Elements(rest), m, k') :: Chosen(cfg, lists, k, wanted, m + 1, k'))
      && ((forall j: nat :: !Usable(cfg, lists, k.done, Elements(rest), j)) ==>
            forall j: nat :: !Usable(cfg, lists, k.done, wanted, j))
  {
    hide Matching, Elements;
    var es := Elements(rest);
    var wanted := [w] + es;
    forall j: nat | j > 0 ensures Usable(cfg, lists, k.done, wanted, j) <==> Usable(cfg, lists, k.done, es, j - 1) {
      UsableTail(cfg, lists, k.done, w, es, j);
    }
    assert !Usable(cfg, lists, k.done, wanted, 0);
    assert m < |es| ==> wanted[m + 1] == es[m] && wanted[m + 2..] == es[m + 1..];
  }

  // ----- the device string a request starts with

  lemma {:induction false} JoinedElements(ds: seq<string>)
    requires ds != [] && forall d <- ds :: ',' !in d
    ensures Elements(JoinDevices(ds)) == ds
  {
    hide Elements;
    var n := |ds| - 1;
    assert ds[n] in ds;
    if n == 0 {
      OneElement(ds[0]);
    } else {
      assert forall d <- ds[..n] :: d in ds;
      JoinedElements(ds[..n]);
      ElementsAppend(JoinDevices(ds[..n]), ds[n]);
      assert ds == ds[..n] + [ds[n]];
    }
  }

  lemma OneElement(d: string)
    requires ',' !in d
    ensures Elements(d) == [d]
  {
    assert d[..|d|] == d;
    CommaAtUnique(d, |d|);
  }

  lemma {:induction false} ElementsAppend(s: string, d: string)
    requires ',' !in d
    ensures Elements(s + "," + d) == Elements(s) + [d]
    decreases |s|
  {
    hide Elements;
    var k, t := CommaAt(s), s + "," + d;
    assert t[..k] == s[..k];
    CommaAtUnique(t, k);
    ElementsTail(s);
    ElementsTail(t);
    if k == |s| {
      assert t[k + 1..] == d;
      OneElement(d);
    } else {
      assert t[k + 1..] == s[k + 1..] + "," + d;
      ElementsAppend(s[k + 1..], d);
    }
  }

  /** What the client asks for, or every device in table order if it does not say. */
  function WantedTexts(cfg: Config, devs: string): seq<string> {
    if devs == "" then cfg.devices else Elements(devs)
  }

  lemma AllocMeaning(cfg: Config, devs: string)
    requires PlainDevices(cfg)
    ensures var k := KbdintAlloc(cfg, devs);
      && k.device == None && k.done == {} && k.devices.Some?
      && (devs != "" || cfg.devices != [] ==> Elements(k.devices.value) == WantedTexts(cfg, devs))
  {
    hide Elements;
    if devs == "" && cfg.devices != [] {
      JoinedElements(cfg.devices);
    }
  }

  lemma NoDeviceNoUse(cfg: Config, lists: seq<string>, done: set<nat>, wanted: seq<string>, m: nat)
    requires cfg.devices == []
    ensures !Usable(cfg, lists, done, wanted, m)
  {
  }

  /** A started device is the last one that fits the first usable text. */
  ghost predicate StartsFirst(cfg: Config, lists: seq<string>, done: set<nat>, wanted: seq<string>, started: Option<nat>) {
    if started.None? then forall m: nat :: !Usable(cfg, lists, done, wanted, m)
    else exists m: nat ::
      && Usable(cfg, lists, done, wanted, m) && (forall j: nat | j < m :: !Usable(cfg, lists, done, wanted, j))
      && started.value in Matching(cfg, lists, done, wanted[m], 0)
      && forall j <- Matching(cfg, lists, done, wanted[m], 0) :: j <= started.value
  }

  lemma ChallengeStarts(cfg: Config, s: State, k: Kbdint, text: string, env: Env)
    requires k.devices == Some(text)
    ensures var st := ChallengeStart(cfg, s, k, env);
      && StartsFirst(cfg, s.lists, k.done, Elements(text), st.started)
      && (st.state.kbdint.Some? <==> st.started.Some? && env.deviceReady)
      && st.state.postponed == (s.postponed || (st.started.Some? && env.deviceReady))
  {
    hide NextDevice, Matching, Usable, Elements;
    var m := NextMeaning(cfg, s.lists, k.(device := None), text);
  }

  lemma ChallengeStartsNone(cfg: Config, s: State, k: Kbdint, env: Env)
    requires k.devices == None
    ensures var st := ChallengeStart(cfg, s, k, env);
      st.started == None && st.state.kbdint == None && st.state.postponed == s.postponed
  {
  }

  /**
   A keyboard-interactive request starts a device exactly when the method is looked up with tries
   left and some wanted text is usable: the last device that fits the first such text.
   */
  lemma RequestStarts(cfg: Config, e: State, p: Packet)
    requires PlainDevices(cfg) && p.Request? && p.name == KBDINT
    ensures var t := TryMethod(cfg, e, p);
      if Lookup(cfg, e, KBDINT) && e.failures < cfg.maxAuthTries && cfg.challengeResponse
      then StartsFirst(cfg, e.lists, {}, WantedTexts(cfg, p.proof.devs), t.started)
      else t.started == None
  {
    hide ChallengeStart, KbdintAlloc, Lookup, Matching, Usable, Elements;
    var k := KbdintAlloc(cfg, p.proof.devs);
    AllocMeaning(cfg, p.proof.devs);
    ChallengeStarts(cfg, e, k, k.devices.value, p.env);
    if cfg.devices == [] {
      forall wanted, m: nat ensures !Usable(cfg, e.lists, {}, wanted, m) {
        NoDeviceNoUse(cfg, e.lists, {}, wanted, m);
      }
    }
  }

  /** The same after any run, for an admitted request. */
  lemma RunStarts(cfg: Config, packets: seq<Packet>, p: Packet)
    requires PlainDevices(cfg) && p.Request? && p.name == KBDINT
    requires var s := Exec(cfg, packets).state; s.phase.Running? && Admitted(cfg, s, p)
    ensures var s := Exec(cfg, packets).state; var e, h := Enter(cfg, s, p), OnRequest(cfg, s, p);
      if Lookup(cfg, e, KBDINT) && e.failures < cfg.maxAuthTries && cfg.challengeResponse
      then StartsFirst(cfg, e.lists, {}, WantedTexts(cfg, p.proof.devs), h.report.started)
      else h.report.started == None
  {
    hide Finish, TryMethod, Enter, Admitted, Lookup, GoodQuery, StartsFirst, WantedTexts;
    var s := Exec(cfg, packets).state;
    var e := Enter(cfg, s, p);
    EnterAdmits(cfg, s, p);
    var s1 := e.(kbdint := None, postponed := false);
    var t := TryMethod(cfg, s1, p);
    TryFrame(cfg, s1, p);
    QueryAndLookupSame(cfg, e, s1, p);
    RequestStarts(cfg, s1, p);
    FinishEnds(cfg, t.state, t.authenticated, RequestEvent(p), p.env, t.started);
  }

  // ----- answers

  /** The client is asked once more on the same device. */
  predicate AsksAgain(p: Packet)
    requires p.Response?
  {
    p.answer.NeedMore? && p.queryOk
  }

  /** The texts that are still to be tried. */
  function Remaining(k: Kbdint): seq<string> {
    if k.devices.None? then [] else Elements(k.devices.value)
  }

  lemma NextAfterWrong(cfg: Config, s: State, k: Kbdint, env: Env)
    ensures var st := ChallengeStart(cfg, s, k, env);
      && StartsFirst(cfg, s.lists, k.done, Remaining(k), st.started)
      && st.state.postponed == (s.postponed || (st.started.Some? && env.deviceReady))
  {
    hide ChallengeStart, Matching, Elements;
    if k.devices.None? {
      ChallengeStartsNone(cfg, s, k, env);
    } else {
      ChallengeStarts(cfg, s, k, k.devices.value, env);
    }
  }

  /** A success of the device under challenge is one that some list is waiting for. */
  lemma DeviceFound(cfg: Config, s: State, ev: Event)
    requires cfg.lists != [] && ev.name == KBDINT && ev.sub.Some? && PlainSubmethod(ev.sub)
    requires MethodAllowed(cfg, s.lists, KBDINT, ev.sub)
    ensures var u := UpdateFrom(s.lists, 0, Taker(KBDINT, ev.sub), false); u.complete || u.found
  {
    hide UpdateFrom, Elements, MethodAllowed;
    MethodNamesPlain(KBDINT);
    AllowedDeviceFits(cfg, s, ev);
    FoundIffHeadFits(s.lists, ev);
  }

  lemma CorrectFinish(cfg: Config, s: State, ev: Event, env: Env)
    requires s.phase.Running? && s.valid && !s.postponed
    requires cfg.lists != [] ==>
      (var u := UpdateFrom(s.lists, 0, Taker(ev.name, ev.sub), false); u.complete || u.found)
    ensures var f := Finish(cfg, s, true, ev, env, None);
      && f.report.event == (if env.rootRefused then None else Some(ev))
      && (f.report.outcome == Failed <==> env.rootRefused)
  {
    hide UpdateFrom;
  }

  lemma WrongFinish(cfg: Config, s: State, ev: Event, env: Env, started: Option<nat>)
    requires s.phase.Running?
    ensures var f := Finish(cfg, s, false, ev, env, started);
      && f.report.event == None && f.report.started == started && f.state.postponed == s.postponed
      && (f.report.outcome == Failed <==> !s.postponed)
  {
  }

  /** Right answers of a known user succeed unless the root policy objects; wrong ones move to the next device. */
  predicate Answered(cfg: Config, s: State, p: Packet, h: Step)
    requires p.Response? && Challenged(cfg, s)
  {
    var right := p.answer.Correct? && s.valid;
    && h.report.event == (if right && !p.env.rootRefused
                          then Some(Event(KBDINT, Some(cfg.devices[s.kbdint.value.device.value]), None)) else None)
    && h.state.postponed == (AsksAgain(p) || (h.report.started.Some? && p.env.deviceReady))
    && (h.report.outcome == Failed <==> h.report.event == None && !h.state.postponed)
    && (right || AsksAgain(p) ==> h.report.started == None)
  }

  ghost predicate MovesOn(cfg: Config, s: State, p: Packet, h: Step)
    requires p.Response? && Challenged(cfg, s)
  {
    !AsksAgain(p) && !(p.answer.Correct? && s.valid) ==>
      StartsFirst(cfg, s.lists, s.kbdint.value.done, Remaining(s.kbdint.value), h.report.started)
  }

  lemma ChallengedAnswers(cfg: Config, s: State, p: Packet, ds: seq<nat>)
    requires PlainDevices(cfg) && p.Response? && s.phase.Running? && KbdintOk(cfg, s, ds)
    requires Challenged(cfg, s) && p.wellFormed
    ensures var h := OnResponse(cfg, s, p); Answered(cfg, s, p, h) && MovesOn(cfg, s, p, h)
  {
    hide Finish, ChallengeStart, StartsFirst, UpdateFrom, MethodAllowed, Remaining;
    var k := s.kbdint.value;
    var ev := Event(KBDINT, Some(cfg.devices[k.device.value]), None);
    var s1 := s.(postponed := AsksAgain(p));
    if AsksAgain(p) {
      WrongFinish(cfg, s1, ev, p.env, None);
    } else if p.answer.Correct? && s.valid {
      if cfg.lists != [] {
        DeviceFound(cfg, s, ev);
      }
      CorrectFinish(cfg, s1.(kbdint := None), ev, p.env);
      FinishEnds(cfg, s1.(kbdint := None), true, ev, p.env, None);
    } else {
      var st := ChallengeStart(cfg, s1, k, p.env);
      ChallengeStartFrame(cfg, s1, k, p.env);
      NextAfterWrong(cfg, s1, k, p.env);
      WrongFinish(cfg, st.state, ev, p.env, st.started);
    }
  }

  /** After any run, what every info-response comes to. */
  lemma ResponseAnswers(cfg: Config, packets: seq<Packet>, p: Packet)
    requires PlainDevices(cfg) && p.Response? && Exec(cfg, packets).state.phase.Running?
    ensures var s := Exec(cfg, packets).state; var h := OnResponse(cfg, s, p);
      if !Challenged(cfg, s) then h.report == QUIET && h.state.phase == if s.attempt == 0 then Running else Closed(ProtocolError)
      else if !p.wellFormed then h.report == QUIET && h.state.phase == Closed(BadReply)
      else Answered(cfg, s, p, h) && MovesOn(cfg, s, p, h)
  {
    hide Answered, MovesOn, Finish, ChallengeStart;
    var s := Exec(cfg, packets).state;
    RunKbdint(cfg, packets);
    if Challenged(cfg, s) && p.wellFormed {
      ChallengedAnswers(cfg, s, p, Started(packets, Exec(cfg, packets).reports));
    }
  }
}
