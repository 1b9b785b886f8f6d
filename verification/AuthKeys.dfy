/** Which keys, and whose, the successes of a run stand for. */
module AuthKeys {
  import opened Wrappers
  import opened AuthLists
  import opened AuthMachine
  import opened AuthRuns

  predicate IsPubkey(ev: Event) {
    ev.name == "publickey"
  }

  /** Recorded keys are pairwise unequal, and so are those of the publickey successes. */
  ghost predicate KeysOk(cfg: Config, s: State, evs: seq<Event>) {
    && (forall i, j | 0 <= i < j < |s.keys| :: !cfg.sameKey(s.keys[j], s.keys[i]))
    && (forall ev <- evs | IsPubkey(ev) :: ev.key.Some? && ev.key.value in s.keys)
    && (forall i, j | 0 <= i < j < |evs| && IsPubkey(evs[i]) && IsPubkey(evs[j]) ::
          !cfg.sameKey(evs[j].key.value, evs[i].key.value))
  }

  lemma FinishEvent(cfg: Config, s: State, authenticated: bool, ev: Event, env: Env, started: Option<nat>)
    ensures var f := Finish(cfg, s, authenticated, ev, env, started);
      && f.state.keys == s.keys && f.state.attempt == s.attempt
      && f.state.user == s.user && f.state.service == s.service && f.state.valid == s.valid
      && (f.report.event.Some? ==> f.report.event == Some(ev) && authenticated && s.valid)
  {
    hide UpdateFrom;
  }

  lemma TryKeys(cfg: Config, s: State, p: Packet)
    requires p.Request?
    ensures var t := TryMethod(cfg, s, p);
      if t.authenticated && p.name == "publickey"
      then p.proof.key.Some? && !AlreadyUsed(cfg, s.keys, p.proof.key.value) && t.state.keys == s.keys + [p.proof.key.value]
      else t.state.keys == s.keys
  {
  }

  lemma AddKey(cfg: Config, s: State, s': State, evs: seq<Event>, ev: Event)
    requires KeysOk(cfg, s, evs)
    requires if IsPubkey(ev)
             then ev.key.Some? && !AlreadyUsed(cfg, s.keys, ev.key.value) && s'.keys == s.keys + [ev.key.value]
             else s'.keys == s.keys
    ensures KeysOk(cfg, s', evs) && KeysOk(cfg, s', evs + [ev])
  {
    if IsPubkey(ev) {
      assert forall k <- s.keys :: !cfg.sameKey(ev.key.value, k);
      assert forall i | 0 <= i < |s.keys| :: s'.keys[i] == s.keys[i] && s.keys[i] in s.keys;
      assert s'.keys[|s.keys|] == ev.key.value;
      assert forall i | 0 <= i < |evs| && IsPubkey(evs[i]) :: evs[i] in evs && evs[i].key.value in s.keys;
    }
  }

  lemma SameKeysOk(cfg: Config, s: State, s': State, evs: seq<Event>)
    requires KeysOk(cfg, s, evs) && s'.keys == s.keys
    ensures KeysOk(cfg, s', evs)
  {
  }

  lemma FinishKeepsKeys(cfg: Config, s: State, s': State, evs: seq<Event>, authenticated: bool, ev: Event, env: Env, started: Option<nat>)
    requires KeysOk(cfg, s, evs)
    requires if authenticated && IsPubkey(ev)
             then ev.key.Some? && !AlreadyUsed(cfg, s.keys, ev.key.value) && s'.keys == s.keys + [ev.key.value]
             else s'.keys == s.keys
    ensures var f := Finish(cfg, s', authenticated, ev, env, started);
      KeysOk(cfg, f.state, Extended(evs, f.report.event))
  {
    assert Extended(evs, None) == evs;
    FinishEvent(cfg, s', authenticated, ev, env, started);
    if authenticated {
      AddKey(cfg, s, s', evs, ev);
    }
  }

  lemma RequestKeepsKeys(cfg: Config, s: State, evs: seq<Event>, p: Packet)
    requires KeysOk(cfg, s, evs) && p.Request? && s.phase.Running?
    ensures var h := OnRequest(cfg, s, p); KeysOk(cfg, h.state, Extended(evs, h.report.event))
  {
    assert Extended(evs, None) == evs;
    var e := Enter(cfg, s, p);
    if e.phase.Running? {
      hide Finish, TryMethod, KeysOk;
      var s1 := e.(kbdint := None, postponed := false);
      var t := TryMethod(cfg, s1, p);
      assert KeysOk(cfg, s1, evs) by { SameKeysOk(cfg, s, s1, evs); }
      TryKeys(cfg, s1, p);
      FinishKeepsKeys(cfg, s1, t.state, evs, t.authenticated, RequestEvent(p), p.env, t.started);
    }
  }

  lemma ResponseKeepsKeys(cfg: Config, s: State, evs: seq<Event>, p: Packet)
    requires KeysOk(cfg, s, evs) && p.Response? && s.phase.Running? && Challenged(cfg, s) && p.wellFormed
    ensures var h := OnResponse(cfg, s, p); KeysOk(cfg, h.state, Extended(evs, h.report.event))
  {
    hide Finish, ChallengeStart, KeysOk, Extended;
    var k := s.kbdint.value;
    var ev := Event(KBDINT, Some(cfg.devices[k.device.value]), None);
    var s1 := s.(postponed := p.answer.NeedMore? && p.queryOk);
    if s1.postponed {
      FinishKeepsKeys(cfg, s, s1, evs, false, ev, p.env, None);
    } else if p.answer.Correct? && s1.valid {
      FinishKeepsKeys(cfg, s, s1.(kbdint := None), evs, true, ev, p.env, None);
    } else {
      var st := ChallengeStart(cfg, s1, k, p.env);
      ChallengeKeepsKeys(cfg, s1, k, p.env);
      FinishKeepsKeys(cfg, s, st.state, evs, false, ev, p.env, st.started);
    }
  }

  lemma ChallengeKeepsKeys(cfg: Config, s: State, k: Kbdint, env: Env)
    ensures ChallengeStart(cfg, s, k, env).state.keys == s.keys
  {
    hide NextDevice;
  }

  lemma HandleKeepsKeys(cfg: Config, s: State, evs: seq<Event>, p: Packet)
    requires KeysOk(cfg, s, evs)
    ensures var h := Handle(cfg, s, p); KeysOk(cfg, h.state, Extended(evs, h.report.event))
  {
    assert Extended(evs, None) == evs;
    if s.phase.Running? {
      if p.Request? {
        RequestKeepsKeys(cfg, s, evs, p);
      } else if Challenged(cfg, s) && p.wellFormed {
        ResponseKeepsKeys(cfg, s, evs, p);
      }
    }
  }

  /** No two publickey successes of a run used equal keys, and no two recorded keys are equal. */
  lemma {:induction false} KeysNeverReused(cfg: Config, packets: seq<Packet>)
    ensures var r := Exec(cfg, packets); KeysOk(cfg, r.state, Events(r.reports))
  {
    if packets != [] {
      var init := packets[..|packets| - 1];
      KeysNeverReused(cfg, init);
      var before := Exec(cfg, init);
      HandleKeepsKeys(cfg, before.state, Events(before.reports), packets[|packets| - 1]);
      var r := Exec(cfg, packets);
      assert r.reports[..|r.reports| - 1] == before.reports;
    }
  }

  /** Completing a list that names publickey several times takes a different key each time. */
  lemma {:induction false} ListTakesDistinctKeys(cfg: Config, packets: seq<Packet>, l: string, at: seq<nat>, i: nat, j: nat)
    requires Embeds(Elements(l), Events(Exec(cfg, packets).reports), at)
    requires i < j < |at| && Elements(l)[i] == Elements(l)[j] == "publickey"
    ensures var evs := Events(Exec(cfg, packets).reports);
      && evs[at[i]].key.Some? && evs[at[j]].key.Some?
      && !cfg.sameKey(evs[at[j]].key.value, evs[at[i]].key.value)
  {
    var evs := Events(Exec(cfg, packets).reports);
    KeysNeverReused(cfg, packets);
    OnlyPubkeyFits(evs[at[i]]);
    OnlyPubkeyFits(evs[at[j]]);
    assert evs[at[i]] in evs && evs[at[j]] in evs;
  }

  lemma OnlyPubkeyFits(ev: Event)
    requires FitsEvent("publickey", ev)
    ensures IsPubkey(ev)
  {
    assert ':' !in "publickey";
    if ev.sub.Some? {
      var w := ev.name + ":" + ev.sub.value;
      assert w[|ev.name|] == ':' && ':' in w;
    }
  }

  // ----- one user, one service

  function FirstRequest(packets: seq<Packet>): Option<Packet> {
    if packets == [] then None
    else if packets[0].Request? then Some(packets[0]) else FirstRequest(packets[1..])
  }

  lemma {:induction false} FirstRequestExtends(packets: seq<Packet>, p: Packet)
    ensures FirstRequest(packets + [p])
      == if FirstRequest(packets).Some? then FirstRequest(packets) else if p.Request? then Some(p) else None
  {
    if packets != [] {
      assert (packets + [p])[1..] == packets[1..] + [p];
      FirstRequestExtends(packets[1..], p);
    }
  }

  ghost predicate IdentityOk(s: State, packets: seq<Packet>, evs: seq<Event>) {
    match FirstRequest(packets)
    case None => s.attempt == 0 && evs == [] && s.phase.Running?
    case Some(first) =>
      && first.Request? && s.attempt > 0
      && s.user == first.user && s.service == first.service
      && s.valid == (first.known && first.service == "ssh-connection")
      && (evs != [] ==> s.valid)
  }

  /** A packet that brings a success speaks for the user and service of the first request. */
  lemma HandleIdentity(cfg: Config, s: State, packets: seq<Packet>, evs: seq<Event>, p: Packet)
    requires IdentityOk(s, packets, evs) && (s.attempt == 0 ==> s.kbdint == None)
    ensures var h := Handle(cfg, s, p);
      && (h.state.attempt == 0 ==> h.state.kbdint == None)
      && IdentityOk(h.state, packets + [p], Extended(evs, h.report.event))
      && (h.report.event.Some? && p.Request? ==> p.user == h.state.user && p.service == h.state.service)
  {
    hide Finish, TryMethod, ChallengeStart;
    FirstRequestExtends(packets, p);
    if s.phase.Running? && p.Request? {
      var e := Enter(cfg, s, p);
      if e.phase.Running? {
        var s1 := e.(kbdint := None, postponed := false);
        var t := TryMethod(cfg, s1, p);
        TryFrame(cfg, s1, p);
        FinishEvent(cfg, t.state, t.authenticated, RequestEvent(p), p.env, t.started);
      }
    } else if s.phase.Running? && Challenged(cfg, s) && p.wellFormed {
      ResponseIdentity(cfg, s, p);
    }
  }

  lemma ResponseIdentity(cfg: Config, s: State, p: Packet)
    requires p.Response? && s.phase.Running? && Challenged(cfg, s) && p.wellFormed
    ensures var h := OnResponse(cfg, s, p);
      && h.state.attempt == s.attempt && h.state.user == s.user && h.state.service == s.service
      && h.state.valid == s.valid && (h.report.event.Some? ==> s.valid)
  {
    hide Finish, ChallengeStart;
    var k := s.kbdint.value;
    var ev := Event(KBDINT, Some(cfg.devices[k.device.value]), None);
    var s1 := s.(postponed := p.answer.NeedMore? && p.queryOk);
    var st := ChallengeStart(cfg, s1, k, p.env);
    ChallengeStartFrame(cfg, s1, k, p.env);
    FinishEvent(cfg, s1, false, ev, p.env, None);
    FinishEvent(cfg, s1.(kbdint := None), true, ev, p.env, None);
    FinishEvent(cfg, st.state, false, ev, p.env, st.started);
  }

  lemma {:induction false} RunIdentity(cfg: Config, packets: seq<Packet>)
    ensures var r := Exec(cfg, packets);
      && (r.state.attempt == 0 ==> r.state.kbdint == None)
      && IdentityOk(r.state, packets, Events(r.reports))
  {
    if packets != [] {
      var n := |packets| - 1;
      var init := packets[..n];
      RunIdentity(cfg, init);
      var before := Exec(cfg, init);
      HandleIdentity(cfg, before.state, init, Events(before.reports), packets[n]);
      assert Exec(cfg, packets).reports[..n] == before.reports && packets == init + [packets[n]];
    }
  }

  /**
   Every success of a run is for the user and service of the first request, and there is
   none at all unless that user exists and asked for ssh-connection.
   */
  lemma {:induction false} OneIdentityPerRun(cfg: Config, packets: seq<Packet>, i: nat)
    requires i < |packets| && Exec(cfg, packets).reports[i].event.Some?
    ensures var first := FirstRequest(packets);
      && first.Some? && first.value.Request? && first.value.known && first.value.service == "ssh-connection"
      && (packets[i].Request? ==> packets[i].user == first.value.user && packets[i].service == first.value.service)
  {
    var n := |packets| - 1;
    var init := packets[..n];
    var before := Exec(cfg, init);
    assert packets == init + [packets[n]];
    FirstRequestExtends(init, packets[n]);
    if i < n {
      OneIdentityPerRun(cfg, init, i);
    } else {
      RunIdentity(cfg, init);
      HandleIdentity(cfg, before.state, init, Events(before.reports), packets[n]);
    }
  }
}
