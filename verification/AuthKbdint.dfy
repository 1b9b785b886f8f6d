/** Which keyboard-interactive devices are started over a run. */
module AuthKbdint {
  import opened Wrappers
  import opened AuthLists
  import opened AuthMachine
  import opened AuthRuns

  predicate DeviceAllowed(cfg: Config, lists: seq<string>, d: nat) {
    d < |cfg.devices| && MethodAllowed(cfg, lists, KBDINT, Some(cfg.devices[d]))
  }

  /** What choosing a device may do: use devices up, and choose only a fresh and allowed one. */
  predicate Chooses(cfg: Config, lists: seq<string>, k: Kbdint, k': Kbdint) {
    && k.done <= k'.done
    && (k'.device == k.device
        || (k'.device.Some? && k'.device.value !in k.done && k'.device.value in k'.done
            && DeviceAllowed(cfg, lists, k'.device.value)))
  }

  lemma {:induction false} ScanChooses(cfg: Config, lists: seq<string>, k: Kbdint, want: string, i: nat)
    requires i <= |cfg.devices|
    ensures Chooses(cfg, lists, k, ScanDevices(cfg, lists, k, want, i))
    decreases |cfg.devices| - i
  {
    if i < |cfg.devices| {
      var k1 := if Candidate(cfg, lists, k.done, want, i) then k.(device := Some(i), done := k.done + {i}) else k;
      ScanChooses(cfg, lists, k1, want, i + 1);
    }
  }

  lemma {:induction false} NextChooses(cfg: Config, lists: seq<string>, k: Kbdint)
    requires k.device.None?
    ensures Chooses(cfg, lists, k, NextDevice(cfg, lists, k))
    decreases if k.devices.None? then 0 else 1 + |k.devices.value|
  {
    if k.devices.Some? && CommaAt(k.devices.value) > 0 {
      var text := k.devices.value;
      var len := CommaAt(text);
      ScanChooses(cfg, lists, k, text[..len], 0);
      var k' := ScanDevices(cfg, lists, k, text[..len], 0)
                .(devices := if len < |text| then Some(text[len + 1..]) else None);
      if k'.devices.Some? && k'.device.None? {
        NextChooses(cfg, lists, k');
      }
    }
  }

  /** The devices started since the last request, oldest first. */
  function Started(packets: seq<Packet>, reports: seq<Report>): seq<nat>
    requires |packets| == |reports|
  {
    if packets == [] then []
    else
      var n := |packets| - 1;
      var now := if reports[n].started.Some? then [reports[n].started.value] else [];
      if packets[n].Request? then now else Started(packets[..n], reports[..n]) + now
  }

  ghost predicate Distinct(ds: seq<nat>) {
    forall i, j | 0 <= i < j < |ds| :: ds[i] != ds[j]
  }

  /** The challenge under way, if any, is on an allowed device and has every started one used up. */
  ghost predicate KbdintOk(cfg: Config, s: State, started: seq<nat>) {
    && Distinct(started)
    && (s.phase.Running? && s.kbdint.Some? ==>
          && Challenged(cfg, s)
          && DeviceAllowed(cfg, s.lists, s.kbdint.value.device.value)
          && forall d <- started :: d in s.kbdint.value.done)
  }

  function Later(started: seq<nat>, d: Option<nat>): seq<nat> {
    started + if d.Some? then [d.value] else []
  }

  lemma ChallengeKeeps(cfg: Config, s: State, k: Kbdint, env: Env, started: seq<nat>)
    requires Distinct(started) && forall d <- started :: d in k.done
    ensures var st := ChallengeStart(cfg, s, k, env);
      && KbdintOk(cfg, st.state, Later(started, st.started))
      && (st.started.Some? ==> DeviceAllowed(cfg, st.state.lists, st.started.value))
  {
    NextChooses(cfg, s.lists, k.(device := None));
  }

  /** Unless a success changes the lists, userauth_finish leaves the challenge as it is. */
  lemma FinishKeepsKbdint(cfg: Config, s: State, authenticated: bool, ev: Event, env: Env, started: Option<nat>, ds: seq<nat>)
    requires KbdintOk(cfg, s, ds) && (authenticated ==> s.kbdint.None?)
    ensures var f := Finish(cfg, s, authenticated, ev, env, started);
      && KbdintOk(cfg, f.state, ds) && f.report.started == started
      && (!authenticated ==> f.state.lists == s.lists)
  {
    var f := Finish(cfg, s, authenticated, ev, env, started);
    assert f.state.kbdint == s.kbdint && f.report.started == started;
    assert !authenticated ==> f.state.lists == s.lists;
  }

  /** A tried method starts at most one device, from a clean slate, and never with a success. */
  lemma TryKbdint(cfg: Config, s: State, p: Packet)
    requires p.Request? && s.kbdint.None?
    ensures var t := TryMethod(cfg, s, p);
      && KbdintOk(cfg, t.state, Later([], t.started))
      && (t.authenticated ==> t.state.kbdint.None? && t.started.None?)
      && (t.started.Some? ==> DeviceAllowed(cfg, t.state.lists, t.started.value))
  {
    if p.name == KBDINT {
      ChallengeKeeps(cfg, s, KbdintAlloc(cfg, p.proof.devs), p.env, []);
    }
  }

  lemma RequestKbdint(cfg: Config, s: State, p: Packet)
    requires p.Request? && s.phase.Running?
    ensures var h := OnRequest(cfg, s, p);
      && KbdintOk(cfg, h.state, Later([], h.report.started))
      && (h.report.started.Some? ==> DeviceAllowed(cfg, h.state.lists, h.report.started.value))
  {
    var e := Enter(cfg, s, p);
    if e.phase.Running? {
      var s1 := e.(kbdint := None, postponed := false);
      TryKbdint(cfg, s1, p);
      var t := TryMethod(cfg, s1, p);
      FinishKeepsKbdint(cfg, t.state, t.authenticated, RequestEvent(p), p.env, t.started, Later([], t.started));
    }
  }

  lemma ResponseKbdint(cfg: Config, s: State, p: Packet, ds: seq<nat>)
    requires p.Response? && s.phase.Running? && KbdintOk(cfg, s, ds)
    ensures var h := OnResponse(cfg, s, p);
      && KbdintOk(cfg, h.state, Later(ds, h.report.started))
      && (h.report.started.Some? ==> DeviceAllowed(cfg, h.state.lists, h.report.started.value))
  {
    assert Later(ds, None) == ds;
    if Challenged(cfg, s) && p.wellFormed {
      var k := s.kbdint.value;
      var ev := Event(KBDINT, Some(cfg.devices[k.device.value]), None);
      var s1 := s.(postponed := p.answer.NeedMore? && p.queryOk);
      if s1.postponed {
        FinishKeepsKbdint(cfg, s1, false, ev, p.env, None, ds);
      } else if p.answer.Correct? && s1.valid {
        FinishKeepsKbdint(cfg, s1.(kbdint := None), true, ev, p.env, None, ds);
      } else {
        var st := ChallengeStart(cfg, s1, k, p.env);
        ChallengeKeeps(cfg, s1, k, p.env, ds);
        FinishKeepsKbdint(cfg, st.state, false, ev, p.env, st.started, Later(ds, st.started));
      }
    }
  }

  lemma {:induction false} RunKbdint(cfg: Config, packets: seq<Packet>)
    ensures var r := Exec(cfg, packets); KbdintOk(cfg, r.state, Started(packets, r.reports))
  {
    if packets != [] {
      var n := |packets| - 1;
      var init := packets[..n];
      RunKbdint(cfg, init);
      var before := Exec(cfg, init);
      var r := Exec(cfg, packets);
      assert r.reports[..n] == before.reports;
      if before.state.phase.Running? {
        if packets[n].Request? {
          RequestKbdint(cfg, before.state, packets[n]);
        } else {
          ResponseKbdint(cfg, before.state, packets[n], Started(init, before.reports));
        }
      }
    }
  }

  /**
   Within one keyboard-interactive request no device is started twice, whatever device string
   the client sends and however many answers fail.
   */
  lemma NoDeviceStartedTwice(cfg: Config, packets: seq<Packet>)
    ensures Distinct(Started(packets, Exec(cfg, packets).reports))
  {
    RunKbdint(cfg, packets);
  }

  /** Every device started was allowed by the method lists as they stood. */
  lemma StartedDeviceAllowed(cfg: Config, packets: seq<Packet>, p: Packet)
    ensures var h := Handle(cfg, Exec(cfg, packets).state, p);
      h.report.started.Some? ==> DeviceAllowed(cfg, h.state.lists, h.report.started.value)
  {
    RunKbdint(cfg, packets);
    var r := Exec(cfg, packets);
    if r.state.phase.Running? {
      if p.Request? {
        RequestKbdint(cfg, r.state, p);
      } else {
        ResponseKbdint(cfg, r.state, p, Started(packets, r.reports));
      }
    }
  }
}
