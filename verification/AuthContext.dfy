/** The authentication context as the server keeps it: fields updated in place by the handlers. */
module AuthContext {
  import opened Wrappers
  import opened AuthLists
  import opened AuthMachine

  class Authctxt {
    const cfg: Config
    var phase: Phase
    var attempt: nat
    var failures: nat
    var postponed: bool
    var user: string
    var service: string
    var valid: bool
    var noneEnabled: bool
    var lists: seq<string>
    var kbdint: Option<Kbdint>
    var keys: seq<Key>

    ghost function Now(): State
      reads this
    {
      State(phase, attempt, failures, postponed, user, service, valid, noneEnabled, lists, kbdint, keys)
    }

    constructor (c: Config)
      ensures cfg == c && Now() == Initial()
    {
      cfg := c;
      phase, attempt, failures, postponed := Running, 0, 0, false;
      user, service, valid, noneEnabled := "", "", false, true;
      lists, kbdint, keys := [], None, [];
    }

    /** auth2_methods_valid with need_enable set: split on commas, look each piece up in the table. */
    method CheckMethods(s: string) returns (ok: bool)
      ensures ok == MethodsValid(cfg, noneEnabled, s)
    {
      if s == "" {
        return false;
      }
      var rest := Some(s);
      while rest.Some?
        invariant MethodsValid(cfg, noneEnabled, s)
          <==> (rest.Some? ==> AllEnabled(cfg, noneEnabled, Elements(rest.value)))
        decreases if rest.Some? then 1 + |rest.value| else 0
      {
        var text := rest.value;
        var k := CommaAt(text);
        var piece := MethodPart(text[..k]);
        assert Elements(text)[0] == text[..k] && text[..k] in Elements(text);
        var found := CheckMethod(piece);
        if !found {
          return false;
        }
        assert k < |text| ==> Elements(text) == [text[..k]] + Elements(text[k + 1..]);
        rest := if k < |text| then Some(text[k + 1..]) else None;
      }
      return true;
    }

    method CheckMethod(name: string) returns (ok: bool)
      ensures ok == Enabled(cfg, noneEnabled, name)
    {
      for i := 0 to |METHODS|
        invariant name !in METHODS[..i]
      {
        if name == METHODS[i] {
          return if name == "none" then noneEnabled else name in cfg.enabled;
        }
      }
      return false;
    }

    /** auth2_setup_methods_lists. */
    method SetupMethodsLists() returns (ok: bool)
      modifies this`lists
      ensures lists == Pruned(cfg, noneEnabled, cfg.lists)
      ensures ok == (cfg.lists == [] || lists != [])
    {
      lists := [];
      for i := 0 to |cfg.lists|
        invariant lists == Pruned(cfg, noneEnabled, cfg.lists[..i])
      {
        var valid := CheckMethods(cfg.lists[i]);
        assert cfg.lists[..i + 1][..i] == cfg.lists[..i];
        if valid {
          lists := lists + [cfg.lists[i]];
        }
      }
      assert cfg.lists[..|cfg.lists|] == cfg.lists;
      ok := cfg.lists == [] || lists != [];
    }

    /** auth2_update_methods_lists; found is false where the source calls fatal. */
    method UpdateMethodsLists(name: string, sub: Option<string>) returns (found: bool, complete: bool)
      modifies this`lists
      ensures Update(lists, found, complete) == UpdateFrom(old(lists), 0, Taker(name, sub), false)
    {
      found := false;
      var i := 0;
      ghost var take := Taker(name, sub);
      while i < |lists|
        invariant i <= |lists|
        invariant UpdateFrom(lists, i, take, found) == UpdateFrom(old(lists), 0, take, false)
        decreases |lists| - i
      {
        var rest := RemoveMethod(lists[i], name, sub);
        assert take(lists[i]) == rest;
        if rest.Some? {
          lists := lists[i := rest.value];
          found := true;
          if lists[i] == "" {
            return true, true;
          }
        }
        i := i + 1;
      }
      complete := false;
    }

    method CheckAllowed(name: string, sub: Option<string>) returns (ok: bool)
      ensures ok == MethodAllowed(cfg, lists, name, sub)
    {
      if cfg.lists == [] {
        return true;
      }
      for i := 0 to |lists|
        invariant forall j | 0 <= j < i :: ListStartsWith(lists[j], name, sub) == MatchNone
      {
        if ListStartsWith(lists[i], name, sub) != MatchNone {
          return true;
        }
      }
      return false;
    }

    /** The failure branch of userauth_finish. */
    method RefuseUser(partial: bool, name: string)
      modifies this`failures, this`phase
      ensures Now() == Refuse(cfg, old(Now()), partial, name)
    {
      if !partial && (attempt > 1 || name != "none") {
        failures := failures + 1;
      }
      if failures >= cfg.maxAuthTries {
        phase := Closed(TooManyFailures);
      }
    }

    /** userauth_finish. */
    method UserauthFinish(authenticated: bool, ev: Event, env: Env, started: Option<nat>) returns (report: Report)
      modifies this`phase, this`failures, this`lists
      ensures Step(Now(), report) == Finish(cfg, old(Now()), authenticated, ev, env, started)
    {
      report := QUIET.(started := started);
      if !valid && authenticated {
        phase := Closed(InvalidUser);
        return;
      }
      if authenticated && postponed {
        phase := Closed(AuthenticatedAndPostponed);
        return;
      }
      var ok, partial := authenticated && !env.rootRefused, false;
      if ok && cfg.lists != [] {
        var found, complete := UpdateMethodsLists(ev.name, ev.sub);
        if !complete {
          if !found {
            NotFoundUnchanged(old(lists), 0, Taker(ev.name, ev.sub));
            phase := Closed(NotInLists);
            return;
          }
          ok, partial := false, true;
        }
      }
      if postponed {
        return;
      }
      if ok {
        phase := if env.pamDenied then Closed(PamDenied) else Success;
        report := Report(Some(ev), started, Accepted);
      } else {
        RefuseUser(partial, ev.name);
        report := if partial then Report(Some(ev), started, Partial) else Report(None, started, Failed);
      }
    }

    /** kbdint_next_device. */
    method KbdintNextDevice()
      requires kbdint.Some?
      modifies this`kbdint
      ensures kbdint == Some(NextDevice(cfg, lists, old(kbdint).value.(device := None)))
    {
      var k := kbdint.value.(device := None);
      ghost var k0 := k;
      var more := true;
      while more
        invariant more ==> k.device.None?
        invariant NextDevice(cfg, lists, k0) == if more then NextDevice(cfg, lists, k) else k
        decreases more, if k.devices.Some? then 1 + |k.devices.value| else 0
      {
        var len := if k.devices.Some? then CommaAt(k.devices.value) else 0;
        if len == 0 {
          break;
        }
        var text := k.devices.value;
        ghost var scanned := ScanDevices(cfg, lists, k, text[..len], 0);
        for i := 0 to |cfg.devices|
          invariant ScanDevices(cfg, lists, k, text[..len], i) == scanned && k.devices == Some(text)
        {
          var allowed := CheckAllowed(KBDINT, Some(cfg.devices[i]));
          if i !in k.done && allowed && text[..len] <= cfg.devices[i] {
            k := k.(device := Some(i), done := k.done + {i});
          }
        }
        k := k.(devices := if len < |text| then Some(text[len + 1..]) else None);
        more := k.devices.Some? && k.device.None?;
      }
      kbdint := Some(k);
    }

    /** auth2_challenge_start. */
    method StartChallenge(env: Env) returns (started: Option<nat>)
      requires kbdint.Some?
      modifies this`kbdint, this`postponed
      ensures Start(Now(), started) == ChallengeStart(cfg, old(Now()), old(kbdint).value, env)
    {
      KbdintNextDevice();
      started := kbdint.value.device;
      if started.None? || !env.deviceReady {
        kbdint := None;
      } else {
        postponed := true;
      }
    }

    /** auth2_userkey_already_used. */
    method UserkeyAlreadyUsed(key: Key) returns (used: bool)
      ensures used == AlreadyUsed(cfg, keys, key)
    {
      for i := 0 to |keys|
        invariant forall j | 0 <= j < i :: !cfg.sameKey(key, keys[j])
      {
        if cfg.sameKey(key, keys[i]) {
          return true;
        }
      }
      return false;
    }

    /** userauth_pubkey, with auth2_record_userkey. */
    method UserauthPubkey(p: Proof) returns (authenticated: bool)
      requires !postponed
      modifies this`keys, this`postponed
      ensures Tried(Now(), authenticated, None) == Pubkey(cfg, old(Now()), p)
    {
      if !valid || p.key.None? {
        return false;
      }
      var used := UserkeyAlreadyUsed(p.key.value);
      if used || !p.typeOk {
        return false;
      }
      if p.signed {
        if p.keyAllowed && p.verified {
          keys := keys + [p.key.value];
          return true;
        }
      } else if p.keyAllowed {
        postponed := true;
      }
      return false;
    }

    method RunMethod(name: string, p: Proof, env: Env) returns (authenticated: bool, started: Option<nat>)
      requires !postponed
      modifies this`keys, this`postponed, this`noneEnabled, this`kbdint
      ensures Tried(Now(), authenticated, started) == Userauth(cfg, old(Now()), name, p, env)
    {
      authenticated, started := false, None;
      if name == "none" {
        noneEnabled := false;
        authenticated := cfg.permitEmpty && p.secretOk && valid;
      } else if name == "publickey" {
        authenticated := UserauthPubkey(p);
      } else if name == KBDINT {
        if cfg.challengeResponse {
          kbdint := Some(KbdintAlloc(cfg, p.devs));
          started := StartChallenge(env);
        }
      } else {
        authenticated := p.secretOk && valid;
      }
    }

    /** The part of input_userauth_request that fixes, or insists on, user and service. */
    method EnterUser(p: Packet)
      requires p.Request? && phase.Running?
      modifies this`attempt, this`user, this`service, this`valid, this`lists, this`phase
      ensures Now() == Enter(cfg, old(Now()), p)
    {
      hide Pruned;
      attempt := attempt + 1;
      if attempt == 1 {
        user, service := p.user, p.service;
        valid := p.known && p.service == "ssh-connection";
        var ok := SetupMethodsLists();
        if !ok {
          phase := Closed(NoMethodsLeft);
        }
      } else if p.user != user || p.service != service {
        phase := Closed(UserChanged);
      }
    }

    /** authmethod_lookup and the call of the method it finds. */
    method LookupAndRun(p: Packet) returns (authenticated: bool, started: Option<nat>)
      requires p.Request? && !postponed && kbdint.None?
      modifies this`keys, this`postponed, this`noneEnabled, this`kbdint
      ensures Tried(Now(), authenticated, started) == TryMethod(cfg, old(Now()), p)
    {
      authenticated, started := false, None;
      var enabled := CheckMethod(p.name);
      var allowed := CheckAllowed(p.name, None);
      if enabled && allowed && failures < cfg.maxAuthTries {
        authenticated, started := RunMethod(p.name, p.proof, p.env);
      }
    }

    /** input_userauth_request. */
    method InputUserauthRequest(p: Packet) returns (report: Report)
      requires p.Request? && phase.Running?
      modifies this
      ensures Step(Now(), report) == OnRequest(cfg, old(Now()), p)
    {
      report := QUIET;
      EnterUser(p);
      if phase.Running? {
        kbdint, postponed := None, false;
        var authenticated, started := LookupAndRun(p);
        report := UserauthFinish(authenticated, RequestEvent(p), p.env, started);
      }
    }

    /** input_userauth_info_response. */
    method InputInfoResponse(p: Packet) returns (report: Report)
      requires p.Response? && phase.Running? && Challenged(cfg, Now())
      modifies this
      ensures Step(Now(), report) == OnResponse(cfg, old(Now()), p)
    {
      report := QUIET;
      postponed := false;
      if !p.wellFormed {
        phase := Closed(BadReply);
        return;
      }
      var authenticated := p.answer.Correct? && valid;
      postponed := p.answer.NeedMore? && p.queryOk;
      var ev := Event(KBDINT, Some(cfg.devices[kbdint.value.device.value]), None);
      var started := None;
      if !postponed {
        if authenticated {
          kbdint := None;
        } else {
          started := StartChallenge(p.env);
        }
      }
      report := UserauthFinish(authenticated, ev, p.env, started);
    }
  }

  /** One packet, by the handler that is registered for it; without one the dispatcher answers. */
  method Dispatch(ctx: Authctxt, p: Packet) returns (report: Report)
    modifies ctx
    ensures Step(ctx.Now(), report) == Handle(ctx.cfg, old(ctx.Now()), p)
  {
    hide OnRequest;
    report := QUIET;
    if !ctx.phase.Running? {
      return;
    }
    if p.Request? {
      report := ctx.InputUserauthRequest(p);
    } else if ctx.kbdint.Some? && ctx.kbdint.value.device.Some? && ctx.kbdint.value.device.value < |ctx.cfg.devices| {
      hide OnResponse;
      report := ctx.InputInfoResponse(p);
    } else if ctx.attempt > 0 {
      ctx.phase := Closed(ProtocolError);
    }
  }

  /** A whole connection served by one context is the run that the theorems are about. */
  method Serve(ctx: Authctxt, packets: seq<Packet>) returns (reports: seq<Report>)
    requires ctx.Now() == Initial()
    modifies ctx
    ensures Run(ctx.Now(), reports) == Exec(ctx.cfg, packets)
  {
    hide Handle;
    reports := [];
    for n := 0 to |packets|
      invariant Run(ctx.Now(), reports) == Exec(ctx.cfg, packets[..n])
    {
      assert packets[..n + 1][..n] == packets[..n];
      var report := Dispatch(ctx, packets[n]);
      reports := reports + [report];
    }
    assert packets[..|packets|] == packets;
  }

  /** An update that finds nothing leaves every list alone. */
  lemma {:induction false} NotFoundUnchanged(lists: seq<string>, i: nat, take: string -> Option<string>)
    requires i <= |lists|
    ensures var u := UpdateFrom(lists, i, take, false); !u.found && !u.complete ==> u.lists == lists
    decreases |lists| - i
  {
    if i < |lists| {
      var r := take(lists[i]);
      if r.None? {
        NotFoundUnchanged(lists, i + 1, take);
      } else {
        FoundStays(lists[i := r.value], i + 1, take);
      }
    }
  }

  lemma FoundStays(lists: seq<string>, i: nat, take: string -> Option<string>)
    requires i <= |lists|
    ensures UpdateFrom(lists, i, take, true).found
    decreases |lists| - i
  {
  }
}
