/**
 The SSH2 user-authentication state machine: one packet at a time, with password,
 signature, device, PAM and root-policy verdicts supplied by the packet's oracle fields.
 */
module AuthMachine {
  import opened Wrappers
  import opened AuthLists

  type Key = seq<int>

  /** sameKey is sshkey_equal_public; no law is assumed of it. */
  datatype Config = Config(
    lists: seq<string>,          // options.auth_methods
    enabled: set<string>,        // methods other than "none" whose option is on
    maxAuthTries: int,
    permitEmpty: bool,           // permit_empty_passwd && password_authentication
    challengeResponse: bool,
    devices: seq<string>,        // keyboard-interactive device names
    sameKey: (Key, Key) -> bool)

  datatype Env = Env(deviceReady: bool, rootRefused: bool, pamDenied: bool)

  datatype Proof = Proof(
    secretOk: bool,              // verdict on a password or host key
    key: Option<Key>,            // decoded key blob
    typeOk: bool, signed: bool, keyAllowed: bool, verified: bool,
    devs: string)                // submethods of a keyboard-interactive request

  datatype Answer = Correct | NeedMore | Wrong

  datatype Packet =
    | Request(user: string, service: string, name: string, known: bool, proof: Proof, env: Env)
    | Response(wellFormed: bool, answer: Answer, queryOk: bool, env: Env)

  datatype Reason =
    | NoMethodsLeft | UserChanged | InvalidUser | AuthenticatedAndPostponed | NotInLists
    | PamDenied | TooManyFailures | ProtocolError | BadReply

  datatype Phase = Running | Success | Closed(reason: Reason)

  /** devices is the rest of the client's device string, None once it is used up. */
  datatype Kbdint = Kbdint(devices: Option<string>, device: Option<nat>, done: set<nat>)

  datatype State = State(
    phase: Phase, attempt: nat, failures: nat, postponed: bool,
    user: string, service: string, valid: bool, noneEnabled: bool,
    lists: seq<string>, kbdint: Option<Kbdint>, keys: seq<Key>)

  datatype Event = Event(name: string, sub: Option<string>, key: Option<Key>)

  datatype Outcome = Silent | Accepted | Partial | Failed

  /** What one packet caused: a method success, a device start, and the answer sent. */
  datatype Report = Report(event: Option<Event>, started: Option<nat>, outcome: Outcome)

  datatype Step = Step(state: State, report: Report)

  const QUIET := Report(None, None, Silent)

  const KBDINT := "keyboard-interactive"

  const METHODS := ["none", "publickey", "password", KBDINT, "hostbased"]

  function Initial(): State {
    State(Running, 0, 0, false, "", "", false, true, [], None, [])
  }

  // ----- auth2.c: configuration and lookup

  predicate Enabled(cfg: Config, noneEnabled: bool, name: string) {
    name in METHODS && if name == "none" then noneEnabled else name in cfg.enabled
  }

  function MethodPart(e: string): string {
    if e == "" || e[0] == ':' then "" else [e[0]] + MethodPart(e[1..])
  }

  predicate AllEnabled(cfg: Config, noneEnabled: bool, es: seq<string>) {
    forall e <- es :: Enabled(cfg, noneEnabled, MethodPart(e))
  }

  predicate MethodsValid(cfg: Config, noneEnabled: bool, s: string) {
    s != "" && AllEnabled(cfg, noneEnabled, Elements(s))
  }

  /** auth2_setup_methods_lists: the configured lists without those naming a disabled method. */
  function Pruned(cfg: Config, noneEnabled: bool, lists: seq<string>): seq<string> {
    if lists == [] then []
    else
      var init := Pruned(cfg, noneEnabled, lists[..|lists| - 1]);
      if MethodsValid(cfg, noneEnabled, lists[|lists| - 1]) then init + [lists[|lists| - 1]] else init
  }

  /** "none" is still on when the first request prunes the lists. */
  function Surviving(cfg: Config): seq<string> {
    Pruned(cfg, true, cfg.lists)
  }

  predicate MethodAllowed(cfg: Config, lists: seq<string>, name: string, sub: Option<string>) {
    cfg.lists == [] || exists l <- lists :: ListStartsWith(l, name, sub) != MatchNone
  }

  predicate Lookup(cfg: Config, s: State, name: string) {
    Enabled(cfg, s.noneEnabled, name) && MethodAllowed(cfg, s.lists, name, None)
  }

  // ----- auth2.c: outcome of a method

  datatype Update = Update(lists: seq<string>, found: bool, complete: bool)

  /** remove_method with the method fixed. */
  function Taker(name: string, sub: Option<string>): string -> Option<string> {
    l => RemoveMethod(l, name, sub)
  }

  /** auth2_update_methods_lists from list i on; it stops at the first list it completes. */
  function UpdateFrom(lists: seq<string>, i: nat, take: string -> Option<string>, found: bool): Update
    requires i <= |lists|
    decreases |lists| - i
  {
    if i == |lists| then Update(lists, found, false)
    else
      match take(lists[i])
      case None => UpdateFrom(lists, i + 1, take, found)
      case Some(rest) =>
        var lists' := lists[i := rest];
        if rest == "" then Update(lists', true, true) else UpdateFrom(lists', i + 1, take, true)
  }

  function Close(s: State, reason: Reason): State {
    s.(phase := Closed(reason))
  }

  /** The failure branch of userauth_finish: count it unless partial or the free first "none". */
  function Refuse(cfg: Config, s: State, partial: bool, name: string): State {
    var failures := s.failures + if !partial && (s.attempt > 1 || name != "none") then 1 else 0;
    var s' := s.(failures := failures);
    if failures >= cfg.maxAuthTries then Close(s', TooManyFailures) else s'
  }

  function Accept(s: State, env: Env): State {
    if env.pamDenied then Close(s, PamDenied) else s.(phase := Success)
  }

  /** userauth_finish. */
  function Finish(cfg: Config, s: State, authenticated: bool, ev: Event, env: Env, started: Option<nat>): Step {
    if !s.valid && authenticated then Step(Close(s, InvalidUser), QUIET.(started := started))
    else if authenticated && s.postponed then Step(Close(s, AuthenticatedAndPostponed), QUIET.(started := started))
    else if authenticated && !env.rootRefused then
      if cfg.lists == [] then Step(Accept(s, env), Report(Some(ev), started, Accepted))
      else
        var u := UpdateFrom(s.lists, 0, Taker(ev.name, ev.sub), false);
        var s' := s.(lists := u.lists);
        if u.complete then Step(Accept(s', env), Report(Some(ev), started, Accepted))
        else if !u.found then Step(Close(s, NotInLists), Report(None, started, Silent))
        else Step(Refuse(cfg, s', true, ev.name), Report(Some(ev), started, Partial))
    else if s.postponed then Step(s, QUIET.(started := started))
    else Step(Refuse(cfg, s, false, ev.name), Report(None, started, Failed))
  }

  // ----- auth2-chall.c

  function JoinDevices(devices: seq<string>): string {
    if devices == [] then "" else if |devices| == 1 then devices[0]
    else JoinDevices(devices[..|devices| - 1]) + "," + devices[|devices| - 1]
  }

  function KbdintAlloc(cfg: Config, devs: string): Kbdint {
    Kbdint(Some(if devs == "" then JoinDevices(cfg.devices) else devs), None, {})
  }

  /** Device i is not used up, allowed by the lists, and its name starts with the wanted text. */
  predicate Candidate(cfg: Config, lists: seq<string>, done: set<nat>, want: string, i: nat)
    requires i < |cfg.devices|
  {
    i !in done && MethodAllowed(cfg, lists, KBDINT, Some(cfg.devices[i])) && want <= cfg.devices[i]
  }

  /** The pass over the device table: every candidate is used up, the last one is chosen. */
  function ScanDevices(cfg: Config, lists: seq<string>, k: Kbdint, want: string, i: nat): Kbdint
    requires i <= |cfg.devices|
    decreases |cfg.devices| - i
  {
    if i == |cfg.devices| then k
    else ScanDevices(cfg, lists,
                     if Candidate(cfg, lists, k.done, want, i) then k.(device := Some(i), done := k.done + {i}) else k,
                     want, i + 1)
  }

  /** kbdint_next_device, after the current device is reset. */
  function NextDevice(cfg: Config, lists: seq<string>, k: Kbdint): Kbdint
    decreases if k.devices.None? then 0 else 1 + |k.devices.value|
  {
    if k.devices.None? then k
    else
      var text := k.devices.value;
      var len := CommaAt(text);
      if len == 0 then k
      else
        var k' := ScanDevices(cfg, lists, k, text[..len], 0)
                  .(devices := if len < |text| then Some(text[len + 1..]) else None);
        if k'.devices.Some? && k'.device.None? then NextDevice(cfg, lists, k') else k'
  }

  datatype Start = Start(state: State, started: Option<nat>)

  /** auth2_challenge_start. */
  function ChallengeStart(cfg: Config, s: State, k: Kbdint, env: Env): Start {
    var k' := NextDevice(cfg, s.lists, k.(device := None));
    if k'.device.None? then Start(s.(kbdint := None), None)
    else if !env.deviceReady then Start(s.(kbdint := None), k'.device)
    else Start(s.(kbdint := Some(k'), postponed := true), k'.device)
  }

  // ----- the methods

  predicate AlreadyUsed(cfg: Config, keys: seq<Key>, key: Key) {
    exists k <- keys :: cfg.sameKey(key, k)
  }

  datatype Tried = Tried(state: State, authenticated: bool, started: Option<nat>)

  /** userauth_pubkey. */
  function Pubkey(cfg: Config, s: State, p: Proof): Tried {
    if !s.valid || p.key.None? || AlreadyUsed(cfg, s.keys, p.key.value) || !p.typeOk then Tried(s, false, None)
    else if p.signed then
      if p.keyAllowed && p.verified then Tried(s.(keys := s.keys + [p.key.value]), true, None)
      else Tried(s, false, None)
    else Tried(s.(postponed := p.keyAllowed), false, None)
  }

  /** The userauth function of the method found by Lookup. */
  function Userauth(cfg: Config, s: State, name: string, p: Proof, env: Env): Tried {
    if name == "none" then Tried(s.(noneEnabled := false), cfg.permitEmpty && p.secretOk && s.valid, None)
    else if name == "publickey" then Pubkey(cfg, s, p)
    else if name == KBDINT then
      if cfg.challengeResponse then
        var st := ChallengeStart(cfg, s, KbdintAlloc(cfg, p.devs), env);
        Tried(st.state, false, st.started)
      else Tried(s, false, None)
    else Tried(s, p.secretOk && s.valid, None)
  }

  // ----- the packet handlers

  /** The first request fixes user, service and method lists; later ones may not change them. */
  function Enter(cfg: Config, s: State, p: Packet): State
    requires p.Request?
  {
    var s' := s.(attempt := s.attempt + 1);
    if s.attempt == 0 then
      var s'' := s'.(user := p.user, service := p.service,
                     valid := p.known && p.service == "ssh-connection",
                     lists := Pruned(cfg, s.noneEnabled, cfg.lists));
      if cfg.lists != [] && s''.lists == [] then Close(s'', NoMethodsLeft) else s''
    else if p.user != s.user || p.service != s.service then Close(s', UserChanged)
    else s'
  }

  /** Look the method up and, with tries left, run it. */
  function TryMethod(cfg: Config, s: State, p: Packet): Tried
    requires p.Request?
  {
    if Lookup(cfg, s, p.name) && s.failures < cfg.maxAuthTries
    then Userauth(cfg, s, p.name, p.proof, p.env) else Tried(s, false, None)
  }

  function RequestEvent(p: Packet): Event
    requires p.Request?
  {
    Event(p.name, None, if p.name == "publickey" then p.proof.key else None)
  }

  /** input_userauth_request. */
  function OnRequest(cfg: Config, s: State, p: Packet): Step
    requires p.Request?
  {
    var e := Enter(cfg, s, p);
    if !e.phase.Running? then Step(e, QUIET)
    else
      var t := TryMethod(cfg, e.(kbdint := None, postponed := false), p);
      Finish(cfg, t.state, t.authenticated, RequestEvent(p), p.env, t.started)
  }

  /** A challenge is under way, so that the info-response handler is registered. */
  predicate Challenged(cfg: Config, s: State) {
    s.kbdint.Some? && s.kbdint.value.device.Some? && s.kbdint.value.device.value < |cfg.devices|
  }

  /** input_userauth_info_response; without a challenge under way there is no handler. */
  function OnResponse(cfg: Config, s: State, p: Packet): Step
    requires p.Response?
  {
    if !Challenged(cfg, s) then
      Step(if s.attempt == 0 then s else Close(s, ProtocolError), QUIET)
    else if !p.wellFormed then Step(Close(s.(postponed := false), BadReply), QUIET)
    else
      var k := s.kbdint.value;
      var ev := Event(KBDINT, Some(cfg.devices[k.device.value]), None);
      var s1 := s.(postponed := p.answer.NeedMore? && p.queryOk);
      if s1.postponed then Finish(cfg, s1, false, ev, p.env, None)
      else if p.answer.Correct? && s1.valid then Finish(cfg, s1.(kbdint := None), true, ev, p.env, None)
      else
        var st := ChallengeStart(cfg, s1, k, p.env);
        Finish(cfg, st.state, false, ev, p.env, st.started)
  }

  function Handle(cfg: Config, s: State, p: Packet): Step {
    if !s.phase.Running? then Step(s, QUIET)
    else if p.Request? then OnRequest(cfg, s, p)
    else OnResponse(cfg, s, p)
  }

  datatype Run = Run(state: State, reports: seq<Report>)

  /** Everything that happens on one connection. */
  function Exec(cfg: Config, packets: seq<Packet>): (r: Run)
    ensures |r.reports| == |packets|
  {
    if packets == [] then Run(Initial(), [])
    else
      var before := Exec(cfg, packets[..|packets| - 1]);
      var step := Handle(cfg, before.state, packets[|packets| - 1]);
      Run(step.state, before.reports + [step.report])
  }
}
