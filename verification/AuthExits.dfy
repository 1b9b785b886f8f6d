/** The three exits of userauth_finish that are meant to be unreachable. */
module AuthExits {
  import opened Wrappers
  import opened AuthLists
  import opened AuthMachine
  import opened AuthRuns
  import opened AuthKbdint
  import opened AuthEvidence

  /** A success that no list is waiting for, although some list let the method be tried. */
  predicate Stranded(cfg: Config, s: State, p: Packet)
    requires p.Request?
  {
    var e := Enter(cfg, s, p);
    && e.phase.Running? && e.valid && cfg.lists != [] && !p.env.rootRefused
    && TryMethod(cfg, e.(kbdint := None, postponed := false), p).authenticated
    && forall l <- e.lists :: Elements(l)[0] != p.name
  }

  lemma FinishExits(cfg: Config, s: State, authenticated: bool, ev: Event, env: Env, started: Option<nat>)
    requires s.phase.Running?
    requires authenticated ==> PlainName(ev.name) && PlainSubmethod(ev.sub)
    ensures var f := Finish(cfg, s, authenticated, ev, env, started);
      && (f.state.phase == Closed(InvalidUser) <==> authenticated && !s.valid)
      && (f.state.phase == Closed(AuthenticatedAndPostponed) <==> authenticated && s.valid && s.postponed)
      && (f.state.phase == Closed(NotInLists) <==>
            authenticated && s.valid && !s.postponed && !env.rootRefused && cfg.lists != []
            && forall l <- s.lists :: !FitsEvent(Elements(l)[0], ev))
  {
    if authenticated {
      FoundIffHeadFits(s.lists, ev);
    }
  }

  /** A request ends the run "not in AuthenticationMethods" exactly when its success is stranded. */
  lemma RequestExits(cfg: Config, s: State, p: Packet)
    requires p.Request? && s.phase.Running?
    ensures var h := OnRequest(cfg, s, p);
      && h.state.phase != Closed(InvalidUser) && h.state.phase != Closed(AuthenticatedAndPostponed)
      && (h.state.phase == Closed(NotInLists) <==> Stranded(cfg, s, p))
  {
    var e := Enter(cfg, s, p);
    if e.phase.Running? {
      var s1 := e.(kbdint := None, postponed := false);
      TryFrame(cfg, s1, p);
      var t := TryMethod(cfg, s1, p);
      FinishExits(cfg, t.state, t.authenticated, RequestEvent(p), p.env, t.started);
    }
  }

  /** An info-response reaches none, because the device it answers was allowed by these very lists. */
  lemma ResponseExits(cfg: Config, s: State, p: Packet, ds: seq<nat>)
    requires PlainDevices(cfg)
    requires p.Response? && s.phase.Running? && KbdintOk(cfg, s, ds)
    ensures var h := OnResponse(cfg, s, p);
      && h.state.phase != Closed(InvalidUser) && h.state.phase != Closed(AuthenticatedAndPostponed)
      && h.state.phase != Closed(NotInLists)
  {
    if Challenged(cfg, s) && p.wellFormed {
      var k := s.kbdint.value;
      var ev := Event(KBDINT, Some(cfg.devices[k.device.value]), None);
      MethodNamesPlain(KBDINT);
      var s1 := s.(postponed := p.answer.NeedMore? && p.queryOk);
      if s1.postponed {
        FinishExits(cfg, s1, false, ev, p.env, None);
      } else if p.answer.Correct? && s1.valid {
        AllowedDeviceFits(cfg, s, ev);
        FinishExits(cfg, s1.(kbdint := None), true, ev, p.env, None);
      } else {
        var st := ChallengeStart(cfg, s1, k, p.env);
        ChallengeStartFrame(cfg, s1, k, p.env);
        FinishExits(cfg, st.state, false, ev, p.env, st.started);
      }
    }
  }

  lemma AllowedDeviceFits(cfg: Config, s: State, ev: Event)
    requires ev.name == KBDINT && ev.sub.Some? && PlainSubmethod(ev.sub)
    requires MethodAllowed(cfg, s.lists, KBDINT, ev.sub)
    ensures cfg.lists == [] || exists l <- s.lists :: FitsEvent(Elements(l)[0], ev)
  {
    MethodNamesPlain(KBDINT);
    if cfg.lists != [] {
      var l :| l in s.lists && ListStartsWith(l, KBDINT, ev.sub) != MatchNone;
      ListStartsWithMeaning(l, KBDINT, ev.sub);
      assert FitsEvent(Elements(l)[0], ev);
    }
  }

  /** Only keyboard-interactive elements carry a submethod. */
  predicate SubmethodsOnKbdintOnly(cfg: Config) {
    forall l <- Surviving(cfg) :: forall e <- Elements(l) :: ':' in e ==> MethodPart(e) == KBDINT
  }

  lemma {:induction false} MethodPartOf(e: string, name: string)
    requires name + ":" <= e && ':' !in name
    ensures MethodPart(e) == name && ':' in e
  {
    assert e[|name|] == (name + ":")[|name|] == ':';
    if name != "" {
      assert e[0] == name[0];
      assert (name + ":")[1..] == name[1..] + ":";
      MethodPartOf(e[1..], name[1..]);
      assert name == [name[0]] + name[1..];
    }
  }

  /** Then a method that was let in for trying is one that some list is waiting for. */
  lemma NotStranded(cfg: Config, s: State, evs: seq<Event>, p: Packet)
    requires p.Request? && s.phase.Running? && ListsOk(cfg, s, evs) && SubmethodsOnKbdintOnly(cfg)
    ensures !Stranded(cfg, s, p)
  {
    var e := Enter(cfg, s, p);
    EnterKeepsLists(cfg, s, evs, p);
    var s1 := e.(kbdint := None, postponed := false);
    if e.phase.Running? && cfg.lists != [] && TryMethod(cfg, s1, p).authenticated {
      assert p.name != KBDINT && MethodAllowed(cfg, e.lists, p.name, None) && p.name in METHODS;
      HeadNamesMethod(cfg, e, evs, p.name);
    }
  }

  lemma HeadNamesMethod(cfg: Config, e: State, evs: seq<Event>, name: string)
    requires e.phase.Running? && e.attempt > 0 && cfg.lists != [] && ListsOk(cfg, e, evs) && SubmethodsOnKbdintOnly(cfg)
    requires name in METHODS && name != KBDINT && MethodAllowed(cfg, e.lists, name, None)
    ensures exists l <- e.lists :: Elements(l)[0] == name
  {
    hide ListStartsWith, Elements, Surviving, Owed, MethodPart, Embeds, CommaAt;
    MethodNamesPlain(name);
    var l :| l in e.lists && ListStartsWith(l, name, None) != MatchNone;
    ListStartsWithMeaning(l, name, None);
    var i :| 0 <= i < |e.lists| && e.lists[i] == l;
    var orig := Surviving(cfg)[i];
    var at := OwedIsSuffix(Elements(orig), evs);
    var head := Elements(l)[0];
    assert Tracks(e.lists[i], Owed(Elements(orig), evs));
    assert head == Elements(orig)[|at|..][0] && head in Elements(orig);
    HeadPrefix(l, head);
    if name + ":" <= l {
      ColonInHead(l, name);
      MethodPartOf(head, name);
    }
  }

  lemma ColonInHead(l: string, name: string)
    requires name + ":" <= l && PlainName(name)
    ensures name + ":" <= Elements(l)[0]
  {
    var w := name + ":";
    var k := CommaAt(l);
    assert l[..|w|] == w;
    assert forall i | 0 <= i < |w| :: l[i] == w[i] && w[i] != ',';
    assert l[..k][..|w|] == w;
  }

  /**
   In every run "authenticated invalid user" and "authenticated and postponed" are unreachable,
   and "method not in AuthenticationMethods" is too as long as only keyboard-interactive elements
   carry a submethod.
   */
  lemma {:induction false} ExitsUnreachable(cfg: Config, packets: seq<Packet>)
    requires PlainDevices(cfg)
    ensures var phase := Exec(cfg, packets).state.phase;
      && phase != Closed(InvalidUser) && phase != Closed(AuthenticatedAndPostponed)
      && (SubmethodsOnKbdintOnly(cfg) ==> phase != Closed(NotInLists))
  {
    if packets != [] {
      var init := packets[..|packets| - 1];
      var p := packets[|packets| - 1];
      ExitsUnreachable(cfg, init);
      var before := Exec(cfg, init);
      if before.state.phase.Running? {
        RunKeepsLists(cfg, init);
        RunKbdint(cfg, init);
        if p.Request? {
          RequestExits(cfg, before.state, p);
          if SubmethodsOnKbdintOnly(cfg) {
            NotStranded(cfg, before.state, Events(before.reports), p);
          }
        } else {
          ResponseExits(cfg, before.state, p, Started(init, before.reports));
        }
      }
    }
  }

  lemma SubmethodElement(name: string, x: string)
    requires PlainName(name) && ',' !in x
    ensures var l := name + ":" + x;
      && Elements(l) == [l] && MethodPart(l) == name
      && ListStartsWith(l, name, None) == MatchPartial
  {
    var l := name + ":" + x;
    CommaAtUnique(l, |l|);
    assert l[..|name|] == name && l[..|name| + 1] == name + ":";
    MethodPartOf(l, name);
  }

  lemma OnlyListSurvives(cfg: Config, l: string)
    requires cfg.lists == [l] && Elements(l) == [l] && l != "" && Enabled(cfg, true, MethodPart(l))
    ensures Surviving(cfg) == [l]
  {
    assert cfg.lists[..0] == [];
    assert Pruned(cfg, true, []) == [];
    assert MethodsValid(cfg, true, l);
  }

  /** Some list starts with this method and a submethod, and none with this method alone. */
  predicate OnlyWithSubmethod(lists: seq<string>, name: string) {
    (exists l <- lists :: name + ":" <= l) && (forall l <- lists :: Elements(l)[0] != name)
  }

  lemma AllowedWithoutHead(cfg: Config, lists: seq<string>, name: string)
    requires name in METHODS && cfg.lists != [] && forall l <- lists :: Elements(l)[0] != name
    ensures MethodAllowed(cfg, lists, name, None) <==> OnlyWithSubmethod(lists, name)
  {
    hide ListStartsWith, Elements;
    MethodNamesPlain(name);
    forall l | l in lists
      ensures ListStartsWith(l, name, None) != MatchNone <==> name + ":" <= l
    {
      ListStartsWithMeaning(l, name, None);
    }
  }

  /** Which good requests are stranded, in any state. */
  lemma GoodRequestStranded(cfg: Config, s: State, p: Packet)
    requires p.Request? && Good(cfg, Enter(cfg, s, p), p)
    ensures Stranded(cfg, s, p) <==> cfg.lists != [] && OnlyWithSubmethod(Enter(cfg, s, p).lists, p.name)
  {
    hide Userauth, Elements, Convincing, MethodAllowed, Enter, AlreadyUsed;
    var e := Enter(cfg, s, p);
    if cfg.lists != [] && forall l <- e.lists :: Elements(l)[0] != p.name {
      AllowedWithoutHead(cfg, e.lists, p.name);
      ConvincingSucceeds(cfg, e.(kbdint := None, postponed := false), p);
    }
  }

  /**
   After any run, a good request ends in that exit exactly when some list starts with its method
   and a submethod and none with the method alone; any method but keyboard-interactive.
   */
  lemma StrandedRun(cfg: Config, packets: seq<Packet>, p: Packet)
    requires var s := Exec(cfg, packets).state; p.Request? && s.phase.Running? && Good(cfg, Enter(cfg, s, p), p)
    ensures var lists := Enter(cfg, Exec(cfg, packets).state, p).lists;
      Exec(cfg, packets + [p]).state.phase == Closed(NotInLists) <==> cfg.lists != [] && OnlyWithSubmethod(lists, p.name)
  {
    hide Good, Enter, OnlyWithSubmethod, OnRequest, Stranded;
    var s := Exec(cfg, packets).state;
    GoodRequestStranded(cfg, s, p);
    RequestExits(cfg, s, p);
    assert (packets + [p])[..|packets|] == packets;
  }

  /** A first request of a known user, with an enabled method that succeeds. */
  predicate GoodFirst(cfg: Config, p: Packet) {
    && p.Request? && p.known && p.service == "ssh-connection" && !p.env.rootRefused && cfg.maxAuthTries > 0
    && Enabled(cfg, true, p.name) && Convincing(cfg, p)
  }

  /** With one list of one element "name:x" configured, whatever x is, success always ends there. */
  lemma OneElementStranded(cfg: Config, p: Packet, x: string)
    requires GoodFirst(cfg, p) && cfg.lists == [p.name + ":" + x] && ',' !in x
    ensures Exec(cfg, [p]).state.phase == Closed(NotInLists)
  {
    var l := p.name + ":" + x;
    MethodNamesPlain(p.name);
    SubmethodElement(p.name, x);
    OnlyListSurvives(cfg, l);
    assert l[..|p.name| + 1] == p.name + ":" && l in [l];
    var e := Enter(cfg, Initial(), p);
    assert e.lists == [l] && Good(cfg, e, p);
    StrandedRun(cfg, [], p);
    assert [] + [p] == [p];
  }
}
