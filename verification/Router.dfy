/**
  All pipelines at once (cmd/udp-proxy-2020/main.go): each captures, filters, learns and routes on its
  own, they share one registry, and a ticker cleans it up. Every access to the registry is one step.
 */
module Router {
  import opened Wrappers
  import opened Net
  import opened Sequences
  import opened Rewrite
  import opened Routing
  import Registry
  import Wire

  datatype Interface = Interface(name: string, broadcast: bool, broadcastAddress: Bytes, hardwareAddr: Bytes, link: int)

  /** Fixed clients, and the processors of the route from one interface to another, both by position. */
  datatype Config = Config(interfaces: seq<Interface>, fixed: Registry.Clients, ttl: nat, bigEndian: bool,
                           processors: (nat, nat) -> seq<Processor>)
  {
    /** The route from interface i to interface j. */
    function RouteOf(i: nat, j: nat): Route
      requires j < |interfaces|
    {
      var e := interfaces[j];
      Route(e.name, e.broadcast, e.broadcastAddress, e.hardwareAddr, e.link, processors(i, j), bigEndian)
    }

    /** Distinct names, and fixed entries only, each under its own key. */
    predicate IsSound() {
      && (forall i, j | 0 <= i < j < |interfaces| :: interfaces[i].name != interfaces[j].name)
      && Registry.KeysMatch(fixed) && Registry.AllImmortal(fixed)
    }
  }

  datatype Capture = Capture(iface: nat, pkt: Packet)

  /**
    A copy handed to the transmitter of an interface; snapshot counts the registry events before its targets
    were read.
   */
  datatype Transmission = Transmission(egress: nat, frame: Packet, cause: nat, target: Target, snapshot: nat, time: nat)

  /** A pipeline between two steps; c is the packet it works on, j the next route sink. */
  datatype Phase = Idle | Filtering(c: nat) | Learning(c: nat) | Routing(c: nat, j: nat)
                 | Sending(c: nat, j: nat, targets: seq<Target>, snapshot: nat, time: nat)

  /** What a pipeline read from the registry for its packet on one interface. */
  datatype Plan = Plan(cause: nat, egress: nat, infos: seq<Registry.ClientInfo>, keys: seq<string>, snapshot: nat)

  datatype State = State(now: nat, clients: Registry.Clients, history: seq<Registry.Event>, captures: seq<Capture>,
                         sent: seq<Transmission>, phases: seq<Phase>, plans: seq<Plan>, finished: set<nat>)

  datatype Action = Arrive(pkt: Packet) | Filter | Learn | SkipOwn
                  | Snapshot(infos: seq<Registry.ClientInfo>, keys: seq<string>)
                  | Send | NextSink | Finish

  datatype Step = Wait(d: nat) | CleanUp | OfPipeline(i: nat, action: Action)

  function Initial(c: Config): State {
    State(1, c.fixed, [], [], [], seq(|c.interfaces|, _ => Idle), [], {})
  }

  /** FilterProcessor: IPv4 and UDP, decoded without an error. */
  predicate FilterKeeps(pkt: Packet) {
    pkt.layers.Some? && pkt.layers.value.ipv4.Some? && pkt.layers.value.udp.Some?
  }

  predicate Enabled(cfg: Config, s: State, step: Step) {
    match step
    case Wait(_) => true
    case CleanUp => true
    case OfPipeline(i, action) =>
      i < |cfg.interfaces| && i < |s.phases| &&
      match action
      case Arrive(pkt) =>
        s.phases[i].Idle? && Captured(pkt, cfg.interfaces[i].link) && pkt.arrivalInterface == cfg.interfaces[i].name
      case Filter => s.phases[i].Filtering? && s.phases[i].c < |s.captures|
      case Learn => s.phases[i].Learning? && s.phases[i].c < |s.captures|
      case SkipOwn => s.phases[i].Routing? && s.phases[i].j < |cfg.interfaces|
                      && cfg.interfaces[s.phases[i].j].name == cfg.interfaces[i].name
      case Snapshot(infos, keys) =>
        s.phases[i].Routing? && s.phases[i].j < |cfg.interfaces|
        && cfg.interfaces[s.phases[i].j].name != cfg.interfaces[i].name
        && Registry.IsListing(infos, keys, s.clients, cfg.interfaces[s.phases[i].j].name)
      case Send => s.phases[i].Sending? && s.phases[i].targets != [] && s.phases[i].c < |s.captures|
        && s.phases[i].j < |cfg.interfaces|
      case NextSink => s.phases[i].Sending? && s.phases[i].targets == []
      case Finish => s.phases[i].Routing? && s.phases[i].j == |cfg.interfaces|
  }

  /** The transmission of the copies that a route offers for one target. */
  function Handed(copies: seq<Packet>, p: Phase): seq<Transmission>
    requires p.Sending? && p.targets != []
  {
    if copies == [] then [] else [Transmission(p.j, copies[0], p.c, p.targets[0], p.snapshot, p.time)]
  }

  /** The sender that a pipeline learns, on the pipeline's own interface. */
  function Learned(m: Registry.Clients, name: string, pkt: Packet, now: nat): (Registry.Clients, seq<Registry.Event>) {
    match Registry.Sender(Some(pkt))
    case None => (m, [])
    case Some((ip, mac)) =>
      var iname := if name == "" then pkt.arrivalInterface else name;
      (Registry.Learn(m, iname, ip, mac, now), [Registry.Seen(iname, ip, mac, now)])
  }

  function Apply(cfg: Config, s: State, step: Step): State
    requires Enabled(cfg, s, step)
  {
    match step
    case Wait(d) => s.(now := s.now + d)
    case CleanUp => s.(clients := Registry.Expire(s.clients, s.now, cfg.ttl),
                      history := s.history + [Registry.Cleaned(s.now)])
    case OfPipeline(i, action) =>
      var p := s.phases[i];
      match action
      case Arrive(pkt) => s.(captures := s.captures + [Capture(i, pkt)],
                             phases := s.phases[i := Filtering(|s.captures|)])
      case Filter => s.(phases := s.phases[i := if FilterKeeps(s.captures[p.c].pkt) then Learning(p.c) else Idle])
      case Learn =>
        var (clients, events) := Learned(s.clients, cfg.interfaces[i].name, s.captures[p.c].pkt, s.now);
        s.(clients := clients, history := s.history + events, phases := s.phases[i := Routing(p.c, 0)])
      case SkipOwn => s.(phases := s.phases[i := Routing(p.c, p.j + 1)])
      case Snapshot(infos, keys) =>
        var targets := cfg.RouteOf(i, p.j).TargetsFor(infos);
        s.(phases := s.phases[i := Sending(p.c, p.j, targets, |s.history|, s.now)],
           plans := s.plans + [Plan(p.c, p.j, infos, keys, |s.history|)])
      case Send =>
        var copies := cfg.RouteOf(i, p.j).Offer(s.captures[p.c].pkt, p.targets[0]);
        s.(sent := s.sent + Handed(copies, p),
           phases := s.phases[i := Sending(p.c, p.j, p.targets[1..], p.snapshot, p.time)])
      case NextSink => s.(phases := s.phases[i := Routing(p.c, p.j + 1)])
      case Finish => s.(phases := s.phases[i := Idle], finished := s.finished + {p.c})
  }

  function Run(cfg: Config, steps: seq<Step>): Option<State> {
    if steps == [] then Some(Initial(cfg))
    else
      match Run(cfg, steps[..|steps| - 1])
      case None => None
      case Some(s) => if Enabled(cfg, s, steps[|steps| - 1]) then Some(Apply(cfg, s, steps[|steps| - 1])) else None
  }

  // ---------- the invariant ----------

  /** The registry as it was after the first n of its events. */
  function RegistryAt(cfg: Config, s: State, n: nat): Registry.Clients
    requires n <= |s.history|
  {
    Registry.Replay(cfg.fixed, s.history[..n], cfg.ttl)
  }

  predicate RegistryIsRight(cfg: Config, s: State) {
    && s.clients == Registry.Replay(cfg.fixed, s.history, cfg.ttl) && Registry.KeysMatch(s.clients)
    && Registry.ClockIsRunning(s.history) && Registry.ClockIsMonotone(s.history) && s.now > 0
    && (forall n | 0 <= n < |s.history| :: s.history[n].time <= s.now)
  }

  predicate CapturesAreRight(cfg: Config, s: State) {
    forall c | 0 <= c < |s.captures| ::
      && s.captures[c].iface < |cfg.interfaces|
      && Captured(s.captures[c].pkt, cfg.interfaces[s.captures[c].iface].link)
      && s.captures[c].pkt.arrivalInterface == cfg.interfaces[s.captures[c].iface].name
  }

  predicate SameAddress(a: Target, b: Target) { Registry.IpString(a.ip) == Registry.IpString(b.ip) }

  ghost predicate PhaseIsRight(cfg: Config, s: State, i: nat)
    requires i < |s.phases|
  {
    var p := s.phases[i];
    && (!p.Idle? ==> p.c < |s.captures| && s.captures[p.c].iface == i)
    && (p.Routing? ==> p.j <= |cfg.interfaces|)
    && (p.Sending? ==>
          && p.j < |cfg.interfaces| && p.j != i && p.snapshot <= |s.history| && p.time <= s.now
          && (forall n | 0 <= n < p.snapshot :: s.history[n].time <= p.time)
          && (forall k | 0 <= k < |p.targets| ::
              cfg.RouteOf(i, p.j).IsTarget(RegistryAt(cfg, s, p.snapshot), p.targets[k]))
          && (forall k, l | 0 <= k < l < |p.targets| :: !SameAddress(p.targets[k], p.targets[l])))
  }

  /** What a pipeline has not sent yet for the packet it works on. */
  predicate NotYetSent(p: Phase, x: Transmission) {
    !p.Idle? && x.cause == p.c ==>
      match p
      case Routing(_, j) => x.egress < j
      case Sending(_, j, targets, _, _) =>
        x.egress < j || (x.egress == j && forall k | 0 <= k < |targets| :: !SameAddress(x.target, targets[k]))
      case _ => false
  }

  ghost predicate SentIsRight(cfg: Config, s: State, x: Transmission) {
    && x.cause < |s.captures| && x.egress < |cfg.interfaces| && s.captures[x.cause].iface != x.egress
    && x.snapshot <= |s.history| && x.time <= s.now
    && (forall n | 0 <= n < x.snapshot :: s.history[n].time <= x.time)
    && (var route := cfg.RouteOf(s.captures[x.cause].iface, x.egress);
        && route.IsTarget(RegistryAt(cfg, s, x.snapshot), x.target)
        && route.Offer(s.captures[x.cause].pkt, x.target) == [x.frame])
  }

  predicate NothingIsSentTwice(s: State) {
    && (forall a, b | 0 <= a < b < |s.sent| && s.sent[a].cause == s.sent[b].cause
        && s.sent[a].egress == s.sent[b].egress ::
          !SameAddress(s.sent[a].target, s.sent[b].target))
    && (forall a, i | 0 <= a < |s.sent| && 0 <= i < |s.phases| :: NotYetSent(s.phases[i], s.sent[a]))
  }

  ghost predicate Invariant(cfg: Config, s: State) {
    && |s.phases| == |cfg.interfaces|
    && RegistryIsRight(cfg, s)
    && CapturesAreRight(cfg, s)
    && (forall i | 0 <= i < |s.phases| :: PhaseIsRight(cfg, s, i))
    && (forall a | 0 <= a < |s.sent| :: SentIsRight(cfg, s, s.sent[a]))
    && NothingIsSentTwice(s)
  }

  // ---------- every step keeps it ----------

  predicate Extends(s: State, s': State) {
    s.history <= s'.history && s.captures <= s'.captures && s.now <= s'.now && |s.phases| == |s'.phases|
  }

  lemma StepExtends(cfg: Config, s: State, step: Step)
    requires Enabled(cfg, s, step)
    ensures Extends(s, Apply(cfg, s, step))
    ensures step.OfPipeline? ==> forall i | 0 <= i < |s.phases| && i != step.i ::
            Apply(cfg, s, step).phases[i] == s.phases[i]
    ensures !step.OfPipeline? ==> Apply(cfg, s, step).phases == s.phases
    ensures !(step.OfPipeline? && step.action.Send?) ==> Apply(cfg, s, step).sent == s.sent
  {
    hide Route.Offer, Captured, Registry.IsListing, Route.TargetsFor, Registry.Learn, Registry.Expire, FilterKeeps;
  }

  lemma RegistryPastIsKept(cfg: Config, s: State, s': State, n: nat)
    requires Extends(s, s') && n <= |s.history|
    ensures RegistryAt(cfg, s', n) == RegistryAt(cfg, s, n)
  {
    assert s'.history[..n] == s.history[..n];
  }

  lemma PhaseStaysRight(cfg: Config, s: State, s': State, i: nat)
    requires Extends(s, s') && i < |s.phases| && s'.phases[i] == s.phases[i] && PhaseIsRight(cfg, s, i)
    ensures PhaseIsRight(cfg, s', i)
  {
    hide Route.IsTarget, SameAddress, RegistryAt;
    var p := s.phases[i];
    if p.Sending? {
      RegistryPastIsKept(cfg, s, s', p.snapshot);
      assert forall n | 0 <= n < p.snapshot :: s'.history[n] == s.history[n];
    }
  }

  lemma SentStaysRight(cfg: Config, s: State, s': State, x: Transmission)
    requires Extends(s, s') && SentIsRight(cfg, s, x)
    ensures SentIsRight(cfg, s', x)
  {
    hide Route.IsTarget, RegistryAt, Egress;
    RegistryPastIsKept(cfg, s, s', x.snapshot);
    assert forall n | 0 <= n < x.snapshot :: s'.history[n] == s.history[n];
    assert s'.captures[x.cause] == s.captures[x.cause];
  }

  lemma EventKeepsRegistryRight(cfg: Config, s: State, s': State, event: Registry.Event)
    requires RegistryIsRight(cfg, s) && event.time == s.now && s'.now == s.now
    requires s'.history == s.history + [event] && s'.clients == Registry.After(s.clients, event, cfg.ttl)
    ensures RegistryIsRight(cfg, s')
  {
    hide Registry.After, Registry.KeysMatch;
    Registry.AfterKeepsKeys(s.clients, event, cfg.ttl);
    assert s'.history[..|s.history|] == s.history;
    assert s'.history[|s.history|] == event && forall n | 0 <= n < |s.history| :: s'.history[n] == s.history[n];
  }

  lemma StepKeepsRegistryRight(cfg: Config, s: State, step: Step)
    requires Enabled(cfg, s, step) && RegistryIsRight(cfg, s)
    ensures RegistryIsRight(cfg, Apply(cfg, s, step))
  {
    hide Route.Offer, Captured, Registry.IsListing, Route.TargetsFor, FilterKeeps, Registry.KeysMatch, Registry.Learn,
         Registry.Expire;
    var s' := Apply(cfg, s, step);
    if step == CleanUp {
      EventKeepsRegistryRight(cfg, s, s', Registry.Cleaned(s.now));
    } else if step.OfPipeline? && step.action.Learn? {
      var name, pkt := cfg.interfaces[step.i].name, s.captures[s.phases[step.i].c].pkt;
      match Registry.Sender(Some(pkt)) {
        case None => assert s'.history == s.history;
        case Some((ip, mac)) =>
          var iname := if name == "" then pkt.arrivalInterface else name;
          EventKeepsRegistryRight(cfg, s, s', Registry.Seen(iname, ip, mac, s.now));
      }
    } else {
      assert s'.history == s.history && s'.clients == s.clients;
    }
  }

  lemma StepKeepsCapturesRight(cfg: Config, s: State, step: Step)
    requires Enabled(cfg, s, step) && CapturesAreRight(cfg, s)
    ensures CapturesAreRight(cfg, Apply(cfg, s, step))
  {
    hide Route.Offer, Captured, Registry.IsListing, Route.TargetsFor, FilterKeeps, Registry.Learn, Registry.Expire;
    var s' := Apply(cfg, s, step);
    assert forall c | 0 <= c < |s.captures| :: s'.captures[c] == s.captures[c];
  }

  /** The targets of a snapshot are the clients of the interface at that moment, without repetition. */
  lemma SnapshotIsRight(cfg: Config, s: State, i: nat, infos: seq<Registry.ClientInfo>, keys: seq<string>)
    requires cfg.IsSound() && RegistryIsRight(cfg, s) && i < |s.phases| && PhaseIsRight(cfg, s, i)
    requires Enabled(cfg, s, OfPipeline(i, Snapshot(infos, keys)))
    ensures PhaseIsRight(cfg, Apply(cfg, s, OfPipeline(i, Snapshot(infos, keys))), i)
  {
    hide Registry.IsListing, Route.TargetsFor, Registry.KeysMatch, Registry.IpString, Route.IsTarget;
    var p := s.phases[i];
    var route := cfg.RouteOf(i, p.j);
    var ts := route.TargetsFor(infos);
    assert s.history[..|s.history|] == s.history;
    assert RegistryAt(cfg, s, |s.history|) == s.clients;
    forall k | 0 <= k < |ts| ensures route.IsTarget(s.clients, ts[k]) {
      TargetsAreKnown(route, infos, keys, s.clients, ts[k]);
    }
    TargetsAreDistinct(route, infos, keys, s.clients);
  }

  lemma OwnPhaseIsRight(cfg: Config, s: State, i: nat, action: Action)
    requires cfg.IsSound() && Enabled(cfg, s, OfPipeline(i, action)) && |s.phases| == |cfg.interfaces|
    requires RegistryIsRight(cfg, s) && PhaseIsRight(cfg, s, i)
    ensures PhaseIsRight(cfg, Apply(cfg, s, OfPipeline(i, action)), i)
  {
    hide Route.Offer, Captured, Registry.IsListing, Route.TargetsFor, FilterKeeps, Registry.KeysMatch, Route.IsTarget,
         SameAddress, RegistryAt,
         Registry.Learn, RegistryIsRight;
    match action
    case Snapshot(infos, keys) => SnapshotIsRight(cfg, s, i, infos, keys);
    case Send =>
      var s' := Apply(cfg, s, OfPipeline(i, Send));
      RegistryPastIsKept(cfg, s, s', s.phases[i].snapshot);
    case _ =>
  }

  lemma StepKeepsPhasesRight(cfg: Config, s: State, step: Step)
    requires cfg.IsSound() && Enabled(cfg, s, step) && Invariant(cfg, s)
    ensures forall i | 0 <= i < |s.phases| :: PhaseIsRight(cfg, Apply(cfg, s, step), i)
  {
    hide Apply, Enabled, PhaseIsRight, NothingIsSentTwice, SentIsRight, RegistryIsRight, CapturesAreRight;
    var s' := Apply(cfg, s, step);
    StepExtends(cfg, s, step);
    forall i | 0 <= i < |s.phases| ensures PhaseIsRight(cfg, s', i) {
      if step.OfPipeline? && step.i == i {
        OwnPhaseIsRight(cfg, s, i, step.action);
      } else {
        PhaseStaysRight(cfg, s, s', i);
      }
    }
  }

  /** The one new transmission of a Send, if the rewrite succeeds. */
  lemma SendIsRight(cfg: Config, s: State, i: nat)
    requires Enabled(cfg, s, OfPipeline(i, Send)) && PhaseIsRight(cfg, s, i)
    ensures var s', p := Apply(cfg, s, OfPipeline(i, Send)), s.phases[i];
            s'.sent == s.sent
            || (|s'.sent| == |s.sent| + 1 && s'.sent[..|s.sent|] == s.sent
                && (var x := s'.sent[|s.sent|];
                    SentIsRight(cfg, s, x) && x.cause == p.c && x.egress == p.j && x.target == p.targets[0]))
  {
    hide Route.Offer, Captured, Route.IsTarget, SameAddress, RegistryAt;
  }

  lemma StepKeepsSentRight(cfg: Config, s: State, step: Step)
    requires Enabled(cfg, s, step) && Invariant(cfg, s)
    ensures forall a | 0 <= a < |Apply(cfg, s, step).sent| ::
            SentIsRight(cfg, Apply(cfg, s, step), Apply(cfg, s, step).sent[a])
  {
    hide Apply, Enabled, PhaseIsRight, NothingIsSentTwice, SentIsRight, RegistryIsRight, CapturesAreRight;
    var s' := Apply(cfg, s, step);
    StepExtends(cfg, s, step);
    if step.OfPipeline? && step.action.Send? {
      assert step == OfPipeline(step.i, Send);
      EnabledIsInRange(cfg, s, step);
      SendIsRight(cfg, s, step.i);
    }
    forall a | 0 <= a < |s'.sent| ensures SentIsRight(cfg, s', s'.sent[a]) {
      assert a < |s.sent| ==> s'.sent[a] == s.sent[a];
      SentStaysRight(cfg, s, s', s'.sent[a]);
    }
  }

  lemma EnabledIsInRange(cfg: Config, s: State, step: Step)
    requires Enabled(cfg, s, step) && step.OfPipeline?
    ensures step.i < |s.phases|
  {
  }

  /** What a pipeline had not sent before its step, it has not sent after it, unless it was sent in this step. */
  lemma OwnStepKeepsUnsent(cfg: Config, s: State, i: nat, action: Action, x: Transmission)
    requires Enabled(cfg, s, OfPipeline(i, action)) && i < |s.phases| && NotYetSent(s.phases[i], x)
    requires x.cause < |s.captures|
    ensures NotYetSent(Apply(cfg, s, OfPipeline(i, action)).phases[i], x)
  {
    hide Route.Offer, Captured, Registry.IsListing, Route.TargetsFor, FilterKeeps, SameAddress, Registry.Learn;
  }

  lemma StepSendsNothingTwice(cfg: Config, s: State, step: Step)
    requires Enabled(cfg, s, step) && Invariant(cfg, s)
    ensures NothingIsSentTwice(Apply(cfg, s, step))
  {
    hide Apply, Enabled, PhaseIsRight, SentIsRight, RegistryIsRight, CapturesAreRight, NotYetSent, SameAddress;
    var s' := Apply(cfg, s, step);
    StepExtends(cfg, s, step);
    if step.OfPipeline? {
      EnabledIsInRange(cfg, s, step);
      forall a | 0 <= a < |s.sent| ensures NotYetSent(s'.phases[step.i], s.sent[a]) {
        CauseIsCaptured(cfg, s, a);
        OwnStepKeepsUnsent(cfg, s, step.i, step.action, s.sent[a]);
      }
      if step.action.Send? {
        assert step == OfPipeline(step.i, Send);
        SendIsRight(cfg, s, step.i);
        if s'.sent != s.sent {
          SendIsNew(cfg, s, step.i);
        }
      }
    }
  }

  lemma CauseIsCaptured(cfg: Config, s: State, a: nat)
    requires Invariant(cfg, s) && a < |s.sent|
    ensures s.sent[a].cause < |s.captures|
  {
    assert SentIsRight(cfg, s, s.sent[a]);
  }

  /** A new transmission repeats no earlier one and is still to be sent by no pipeline. */
  lemma SendIsNew(cfg: Config, s: State, i: nat)
    requires Enabled(cfg, s, OfPipeline(i, Send)) && Invariant(cfg, s)
    requires Apply(cfg, s, OfPipeline(i, Send)).sent != s.sent
    ensures var s' := Apply(cfg, s, OfPipeline(i, Send));
            && |s'.sent| == |s.sent| + 1
            && (var x := s'.sent[|s.sent|];
                && (forall a | 0 <= a < |s.sent| && s.sent[a].cause == x.cause && s.sent[a].egress == x.egress ::
                      !SameAddress(s.sent[a].target, x.target))
                && forall k | 0 <= k < |s'.phases| :: NotYetSent(s'.phases[k], x))
  {
    hide Route.Offer, Captured, Route.IsTarget, SameAddress, RegistryAt, SentIsRight, RegistryIsRight, CapturesAreRight;
    var s', p := Apply(cfg, s, OfPipeline(i, Send)), s.phases[i];
    assert PhaseIsRight(cfg, s, i);
    SendIsRight(cfg, s, i);
    var x := s'.sent[|s.sent|];
    forall a | 0 <= a < |s.sent| && s.sent[a].cause == x.cause && s.sent[a].egress == x.egress
      ensures !SameAddress(s.sent[a].target, x.target)
    {
      assert NotYetSent(p, s.sent[a]);
    }
    forall k | 0 <= k < |s'.phases| ensures NotYetSent(s'.phases[k], x) {
      assert PhaseIsRight(cfg, s, k);
    }
  }

  lemma StepKeepsInvariant(cfg: Config, s: State, step: Step)
    requires cfg.IsSound() && Enabled(cfg, s, step) && Invariant(cfg, s)
    ensures Invariant(cfg, Apply(cfg, s, step))
  {
    hide Apply, Enabled, PhaseIsRight, SentIsRight, RegistryIsRight, CapturesAreRight, NothingIsSentTwice;
    StepExtends(cfg, s, step);
    StepKeepsRegistryRight(cfg, s, step);
    StepKeepsCapturesRight(cfg, s, step);
    StepKeepsPhasesRight(cfg, s, step);
    StepKeepsSentRight(cfg, s, step);
    StepSendsNothingTwice(cfg, s, step);
  }

  lemma {:induction false} EveryRunKeepsTheInvariant(cfg: Config, steps: seq<Step>)
    requires cfg.IsSound() && Run(cfg, steps).Some?
    ensures Invariant(cfg, Run(cfg, steps).value)
  {
    hide Apply, Enabled;
    if steps != [] {
      EveryRunKeepsTheInvariant(cfg, steps[..|steps| - 1]);
      StepKeepsInvariant(cfg, Run(cfg, steps[..|steps| - 1]).value, steps[|steps| - 1]);
    }
  }

  // ---------- theorems ----------

  /** What is offered has been rewritten: it has UDP, and its target is an IPv4 address. */
  lemma OfferedIsUdp(route: Route, pkt: Packet, t: Target)
    requires route.Offer(pkt, t) != []
    ensures pkt.layers.Some? && pkt.layers.value.udp.Some? && To4(t.ip).Some?
  {
  }

  lemma SentIsJustified(cfg: Config, s: State, x: Transmission)
    requires SentIsRight(cfg, s, x) && CapturesAreRight(cfg, s)
    ensures IsJustified(x.frame, cfg.interfaces[x.egress], RegistryAt(cfg, s, x.snapshot))
    ensures Carries(x.frame, s.captures[x.cause].pkt)
    ensures forall k | 0 <= k < |cfg.processors(s.captures[x.cause].iface, x.egress)| ::
              cfg.processors(s.captures[x.cause].iface, x.egress)[k](x.frame) == Keep
  {
    hide Route.Offer, Route.IsTarget, Route.IsCopyFor, RegistryAt, Captured, IsAddressed, Carries, IsJustified;
    var c := s.captures[x.cause];
    var route := cfg.RouteOf(c.iface, x.egress);
    OfferedIsUdp(route, c.pkt, x.target);
    OfferIsCopy(route, c.pkt, cfg.interfaces[c.iface].link, x.target);
    OfferIsKept(route, c.pkt, x.target, x.frame);
    assert route.processors == cfg.processors(c.iface, x.egress);
    CopyIsAddressed(cfg, c.iface, x.egress, c.pkt, x.target, x.frame);
    AddressIsJustified(cfg, c.iface, x.egress, RegistryAt(cfg, s, x.snapshot), x.target, x.frame);
  }

  /**
    Every frame handed to a transmitter was caused by a packet captured on another interface, and is addressed
    to a client that the registry knew on the egress interface at the snapshot, or to its broadcast address
    when it knew none; the receiver decodes the captured packet, unchanged but for the destination.
   */
  lemma EveryTransmissionIsJustified(cfg: Config, steps: seq<Step>, a: nat)
    requires cfg.IsSound() && Run(cfg, steps).Some? && a < |Run(cfg, steps).value.sent|
    ensures var s := Run(cfg, steps).value;
            var x := s.sent[a];
            && x.cause < |s.captures| && x.egress < |cfg.interfaces| && x.snapshot <= |s.history|
            && s.captures[x.cause].iface < |cfg.interfaces|
            && cfg.interfaces[s.captures[x.cause].iface].name != cfg.interfaces[x.egress].name
            && IsJustified(x.frame, cfg.interfaces[x.egress], RegistryAt(cfg, s, x.snapshot))
            && Carries(x.frame, s.captures[x.cause].pkt)
            && (forall k | 0 <= k < |cfg.processors(s.captures[x.cause].iface, x.egress)| ::
                  cfg.processors(s.captures[x.cause].iface, x.egress)[k](x.frame) == Keep)
  {
    hide Route.Offer, Route.IsTarget, RegistryAt, PhaseIsRight, RegistryIsRight, NothingIsSentTwice, Captured, Carries,
         IsJustified;
    EveryRunKeepsTheInvariant(cfg, steps);
    var s := Run(cfg, steps).value;
    assert SentIsRight(cfg, s, s.sent[a]);
    SentIsJustified(cfg, s, s.sent[a]);
  }

  /** The frame goes to a client known on the interface, under its MAC if that is known, or else to all of it. */
  ghost predicate IsJustified(frame: Packet, e: Interface, m: Registry.Clients) {
    || (exists key ::
          && key in m && m[key].iface == e.name
          && IsAddressed(frame, e, m[key].ip, if m[key].mac == [] then BROADCAST_MAC else m[key].mac))
    || (&& e.broadcast && IsAddressed(frame, e, e.broadcastAddress, BROADCAST_MAC)
        && forall key | key in m :: m[key].iface != e.name)
  }

  lemma AddressIsJustified(cfg: Config, i: nat, j: nat, m: Registry.Clients, t: Target, frame: Packet)
    requires j < |cfg.interfaces| && cfg.RouteOf(i, j).IsTarget(m, t)
    requires IsAddressed(frame, cfg.interfaces[j], t.ip,
                         if t.broadcastDestMac || t.mac == [] then BROADCAST_MAC else t.mac)
    ensures IsJustified(frame, cfg.interfaces[j], m)
  {
    hide IsAddressed;
  }

  lemma OfferIsKept(route: Route, pkt: Packet, t: Target, copy: Packet)
    requires route.Offer(pkt, t) == [copy]
    ensures forall k | 0 <= k < |route.processors| :: route.processors[k](copy) == Keep
  {
    hide Egress;
  }

  lemma CopyIsAddressed(cfg: Config, i: nat, j: nat, pkt: Packet, t: Target, frame: Packet)
    requires j < |cfg.interfaces| && cfg.RouteOf(i, j).IsCopyFor(pkt, t, frame)
    ensures Carries(frame, pkt)
    ensures IsAddressed(frame, cfg.interfaces[j], t.ip,
                        if t.broadcastDestMac || t.mac == [] then BROADCAST_MAC else t.mac)
  {
    hide Wire.Decode;
  }

  /** A receiver on the link of e decodes the frame, and finds it addressed to ip and on Ethernet to mac. */
  predicate IsAddressed(frame: Packet, e: Interface, ip: Bytes, mac: Bytes) {
    && Captured(frame, e.link) && frame.layers.value.ipv4.Some? && Some(frame.layers.value.ipv4.value.dst) == To4(ip)
    && frame.layers.value.ethernet == (if e.link == 1 then Some(Wire.EthernetLayer(mac, e.hardwareAddr)) else None)
    && (e.name != "" ==> frame.arrivalInterface == e.name)
  }

  /** The frame carries what the packet carried. */
  predicate Carries(frame: Packet, pkt: Packet) {
    && frame.metadata == pkt.metadata
    && frame.layers.Some? && frame.layers.value.ipv4.Some? && frame.layers.value.udp.Some?
    && pkt.layers.Some? && pkt.layers.value.ipv4.Some?
    && frame.layers.value.udp == pkt.layers.value.udp && frame.layers.value.app == pkt.layers.value.app
    && (var ip, was := frame.layers.value.ipv4.value, pkt.layers.value.ipv4.value;
        && ip.src == was.src && ip.ttl == was.ttl && ip.id == was.id
        && ip.flags == was.flags && ip.fragOffset == was.fragOffset)
  }

  /** No captured packet is transmitted twice to one address on one interface. */
  lemma NoAddressIsServedTwice(cfg: Config, steps: seq<Step>, a: nat, b: nat)
    requires cfg.IsSound() && Run(cfg, steps).Some? && a < b < |Run(cfg, steps).value.sent|
    ensures var s := Run(cfg, steps).value;
            s.sent[a].cause == s.sent[b].cause && s.sent[a].egress == s.sent[b].egress ==>
              To4(s.sent[a].target.ip) != To4(s.sent[b].target.ip)
  {
    hide Route.Offer, Route.IsTarget, RegistryAt, PhaseIsRight, RegistryIsRight, Captured;
    EveryRunKeepsTheInvariant(cfg, steps);
    var s := Run(cfg, steps).value;
    var x := s.sent[a];
    assert SentIsRight(cfg, s, x);
    OfferedIsUdp(cfg.RouteOf(s.captures[x.cause].iface, x.egress), s.captures[x.cause].pkt, x.target);
  }

  /** With a cleanup in every period, a learned client that is served was seen within TTL and a period. */
  lemma ServedClientsAreFresh(cfg: Config, steps: seq<Step>, a: nat, period: nat)
    requires cfg.IsSound() && Run(cfg, steps).Some? && a < |Run(cfg, steps).value.sent|
    requires var s := Run(cfg, steps).value; Registry.CleanedEvery(EventsBefore(s, s.sent[a]), period, s.sent[a].time)
    ensures var s := Run(cfg, steps).value;
            var x := s.sent[a];
            var m := Registry.Replay(cfg.fixed, EventsBefore(s, x), cfg.ttl);
            && x.egress < |cfg.interfaces|
            && ((forall key | key in m :: m[key].iface != cfg.interfaces[x.egress].name)
                || exists key :: key in m && m[key].iface == cfg.interfaces[x.egress].name
                              && x.target.ip == m[key].ip && x.target.mac == m[key].mac
                              && (key in cfg.fixed || x.time <= m[key].lastSeen + cfg.ttl + period))
  {
    hide Route.Offer, PhaseIsRight, NothingIsSentTwice, Captured, Registry.Replay;
    EveryRunKeepsTheInvariant(cfg, steps);
    var s := Run(cfg, steps).value;
    var x := s.sent[a];
    assert SentIsRight(cfg, s, x);
    var m := RegistryAt(cfg, s, x.snapshot);
    var e := cfg.interfaces[x.egress];
    if key :| key in m && m[key].iface == e.name && x.target == Target(m[key].ip, m[key].mac, false, e.broadcast) {
      if key !in cfg.fixed {
        Registry.KnownClientsAreFresh(cfg.fixed, EventsBefore(s, x), cfg.ttl, period, x.time, key);
      }
    }
  }

  /** The registry events before the snapshot of a transmission. */
  function EventsBefore(s: State, x: Transmission): seq<Registry.Event> {
    if x.snapshot <= |s.history| then s.history[..x.snapshot] else s.history
  }

  /** The ticker's step leaves no learned client whose last packet is older than the TTL, and forgets no other. */
  lemma ACleanUpForgets(cfg: Config, before: seq<Step>)
    requires Run(cfg, before).Some?
    ensures Run(cfg, before + [CleanUp]).Some?
    ensures var s, s' := Run(cfg, before).value, Run(cfg, before + [CleanUp]).value;
            && s'.history == s.history + [Registry.Cleaned(s.now)] && s'.now == s.now
            && forall key :: key in s'.clients
                 <==> key in s.clients && (s.clients[key].lastSeen == 0 || s.now <= s.clients[key].lastSeen + cfg.ttl)
  {
    RunNext(cfg, before, CleanUp);
  }

  /**
    After a pipeline has learned from a packet its sender is known on the pipeline's interface, as fixed or as
    just seen.
   */
  lemma ALearnRemembers(cfg: Config, before: seq<Step>, i: nat)
    requires cfg.IsSound() && Run(cfg, before).Some? && i < |Run(cfg, before).value.phases|
    requires Run(cfg, before).value.phases[i].Learning?
    ensures Run(cfg, before + [OfPipeline(i, Learn)]).Some? && i < |cfg.interfaces|
    ensures var s, s' := Run(cfg, before).value, Run(cfg, before + [OfPipeline(i, Learn)]).value;
            var c := s.phases[i].c;
            && c < |s.captures| && s.captures[c].pkt.layers.Some? && s.captures[c].pkt.layers.value.ipv4.Some?
            && (var ip := s.captures[c].pkt.layers.value.ipv4.value.src;
                var key := Registry.KeyForClient(cfg.interfaces[i].name, Registry.IpString(ip));
                && key in s'.clients
                && (s'.clients[key].lastSeen == 0
                    || (s'.clients[key].lastSeen == s.now && s'.clients[key].ip == ip
                        && s'.clients[key].iface == cfg.interfaces[i].name)))
  {
    hide PhaseIsLearned, SentIsRight, NothingIsSentTwice, RegistryIsRight, Captured, Registry.KeyForClient,
         Registry.IpString,
         RegistryAt;
    EveryRunKeepsTheInvariant(cfg, before);
    EveryRunLearnsRight(cfg, before);
    var s := Run(cfg, before).value;
    assert PhaseIsRight(cfg, s, i);
    KeptPacketHasSender(s.captures[s.phases[i].c].pkt, cfg.interfaces[i].link);
    RunNext(cfg, before, OfPipeline(i, Learn));
  }

  /** Waiting lets time pass and does nothing else. */
  lemma WaitingOnlyWaits(cfg: Config, before: seq<Step>, d: nat)
    requires Run(cfg, before).Some?
    ensures Run(cfg, before + [Wait(d)]) == Some(Run(cfg, before).value.(now := Run(cfg, before).value.now + d))
  {
    RunNext(cfg, before, Wait(d));
  }

  // ---------- nothing is left out ----------

  /** The frames that a packet has caused on an interface, in order. */
  function FramesOf(sent: seq<Transmission>, c: nat, j: nat): seq<Packet> {
    if sent == [] then []
    else
      var last := sent[|sent| - 1];
      FramesOf(sent[..|sent| - 1], c, j) + if last.cause == c && last.egress == j then [last.frame] else []
  }

  lemma FramesNext(sent: seq<Transmission>, x: Transmission, c: nat, j: nat)
    ensures FramesOf(sent + [x], c, j) == FramesOf(sent, c, j) + if x.cause == c && x.egress == j then [x.frame] else []
  {
    assert (sent + [x])[..|sent|] == sent;
  }

  lemma {:induction false} NoFramesOf(sent: seq<Transmission>, c: nat, j: nat)
    requires forall a | 0 <= a < |sent| :: !(sent[a].cause == c && sent[a].egress == j)
    ensures FramesOf(sent, c, j) == []
  {
    if sent != [] { NoFramesOf(sent[..|sent| - 1], c, j); }
  }

  predicate HasPlan(s: State, c: nat, j: nat) {
    exists n | 0 <= n < |s.plans| :: s.plans[n].cause == c && s.plans[n].egress == j
  }

  /** The targets of a plan that are still to be served, by the pipeline that captured the packet. */
  function Pending(s: State, q: Plan): seq<Target> {
    if q.cause < |s.captures| && s.captures[q.cause].iface < |s.phases| then
      var p := s.phases[s.captures[q.cause].iface];
      if p.Sending? && p.c == q.cause && p.j == q.egress then p.targets else []
    else []
  }

  ghost predicate PlanIsRight(cfg: Config, s: State, q: Plan) {
    && q.cause < |s.captures| && q.egress < |cfg.interfaces| && q.snapshot <= |s.history|
    && Registry.IsListing(q.infos, q.keys, RegistryAt(cfg, s, q.snapshot), cfg.interfaces[q.egress].name)
  }

  /** What was sent and what is pending make up what the route offers to the targets of the plan, in their order. */
  predicate PlanIsServed(cfg: Config, s: State, q: Plan)
    requires q.cause < |s.captures| && q.egress < |cfg.interfaces|
  {
    var route, pkt := cfg.RouteOf(s.captures[q.cause].iface, q.egress), s.captures[q.cause].pkt;
    FramesOf(s.sent, q.cause, q.egress) + route.Offers(pkt, Pending(s, q))
      == route.Offers(pkt, route.TargetsFor(q.infos))
  }

  /** How many interfaces a pipeline has planned for. */
  function Planned(p: Phase): nat {
    match p
    case Routing(_, j) => j
    case Sending(_, j, _, _, _) => j + 1
    case _ => 0
  }

  predicate NothingIsPlannedAhead(s: State) {
    forall i, n | 0 <= i < |s.phases| && !s.phases[i].Idle? && 0 <= n < |s.plans|
      && s.plans[n].cause == s.phases[i].c ::
      s.plans[n].egress < Planned(s.phases[i])
  }

  /** The interfaces before the one that a pipeline works on, its own excepted, have been planned for. */
  predicate PhaseIsPlanned(cfg: Config, s: State, i: nat)
    requires i < |s.phases|
  {
    match s.phases[i]
    case Routing(c, upTo) => IsPlanned(cfg, s, i, c, upTo)
    case Sending(c, j, _, _, _) => IsPlanned(cfg, s, i, c, j + 1)
    case _ => true
  }

  predicate IsPlanned(cfg: Config, s: State, i: nat, c: nat, upTo: nat) {
    forall j: nat | j < upTo && j < |cfg.interfaces| && j != i :: HasPlan(s, c, j)
  }

  ghost predicate NothingIsLeftOut(cfg: Config, s: State) {
    && (forall n | 0 <= n < |s.plans| :: PlanIsRight(cfg, s, s.plans[n]) && PlanIsServed(cfg, s, s.plans[n]))
    && (forall i | 0 <= i < |s.phases| :: PhaseIsPlanned(cfg, s, i))
    && NothingIsPlannedAhead(s)
    && (forall c | c in s.finished :: c < |s.captures| && IsPlanned(cfg, s, s.captures[c].iface, c, |cfg.interfaces|))
  }

  /** No pipeline works on a packet that it has finished. */
  predicate FinishedAreDone(s: State) {
    forall c, i | c in s.finished && 0 <= i < |s.phases| :: s.phases[i].Idle? || s.phases[i].c != c
  }

  /** Plans, transmissions and captures are only added to. */
  predicate Grows(s: State, s': State) { Extends(s, s') && s.plans <= s'.plans && s.sent <= s'.sent }

  lemma StepGrows(cfg: Config, s: State, step: Step)
    requires Enabled(cfg, s, step)
    ensures Grows(s, Apply(cfg, s, step))
  {
    hide Route.Offer, Captured, Registry.IsListing, Route.TargetsFor, Registry.Learn, Registry.Expire, FilterKeeps;
    StepExtends(cfg, s, step);
  }

  lemma PlansStay(cfg: Config, s: State, s': State, i: nat, c: nat, upTo: nat)
    requires Grows(s, s') && IsPlanned(cfg, s, i, c, upTo)
    ensures IsPlanned(cfg, s', i, c, upTo)
  {
    forall j: nat | j < upTo && j < |cfg.interfaces| && j != i ensures HasPlan(s', c, j) {
      assert HasPlan(s, c, j);
      var n :| 0 <= n < |s.plans| && s.plans[n].cause == c && s.plans[n].egress == j;
      assert s'.plans[n] == s.plans[n];
    }
  }

  lemma PlanStaysRight(cfg: Config, s: State, s': State, q: Plan)
    requires Grows(s, s') && PlanIsRight(cfg, s, q)
    ensures PlanIsRight(cfg, s', q)
  {
    hide Registry.IsListing, RegistryAt;
    RegistryPastIsKept(cfg, s, s', q.snapshot);
  }

  /** The frames of other packets and other interfaces do not matter to a plan. */
  lemma SendServes(cfg: Config, s: State, i: nat, q: Plan)
    requires Enabled(cfg, s, OfPipeline(i, Send)) && Invariant(cfg, s)
    requires PlanIsRight(cfg, s, q) && PlanIsServed(cfg, s, q)
    ensures Apply(cfg, s, OfPipeline(i, Send)).captures == s.captures
    ensures PlanIsServed(cfg, Apply(cfg, s, OfPipeline(i, Send)), q)
  {
    hide Route.Offer, Route.Offers, Route.TargetsFor, Route.IsTarget, Captured, Registry.IsListing, FilterKeeps,
         RegistryAt,
         NothingIsSentTwice, RegistryIsRight, SentIsRight;
    var p, s' := s.phases[i], Apply(cfg, s, OfPipeline(i, Send));
    assert PhaseIsRight(cfg, s, i);
    var pkt, route := s.captures[p.c].pkt, cfg.RouteOf(i, p.j);
    var copies := route.Offer(pkt, p.targets[0]);
    if copies == [] {
      assert s'.sent == s.sent;
    } else {
      FramesNext(s.sent, Handed(copies, p)[0], q.cause, q.egress);
    }
    if q.cause == p.c && q.egress == p.j {
      OffersFirst(route, pkt, p.targets);
      assert Pending(s, q) == p.targets && Pending(s', q) == p.targets[1..];
      assert FramesOf(s'.sent, q.cause, q.egress) == FramesOf(s.sent, q.cause, q.egress) + copies;
      Regroup(FramesOf(s.sent, q.cause, q.egress), copies, route.Offers(pkt, p.targets[1..]));
    } else {
      assert Pending(s', q) == Pending(s, q);
      assert FramesOf(s'.sent, q.cause, q.egress) == FramesOf(s.sent, q.cause, q.egress);
    }
  }

  /** A step that sends nothing leaves the pending targets of an earlier plan as they are. */
  lemma PendingStays(cfg: Config, s: State, step: Step, n: nat)
    requires Enabled(cfg, s, step) && Invariant(cfg, s) && NothingIsPlannedAhead(s)
    requires !(step.OfPipeline? && step.action.Send?) && n < |s.plans| && s.plans[n].cause < |s.captures|
    ensures Pending(Apply(cfg, s, step), s.plans[n]) == Pending(s, s.plans[n])
  {
    hide Route.Offer, Captured, Registry.IsListing, Route.TargetsFor, Registry.Learn, Registry.Expire, FilterKeeps,
         NothingIsSentTwice, RegistryIsRight, SentIsRight, PhaseIsRight;
    if step.OfPipeline? { assert PhaseIsRight(cfg, s, step.i); }
  }

  lemma PlanStaysServed(cfg: Config, s: State, step: Step, n: nat)
    requires Enabled(cfg, s, step) && Invariant(cfg, s) && NothingIsPlannedAhead(s)
    requires n < |s.plans| && PlanIsRight(cfg, s, s.plans[n]) && PlanIsServed(cfg, s, s.plans[n])
    ensures |s.captures| <= |Apply(cfg, s, step).captures| && PlanIsServed(cfg, Apply(cfg, s, step), s.plans[n])
  {
    hide Apply, Enabled, Invariant, NothingIsPlannedAhead, Route.Offers, Route.TargetsFor, Registry.IsListing,
         RegistryAt;
    var q := s.plans[n];
    StepExtends(cfg, s, step);
    if step.OfPipeline? && step.action.Send? {
      assert step == OfPipeline(step.i, Send);
      SendServes(cfg, s, step.i, q);
    } else {
      PendingStays(cfg, s, step, n);
      assert Apply(cfg, s, step).captures[q.cause] == s.captures[q.cause];
    }
  }

  /** The plan that a snapshot adds. */
  lemma NewPlanIsRight(cfg: Config, s: State, i: nat, infos: seq<Registry.ClientInfo>, keys: seq<string>)
    requires Invariant(cfg, s) && Enabled(cfg, s, OfPipeline(i, Snapshot(infos, keys)))
    ensures var s' := Apply(cfg, s, OfPipeline(i, Snapshot(infos, keys)));
            && |s'.plans| == |s.plans| + 1
            && (var q := s'.plans[|s.plans|];
                && PlanIsRight(cfg, s', q) && PlanIsServed(cfg, s', q)
                && q.cause == s.phases[i].c && q.egress == s.phases[i].j)
  {
    hide Route.Offer, Route.Offers, Captured, Registry.IsListing, Route.TargetsFor, Registry.KeysMatch, Route.IsTarget,
         SentIsRight, CapturesAreRight, SameAddress;
    var s', p := Apply(cfg, s, OfPipeline(i, Snapshot(infos, keys))), s.phases[i];
    assert PhaseIsRight(cfg, s, i);
    assert s.history[..|s.history|] == s.history;
    forall a | 0 <= a < |s.sent| ensures !(s.sent[a].cause == p.c && s.sent[a].egress == p.j) {
      assert NotYetSent(p, s.sent[a]);
    }
    NoFramesOf(s.sent, p.c, p.j);
  }

  lemma StepKeepsPlans(cfg: Config, s: State, step: Step)
    requires Enabled(cfg, s, step) && Invariant(cfg, s) && NothingIsLeftOut(cfg, s)
    ensures var s' := Apply(cfg, s, step);
            forall n | 0 <= n < |s'.plans| :: PlanIsRight(cfg, s', s'.plans[n]) && PlanIsServed(cfg, s', s'.plans[n])
  {
    hide Apply, Enabled, PlanIsServed, Invariant, PhaseIsPlanned, IsPlanned, NothingIsPlannedAhead,
         Registry.IsListing, RegistryAt;
    var s' := Apply(cfg, s, step);
    StepGrows(cfg, s, step);
    OnlySnapshotsPlan(cfg, s, step);
    forall n | 0 <= n < |s'.plans| ensures PlanIsRight(cfg, s', s'.plans[n]) && PlanIsServed(cfg, s', s'.plans[n]) {
      if n < |s.plans| {
        assert s'.plans[n] == s.plans[n];
        PlanStaysRight(cfg, s, s', s.plans[n]);
        PlanStaysServed(cfg, s, step, n);
      } else {
        NewPlanIsRight(cfg, s, step.i, step.action.infos, step.action.keys);
      }
    }
  }

  lemma StepPlansNothingAhead(cfg: Config, s: State, step: Step)
    requires Enabled(cfg, s, step) && Invariant(cfg, s) && NothingIsLeftOut(cfg, s)
    ensures NothingIsPlannedAhead(Apply(cfg, s, step))
  {
    hide Route.Offer, Captured, Registry.IsListing, Route.TargetsFor, Registry.Learn, Registry.Expire, FilterKeeps,
         NothingIsSentTwice, RegistryIsRight, SentIsRight, PlanIsServed, PhaseIsPlanned, IsPlanned, RegistryAt;
    var s' := Apply(cfg, s, step);
    forall i, n | 0 <= i < |s'.phases| && !s'.phases[i].Idle? && 0 <= n < |s'.plans|
      && s'.plans[n].cause == s'.phases[i].c
      ensures s'.plans[n].egress < Planned(s'.phases[i])
    {
      assert PhaseIsRight(cfg, s, i);
      if step.OfPipeline? { assert PhaseIsRight(cfg, s, step.i); }
      if n < |s.plans| {
        assert s'.plans[n] == s.plans[n] && PlanIsRight(cfg, s, s.plans[n]);
      }
    }
  }

  lemma OnlySnapshotsPlan(cfg: Config, s: State, step: Step)
    requires Enabled(cfg, s, step)
    ensures Apply(cfg, s, step).plans == s.plans
            || (step.OfPipeline? && step.action.Snapshot? && |Apply(cfg, s, step).plans| == |s.plans| + 1
                && step == OfPipeline(step.i, Snapshot(step.action.infos, step.action.keys)))
  {
    hide Route.Offer, Captured, Registry.IsListing, Route.TargetsFor, Registry.Learn, Registry.Expire, FilterKeeps;
  }

  lemma OwnPhaseIsPlanned(cfg: Config, s: State, i: nat, action: Action)
    requires cfg.IsSound() && Enabled(cfg, s, OfPipeline(i, action)) && i < |s.phases| && PhaseIsPlanned(cfg, s, i)
    ensures PhaseIsPlanned(cfg, Apply(cfg, s, OfPipeline(i, action)), i)
    ensures action.Finish? ==> IsPlanned(cfg, Apply(cfg, s, OfPipeline(i, action)), i, s.phases[i].c, |cfg.interfaces|)
  {
    hide Route.Offer, Captured, Registry.IsListing, Route.TargetsFor, Registry.Learn, Registry.Expire, FilterKeeps,
         IsPlanned, HasPlan, Extends,
         Registry.KeysMatch;
    var s', p := Apply(cfg, s, OfPipeline(i, action)), s.phases[i];
    StepGrows(cfg, s, OfPipeline(i, action));
    if p.Routing? {
      PlansStay(cfg, s, s', i, p.c, p.j);
      match action
      case SkipOwn => PlanNext(cfg, s', i, p.c, p.j);
      case Snapshot(_, _) =>
        assert HasPlan(s', p.c, p.j) by {
          var q := s'.plans[|s.plans|];
          assert q.cause == p.c && q.egress == p.j;
          PlanInstance(s', |s.plans|);
        }
        PlanNext(cfg, s', i, p.c, p.j);
      case _ =>
    } else if p.Sending? {
      PlansStay(cfg, s, s', i, p.c, p.j + 1);
    } else if p.Learning? {
      NothingToPlan(cfg, s', i, p.c);
    }
  }

  lemma PlanInstance(s: State, n: nat)
    requires n < |s.plans|
    ensures HasPlan(s, s.plans[n].cause, s.plans[n].egress)
  {
  }

  lemma NothingToPlan(cfg: Config, s: State, i: nat, c: nat)
    ensures IsPlanned(cfg, s, i, c, 0)
  {
  }

  lemma PlanNext(cfg: Config, s: State, i: nat, c: nat, j: nat)
    requires IsPlanned(cfg, s, i, c, j) && (j != i ==> HasPlan(s, c, j))
    ensures IsPlanned(cfg, s, i, c, j + 1)
  {
  }

  lemma StepLeavesNothingOut(cfg: Config, s: State, step: Step)
    requires cfg.IsSound() && Enabled(cfg, s, step) && Invariant(cfg, s) && NothingIsLeftOut(cfg, s)
    ensures NothingIsLeftOut(cfg, Apply(cfg, s, step))
  {
    hide Apply, Enabled, PlanIsRight, PlanIsServed, IsPlanned, HasPlan, RegistryIsRight, CapturesAreRight,
         SentIsRight, NothingIsSentTwice;
    var s' := Apply(cfg, s, step);
    StepGrows(cfg, s, step);
    StepExtends(cfg, s, step);
    StepKeepsPlans(cfg, s, step);
    StepPlansNothingAhead(cfg, s, step);
    if step.OfPipeline? {
      EnabledIsInRange(cfg, s, step);
      OwnPhaseIsPlanned(cfg, s, step.i, step.action);
      assert PhaseIsRight(cfg, s, step.i);
    }
    forall i | 0 <= i < |s'.phases| ensures PhaseIsPlanned(cfg, s', i) {
      if !(step.OfPipeline? && step.i == i) {
        assert s'.phases[i] == s.phases[i];
        OtherPhaseIsPlanned(cfg, s, s', i);
      }
    }
    OnlyFinishFinishes(cfg, s, step);
    forall c | c in s'.finished ensures c < |s'.captures|
      && IsPlanned(cfg, s', s'.captures[c].iface, c, |cfg.interfaces|) {
      if c in s.finished {
        assert s'.captures[c] == s.captures[c];
        PlansStay(cfg, s, s', s.captures[c].iface, c, |cfg.interfaces|);
      } else {
        assert s'.captures[c] == s.captures[c];
      }
    }
  }

  lemma OtherPhaseIsPlanned(cfg: Config, s: State, s': State, i: nat)
    requires Grows(s, s') && i < |s.phases| && s'.phases[i] == s.phases[i] && PhaseIsPlanned(cfg, s, i)
    ensures PhaseIsPlanned(cfg, s', i)
  {
    hide IsPlanned;
    match s.phases[i]
    case Routing(c, upTo) => PlansStay(cfg, s, s', i, c, upTo);
    case Sending(c, j, _, _, _) => PlansStay(cfg, s, s', i, c, j + 1);
    case _ =>
  }

  lemma OnlyFinishFinishes(cfg: Config, s: State, step: Step)
    requires Enabled(cfg, s, step)
    ensures Apply(cfg, s, step).finished == s.finished
            || (step.OfPipeline? && step.action.Finish? && step.i < |s.phases| && s.phases[step.i].Routing?
                && Apply(cfg, s, step).finished == s.finished + {s.phases[step.i].c})
  {
    hide Route.Offer, Captured, Registry.IsListing, Route.TargetsFor, Registry.Learn, Registry.Expire, FilterKeeps;
  }

  lemma StepKeepsFinishedDone(cfg: Config, s: State, step: Step)
    requires Enabled(cfg, s, step) && Invariant(cfg, s) && NothingIsLeftOut(cfg, s) && FinishedAreDone(s)
    ensures FinishedAreDone(Apply(cfg, s, step))
  {
    hide Apply, Enabled, PlanIsRight, PlanIsServed, IsPlanned, HasPlan, RegistryIsRight, CapturesAreRight,
         SentIsRight, NothingIsSentTwice;
    var s' := Apply(cfg, s, step);
    StepExtends(cfg, s, step);
    OnlyFinishFinishes(cfg, s, step);
    if step.OfPipeline? {
      EnabledIsInRange(cfg, s, step);
      OwnPacket(cfg, s, step.i, step.action);
      assert PhaseIsRight(cfg, s, step.i);
    }
    forall i | 0 <= i < |s'.phases| && !s'.phases[i].Idle? ensures s'.phases[i].c !in s'.finished {
      assert PhaseIsRight(cfg, s, i);
    }
  }

  /** A pipeline keeps its packet, gives it up, or takes a new one. */
  lemma OwnPacket(cfg: Config, s: State, i: nat, action: Action)
    requires Enabled(cfg, s, OfPipeline(i, action)) && i < |s.phases|
    ensures var p' := Apply(cfg, s, OfPipeline(i, action)).phases[i];
            p'.Idle? || p'.c == |s.captures| || (!s.phases[i].Idle? && p'.c == s.phases[i].c)
    ensures action.Finish? ==> Apply(cfg, s, OfPipeline(i, action)).phases[i].Idle?
  {
    hide Route.Offer, Captured, Registry.IsListing, Route.TargetsFor, Registry.Learn, Registry.Expire, FilterKeeps;
  }

  lemma {:induction false} EveryRunLeavesNothingOut(cfg: Config, steps: seq<Step>)
    requires cfg.IsSound() && Run(cfg, steps).Some?
    ensures NothingIsLeftOut(cfg, Run(cfg, steps).value) && FinishedAreDone(Run(cfg, steps).value)
  {
    hide Apply, Enabled;
    if steps != [] {
      var init := steps[..|steps| - 1];
      EveryRunKeepsTheInvariant(cfg, init);
      EveryRunLeavesNothingOut(cfg, init);
      StepLeavesNothingOut(cfg, Run(cfg, init).value, steps[|steps| - 1]);
      StepKeepsFinishedDone(cfg, Run(cfg, init).value, steps[|steps| - 1]);
    }
  }

  /**
    Fan-out is conserved: when a packet has gone through its pipeline there was, for every other interface, one
    moment at which the registry was read, and the frames that the packet caused there are exactly the copies
    that the route offers to the targets of that moment, one for each that survives, in their order.
   */
  lemma EveryTargetIsServed(cfg: Config, steps: seq<Step>, c: nat, j: nat) returns (q: Plan)
    requires cfg.IsSound() && Run(cfg, steps).Some? && j < |cfg.interfaces|
    requires var s := Run(cfg, steps).value; c in s.finished && c < |s.captures| && s.captures[c].iface != j
    ensures var s := Run(cfg, steps).value;
            var route, pkt := cfg.RouteOf(s.captures[c].iface, j), s.captures[c].pkt;
            var frames, targets := FramesOf(s.sent, c, j), route.TargetsFor(q.infos);
            && q.snapshot <= |s.history|
            && Registry.IsListing(q.infos, q.keys, RegistryAt(cfg, s, q.snapshot), cfg.interfaces[j].name)
            && (forall t :: t in targets <==> route.IsTarget(RegistryAt(cfg, s, q.snapshot), t))
            && frames == route.Offers(pkt, targets)
            && |frames| == |route.Survivors(pkt, targets)|
            && forall k | 0 <= k < |frames| :: route.IsCopyFor(pkt, route.Survivors(pkt, targets)[k], frames[k])
  {
    hide Route.Offer, Route.Offers, Route.Survivors, Route.IsTarget, Route.IsCopyFor, Route.TargetsFor, RegistryAt,
         PhaseIsPlanned, Registry.IsListing, Registry.Sender, PhaseIsRight, RegistryIsRight, SentIsRight,
           NothingIsSentTwice,
         Captured, Invariant;
    var s := Run(cfg, steps).value;
    EveryRunLeavesNothingOut(cfg, steps);
    assert HasPlan(s, c, j);
    var n :| 0 <= n < |s.plans| && s.plans[n].cause == c && s.plans[n].egress == j;
    q := s.plans[n];
    assert PlanIsRight(cfg, s, q) && PlanIsServed(cfg, s, q) && Pending(s, q) == [];
    var route, pkt := cfg.RouteOf(s.captures[c].iface, j), s.captures[c].pkt;
    NothingIsOffered(route, pkt);
    assert FramesOf(s.sent, c, j) + [] == FramesOf(s.sent, c, j);
    FinishedIsCapturedUdp(cfg, steps, c);
    EveryTargetIsOfferedOneCopy(route, pkt, cfg.interfaces[s.captures[c].iface].link, route.TargetsFor(q.infos));
    forall t ensures t in route.TargetsFor(q.infos) <==> route.IsTarget(RegistryAt(cfg, s, q.snapshot), t) {
      TargetsAreKnown(route, q.infos, q.keys, RegistryAt(cfg, s, q.snapshot), t);
    }
  }

  lemma NothingIsOffered(route: Route, pkt: Packet)
    ensures route.Offers(pkt, []) == []
  {
  }

  lemma FinishedIsCapturedUdp(cfg: Config, steps: seq<Step>, c: nat)
    requires cfg.IsSound() && Run(cfg, steps).Some?
    requires c in Run(cfg, steps).value.finished && c < |Run(cfg, steps).value.captures|
    ensures var capture := Run(cfg, steps).value.captures[c];
            && capture.iface < |cfg.interfaces| && Captured(capture.pkt, cfg.interfaces[capture.iface].link)
            && FilterKeeps(capture.pkt)
  {
    hide Captured, PhaseIsRight, RegistryIsRight, SentIsRight, NothingIsSentTwice, Registry.Sender, FilterKeeps;
    EveryRunKeepsTheInvariant(cfg, steps);
    EveryRunLearnsAndAccounts(cfg, steps);
    assert IsLearned(cfg, Run(cfg, steps).value, c, |Run(cfg, steps).value.history|);
  }

  // ---------- who is learned ----------

  /** The event is a packet that passed the filter of the pipeline of its interface. */
  predicate IsCause(cfg: Config, c: Capture, event: Registry.Event) {
    && event.Seen? && c.iface < |cfg.interfaces| && FilterKeeps(c.pkt)
    && event.iface == cfg.interfaces[c.iface].name
    && Registry.Sender(Some(c.pkt)) == Some((event.ip, event.mac))
  }

  predicate IsCaused(cfg: Config, s: State, event: Registry.Event) {
    exists c | 0 <= c < |s.captures| :: IsCause(cfg, s.captures[c], event)
  }

  predicate LearningIsRight(cfg: Config, s: State) {
    && (forall n | 0 <= n < |s.history| && s.history[n].Seen? :: IsCaused(cfg, s, s.history[n]))
    && (forall i | 0 <= i < |s.phases| && !s.phases[i].Idle? && !s.phases[i].Filtering? ::
          s.phases[i].c < |s.captures| && FilterKeeps(s.captures[s.phases[i].c].pkt))
  }

  lemma EventsStayCaused(cfg: Config, s: State, s': State, event: Registry.Event)
    requires Extends(s, s') && IsCaused(cfg, s, event)
    ensures IsCaused(cfg, s', event)
  {
    var c :| 0 <= c < |s.captures| && IsCause(cfg, s.captures[c], event);
    assert s'.captures[c] == s.captures[c];
  }

  /** What a step adds to the history of the registry. */
  lemma OnlyLearnLearns(cfg: Config, s: State, step: Step)
    requires Enabled(cfg, s, step) && Invariant(cfg, s) && LearningIsRight(cfg, s)
    ensures var s' := Apply(cfg, s, step);
            forall n | |s.history| <= n < |s'.history| && s'.history[n].Seen? :: IsCaused(cfg, s', s'.history[n])
  {
    hide Route.Offer, Captured, Registry.IsListing, Route.TargetsFor, Registry.Learn, Registry.Expire, FilterKeeps,
         RegistryIsRight, SentIsRight,
         NothingIsSentTwice;
    if step.OfPipeline? && step.action.Learn? {
      var i := step.i;
      assert PhaseIsRight(cfg, s, i);
      var c := s.captures[s.phases[i].c];
      var s' := Apply(cfg, s, step);
      assert s'.captures == s.captures;
      forall n | |s.history| <= n < |s'.history| && s'.history[n].Seen? ensures IsCaused(cfg, s', s'.history[n]) {
        assert IsCause(cfg, c, s'.history[n]);
      }
    }
  }

  lemma StepKeepsLearningRight(cfg: Config, s: State, step: Step)
    requires Enabled(cfg, s, step) && Invariant(cfg, s) && LearningIsRight(cfg, s)
    ensures LearningIsRight(cfg, Apply(cfg, s, step))
  {
    hide Apply, Enabled, PhaseIsRight, SentIsRight, RegistryIsRight, CapturesAreRight, NothingIsSentTwice,
         FilterKeeps, IsCaused;
    var s' := Apply(cfg, s, step);
    StepExtends(cfg, s, step);
    OnlyLearnLearns(cfg, s, step);
    forall n | 0 <= n < |s'.history| && s'.history[n].Seen? ensures IsCaused(cfg, s', s'.history[n]) {
      if n < |s.history| {
        assert s'.history[n] == s.history[n];
        EventsStayCaused(cfg, s, s', s.history[n]);
      }
    }
    forall i | 0 <= i < |s'.phases| && !s'.phases[i].Idle? && !s'.phases[i].Filtering?
      ensures s'.phases[i].c < |s'.captures| && FilterKeeps(s'.captures[s'.phases[i].c].pkt)
    {
      if step.OfPipeline? && step.i == i {
        OnlyFilteredGoOn(cfg, s, i, step.action);
      } else {
        assert s'.captures[s.phases[i].c] == s.captures[s.phases[i].c];
      }
    }
  }

  lemma OnlyFilteredGoOn(cfg: Config, s: State, i: nat, action: Action)
    requires Enabled(cfg, s, OfPipeline(i, action)) && i < |s.phases| && LearningIsRight(cfg, s)
    ensures var s' := Apply(cfg, s, OfPipeline(i, action));
            s'.phases[i].Idle? || s'.phases[i].Filtering?
            || (s'.phases[i].c < |s'.captures| && FilterKeeps(s'.captures[s'.phases[i].c].pkt))
  {
    hide Route.Offer, Captured, Registry.IsListing, Route.TargetsFor, Registry.Learn, Registry.Expire, FilterKeeps,
         IsCaused;
  }

  lemma {:induction false} EveryRunLearnsRight(cfg: Config, steps: seq<Step>)
    requires cfg.IsSound() && Run(cfg, steps).Some?
    ensures LearningIsRight(cfg, Run(cfg, steps).value)
  {
    hide Apply, Enabled;
    if steps != [] {
      var init := steps[..|steps| - 1];
      EveryRunKeepsTheInvariant(cfg, init);
      EveryRunLearnsRight(cfg, init);
      StepKeepsLearningRight(cfg, Run(cfg, init).value, steps[|steps| - 1]);
    }
  }

  /** A client that was not configured has itself sent an IPv4 UDP packet that was captured on its interface. */
  lemma EveryLearnedClientHasSent(cfg: Config, steps: seq<Step>, key: string)
    requires cfg.IsSound() && Run(cfg, steps).Some?
    requires key in Run(cfg, steps).value.clients && key !in cfg.fixed
    ensures var s := Run(cfg, steps).value;
            exists c :: 0 <= c < |s.captures| && s.captures[c].iface < |cfg.interfaces|
              && s.captures[c].pkt.layers.Some? && s.captures[c].pkt.layers.value.udp.Some?
              && s.clients[key].iface == cfg.interfaces[s.captures[c].iface].name
              && Registry.Sender(Some(s.captures[c].pkt)) == Some((s.clients[key].ip, s.clients[key].mac))
  {
    hide PhaseIsRight, SentIsRight, CapturesAreRight, NothingIsSentTwice;
    EveryRunKeepsTheInvariant(cfg, steps);
    EveryRunLearnsRight(cfg, steps);
    var s := Run(cfg, steps).value;
    Registry.KnownIffRecentlySeen(cfg.fixed, s.history, cfg.ttl, key);
    var n :| Registry.KeptAlive(s.history, n, key, cfg.ttl);
    assert IsCaused(cfg, s, s.history[n]);
    var c :| 0 <= c < |s.captures| && IsCause(cfg, s.captures[c], s.history[n]);
  }

  // ---------- every packet is learned from, and none is lost ----------

  /** One of the first n events of the registry is the sender of packet c. */
  predicate IsLearned(cfg: Config, s: State, c: nat, n: nat) {
    c < |s.captures| && exists k | 0 <= k < n && k < |s.history| :: IsCause(cfg, s.captures[c], s.history[k])
  }

  predicate PhaseIsLearned(cfg: Config, s: State, p: Phase) {
    match p
    case Routing(c, _) => IsLearned(cfg, s, c, |s.history|)
    case Sending(c, _, _, snapshot, _) => IsLearned(cfg, s, c, snapshot)
    case _ => true
  }

  predicate IsInWork(s: State, c: nat) { exists i | 0 <= i < |s.phases| :: !s.phases[i].Idle? && s.phases[i].c == c }

  /** A captured packet is in work, or it is done with, or the filter drops it. */
  predicate IsAccountedFor(s: State, c: nat)
    requires c < |s.captures|
  {
    IsInWork(s, c) || c in s.finished || !FilterKeeps(s.captures[c].pkt)
  }

  predicate SendersAreLearned(cfg: Config, s: State) {
    && (forall i | 0 <= i < |s.phases| :: PhaseIsLearned(cfg, s, s.phases[i]))
    && (forall a | 0 <= a < |s.sent| :: IsLearned(cfg, s, s.sent[a].cause, s.sent[a].snapshot))
    && (forall c: nat | c in s.finished :: IsLearned(cfg, s, c, |s.history|))
  }

  lemma LearnedStaysLearned(cfg: Config, s: State, s': State, c: nat, n: nat, m: nat)
    requires Extends(s, s') && IsLearned(cfg, s, c, n) && n <= m
    ensures IsLearned(cfg, s', c, m)
  {
    var k :| 0 <= k < n && k < |s.history| && IsCause(cfg, s.captures[c], s.history[k]);
    assert s'.captures[c] == s.captures[c] && s'.history[k] == s.history[k];
  }

  /** A packet that passes the filter has a sender. */
  lemma KeptPacketHasSender(pkt: Packet, link: int)
    requires Captured(pkt, link) && FilterKeeps(pkt)
    ensures Registry.Sender(Some(pkt)).Some?
  {
    Wire.DecodedUdpFits(pkt.raw, link);
  }

  lemma OwnPhaseIsLearned(cfg: Config, s: State, i: nat, action: Action)
    requires Enabled(cfg, s, OfPipeline(i, action)) && Invariant(cfg, s) && LearningIsRight(cfg, s)
    requires i < |s.phases| && PhaseIsLearned(cfg, s, s.phases[i])
    ensures var s' := Apply(cfg, s, OfPipeline(i, action)); PhaseIsLearned(cfg, s', s'.phases[i])
  {
    hide Route.Offer, Captured, Registry.IsListing, Route.TargetsFor, Registry.Learn, Registry.Expire, FilterKeeps,
         IsLearned, Registry.Sender,
         RegistryIsRight, SentIsRight, NothingIsSentTwice, IsCause, IsCaused, Extends;
    var s', p := Apply(cfg, s, OfPipeline(i, action)), s.phases[i];
    StepExtends(cfg, s, OfPipeline(i, action));
    assert PhaseIsRight(cfg, s, i);
    match p
    case Learning(c) => if action.Learn? { LearnIsLearned(cfg, s, i); }
    case Routing(c, _) => LearnedStaysLearned(cfg, s, s', c, |s.history|, |s'.history|) by { HistoryGrows(s, s'); }
    case Sending(c, _, _, snapshot, _) =>
      LearnedStaysLearned(cfg, s, s', c, snapshot, snapshot);
      LearnedStaysLearned(cfg, s, s', c, snapshot, |s'.history|) by { HistoryGrows(s, s'); }
    case _ =>
  }

  lemma HistoryGrows(s: State, s': State)
    requires Extends(s, s')
    ensures |s.history| <= |s'.history|
  {
  }

  lemma LearnIsLearned(cfg: Config, s: State, i: nat)
    requires Enabled(cfg, s, OfPipeline(i, Learn)) && Invariant(cfg, s) && LearningIsRight(cfg, s) && i < |s.phases|
    ensures var s' := Apply(cfg, s, OfPipeline(i, Learn)); IsLearned(cfg, s', s.phases[i].c, |s'.history|)
  {
    hide Route.Offer, Captured, Registry.Learn, FilterKeeps, Registry.Sender, RegistryIsRight, SentIsRight,
         NothingIsSentTwice, IsCaused;
    var s', c := Apply(cfg, s, OfPipeline(i, Learn)), s.phases[i].c;
    assert PhaseIsRight(cfg, s, i);
    KeptPacketHasSender(s.captures[c].pkt, cfg.interfaces[i].link);
    assert IsCause(cfg, s'.captures[c], s'.history[|s.history|]);
  }

  lemma StepLearns(cfg: Config, s: State, step: Step)
    requires Enabled(cfg, s, step) && Invariant(cfg, s) && LearningIsRight(cfg, s) && SendersAreLearned(cfg, s)
    ensures SendersAreLearned(cfg, Apply(cfg, s, step))
  {
    hide Apply, Enabled, PhaseIsRight, SentIsRight, RegistryIsRight, CapturesAreRight, NothingIsSentTwice,
         LearningIsRight, IsLearned;
    var s' := Apply(cfg, s, step);
    StepExtends(cfg, s, step);
    HistoryGrows(s, s');
    OnlyFinishFinishes(cfg, s, step);
    forall i | 0 <= i < |s'.phases| ensures PhaseIsLearned(cfg, s', s'.phases[i]) {
      assert PhaseIsLearned(cfg, s, s.phases[i]);
      if step.OfPipeline? && step.i == i {
        OwnPhaseIsLearned(cfg, s, i, step.action);
      } else {
        OtherPhaseIsLearned(cfg, s, s', s.phases[i]);
      }
    }
    forall c: nat | c in s'.finished ensures IsLearned(cfg, s', c, |s'.history|) {
      if c !in s.finished { assert PhaseIsLearned(cfg, s, s.phases[step.i]); }
      LearnedStaysLearned(cfg, s, s', c, |s.history|, |s'.history|);
    }
    forall a | 0 <= a < |s'.sent| ensures IsLearned(cfg, s', s'.sent[a].cause, s'.sent[a].snapshot) {
      if a < |s.sent| {
        StepGrows(cfg, s, step);
        assert s'.sent[a] == s.sent[a];
        LearnedStaysLearned(cfg, s, s', s.sent[a].cause, s.sent[a].snapshot, s.sent[a].snapshot);
      } else {
        assert step == OfPipeline(step.i, Send);
        EnabledIsInRange(cfg, s, step);
        assert PhaseIsLearned(cfg, s, s.phases[step.i]);
        SendKeepsSnapshot(cfg, s, step.i);
        LearnedStaysLearned(cfg, s, s', s.phases[step.i].c, s.phases[step.i].snapshot, s.phases[step.i].snapshot);
      }
    }
  }

  lemma OtherPhaseIsLearned(cfg: Config, s: State, s': State, p: Phase)
    requires Extends(s, s') && PhaseIsLearned(cfg, s, p)
    ensures PhaseIsLearned(cfg, s', p)
  {
    hide IsLearned;
    match p
    case Routing(c, _) => LearnedStaysLearned(cfg, s, s', c, |s.history|, |s'.history|);
    case Sending(c, _, _, snapshot, _) => LearnedStaysLearned(cfg, s, s', c, snapshot, snapshot);
    case _ =>
  }

  lemma SendKeepsSnapshot(cfg: Config, s: State, i: nat)
    requires Enabled(cfg, s, OfPipeline(i, Send)) && i < |s.phases|
    ensures s.phases[i].Sending?
    ensures var s', p := Apply(cfg, s, OfPipeline(i, Send)), s.phases[i];
            |s'.sent| <= |s.sent| + 1
            && (|s'.sent| == |s.sent| + 1 ==>
                s'.sent[|s.sent|].cause == p.c && s'.sent[|s.sent|].snapshot == p.snapshot)
  {
    hide Route.Offer;
  }

  lemma StepAccounts(cfg: Config, s: State, step: Step)
    requires Enabled(cfg, s, step) && Invariant(cfg, s)
    requires forall c | 0 <= c < |s.captures| :: IsAccountedFor(s, c)
    ensures forall c | 0 <= c < |Apply(cfg, s, step).captures| :: IsAccountedFor(Apply(cfg, s, step), c)
  {
    hide Route.Offer, Captured, Registry.IsListing, Route.TargetsFor, Registry.Learn, Registry.Expire, FilterKeeps,
         RegistryIsRight, SentIsRight,
         NothingIsSentTwice, CapturesAreRight, PhaseIsRight, IsInWork;
    var s' := Apply(cfg, s, step);
    forall c | 0 <= c < |s'.captures| ensures IsAccountedFor(s', c) {
      if c == |s.captures| {
        WorkerOf(s', step.i);
      } else {
        assert s'.captures[c] == s.captures[c] && IsAccountedFor(s, c);
        if IsInWork(s, c) {
          var i := Worker(s, c);
          if !s'.phases[i].Idle? { WorkerOf(s', i); }
        }
      }
    }
  }

  lemma Worker(s: State, c: nat) returns (i: nat)
    requires IsInWork(s, c)
    ensures i < |s.phases| && !s.phases[i].Idle? && s.phases[i].c == c
  {
    i :| 0 <= i < |s.phases| && !s.phases[i].Idle? && s.phases[i].c == c;
  }

  lemma WorkerOf(s: State, i: nat)
    requires i < |s.phases| && !s.phases[i].Idle?
    ensures IsInWork(s, s.phases[i].c)
  {
  }

  lemma {:induction false} EveryRunLearnsAndAccounts(cfg: Config, steps: seq<Step>)
    requires cfg.IsSound() && Run(cfg, steps).Some?
    ensures SendersAreLearned(cfg, Run(cfg, steps).value)
    ensures forall c | 0 <= c < |Run(cfg, steps).value.captures| :: IsAccountedFor(Run(cfg, steps).value, c)
  {
    hide Apply, Enabled, Invariant, LearningIsRight, IsAccountedFor, IsLearned;
    if steps != [] {
      var init := steps[..|steps| - 1];
      EveryRunKeepsTheInvariant(cfg, init);
      EveryRunLearnsRight(cfg, init);
      EveryRunLearnsAndAccounts(cfg, init);
      StepLearns(cfg, Run(cfg, init).value, steps[|steps| - 1]);
      StepAccounts(cfg, Run(cfg, init).value, steps[|steps| - 1]);
    }
  }

  /** The sender of a packet entered the registry before the targets of any frame that the packet causes were read. */
  lemma SendersAreLearnedBeforeTheirPacketIsRouted(cfg: Config, steps: seq<Step>, a: nat)
    requires cfg.IsSound() && Run(cfg, steps).Some? && a < |Run(cfg, steps).value.sent|
    ensures var s := Run(cfg, steps).value;
            exists k :: 0 <= k < |EventsBefore(s, s.sent[a])| && s.sent[a].cause < |s.captures|
                        && IsCause(cfg, s.captures[s.sent[a].cause], EventsBefore(s, s.sent[a])[k])
  {
    hide IsCause;
    EveryRunLearnsAndAccounts(cfg, steps);
    var s := Run(cfg, steps).value;
    var x := s.sent[a];
    assert IsLearned(cfg, s, x.cause, x.snapshot);
    var k :| 0 <= k < x.snapshot && k < |s.history| && IsCause(cfg, s.captures[x.cause], s.history[k]);
    assert EventsBefore(s, x)[k] == s.history[k];
  }

  /**
    No packet is lost: one that is in work nowhere was dropped by the filter or has been learned from and fanned
    out.
   */
  lemma NoPacketIsLost(cfg: Config, steps: seq<Step>, c: nat)
    requires cfg.IsSound() && Run(cfg, steps).Some? && c < |Run(cfg, steps).value.captures|
    ensures var s := Run(cfg, steps).value;
            || (exists i :: 0 <= i < |s.phases| && !s.phases[i].Idle? && s.phases[i].c == c)
            || s.captures[c].pkt.layers.None? || s.captures[c].pkt.layers.value.ipv4.None?
            || s.captures[c].pkt.layers.value.udp.None?
            || (c in s.finished && exists k :: 0 <= k < |s.history| && IsCause(cfg, s.captures[c], s.history[k]))
  {
    hide IsCause;
    EveryRunLearnsAndAccounts(cfg, steps);
    var s := Run(cfg, steps).value;
    assert IsAccountedFor(s, c);
    if c in s.finished { assert IsLearned(cfg, s, c, |s.history|); }
  }

  // ---------- no pipeline is stuck ----------

  /**
    What is left of the work on a packet: the steps up to the next registry access of each interface not yet
    dealt with, and then the targets not yet served.
   */
  function Rank(cfg: Config, p: Phase): (int, nat) {
    var n := 2 * |cfg.interfaces|;
    match p
    case Idle => (0, 0)
    case Filtering(_) => (n + 3, 0)
    case Learning(_) => (n + 2, 0)
    case Routing(_, j) => (n - 2 * j + 1, 0)
    case Sending(_, j, targets, _, _) => (n - 2 * j, |targets|)
  }

  predicate Less(a: (int, nat), b: (int, nat)) { 0 <= a.0 && (a.0 < b.0 || (a.0 == b.0 && a.1 < b.1)) }

  lemma EnabledActionExists(cfg: Config, s: State, i: nat) returns (action: Action)
    requires i < |cfg.interfaces| && Invariant(cfg, s) && !s.phases[i].Idle?
    ensures !action.Arrive? && Enabled(cfg, s, OfPipeline(i, action))
  {
    hide Captured, Registry.IsListing, Route.IsTarget, RegistryAt, RegistryIsRight, SentIsRight, NothingIsSentTwice;
    assert PhaseIsRight(cfg, s, i);
    match s.phases[i]
    case Filtering(_) => action := Filter;
    case Learning(_) => action := Learn;
    case Routing(_, j) =>
      if j == |cfg.interfaces| {
        action := Finish;
      } else if cfg.interfaces[j].name == cfg.interfaces[i].name {
        action := SkipOwn;
      } else {
        var infos, keys := Registry.ListingExists(s.clients, cfg.interfaces[j].name);
        action := Snapshot(infos, keys);
      }
    case Sending(_, _, targets, _, _) => action := if targets == [] then NextSink else Send;
  }

  /** Deadlock-freedom: in every reachable state each pipeline that works on a packet can go on by itself. */
  lemma NoPipelineIsStuck(cfg: Config, steps: seq<Step>, i: nat)
    requires cfg.IsSound() && Run(cfg, steps).Some? && i < |cfg.interfaces|
    ensures i < |Run(cfg, steps).value.phases|
    ensures !Run(cfg, steps).value.phases[i].Idle? ==>
              exists action: Action :: !action.Arrive? && Enabled(cfg, Run(cfg, steps).value, OfPipeline(i, action))
  {
    EveryRunKeepsTheInvariant(cfg, steps);
    if !Run(cfg, steps).value.phases[i].Idle? {
      var action := EnabledActionExists(cfg, Run(cfg, steps).value, i);
    }
  }

  /** Each step of a pipeline on its packet leaves less to do. */
  lemma OwnStepLeavesLess(cfg: Config, s: State, i: nat, action: Action)
    requires Enabled(cfg, s, OfPipeline(i, action)) && !action.Arrive? && Invariant(cfg, s)
    ensures i < |s.phases|
    ensures Less(Rank(cfg, Apply(cfg, s, OfPipeline(i, action)).phases[i]), Rank(cfg, s.phases[i]))
  {
    hide Route.Offer, Captured, Registry.IsListing, Route.TargetsFor, Registry.Learn, Registry.Expire, FilterKeeps,
         Registry.Sender,
         RegistryIsRight, SentIsRight, NothingIsSentTwice, Route.IsTarget, RegistryAt;
    assert PhaseIsRight(cfg, s, i);
  }

  /** Whether pipeline i makes a step, and whether it takes a new packet. */
  predicate Moves(steps: seq<Step>, i: nat) { exists k | 0 <= k < |steps| :: steps[k].OfPipeline? && steps[k].i == i }

  predicate TakesNoPacket(steps: seq<Step>, i: nat) {
    forall k | 0 <= k < |steps| :: !(steps[k].OfPipeline? && steps[k].i == i && steps[k].action.Arrive?)
  }

  /**
    Nothing that the other pipelines, the ticker or the clock do adds to the work on a packet, and every step of
    its own pipeline takes away from it: so the pipeline finishes after finitely many steps of its own.
   */
  lemma {:induction false} OnlyOwnStepsCount(cfg: Config, before: seq<Step>, after: seq<Step>, i: nat)
    requires cfg.IsSound() && Run(cfg, before).Some? && Run(cfg, before + after).Some?
    requires i < |cfg.interfaces| && TakesNoPacket(after, i)
    ensures i < |Run(cfg, before).value.phases| && i < |Run(cfg, before + after).value.phases|
    ensures var p, p' := Run(cfg, before).value.phases[i], Run(cfg, before + after).value.phases[i];
            if Moves(after, i) then Less(Rank(cfg, p'), Rank(cfg, p)) else p' == p
    decreases |after|
  {
    hide Apply, Enabled, Invariant, Rank;
    StatesHavePhases(cfg, before);
    if after == [] {
      assert before + after == before;
    } else {
      var init, step := after[..|after| - 1], after[|after| - 1];
      assert (before + after)[..|before + after| - 1] == before + init;
      OnlyOwnStepsCount(cfg, before, init, i);
      EveryRunKeepsTheInvariant(cfg, before + init);
      var s := Run(cfg, before + init).value;
      StepExtends(cfg, s, step);
      if step.OfPipeline? && step.i == i {
        assert step == OfPipeline(i, step.action);
        OwnStepLeavesLess(cfg, s, i, step.action);
        assert after[|after| - 1].i == i;
      }
      MovesNext(init, after, i);
    }
  }

  lemma StatesHavePhases(cfg: Config, steps: seq<Step>)
    requires cfg.IsSound() && Run(cfg, steps).Some?
    ensures |Run(cfg, steps).value.phases| == |cfg.interfaces|
  {
    EveryRunKeepsTheInvariant(cfg, steps);
  }

  lemma MovesNext(init: seq<Step>, steps: seq<Step>, i: nat)
    requires |steps| == |init| + 1 && steps[..|init|] == init
    ensures Moves(steps, i) <==> Moves(init, i) || (steps[|init|].OfPipeline? && steps[|init|].i == i)
  {
    assert forall k | 0 <= k < |init| :: steps[k] == init[k];
  }

  lemma RunNext(cfg: Config, steps: seq<Step>, step: Step)
    requires Run(cfg, steps).Some? && Enabled(cfg, Run(cfg, steps).value, step)
    ensures Run(cfg, steps + [step]) == Some(Apply(cfg, Run(cfg, steps).value, step))
  {
    assert (steps + [step])[..|steps|] == steps;
  }

  /** From every reachable state the steps of a pipeline alone bring its packet to an end. */
  lemma {:induction false} EveryPacketCanFinish(cfg: Config, before: seq<Step>, i: nat) returns (after: seq<Step>)
    requires cfg.IsSound() && Run(cfg, before).Some? && i < |cfg.interfaces|
    ensures Run(cfg, before + after).Some?
    ensures i < |Run(cfg, before + after).value.phases| && Run(cfg, before + after).value.phases[i].Idle?
    ensures TakesNoPacket(after, i) && forall k | 0 <= k < |after| :: after[k].OfPipeline? && after[k].i == i
    decreases if i < |Run(cfg, before).value.phases| then Rank(cfg, Run(cfg, before).value.phases[i]).0 else 0,
              if i < |Run(cfg, before).value.phases| then Rank(cfg, Run(cfg, before).value.phases[i]).1 else 0
  {
    hide Apply, Enabled, Invariant, Rank, Run;
    StatesHavePhases(cfg, before);
    if Run(cfg, before).value.phases[i].Idle? {
      after := [];
      assert before + after == before;
    } else {
      EveryRunKeepsTheInvariant(cfg, before);
      var action := EnabledActionExists(cfg, Run(cfg, before).value, i);
      OwnStepLeavesLess(cfg, Run(cfg, before).value, i, action);
      RunNext(cfg, before, OfPipeline(i, action));
      var rest := EveryPacketCanFinish(cfg, before + [OfPipeline(i, action)], i);
      after := [OfPipeline(i, action)] + rest;
      assert before + [OfPipeline(i, action)] + rest == before + after;
    }
  }

  lemma {:induction false} RunExtends(cfg: Config, before: seq<Step>, after: seq<Step>)
    requires Run(cfg, before).Some? && Run(cfg, before + after).Some?
    ensures Run(cfg, before).value.captures <= Run(cfg, before + after).value.captures
    decreases |after|
  {
    hide Apply, Enabled;
    if after == [] {
      assert before + after == before;
    } else {
      var init := after[..|after| - 1];
      assert (before + after)[..|before + after| - 1] == before + init;
      RunExtends(cfg, before, init);
      StepExtends(cfg, Run(cfg, before + init).value, after[|after| - 1]);
    }
  }

  /** No packet is held up: one that the filter keeps can be fanned out from wherever it is, by its pipeline alone. */
  lemma EveryKeptPacketCanBeFannedOut(cfg: Config, before: seq<Step>, c: nat) returns (after: seq<Step>)
    requires cfg.IsSound() && Run(cfg, before).Some?
    requires c < |Run(cfg, before).value.captures|
    requires var layers := Run(cfg, before).value.captures[c].pkt.layers;
             layers.Some? && layers.value.ipv4.Some? && layers.value.udp.Some?
    ensures Run(cfg, before + after).Some? && c in Run(cfg, before + after).value.finished
  {
    hide Run, RegistryIsRight, SentIsRight, NothingIsSentTwice, Captured, IsLearned, RegistryAt;
    EveryRunKeepsTheInvariant(cfg, before);
    var i := Run(cfg, before).value.captures[c].iface;
    after := EveryPacketCanFinish(cfg, before, i);
    RunExtends(cfg, before, after);
    EveryRunKeepsTheInvariant(cfg, before + after);
    EveryRunLearnsAndAccounts(cfg, before + after);
    var s := Run(cfg, before + after).value;
    assert IsAccountedFor(s, c);
    forall k | 0 <= k < |s.phases| && !s.phases[k].Idle? ensures s.phases[k].c != c {
      assert PhaseIsRight(cfg, s, k);
    }
  }

  /** From arrival to fan-out: a UDP packet that an idle pipeline captures is taken, and can be fanned out. */
  lemma APacketIsFannedOut(cfg: Config, before: seq<Step>, i: nat, pkt: Packet) returns (after: seq<Step>)
    requires cfg.IsSound() && Run(cfg, before).Some? && i < |cfg.interfaces|
    requires i < |Run(cfg, before).value.phases| && Run(cfg, before).value.phases[i].Idle?
    requires Captured(pkt, cfg.interfaces[i].link) && pkt.arrivalInterface == cfg.interfaces[i].name
    requires pkt.layers.Some? && pkt.layers.value.ipv4.Some? && pkt.layers.value.udp.Some?
    ensures after != [] && after[0] == OfPipeline(i, Arrive(pkt)) && Run(cfg, before + after).Some?
    ensures var c, s := |Run(cfg, before).value.captures|, Run(cfg, before + after).value;
            c in s.finished && c < |s.captures| && s.captures[c] == Capture(i, pkt)
  {
    hide Run, Captured;
    var arrival := [OfPipeline(i, Arrive(pkt))];
    RunNext(cfg, before, arrival[0]);
    var c := |Run(cfg, before).value.captures|;
    var rest := EveryKeptPacketCanBeFannedOut(cfg, before + arrival, c);
    after := arrival + rest;
    assert before + arrival + rest == before + after;
    RunExtends(cfg, before + arrival, rest);
  }
}
