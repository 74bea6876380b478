/**
  The sink that writes to an interface (internal/proxy/stages/transmitter.go): any number of
  Write and Close calls and a background loop that reopens the handle, all around one mutex.
 */
module Transmitter {
  import opened Wrappers
  import Backoff

  type Handle = nat

  // ---------- the critical sections ----------

  /** What the mutex protects. */
  datatype Guarded = Guarded(writer: Option<Handle>, reconnecting: bool)

  datatype Event = Opened(h: Handle) | Written(h: Handle, ok: bool) | Closed(h: Handle) | Dropped(h: Handle)
                 | Spawned | Finalized | OpenFailed(l: nat)

  /** Write holds the mutex from the first test to the last assignment. */
  function WriteSection(g: Guarded, ok: bool): (Guarded, seq<Event>) {
    if g.writer.None? then (g, [])
    else if ok then (g, [Written(g.writer.value, true)])
    else if g.reconnecting then (g, [Written(g.writer.value, false)])
    else (Guarded(None, true), [Written(g.writer.value, false), Closed(g.writer.value), Spawned])
  }

  /** The end of the reconnect loop; false when it found the context cancelled and kept the handle to itself. */
  function InstallSection(g: Guarded, cancelled: bool, h: Handle): (Guarded, bool) {
    if cancelled then (g, false) else (Guarded(Some(h), false), true)
  }

  function CloseSection(g: Guarded): (Guarded, Option<Handle>) {
    (Guarded(None, false), g.writer)
  }

  class TransmitterSink {
    var writer: Option<Handle>
    var reconnecting: bool
    var cancelled: bool

    ghost function Guard(): Guarded
      reads this
    {
      Guarded(writer, reconnecting)
    }

    constructor (handle: Handle)
      ensures Guard() == Guarded(Some(handle), false) && !cancelled
    {
      writer, reconnecting, cancelled := Some(handle), false, false;
    }

    method Write(hasPacket: bool, ok: bool) returns (events: seq<Event>)
      modifies this`writer, this`reconnecting
      ensures (Guard(), events) == if hasPacket then WriteSection(old(Guard()), ok) else (old(Guard()), [])
      ensures !hasPacket || old(writer).None? ==> events == [] && Guard() == old(Guard())
      ensures hasPacket && old(writer).Some? ==> events != [] && events[0] == Written(old(writer).value, ok)
      ensures hasPacket && old(writer).Some? && (ok || old(reconnecting)) ==> |events| == 1 && Guard() == old(Guard())
      ensures hasPacket && old(writer).Some? && !ok && !old(reconnecting) ==>
                events[1..] == [Closed(old(writer).value), Spawned] && writer.None? && reconnecting
    {
      events := [];
      if !hasPacket { return; }
      if writer.None? { return; }
      if !ok {
        var staleWriter := writer.value;
        events := events + [Written(staleWriter, false)];
        if !reconnecting {
          reconnecting := true;
          writer := None;
          events := events + [Closed(staleWriter)];
          events := events + [Spawned];
        }
        assert events == if old(reconnecting) then [Written(staleWriter, false)]
                         else [Written(staleWriter, false), Closed(staleWriter), Spawned];
        return;
      }
      events := events + [Written(writer.value, true)];
      assert events == [Written(writer.value, true)];
    }

    method Install(handle: Handle) returns (installed: bool)
      modifies this`writer, this`reconnecting
      ensures (Guard(), installed) == InstallSection(old(Guard()), cancelled, handle)
    {
      if cancelled { return false; }
      writer := Some(handle);
      reconnecting := false;
      return true;
    }

    /** Cancels, takes the writer away under the mutex, and closes it after the mutex is released. */
    method Close() returns (closed: Option<Handle>)
      modifies this
      ensures cancelled
      ensures (Guard(), closed) == CloseSection(old(Guard()))
    {
      cancelled := true;
      var staleWriter := writer;
      writer := None;
      reconnecting := false;
      closed := staleWriter;
    }
  }

  // ---------- all interleavings ----------

  /** A reconnect loop between two of its steps. */
  datatype Loop = Waiting(failures: nat, delay: nat) | Opening(failures: nat, delay: nat) | Holding(h: Handle)

  /** A Close call between two of its steps. */
  datatype Closer = Cancelled | Closing(h: Handle) | Returned

  /** The state of one sink; handles and loops are numbered as they come, closers by their goroutine. */
  datatype State = State(guarded: Guarded, cancelled: bool, loops: map<nat, Loop>, closers: map<nat, Closer>,
                         nOpened: nat, nSpawned: nat, log: seq<Event>)

  datatype Step = Write(ok: bool) | LoopWakes(l: nat) | LoopIsCancelled(l: nat) | LoopFails(l: nat) | LoopOpens(l: nat)
                | LoopLocks(l: nat) | CloseCancels(t: nat) | CloseLocks(t: nat) | CloseCloses(t: nat)

  const INITIAL := State(Guarded(Some(0), false), false, map[], map[], 1, 0, [Opened(0)])

  predicate Enabled(s: State, step: Step) {
    match step
    case Write(_) => true
    case LoopWakes(l) => l in s.loops && s.loops[l].Waiting?
    case LoopIsCancelled(l) => l in s.loops && s.loops[l].Waiting? && s.cancelled
    case LoopFails(l) => l in s.loops && s.loops[l].Opening?
    case LoopOpens(l) => l in s.loops && s.loops[l].Opening?
    case LoopLocks(l) => l in s.loops && s.loops[l].Holding?
    case CloseCancels(t) => t !in s.closers
    case CloseLocks(t) => t in s.closers && s.closers[t].Cancelled?
    case CloseCloses(t) => t in s.closers && s.closers[t].Closing?
  }

  function Apply(s: State, step: Step): State
    requires Enabled(s, step)
  {
    match step
    case Write(ok) =>
      var (g, events) := WriteSection(s.guarded, ok);
      if Spawned in events then
        s.(guarded := g, log := s.log + events, nSpawned := s.nSpawned + 1,
           loops := s.loops[s.nSpawned := Waiting(0, Backoff.INITIAL_DELAY)])
      else s.(guarded := g, log := s.log + events)
    case LoopWakes(l) =>
      s.(loops := s.loops[l := Opening(s.loops[l].failures, s.loops[l].delay)])
    case LoopIsCancelled(l) => s.(loops := s.loops - {l})
    case LoopFails(l) =>
      s.(loops := s.loops[l := Waiting(s.loops[l].failures + 1, Backoff.NextDelay(s.loops[l].delay))],
         log := s.log + [OpenFailed(l)])
    case LoopOpens(l) =>
      s.(loops := s.loops[l := Holding(s.nOpened)], nOpened := s.nOpened + 1, log := s.log + [Opened(s.nOpened)])
    case LoopLocks(l) =>
      var (g, installed) := InstallSection(s.guarded, s.cancelled, s.loops[l].h);
      s.(guarded := g, loops := s.loops - {l}, log := if installed then s.log else s.log + [Dropped(s.loops[l].h)])
    case CloseCancels(t) => s.(cancelled := true, closers := s.closers[t := Closer.Cancelled])
    case CloseLocks(t) =>
      var (g, stale) := CloseSection(s.guarded);
      s.(guarded := g, closers := s.closers[t := if stale.Some? then Closing(stale.value) else Returned],
         log := s.log + [Finalized])
    case CloseCloses(t) =>
      s.(closers := s.closers[t := Returned], log := s.log + [Closed(s.closers[t].h)])
  }

  /** The state after a schedule, if each of its steps was possible. */
  function Run(steps: seq<Step>): Option<State> {
    if steps == [] then Some(INITIAL)
    else
      match Run(steps[..|steps| - 1])
      case None => None
      case Some(s) =>
        var step := steps[|steps| - 1];
        if Enabled(s, step) then Some(Apply(s, step)) else None
  }

  // ---------- where a handle is ----------

  datatype Place = InWriter | InLoop(l: nat) | InCloser(t: nat) | ClosedAt(i: nat) | DroppedAt(i: nat)

  predicate At(s: State, h: Handle, p: Place) {
    match p
    case InWriter => s.guarded.writer == Some(h)
    case InLoop(l) => l in s.loops && s.loops[l] == Holding(h)
    case InCloser(t) => t in s.closers && s.closers[t] == Closing(h)
    case ClosedAt(i) => i < |s.log| && s.log[i] == Closed(h)
    case DroppedAt(i) => i < |s.log| && s.log[i] == Dropped(h)
  }

  ghost predicate HasPlace(s: State, h: Handle) { exists p :: At(s, h, p) }

  /** Every handle ever opened is in exactly one place, which includes having been closed once. */
  ghost predicate Conserved(s: State) {
    && (forall h: Handle | h < s.nOpened :: HasPlace(s, h))
    && (forall h: Handle, p | At(s, h, p) :: h < s.nOpened)
    && (forall h: Handle, p, q | At(s, h, p) && At(s, h, q) :: p == q)
  }

  /** A handle that changes its place keeps exactly one. */
  lemma MovingConserves(s: State, s': State, h: Handle, from: Place, to: Place)
    requires Conserved(s) && At(s, h, from) && s'.nOpened == s.nOpened
    requires forall g: Handle, p :: At(s', g, p) <==> (g == h && p == to) || (At(s, g, p) && !(g == h && p == from))
    ensures Conserved(s')
  {
    forall g: Handle | g < s'.nOpened ensures HasPlace(s', g) {
      assert HasPlace(s, g);
      var p :| At(s, g, p);
      assert At(s', g, if g == h then to else p);
    }
  }

  lemma OpeningConserves(s: State, s': State, to: Place)
    requires Conserved(s) && s'.nOpened == s.nOpened + 1
    requires forall g: Handle, p :: At(s', g, p) <==> (g == s.nOpened && p == to) || At(s, g, p)
    ensures Conserved(s')
  {
    assert forall p :: !At(s, s.nOpened, p);
    forall g: Handle | g < s'.nOpened ensures HasPlace(s', g) {
      if g == s.nOpened {
        assert At(s', g, to);
      } else {
        assert HasPlace(s, g);
        var p :| At(s, g, p);
        assert At(s', g, p);
      }
    }
  }

  lemma StayingConserves(s: State, s': State)
    requires Conserved(s) && s'.nOpened == s.nOpened
    requires forall g: Handle, p :: At(s', g, p) <==> At(s, g, p)
    ensures Conserved(s')
  {
    forall g: Handle | g < s'.nOpened ensures HasPlace(s', g) {
      assert HasPlace(s, g);
      var p :| At(s, g, p);
      assert At(s', g, p);
    }
  }

  // ---------- the invariant ----------

  /** How the shared fields, the loops and the cancellation fit together. */
  predicate Consistent(s: State) {
    && (forall l, m | l in s.loops && m in s.loops :: l == m)
    && (s.guarded.writer.Some? ==> s.loops == map[] && !s.guarded.reconnecting)
    && (!s.cancelled ==> s.closers == map[] && s.guarded.reconnecting == s.guarded.writer.None?)
    && (!s.cancelled && s.guarded.writer.None? ==> exists l :: l in s.loops)
    && (forall l | l in s.loops :: match s.loops[l]
          case Waiting(k, delay) => delay == Backoff.Delay(k)
          case Opening(k, delay) => delay == Backoff.Delay(k)
          case Holding(_) => true)
    && (forall t | t in s.closers && !s.closers[t].Cancelled? :: Finalized in s.log)
  }

  /** What the log says about the present. */
  predicate LogIsCurrent(s: State) {
    && (Finalized in s.log ==> s.cancelled && s.guarded == Guarded(None, false))
    && ((exists i | 0 <= i < |s.log| :: s.log[i].Dropped?) ==>
        s.cancelled && s.guarded.writer.None? && s.loops == map[])
  }

  /** What the log never contains. */
  predicate LogIsSafe(log: seq<Event>) {
    && (forall i, j | 0 <= i < j < |log| && log[i].Closed? && log[j].Written? :: log[i].h != log[j].h)
    && (forall i, j | 0 <= i < j < |log| && log[i].Closed? && log[j].Closed? :: log[i].h != log[j].h)
    && (forall i, j | 0 <= i < j < |log| && log[i].Dropped? :: !log[j].Dropped?)
    && (forall i, j | 0 <= i < j < |log| && log[i].Finalized? :: !log[j].Written? && !log[j].Spawned?)
  }

  // ---------- every step keeps it ----------

  lemma WriteConserves(s: State, ok: bool)
    requires Conserved(s) && Consistent(s)
    ensures Conserved(Apply(s, Write(ok)))
  {
    hide Conserved;
    var s' := Apply(s, Write(ok));
    if s.guarded.writer.Some? && !ok {
      var h := s.guarded.writer.value;
      assert s'.log == s.log + [Written(h, false), Closed(h), Spawned];
      assert s'.loops == map[s.nSpawned := Waiting(0, Backoff.INITIAL_DELAY)];
      MovingConserves(s, s', h, InWriter, ClosedAt(|s.log| + 1));
    } else {
      StayingConserves(s, s');
    }
  }

  lemma StepConserves(s: State, step: Step)
    requires Conserved(s) && Consistent(s) && Enabled(s, step)
    ensures Conserved(Apply(s, step))
  {
    hide Conserved;
    var s' := Apply(s, step);
    match step
    case Write(ok) => WriteConserves(s, ok);
    case LoopWakes(l) => StayingConserves(s, s');
    case LoopIsCancelled(l) => StayingConserves(s, s');
    case LoopFails(l) => StayingConserves(s, s');
    case LoopOpens(l) => OpeningConserves(s, s', InLoop(l));
    case LoopLocks(l) =>
      MovingConserves(s, s', s.loops[l].h, InLoop(l), if s.cancelled then DroppedAt(|s.log|) else InWriter);
    case CloseCancels(t) => StayingConserves(s, s');
    case CloseLocks(t) =>
      if s.guarded.writer.Some? {
        MovingConserves(s, s', s.guarded.writer.value, InWriter, InCloser(t));
      } else {
        StayingConserves(s, s');
      }
    case CloseCloses(t) =>
      MovingConserves(s, s', s.closers[t].h, InCloser(t), ClosedAt(|s.log|));
  }

  lemma StepIsConsistent(s: State, step: Step)
    requires Consistent(s) && LogIsCurrent(s) && Enabled(s, step)
    ensures Consistent(Apply(s, step))
  {
    var s' := Apply(s, step);
    match step
    case Write(ok) =>
      if s.guarded.writer.Some? && !ok { assert s.nSpawned in s'.loops; }
    case LoopWakes(l) => assert l in s'.loops;
    case LoopFails(l) => assert l in s'.loops;
    case LoopOpens(l) => assert l in s'.loops;
    case CloseLocks(t) => assert s'.log[|s.log|] == Finalized;
    case _ =>
  }

  lemma StepKeepsLogCurrent(s: State, step: Step)
    requires Consistent(s) && LogIsCurrent(s) && Enabled(s, step)
    ensures LogIsCurrent(Apply(s, step))
  {
  }

  /** What an event must not find in the log. */
  predicate MayFollow(log: seq<Event>, e: Event) {
    && (e.Closed? || e.Written? ==> Closed(e.h) !in log)
    && (e.Dropped? ==> forall i | 0 <= i < |log| :: !log[i].Dropped?)
    && (e.Written? || e.Spawned? ==> Finalized !in log)
  }

  lemma AppendIsSafe(log: seq<Event>, e: Event)
    requires LogIsSafe(log) && MayFollow(log, e)
    ensures LogIsSafe(log + [e])
  {
    var log' := log + [e];
    assert log'[|log|] == e && forall i | 0 <= i < |log| :: log'[i] == log[i];
  }

  lemma WriterIsNotClosed(s: State, h: Handle, p: Place)
    requires Conserved(s) && At(s, h, p) && !p.ClosedAt?
    ensures Closed(h) !in s.log
  {
    forall i | 0 <= i < |s.log| ensures s.log[i] != Closed(h) { PlaceIsUnique(s, h, p, ClosedAt(i)); }
  }

  lemma PlaceIsUnique(s: State, h: Handle, p: Place, q: Place)
    requires Conserved(s) && At(s, h, p) && p != q
    ensures !At(s, h, q)
  {
  }

  lemma StepIsSafe(s: State, step: Step)
    requires Conserved(s) && Consistent(s) && LogIsCurrent(s) && LogIsSafe(s.log) && Enabled(s, step)
    ensures LogIsSafe(Apply(s, step).log)
  {
    match step
    case Write(ok) =>
      if s.guarded.writer.Some? {
        var h := s.guarded.writer.value;
        WriterIsNotClosed(s, h, InWriter);
        AppendIsSafe(s.log, Written(h, ok));
        if !ok {
          var log := s.log + [Written(h, false)];
          AppendIsSafe(log, Closed(h));
          AppendIsSafe(log + [Closed(h)], Spawned);
          assert Apply(s, step).log == log + [Closed(h)] + [Spawned];
        }
      } else {
        assert s.log + [] == s.log;
      }
    case LoopOpens(l) => AppendIsSafe(s.log, Opened(s.nOpened));
    case LoopLocks(l) =>
      if s.cancelled { AppendIsSafe(s.log, Dropped(s.loops[l].h)); }
    case CloseLocks(t) => AppendIsSafe(s.log, Finalized);
    case CloseCloses(t) =>
      WriterIsNotClosed(s, s.closers[t].h, InCloser(t));
      AppendIsSafe(s.log, Closed(s.closers[t].h));
    case _ =>
  }

  ghost predicate Invariant(s: State) {
    Conserved(s) && Consistent(s) && LogIsCurrent(s) && LogIsSafe(s.log)
  }

  lemma {:induction false} EveryRunKeepsTheInvariant(steps: seq<Step>)
    requires Run(steps).Some?
    ensures Invariant(Run(steps).value)
  {
    if steps == [] {
      forall h: Handle, p | At(INITIAL, h, p) ensures h == 0 && p == InWriter {}
      assert At(INITIAL, 0, InWriter);
      assert HasPlace(INITIAL, 0);
    } else {
      var s, step := Run(steps[..|steps| - 1]).value, steps[|steps| - 1];
      EveryRunKeepsTheInvariant(steps[..|steps| - 1]);
      StepConserves(s, step);
      StepIsConsistent(s, step);
      StepKeepsLogCurrent(s, step);
      StepIsSafe(s, step);
    }
  }

  /** What a step adds to the log. */
  function Logged(s: State, step: Step): seq<Event>
    requires Enabled(s, step)
  {
    match step
    case Write(ok) => WriteSection(s.guarded, ok).1
    case LoopFails(m) => [OpenFailed(m)]
    case LoopOpens(_) => [Opened(s.nOpened)]
    case LoopLocks(m) => if s.cancelled then [Dropped(s.loops[m].h)] else []
    case CloseLocks(_) => [Finalized]
    case CloseCloses(t) => [Closed(s.closers[t].h)]
    case _ => []
  }

  lemma StepLogs(s: State, step: Step)
    requires Enabled(s, step)
    ensures Apply(s, step).log == s.log + Logged(s, step)
    ensures forall l :: OpenFailed(l) in Logged(s, step) ==> step == LoopFails(l)
  {
  }

  // ---------- what is written ----------

  function Writes(log: seq<Event>): seq<Event> {
    if log == [] then []
    else Writes(log[..|log| - 1]) + if log[|log| - 1].Written? then [log[|log| - 1]] else []
  }

  /** The writes that a schedule asks for: each Write step that finds a writer, with this writer and its outcome. */
  function Attempts(steps: seq<Step>): seq<Event> {
    if steps == [] then []
    else
      var init, step := steps[..|steps| - 1], steps[|steps| - 1];
      Attempts(init)
      + if step.Write? && Run(init).Some? && Run(init).value.guarded.writer.Some?
        then [Written(Run(init).value.guarded.writer.value, step.ok)] else []
  }

  lemma {:induction false} WritesAppend(log: seq<Event>, more: seq<Event>)
    ensures Writes(log + more) == Writes(log) + Writes(more)
    decreases |more|
  {
    if more == [] {
      assert log + more == log;
    } else {
      assert (log + more)[..|log + more| - 1] == log + more[..|more| - 1];
      WritesAppend(log, more[..|more| - 1]);
    }
  }

  lemma WritesOfStep(s: State, step: Step)
    requires Enabled(s, step)
    ensures Writes(Logged(s, step))
         == if step.Write? && s.guarded.writer.Some? then [Written(s.guarded.writer.value, step.ok)] else []
  {
    var more := Logged(s, step);
    if more != [] {
      WritesOfOne(more[0]);
      assert more == [more[0]] + more[1..];
      WritesAppend([more[0]], more[1..]);
      NoWrites(more[1..]);
    }
  }

  lemma WritesOfOne(e: Event)
    ensures Writes([e]) == if e.Written? then [e] else []
  {
    assert [e][..0] == [];
  }

  lemma NoWrites(more: seq<Event>)
    requires forall i | 0 <= i < |more| :: !more[i].Written?
    ensures Writes(more) == []
  {
  }

  /** In every run exactly the packets that find a writer are written, each once, to that writer and in their order. */
  lemma {:induction false} EveryWriteIsDone(steps: seq<Step>)
    requires Run(steps).Some?
    ensures Writes(Run(steps).value.log) == Attempts(steps)
  {
    hide Apply, Enabled, Logged;
    if steps == [] {
      assert INITIAL.log == [Opened(0)] && INITIAL.log[..0] == [];
      assert Writes(INITIAL.log[..0]) == [];
    } else {
      var init, step := steps[..|steps| - 1], steps[|steps| - 1];
      var s := Run(init).value;
      EveryWriteIsDone(init);
      StepLogs(s, step);
      WritesAppend(s.log, Logged(s, step));
      WritesOfStep(s, step);
    }
  }

  // ---------- theorems ----------

  /**
    In every interleaving no handle is written after it was closed and none is closed twice; while
    the sink is not cancelled exactly one loop runs when the writer is gone, and none when it is there.
   */
  lemma HandlesAreUsedSafely(steps: seq<Step>)
    requires Run(steps).Some?
    ensures var s := Run(steps).value;
            && (forall i, j | 0 <= i < j < |s.log| && s.log[i].Closed? && (s.log[j].Written? || s.log[j].Closed?) ::
                  s.log[i].h != s.log[j].h)
            && (forall l, m | l in s.loops && m in s.loops :: l == m)
            && (!s.cancelled ==> (s.guarded.writer.None? <==> exists l :: l in s.loops))
  {
    EveryRunKeepsTheInvariant(steps);
  }

  /** Every handle ever opened has exactly one place, and at most one handle of a sink is ever dropped. */
  lemma HandlesAreConserved(steps: seq<Step>, h: Handle)
    requires Run(steps).Some?
    ensures h < Run(steps).value.nOpened <==> exists p :: At(Run(steps).value, h, p)
    ensures forall p, q | At(Run(steps).value, h, p) && At(Run(steps).value, h, q) :: p == q
    ensures forall g: Handle, i, j | At(Run(steps).value, g, DroppedAt(i)) && At(Run(steps).value, h, DroppedAt(j)) ::
            g == h && i == j
  {
    EveryRunKeepsTheInvariant(steps);
    var s := Run(steps).value;
    if h < s.nOpened { assert HasPlace(s, h); }
  }

  lemma RunNext(steps: seq<Step>, step: Step)
    requires Run(steps).Some? && Enabled(Run(steps).value, step)
    ensures Run(steps + [step]) == Some(Apply(Run(steps).value, step))
  {
    assert (steps + [step])[..|steps|] == steps;
  }

  /** Some Close has come through its critical section. */
  predicate IsClosed(steps: seq<Step>) { exists k | 0 <= k < |steps| :: steps[k].CloseLocks? }

  lemma {:induction false} ClosedIsLogged(steps: seq<Step>)
    requires Run(steps).Some?
    ensures IsClosed(steps) <==> Finalized in Run(steps).value.log
  {
    hide Apply, Enabled, Logged;
    if steps == [] {
      assert INITIAL.log == [Opened(0)];
    } else {
      var init, step := steps[..|steps| - 1], steps[|steps| - 1];
      ClosedIsLogged(init);
      StepLogs(Run(init).value, step);
      OnlyCloseFinalizes(Run(init).value, step);
      ClosedNext(init, steps);
    }
  }

  lemma OnlyCloseFinalizes(s: State, step: Step)
    requires Enabled(s, step)
    ensures Finalized in Logged(s, step) <==> step.CloseLocks?
  {
  }

  lemma ClosedNext(init: seq<Step>, steps: seq<Step>)
    requires |steps| == |init| + 1 && steps[..|init|] == init
    ensures IsClosed(steps) <==> IsClosed(init) || steps[|init|].CloseLocks?
  {
    assert forall k | 0 <= k < |init| :: steps[k] == init[k];
  }

  /**
    Close is final: from its critical section on the writer is nil, nothing is written and no
    loop is started, whatever runs afterwards.
   */
  lemma {:induction false} CloseIsFinal(before: seq<Step>, after: seq<Step>)
    requires Run(before + after).Some? && Run(before).Some? && IsClosed(before)
    ensures var s, s' := Run(before).value, Run(before + after).value;
            && s'.guarded == Guarded(None, false) && s'.cancelled
            && Attempts(before + after) == Attempts(before)
            && s'.nSpawned == s.nSpawned && s'.loops.Keys <= s.loops.Keys
            && s.log <= s'.log
            && forall j | |s.log| <= j < |s'.log| :: !s'.log[j].Written? && !s'.log[j].Spawned?
    decreases |after|
  {
    hide Apply, Enabled, Logged, Invariant;
    EveryRunKeepsTheInvariant(before);
    ClosedIsCurrent(before);
    if after == [] {
      assert before + after == before;
    } else {
      var init, step := after[..|after| - 1], after[|after| - 1];
      assert (before + after)[..|before + after| - 1] == before + init;
      CloseIsFinal(before, init);
      StaysClosed(Run(before + init).value, step);
      StepLogs(Run(before + init).value, step);
    }
  }

  /** A Close call comes to its end by its own steps, whatever the state in which it starts. */
  lemma CloseReturns(before: seq<Step>, t: nat) returns (after: seq<Step>)
    requires Run(before).Some? && t !in Run(before).value.closers
    ensures Run(before + after).Some? && IsClosed(before + after) && |after| <= 3
    ensures t in Run(before + after).value.closers && Run(before + after).value.closers[t].Returned?
    ensures Run(before).value.guarded.writer.Some? ==>
            Closed(Run(before).value.guarded.writer.value) in Run(before + after).value.log
  {
    RunNext(before, CloseCancels(t));
    RunNext(before + [CloseCancels(t)], CloseLocks(t));
    after := [CloseCancels(t), CloseLocks(t)];
    assert before + [CloseCancels(t)] + [CloseLocks(t)] == before + after;
    assert (before + after)[|before| + 1] == CloseLocks(t);
    if Run(before).value.guarded.writer.Some? {
      RunNext(before + after, CloseCloses(t));
      assert before + after + [CloseCloses(t)] == before + (after + [CloseCloses(t)]);
      after := after + [CloseCloses(t)];
      var s := Run(before + after).value;
      assert s.log[|s.log| - 1] == Closed(Run(before).value.guarded.writer.value);
    }
  }

  lemma ClosedIsCurrent(steps: seq<Step>)
    requires Run(steps).Some? && IsClosed(steps)
    ensures Run(steps).value.guarded == Guarded(None, false) && Run(steps).value.cancelled
  {
    EveryRunKeepsTheInvariant(steps);
    ClosedIsLogged(steps);
  }

  lemma StaysClosed(s: State, step: Step)
    requires Enabled(s, step) && s.guarded == Guarded(None, false) && s.cancelled
    ensures var s' := Apply(s, step);
            s'.guarded == s.guarded && s'.cancelled && s'.nSpawned == s.nSpawned && s'.loops.Keys <= s.loops.Keys
    ensures forall e | e in Logged(s, step) :: !e.Written? && !e.Spawned?
  {
  }

  // ---------- backoff ----------

  /** How often a loop has failed to open a handle. */
  function Failures(log: seq<Event>, l: nat): nat {
    if log == [] then 0
    else Failures(log[..|log| - 1], l) + if log[|log| - 1] == OpenFailed(l) then 1 else 0
  }

  lemma {:induction false} FailuresAppend(log: seq<Event>, more: seq<Event>, l: nat)
    ensures Failures(log + more, l) == Failures(log, l) + Failures(more, l)
    decreases |more|
  {
    if more == [] {
      assert log + more == log;
    } else {
      assert (log + more)[..|log + more| - 1] == log + more[..|more| - 1];
      FailuresAppend(log, more[..|more| - 1], l);
    }
  }

  /** Each loop counts its own failures, and a loop that was not started has none. */
  ghost predicate Counted(s: State) {
    && (forall l | l in s.loops :: l < s.nSpawned && match s.loops[l]
          case Waiting(k, _) => k == Failures(s.log, l)
          case Opening(k, _) => k == Failures(s.log, l)
          case Holding(_) => true)
    && (forall l: nat | l >= s.nSpawned :: Failures(s.log, l) == 0)
  }

  lemma NoFailures(events: seq<Event>, l: nat)
    requires OpenFailed(l) !in events
    ensures Failures(events, l) == 0
  {
  }

  lemma OnlyAFailureIsCounted(s: State, step: Step, l: nat)
    requires Enabled(s, step)
    ensures Failures(Apply(s, step).log, l) == Failures(s.log, l) + if step == LoopFails(l) then 1 else 0
  {
    hide Apply, Enabled;
    var more := Logged(s, step);
    StepLogs(s, step);
    FailuresAppend(s.log, more, l);
    if step == LoopFails(l) {
      assert more[..0] == [] && Failures(more[..0], l) == 0;
    } else {
      NoFailures(more, l);
    }
  }

  lemma StepKeepsCounts(s: State, step: Step)
    requires Counted(s) && Enabled(s, step)
    ensures Counted(Apply(s, step))
  {
    hide Failures;
    forall l: nat
      ensures Failures(Apply(s, step).log, l) == Failures(s.log, l) + if step == LoopFails(l) then 1 else 0
    {
      OnlyAFailureIsCounted(s, step, l);
    }
  }

  /** How many steps of a schedule are failed attempts of loop l. */
  function FailedAttempts(steps: seq<Step>, l: nat): nat {
    if steps == [] then 0
    else FailedAttempts(steps[..|steps| - 1], l) + if steps[|steps| - 1] == LoopFails(l) then 1 else 0
  }

  lemma {:induction false} FailuresAreAttempts(steps: seq<Step>, l: nat)
    requires Run(steps).Some?
    ensures Failures(Run(steps).value.log, l) == FailedAttempts(steps, l)
  {
    hide Apply, Enabled;
    if steps == [] {
      NoFailures(INITIAL.log, l);
    } else {
      FailuresAreAttempts(steps[..|steps| - 1], l);
      OnlyAFailureIsCounted(Run(steps[..|steps| - 1]).value, steps[|steps| - 1], l);
    }
  }

  /**
    A waiting loop waits as long as the number of times that it failed to open a handle demands:
    min(2^k, 30) seconds after k failures.
   */
  lemma LoopsBackOff(steps: seq<Step>, l: nat)
    requires Run(steps).Some? && l in Run(steps).value.loops && Run(steps).value.loops[l].Waiting?
    ensures Run(steps).value.loops[l].delay == Backoff.Delay(FailedAttempts(steps, l))
  {
    EveryRunKeepsTheInvariant(steps);
    EveryRunCounts(steps);
    FailuresAreAttempts(steps, l);
  }

  lemma {:induction false} EveryRunCounts(steps: seq<Step>)
    requires Run(steps).Some?
    ensures Counted(Run(steps).value)
  {
    if steps == [] {
      forall l ensures Failures(INITIAL.log, l) == 0 { NoFailures(INITIAL.log, l); }
    } else {
      EveryRunCounts(steps[..|steps| - 1]);
      StepKeepsCounts(Run(steps[..|steps| - 1]).value, steps[|steps| - 1]);
    }
  }

  // ---------- when a handle is dropped ----------

  /** Step k is a loop that comes to the mutex with handle h after the cancellation. */
  predicate DropsAt(steps: seq<Step>, k: int, h: Handle) {
    && 0 <= k < |steps| && steps[k].LoopLocks? && Run(steps[..k]).Some?
    && (var s := Run(steps[..k]).value; s.cancelled && steps[k].l in s.loops && s.loops[steps[k].l] == Holding(h))
  }

  lemma OnlyACancelledLoopDrops(s: State, step: Step, h: Handle)
    requires Enabled(s, step)
    ensures Dropped(h) in Logged(s, step) <==> step.LoopLocks? && s.cancelled && s.loops[step.l] == Holding(h)
  {
  }

  /** A handle is dropped exactly by a loop that holds it when it finds the sink cancelled. */
  lemma {:induction false} DroppedIff(steps: seq<Step>, h: Handle)
    requires Run(steps).Some?
    ensures Dropped(h) in Run(steps).value.log <==> exists k :: DropsAt(steps, k, h)
  {
    hide Apply, Logged, Enabled;
    if steps == [] {
      assert INITIAL.log == [Opened(0)];
    } else {
      var init, step := steps[..|steps| - 1], steps[|steps| - 1];
      var s := Run(init).value;
      DroppedIff(init, h);
      StepLogs(s, step);
      assert Dropped(h) in Run(steps).value.log <==> Dropped(h) in s.log || Dropped(h) in Logged(s, step);
      OnlyACancelledLoopDrops(s, step, h);
      if step.LoopLocks? { LocksAHeldHandle(s, step); }
      DropsBefore(init, steps, h);
      assert steps[..|init|] == init;
      assert DropsAt(steps, |init|, h) <==> Dropped(h) in Logged(s, step);
    }
  }

  lemma LocksAHeldHandle(s: State, step: Step)
    requires Enabled(s, step) && step.LoopLocks?
    ensures step.l in s.loops
  {
  }

  lemma DropsBefore(init: seq<Step>, steps: seq<Step>, h: Handle)
    requires |steps| == |init| + 1 && steps[..|init|] == init
    ensures (exists k :: DropsAt(steps, k, h)) <==> (exists k :: DropsAt(init, k, h)) || DropsAt(steps, |init|, h)
  {
    hide Run;
    if k :| DropsAt(init, k, h) {
      assert init[..k] == steps[..k] && DropsAt(steps, k, h);
    }
    if k :| DropsAt(steps, k, h) {
      assert k < |init| ==> init[..k] == steps[..k] && DropsAt(init, k, h);
    }
  }

  const DROPPING_RUN := [Write(false), LoopWakes(0), LoopOpens(0), CloseCancels(0), LoopLocks(0)]

  /** One such run: the loop opens handle 1, Close cancels, and the loop keeps the handle to itself. */
  lemma AHandleCanBeDropped()
    ensures Run(DROPPING_RUN).Some? && Run(DROPPING_RUN).value.loops == map[]
    ensures Dropped(1) in Run(DROPPING_RUN).value.log && Closed(1) !in Run(DROPPING_RUN).value.log
  {
    var opening := [Write(false), LoopWakes(0), LoopOpens(0)];
    OpensHandleOne();
    RunNext(opening, CloseCancels(0));
    RunNext(opening + [CloseCancels(0)], LoopLocks(0));
    assert opening + [CloseCancels(0)] + [LoopLocks(0)] == DROPPING_RUN;
    var before, s := Run(opening).value, Run(DROPPING_RUN).value;
    assert s.log == before.log + [Dropped(1)];
    assert s.log[|before.log|] == Dropped(1);
  }

  lemma OpensHandleOne()
    ensures Run([Write(false), LoopWakes(0), LoopOpens(0)]).Some?
    ensures var s := Run([Write(false), LoopWakes(0), LoopOpens(0)]).value;
            && s.loops == map[0 := Holding(1)] && s.closers == map[] && !s.cancelled && Closed(1) !in s.log
  {
    RunNext([], Write(false));
    assert [] + [Write(false)] == [Write(false)];
    assert Run([Write(false)]).value.loops == map[0 := Waiting(0, 1)];
    RunNext([Write(false)], LoopWakes(0));
    assert [Write(false)] + [LoopWakes(0)] == [Write(false), LoopWakes(0)];
    assert Run([Write(false), LoopWakes(0)]).value.loops == map[0 := Opening(0, 1)];
    RunNext([Write(false), LoopWakes(0)], LoopOpens(0));
    assert [Write(false), LoopWakes(0)] + [LoopOpens(0)] == [Write(false), LoopWakes(0), LoopOpens(0)];
  }

  predicate NoWriteFails(steps: seq<Step>) { forall k | 0 <= k < |steps| :: !steps[k].Write? || steps[k].ok }

  predicate HasDropped(s: State) { exists i | 0 <= i < |s.log| :: s.log[i].Dropped? }

  /** From here, Close can be called so that a handle is lost although no write fails. */
  ghost predicate CloseMayDrop(before: seq<Step>) {
    exists after :: NoWriteFails(after) && Run(before + after).Some? && HasDropped(Run(before + after).value)
  }

  /**
    When a caller can lose a handle: as long as no write fails, a sink that is not cancelled can come to drop
    a handle if and only if it has no writer at the moment.
   */
  lemma CloseMayDropIff(before: seq<Step>)
    requires Run(before).Some? && !Run(before).value.cancelled
    ensures CloseMayDrop(before) <==> Run(before).value.guarded.writer.None?
  {
    EveryRunKeepsTheInvariant(before);
    if Run(before).value.guarded.writer.None? {
      var after, l := LoopOpensAgain(before);
      DropAfterOpening(before + after, l);
      assert before + after + [CloseCancels(0), LoopLocks(l)] == before + (after + [CloseCancels(0), LoopLocks(l)]);
    } else {
      forall after | NoWriteFails(after) && Run(before + after).Some? ensures !HasDropped(Run(before + after).value) {
        AWriterIsNotDropped(before, after);
      }
    }
  }

  /** Without that proviso every sink that is not cancelled can come to drop one: a failed write takes its writer. */
  lemma AFailedWriteMayDrop(before: seq<Step>) returns (after: seq<Step>)
    requires Run(before).Some? && !Run(before).value.cancelled
    ensures Run(before + after).Some? && HasDropped(Run(before + after).value)
  {
    hide HasDropped, Enabled, Apply, Run;
    var failed := FailAWrite(before);
    var opening, l := LoopOpensAgain(before + failed);
    DropAfterOpening(before + failed + opening, l);
    after := failed + opening + [CloseCancels(0), LoopLocks(l)];
    assert before + failed + opening + [CloseCancels(0), LoopLocks(l)] == before + after;
  }

  lemma FailAWrite(before: seq<Step>) returns (failed: seq<Step>)
    requires Run(before).Some? && !Run(before).value.cancelled
    ensures Run(before + failed).Some?
    ensures !Run(before + failed).value.cancelled && Run(before + failed).value.guarded.writer.None?
  {
    if Run(before).value.guarded.writer.None? {
      failed := [];
      assert before + [] == before;
    } else {
      failed := [Write(false)];
      EveryRunKeepsTheInvariant(before);
      RunNext(before, Write(false));
    }
  }

  lemma {:induction false} AWriterIsNotDropped(before: seq<Step>, after: seq<Step>)
    requires NoWriteFails(after) && Run(before + after).Some?
    requires Run(before).Some? && !Run(before).value.cancelled && Run(before).value.guarded.writer.Some?
    ensures !HasDropped(Run(before + after).value) && Run(before + after).value.loops == map[]
    decreases |after|
  {
    if after == [] {
      assert before + after == before;
      EveryRunKeepsTheInvariant(before);
    } else {
      var init := after[..|after| - 1];
      assert (before + after)[..|before + after| - 1] == before + init;
      AWriterIsNotDropped(before, init);
      NothingToDrop(Run(before + init).value, after[|after| - 1]);
    }
  }

  lemma NothingToDrop(s: State, step: Step)
    requires s.loops == map[] && !HasDropped(s) && Enabled(s, step) && (step.Write? ==> step.ok)
    ensures Apply(s, step).loops == map[] && !HasDropped(Apply(s, step))
  {
    StepLogs(s, step);
  }

  /** The loop of a sink without a writer can open a handle, whatever it is doing. */
  lemma LoopOpensAgain(before: seq<Step>) returns (after: seq<Step>, l: nat)
    requires Run(before).Some? && !Run(before).value.cancelled && Run(before).value.guarded.writer.None?
    ensures NoWriteFails(after) && Run(before + after).Some?
    ensures var s := Run(before + after).value;
            !s.cancelled && s.closers == map[] && l in s.loops && s.loops[l].Holding?
  {
    EveryRunKeepsTheInvariant(before);
    var s := Run(before).value;
    l :| l in s.loops;
    after := [];
    assert before + after == before;
    if s.loops[l].Waiting? {
      RunNext(before, LoopWakes(l));
      after := [LoopWakes(l)];
    }
    if !s.loops[l].Holding? {
      RunNext(before + after, LoopOpens(l));
      assert before + after + [LoopOpens(l)] == before + (after + [LoopOpens(l)]);
      after := after + [LoopOpens(l)];
    }
  }

  lemma DropAfterOpening(steps: seq<Step>, l: nat)
    requires Run(steps).Some?
    requires var s := Run(steps).value; !s.cancelled && s.closers == map[] && l in s.loops && s.loops[l].Holding?
    ensures Run(steps + [CloseCancels(0), LoopLocks(l)]).Some?
    ensures HasDropped(Run(steps + [CloseCancels(0), LoopLocks(l)]).value)
  {
    var s := Run(steps).value;
    RunNext(steps, CloseCancels(0));
    RunNext(steps + [CloseCancels(0)], LoopLocks(l));
    assert steps + [CloseCancels(0)] + [LoopLocks(l)] == steps + [CloseCancels(0), LoopLocks(l)];
    var s' := Run(steps + [CloseCancels(0), LoopLocks(l)]).value;
    assert s'.log[|s.log|] == Dropped(s.loops[l].h);
  }

  /** Recovery is possible: a sink that is not cancelled can get a writer again from wherever it is. */
  lemma AWriterCanComeBack(before: seq<Step>) returns (after: seq<Step>)
    requires Run(before).Some? && !Run(before).value.cancelled
    ensures NoWriteFails(after) && Run(before + after).Some?
    ensures Run(before + after).value.guarded.writer.Some? && !Run(before + after).value.cancelled
  {
    if Run(before).value.guarded.writer.Some? {
      after := [];
      assert before + after == before;
    } else {
      var opening, l := LoopOpensAgain(before);
      RunNext(before + opening, LoopLocks(l));
      after := opening + [LoopLocks(l)];
      assert before + opening + [LoopLocks(l)] == before + after;
    }
  }

  /**
    When a sink was closed and nothing is under way any more, every handle it opened was closed, but for one
    that a loop held when it found the sink cancelled.
   */
  lemma ClosedSinkHasClosedItsHandles(steps: seq<Step>, h: Handle)
    requires Run(steps).Some? && h < Run(steps).value.nOpened
    requires var s := Run(steps).value;
             IsClosed(steps) && s.loops == map[] && forall t | t in s.closers :: s.closers[t].Returned?
    ensures Closed(h) in Run(steps).value.log <==> !exists k :: DropsAt(steps, k, h)
  {
    var s := Run(steps).value;
    EveryRunKeepsTheInvariant(steps);
    ClosedIsLogged(steps);
    DroppedIff(steps, h);
    assert HasPlace(s, h);
    var p :| At(s, h, p);
    if Closed(h) in s.log {
      var i :| 0 <= i < |s.log| && s.log[i] == Closed(h);
      forall j | 0 <= j < |s.log| ensures s.log[j] != Dropped(h) { PlaceIsUnique(s, h, ClosedAt(i), DroppedAt(j)); }
    }
  }
}
