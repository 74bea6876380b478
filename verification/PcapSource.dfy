/**
  Capturing from an interface that may disappear (internal/proxy/stages/pcap_source.go): a monitor
  that watches the interface, a reader that reopens the handle, and a one-slot signal between them.
 */
module PcapSources {
  import opened Wrappers
  import opened DeviceManagers
  import Backoff

  // ---------- the code ----------

  /** One tick of the monitor: a send into a full slot is dropped, so the slot is full either way. */
  function MonitorTick(wasDown: bool, signal: bool, available: bool): (bool, bool) {
    if !available then (true, signal) else (false, signal || wasDown)
  }

  /** What ends one wait of the reconnect loop. */
  datatype Wake = ContextDone | TimerFired(answer: Activation)

  /** The handles that were opened and found unusable during some waits; each is closed again. */
  function Rejected(wakes: seq<Wake>, openBsd: bool): seq<Handle> {
    if wakes == [] then []
    else
      var last := wakes[|wakes| - 1];
      Rejected(wakes[..|wakes| - 1], openBsd)
      + if last.TimerFired? && last.answer.Activated? && !last.answer.IsUsable(openBsd) then [last.answer.h] else []
  }

  lemma RejectedNext(wakes: seq<Wake>, n: nat, openBsd: bool)
    requires n < |wakes|
    ensures Rejected(wakes[..n + 1], openBsd)
         == Rejected(wakes[..n], openBsd)
            + if wakes[n].TimerFired? && wakes[n].answer.Activated? && !wakes[n].answer.IsUsable(openBsd)
              then [wakes[n].answer.h] else []
  {
    assert wakes[..n + 1][..n] == wakes[..n];
  }

  lemma DelayNext(n: nat)
    ensures Backoff.Delay(n + 1) == Backoff.NextDelay(Backoff.Delay(n))
  {
  }

  lemma NoDelayYet()
    ensures Backoff.Delay(0) == Backoff.INITIAL_DELAY
    ensures forall wakes: seq<Wake>, openBsd :: Rejected(wakes[..0], openBsd) == []
  {
  }

  class PcapSource {
    const iname: string
    const dm: DeviceManager
    var handle: Handle
    var signal: bool
    var interfaceWasDown: bool
    var monitored: bool

    constructor (iname: string, dm: DeviceManager, handle: Handle)
      ensures this.iname == iname && this.dm == dm && this.handle == handle
      ensures !signal && !interfaceWasDown && monitored
    {
      this.iname, this.dm, this.handle := iname, dm, handle;
      signal, interfaceWasDown, monitored := false, false, true;
    }

    method Monitor(available: bool)
      modifies this`signal, this`interfaceWasDown
      ensures (interfaceWasDown, signal) == MonitorTick(old(interfaceWasDown), old(signal), available)
      ensures interfaceWasDown == !available
      ensures signal == (old(signal) || (available && old(interfaceWasDown)))
    {
      if !available {
        interfaceWasDown := true;
        return;
      }
      if interfaceWasDown {
        if !signal {
          signal := true;
        }
        interfaceWasDown := false;
      }
    }

    /**
      Closes the old handle and retries until an attempt succeeds or the context is done; wakes tells
      what happens at each wait. On success the first usable answer is both the handle and the cache entry.
     */
    method Reconnect(wakes: seq<Wake>) returns (ok: bool, waits: seq<nat>)
      modifies this`handle, dm
      ensures waits == seq(|waits|, k requires 0 <= k => Backoff.Delay(k)) && |waits| <= |wakes|
      ensures forall k | 0 <= k < |waits| - 1 :: wakes[k].TimerFired? && !wakes[k].answer.IsUsable(dm.openBsd)
      ensures ok <==> waits != [] && wakes[|waits| - 1].TimerFired? && wakes[|waits| - 1].answer.IsUsable(dm.openBsd)
      ensures !ok ==> |waits| == |wakes| || (waits != [] && wakes[|waits| - 1].ContextDone?)
      ensures var without := old(dm.Contents()).Without(Key(iname, Reader));
              && dm.closed == without.closed + Rejected(wakes[..|waits|], dm.openBsd)
              && (ok ==>
                    handle == wakes[|waits| - 1].answer.h
                    && dm.handles == without.handles[Key(iname, Reader) := handle])
              && (!ok ==> handle == old(handle) && dm.handles == without.handles)
    {
      hide Rejected, IsValidLinkType, Key, Backoff.Delay;
      NoDelayYet();
      var found := dm.Close(iname, Reader);
      ghost var without := dm.Contents();
      var delay := Backoff.INITIAL_DELAY;
      waits := [];
      while |waits| < |wakes|
        invariant |waits| <= |wakes|
        invariant delay == Backoff.Delay(|waits|)
        invariant waits == seq(|waits|, k requires 0 <= k => Backoff.Delay(k))
        invariant forall k | 0 <= k < |waits| :: wakes[k].TimerFired? && !wakes[k].answer.IsUsable(dm.openBsd)
        invariant dm.handles == without.handles && handle == old(handle)
        invariant dm.closed == without.closed + Rejected(wakes[..|waits|], dm.openBsd)
        decreases |wakes| - |waits|
      {
        var wake := wakes[|waits|];
        RejectedNext(wakes, |waits|, dm.openBsd);
        DelayNext(|waits|);
        waits := waits + [delay];
        if wake.ContextDone? { return false, waits; }
        var opened' := dm.CreateReaderHandle(iname, wake.answer);
        if opened'.None? {
          if delay < Backoff.MAX_DELAY {
            delay := delay * 2;
            if delay > Backoff.MAX_DELAY {
              delay := Backoff.MAX_DELAY;
            }
          }
          continue;
        }
        handle := opened'.value;
        return true, waits;
      }
      ok := false;
    }

    /** Stops the monitor and closes the cached reader. */
    method Close() returns (found: bool)
      modifies this`monitored, dm
      ensures !monitored
      ensures found == (Key(iname, Reader) in old(dm.handles))
      ensures dm.Contents() == old(dm.Contents()).Without(Key(iname, Reader))
    {
      monitored := false;
      found := dm.Close(iname, Reader);
    }
  }

  // ---------- all interleavings of all sources ----------

  /** Where the reader of a source is. */
  datatype Phase = AtHead | Lost | Waiting(failures: nat, delay: nat) | Opening(failures: nat, delay: nat)
                 | Storing(h: Handle) | Reopened(h: Handle) | Ended | Gone
  {
    predicate IsReconnecting() { Lost? || Waiting? || Opening? || Storing? || Reopened? }
  }

  datatype Source = Source(handle: Handle, phase: Phase, signal: bool, wasDown: bool, monitored: bool)

  /** All sources around one cache; owners says for which interface and direction a handle was opened. */
  datatype State = State(sources: map<string, Source>, cache: map<string, Handle>, closed: seq<Handle>,
                         owners: seq<(string, Direction)>)

  datatype Action = Tick(available: bool) | TakeSignal | ChannelClosed | Cancel | CloseOld | CheckCache
                  | Refuse | Reject | Open | Store | Install | CloseSource

  datatype Step = OfSource(i: string, action: Action) | WriterOpens(i: string)

  predicate IsInitial(s: State) {
    && s.closed == []
    && (forall i | i in s.sources :: s.sources[i] == Source(s.sources[i].handle, AtHead, false, false, true))
    && (forall i | i in s.sources ::
          && s.sources[i].handle < |s.owners| && s.owners[s.sources[i].handle] == (i, Reader)
          && Key(i, Reader) in s.cache && s.cache[Key(i, Reader)] == s.sources[i].handle)
    && (forall h | 0 <= h < |s.owners| ::
          && s.owners[h].1 == Reader && s.owners[h].0 in s.sources
          && s.sources[s.owners[h].0].handle == h)
    && (forall key | key in s.cache :: s.cache[key] < |s.owners| && key == Key(s.owners[s.cache[key]].0, Reader))
  }

  predicate Enabled(s: State, step: Step) {
    match step
    case WriterOpens(i) => Key(i, Writer) !in s.cache
    case OfSource(i, action) =>
      i in s.sources &&
      var r := s.sources[i];
      match action
      case Tick(_) => r.monitored
      case TakeSignal => r.phase.AtHead? && r.signal
      case ChannelClosed => r.phase.AtHead?
      case Cancel => r.phase.AtHead? || r.phase.Waiting?
      case CloseOld => r.phase.Lost?
      case CheckCache => r.phase.Waiting?
      case Refuse => r.phase.Opening?
      case Reject => r.phase.Opening?
      case Open => r.phase.Opening?
      case Store => r.phase.Storing?
      case Install => r.phase.Reopened?
      case CloseSource => r.phase.Ended?
  }

  function CloseKey(s: State, key: string): State {
    var after := Cache(s.cache, s.closed).Without(key);
    s.(cache := after.handles, closed := after.closed)
  }

  function Apply(s: State, step: Step): State
    requires Enabled(s, step)
  {
    match step
    case WriterOpens(i) => s.(cache := s.cache[Key(i, Writer) := |s.owners|], owners := s.owners + [(i, Writer)])
    case OfSource(i, action) =>
      var r, key, h := s.sources[i], Key(i, Reader), |s.owners|;
      match action
      case Tick(available) =>
        var (wasDown, signal) := MonitorTick(r.wasDown, r.signal, available);
        Become(s, i, r.(wasDown := wasDown, signal := signal))
      case TakeSignal => Become(s, i, r.(phase := Lost, signal := false))
      case ChannelClosed => Become(s, i, r.(phase := Lost))
      case Cancel => Become(s, i, r.(phase := Ended))
      case CloseOld => Become(CloseKey(s, key), i, r.(phase := Waiting(0, Backoff.INITIAL_DELAY)))
      case CheckCache =>
        var next := if key in s.cache then Reopened(s.cache[key]) else Opening(r.phase.failures, r.phase.delay);
        Become(s, i, r.(phase := next))
      case Refuse => Become(s, i, r.(phase := Waiting(r.phase.failures + 1, Backoff.NextDelay(r.phase.delay))))
      case Reject =>
        Become(s.(owners := s.owners + [(i, Reader)], closed := s.closed + [h]), i,
               r.(phase := Waiting(r.phase.failures + 1, Backoff.NextDelay(r.phase.delay))))
      case Open => Become(s.(owners := s.owners + [(i, Reader)]), i, r.(phase := Storing(h)))
      case Store => Become(s.(cache := s.cache[key := r.phase.h]), i, r.(phase := Reopened(r.phase.h)))
      case Install => Become(s, i, r.(phase := AtHead, handle := r.phase.h))
      case CloseSource => Become(CloseKey(s, key), i, r.(phase := Gone, monitored := false))
  }

  function Become(s: State, i: string, r: Source): State {
    s.(sources := s.sources[i := r])
  }

  function Run(start: State, steps: seq<Step>): Option<State> {
    if steps == [] then Some(start)
    else
      match Run(start, steps[..|steps| - 1])
      case None => None
      case Some(s) => if Enabled(s, steps[|steps| - 1]) then Some(Apply(s, steps[|steps| - 1])) else None
  }

  // ---------- the handles ----------

  predicate IsOpen(s: State, h: Handle) { h < |s.owners| && h !in s.closed }

  /** What the phase of a reader says about its cache entry. */
  predicate PhaseMatchesCache(s: State, i: string)
    requires i in s.sources
  {
    var r, key := s.sources[i], Key(i, Reader);
    match r.phase
    case AtHead => key in s.cache && s.cache[key] == r.handle
    case Lost => key in s.cache && s.cache[key] == r.handle
    case Waiting(k, delay) => key !in s.cache && delay == Backoff.Delay(k)
    case Opening(k, delay) => key !in s.cache && delay == Backoff.Delay(k)
    case Storing(h) => key !in s.cache && IsOpen(s, h) && s.owners[h] == (i, Reader)
    case Reopened(h) => key in s.cache && s.cache[key] == h
    case Ended => true
    case Gone => key !in s.cache
  }

  predicate CacheIsOpen(s: State) {
    forall key | key in s.cache ::
      IsOpen(s, s.cache[key]) && key == Key(s.owners[s.cache[key]].0, s.owners[s.cache[key]].1)
  }

  /** Every open reader handle of interface i is its cache entry or about to become it. */
  predicate ReadersAreKept(s: State, i: string, phase: Phase) {
    forall h: Handle | h < |s.owners| && IsOpen(s, h) && s.owners[h] == (i, Reader) ::
      (Key(i, Reader) in s.cache && s.cache[Key(i, Reader)] == h) || phase == Storing(h)
  }

  predicate ClosedOnce(s: State) {
    && (forall n | 0 <= n < |s.closed| :: s.closed[n] < |s.owners|)
    && (forall n, m | 0 <= n < m < |s.closed| :: s.closed[n] != s.closed[m])
  }

  predicate SourceIsRight(s: State, i: string)
    requires i in s.sources
  {
    PhaseMatchesCache(s, i) && ReadersAreKept(s, i, s.sources[i].phase)
  }

  predicate OthersAreRight(s: State, i: string) { forall j | j in s.sources && j != i :: SourceIsRight(s, j) }

  predicate HandlesAreRight(s: State) {
    (forall i | i in s.sources :: SourceIsRight(s, i)) && CacheIsOpen(s) && ClosedOnce(s)
  }

  /** A source that changes only its own record leaves the others right. */
  lemma BecomingKeeps(s: State, i: string, r: Source)
    requires i in s.sources && OthersAreRight(s, i) && CacheIsOpen(s) && ClosedOnce(s)
    requires PhaseMatchesCache(Become(s, i, r), i) && ReadersAreKept(s, i, r.phase)
    ensures HandlesAreRight(Become(s, i, r))
  {
    hide Key;
    var s' := Become(s, i, r);
    forall j | j in s'.sources ensures SourceIsRight(s', j) {
      if j != i { assert SourceIsRight(s, j); }
    }
  }

  lemma KeysOfTwoSources(i: string, j: string)
    requires i != j
    ensures Key(i, Reader) != Key(j, Reader)
  {
    if Key(i, Reader) == Key(j, Reader) { KeyIsInjective(i, Reader, j, Reader); }
  }

  /** Closing the entry of a source closes its handle and no other. */
  lemma ClosingCloses(s: State, i: string)
    requires CacheIsOpen(s) && ClosedOnce(s) && Key(i, Reader) in s.cache
    ensures var h, s' := s.cache[Key(i, Reader)], CloseKey(s, Key(i, Reader));
            && IsOpen(s, h) && CacheIsOpen(s') && ClosedOnce(s')
            && (forall g: Handle :: IsOpen(s', g) <==> IsOpen(s, g) && g != h)
            && s.owners[h] == (i, Reader)
  {
    hide Key;
    var key := Key(i, Reader);
    var h, s' := s.cache[key], CloseKey(s, key);
    KeyIsInjective(i, Reader, s.owners[h].0, s.owners[h].1);
    assert s'.closed == s.closed + [h];
    forall g: Handle ensures IsOpen(s', g) <==> IsOpen(s, g) && g != h {
      assert g in s'.closed <==> g in s.closed || g == h;
    }
    forall k | k in s'.cache ensures IsOpen(s', s'.cache[k]) {
      assert k in s.cache && s.cache[k] != h;
    }
  }

  lemma ClosingKeeps(s: State, i: string)
    requires i in s.sources && HandlesAreRight(s)
    ensures var s' := CloseKey(s, Key(i, Reader));
            && OthersAreRight(s', i) && CacheIsOpen(s') && ClosedOnce(s') && Key(i, Reader) !in s'.cache
            && ReadersAreKept(s', i, s.sources[i].phase)
  {
    hide Key;
    var s' := CloseKey(s, Key(i, Reader));
    assert SourceIsRight(s, i);
    if Key(i, Reader) in s.cache {
      ClosingCloses(s, i);
      forall j | j in s'.sources && j != i ensures SourceIsRight(s', j) {
        KeysOfTwoSources(i, j);
        assert SourceIsRight(s, j);
      }
    } else {
      assert s' == s;
    }
  }

  /** A new handle of interface i, stored nowhere yet. */
  lemma OpeningKeeps(s: State, i: string, d: Direction)
    requires HandlesAreRight(s) && (d == Reader ==> i in s.sources)
    ensures var s' := s.(owners := s.owners + [(i, d)]);
            && CacheIsOpen(s') && ClosedOnce(s') && IsOpen(s', |s.owners|) && s'.owners[|s.owners|] == (i, d)
            && (forall j | j in s.sources && !(j == i && d == Reader) :: SourceIsRight(s', j))
            && forall h | 0 <= h < |s.owners| :: s'.owners[h] == s.owners[h] && (IsOpen(s', h) <==> IsOpen(s, h))
  {
    hide Key;
    var s' := s.(owners := s.owners + [(i, d)]);
    assert forall h | 0 <= h < |s.owners| :: s'.owners[h] == s.owners[h];
    assert |s.owners| !in s.closed;
    forall j | j in s.sources && !(j == i && d == Reader) ensures SourceIsRight(s', j) {
      assert SourceIsRight(s, j);
    }
  }

  lemma CloseStepKeeps(s: State, i: string, r: Source)
    requires i in s.sources && HandlesAreRight(s) && !s.sources[i].phase.Storing?
    requires r.phase == Waiting(0, Backoff.INITIAL_DELAY) || r.phase == Gone
    ensures HandlesAreRight(Become(CloseKey(s, Key(i, Reader)), i, r))
  {
    hide Key;
    ClosingKeeps(s, i);
    BecomingKeeps(CloseKey(s, Key(i, Reader)), i, r);
  }

  lemma OpenStepKeeps(s: State, i: string, r: Source)
    requires i in s.sources && HandlesAreRight(s) && s.sources[i].phase.Opening? && r.phase == Storing(|s.owners|)
    ensures HandlesAreRight(Become(s.(owners := s.owners + [(i, Reader)]), i, r))
  {
    hide Key;
    assert SourceIsRight(s, i);
    OpeningKeeps(s, i, Reader);
    BecomingKeeps(s.(owners := s.owners + [(i, Reader)]), i, r);
  }

  lemma RejectStepKeeps(s: State, i: string, r: Source)
    requires i in s.sources && HandlesAreRight(s) && s.sources[i].phase.Opening?
    requires r.phase == Waiting(s.sources[i].phase.failures + 1, Backoff.NextDelay(s.sources[i].phase.delay))
    ensures HandlesAreRight(Become(s.(owners := s.owners + [(i, Reader)], closed := s.closed + [|s.owners|]), i, r))
  {
    hide Key;
    assert SourceIsRight(s, i);
    OpeningKeeps(s, i, Reader);
    var opened' := s.(owners := s.owners + [(i, Reader)]);
    var s' := opened'.(closed := s.closed + [|s.owners|]);
    forall g: Handle ensures IsOpen(s', g) <==> IsOpen(s, g) {
      assert g in s'.closed <==> g in s.closed || g == |s.owners|;
    }
    forall j | j in s'.sources && j != i ensures SourceIsRight(s', j) {
      assert SourceIsRight(opened', j);
    }
    BecomingKeeps(s', i, r);
  }

  lemma StoreStepKeeps(s: State, i: string, r: Source)
    requires i in s.sources && HandlesAreRight(s) && s.sources[i].phase.Storing?
             && r.phase == Reopened(s.sources[i].phase.h)
    ensures HandlesAreRight(Become(s.(cache := s.cache[Key(i, Reader) := s.sources[i].phase.h]), i, r))
  {
    hide Key;
    assert SourceIsRight(s, i);
    var s' := s.(cache := s.cache[Key(i, Reader) := s.sources[i].phase.h]);
    forall j | j in s'.sources && j != i ensures SourceIsRight(s', j) {
      KeysOfTwoSources(i, j);
      assert SourceIsRight(s, j);
    }
    BecomingKeeps(s', i, r);
  }

  lemma WriterStepKeeps(s: State, i: string)
    requires HandlesAreRight(s) && Key(i, Writer) !in s.cache
    ensures HandlesAreRight(Apply(s, WriterOpens(i)))
  {
    hide Key;
    OpeningKeeps(s, i, Writer);
    var opened' := s.(owners := s.owners + [(i, Writer)]);
    var s' := Apply(s, WriterOpens(i));
    forall j | j in s'.sources ensures SourceIsRight(s', j) {
      if Key(j, Reader) == Key(i, Writer) { KeyIsInjective(j, Reader, i, Writer); }
      assert SourceIsRight(opened', j);
    }
  }

  lemma StepKeepsHandlesRight(s: State, step: Step)
    requires HandlesAreRight(s) && Enabled(s, step)
    ensures HandlesAreRight(Apply(s, step))
  {
    hide Key;
    match step
    case WriterOpens(i) => WriterStepKeeps(s, i);
    case OfSource(i, action) =>
      assert SourceIsRight(s, i);
      var r := Apply(s, step).sources[i];
      match action
      case CloseOld => CloseStepKeeps(s, i, r);
      case CloseSource => CloseStepKeeps(s, i, r);
      case Reject => RejectStepKeeps(s, i, r);
      case Open => OpenStepKeeps(s, i, r);
      case Store => StoreStepKeeps(s, i, r);
      case _ => BecomingKeeps(s, i, r);
  }

  // ---------- theorems ----------

  lemma InitialIsRight(s: State)
    requires IsInitial(s)
    ensures HandlesAreRight(s)
  {
    hide Key;
    forall i | i in s.sources ensures SourceIsRight(s, i) {
      assert IsOpen(s, s.sources[i].handle);
    }
  }

  lemma SourcesStay(s: State, step: Step)
    requires Enabled(s, step)
    ensures Apply(s, step).sources.Keys == s.sources.Keys
  {
    hide Key;
  }

  lemma {:induction false} EveryRunIsRight(start: State, steps: seq<Step>)
    requires IsInitial(start) && Run(start, steps).Some?
    ensures HandlesAreRight(Run(start, steps).value) && Run(start, steps).value.sources.Keys == start.sources.Keys
  {
    hide HandlesAreRight, IsInitial, Apply, Enabled;
    if steps == [] {
      InitialIsRight(start);
    } else {
      var s, step := Run(start, steps[..|steps| - 1]).value, steps[|steps| - 1];
      EveryRunIsRight(start, steps[..|steps| - 1]);
      StepKeepsHandlesRight(s, step);
      SourcesStay(s, step);
    }
  }

  /**
    Whenever a reader is at the head of its loop, its handle is open, is the cached one, and is the only
    open reader of its interface; no handle is ever closed twice.
   */
  lemma HandleAtHeadIsTheOnlyOpenReader(start: State, steps: seq<Step>, i: string, h: Handle)
    requires IsInitial(start) && Run(start, steps).Some?
    requires i in Run(start, steps).value.sources && Run(start, steps).value.sources[i].phase.AtHead?
    ensures var s := Run(start, steps).value;
            && IsOpen(s, s.sources[i].handle) && s.owners[s.sources[i].handle] == (i, Reader)
            && Key(i, Reader) in s.cache && s.cache[Key(i, Reader)] == s.sources[i].handle
            && (IsOpen(s, h) && s.owners[h] == (i, Reader) ==> h == s.sources[i].handle)
            && forall n, m | 0 <= n < m < |s.closed| :: s.closed[n] != s.closed[m]
  {
    hide Key;
    EveryRunIsRight(start, steps);
    var s := Run(start, steps).value;
    assert SourceIsRight(s, i);
    var own := s.owners[s.sources[i].handle];
    KeyIsInjective(i, Reader, own.0, own.1);
  }

  /** A reconnect installs a handle that was never closed, so never the one that it closed itself. */
  lemma ReconnectNeverReturnsAClosedHandle(start: State, steps: seq<Step>, i: string, n: nat)
    requires IsInitial(start) && Run(start, steps).Some? && i in Run(start, steps).value.sources
    requires Enabled(Run(start, steps).value, OfSource(i, Install)) && n < |Run(start, steps).value.closed|
    ensures Run(start, steps).value.sources[i].phase.h != Run(start, steps).value.closed[n]
  {
    hide Key, Apply, Run, IsInitial, ReadersAreKept, ClosedOnce;
    EveryRunIsRight(start, steps);
    assert SourceIsRight(Run(start, steps).value, i);
  }

  // ---------- the signal ----------

  predicate IsTick(step: Step, i: string) { step.OfSource? && step.i == i && step.action.Tick? }

  /** What the last tick of a source saw. */
  function LastTick(steps: seq<Step>, i: string): Option<bool> {
    if steps == [] then None
    else if IsTick(steps[|steps| - 1], i) then Some(steps[|steps| - 1].action.available)
    else LastTick(steps[..|steps| - 1], i)
  }

  /** How often a tick saw the interface available that the tick before it had not. */
  function Recoveries(steps: seq<Step>, i: string): nat {
    if steps == [] then 0
    else
      var init, step := steps[..|steps| - 1], steps[|steps| - 1];
      Recoveries(init, i) + if step == OfSource(i, Tick(true)) && LastTick(init, i) == Some(false) then 1 else 0
  }

  /** How often a source made a step. */
  function Count(steps: seq<Step>, step: Step): nat {
    if steps == [] then 0 else Count(steps[..|steps| - 1], step) + if steps[|steps| - 1] == step then 1 else 0
  }

  /** How the record of a source and the schedule that led to it fit together. */
  predicate SignalIsRight(r: Source, steps: seq<Step>, i: string) {
    var started := Count(steps, OfSource(i, TakeSignal)) + Count(steps, OfSource(i, ChannelClosed));
    && r.wasDown == (LastTick(steps, i) == Some(false))
    && Count(steps, OfSource(i, TakeSignal)) + (if r.signal then 1 else 0) <= Recoveries(steps, i)
    && (r.phase.AtHead? ==> Count(steps, OfSource(i, Install)) == started)
    && (r.phase.IsReconnecting() ==> Count(steps, OfSource(i, Install)) + 1 == started)
    && (r.monitored <==> !r.phase.Gone?)
  }

  lemma StepKeepsSignalRight(s: State, steps: seq<Step>, step: Step, i: string)
    requires i in s.sources && Enabled(s, step) && SignalIsRight(s.sources[i], steps, i)
    ensures i in Apply(s, step).sources && SignalIsRight(Apply(s, step).sources[i], steps + [step], i)
  {
    hide Key, Count, Recoveries, LastTick;
    CountsNext(steps, step, i);
  }

  lemma CountsNext(steps: seq<Step>, step: Step, i: string)
    ensures var more := steps + [step];
            && (forall e :: Count(more, e) == Count(steps, e) + if step == e then 1 else 0)
            && LastTick(more, i) == (if IsTick(step, i) then Some(step.action.available) else LastTick(steps, i))
            && Recoveries(more, i)
               == Recoveries(steps, i)
                  + if step == OfSource(i, Tick(true)) && LastTick(steps, i) == Some(false) then 1 else 0
  {
    assert (steps + [step])[..|steps|] == steps;
  }

  lemma {:induction false} EverySignalIsRight(start: State, steps: seq<Step>, i: string)
    requires IsInitial(start) && Run(start, steps).Some? && i in start.sources
    ensures i in Run(start, steps).value.sources && SignalIsRight(Run(start, steps).value.sources[i], steps, i)
  {
    hide Apply, Enabled, Key;
    if steps != [] {
      var init, step := steps[..|steps| - 1], steps[|steps| - 1];
      EverySignalIsRight(start, init, i);
      StepKeepsSignalRight(Run(start, init).value, init, step, i);
      assert init + [step] == steps;
    }
  }

  /** Steps a and b are ticks of source i, one right after the other, that see the interface go and come back. */
  predicate IsRecovery(steps: seq<Step>, i: string, a: nat, b: nat) {
    && a < b < |steps| && steps[a] == OfSource(i, Tick(false)) && steps[b] == OfSource(i, Tick(true))
    && forall c | a < c < b :: !IsTick(steps[c], i)
  }

  lemma {:induction false} LastTickIs(steps: seq<Step>, i: string, a: nat)
    requires a < |steps| && steps[a] == OfSource(i, Tick(false))
    requires forall c | a < c < |steps| :: !IsTick(steps[c], i)
    ensures LastTick(steps, i) == Some(false)
  {
    if a < |steps| - 1 { LastTickIs(steps[..|steps| - 1], i, a); }
  }

  predicate TakesSignalAfter(steps: seq<Step>, i: string, b: nat) {
    exists c | b < c < |steps| :: steps[c] == OfSource(i, TakeSignal)
  }

  /** After a recovery the slot is full until the signal is taken. */
  lemma {:induction false} RecoveryIsSignalled(start: State, steps: seq<Step>, i: string, a: nat, b: nat)
    requires IsInitial(start) && Run(start, steps).Some? && i in start.sources && IsRecovery(steps, i, a, b)
    ensures i in Run(start, steps).value.sources
    ensures Run(start, steps).value.sources[i].signal || TakesSignalAfter(steps, i, b)
  {
    hide Key, Apply, Enabled, SignalIsRight;
    var init, step := steps[..|steps| - 1], steps[|steps| - 1];
    var s := Run(start, init).value;
    EverySignalIsRight(start, steps, i);
    EverySignalIsRight(start, init, i);
    if b == |steps| - 1 {
      assert init[a] == steps[a];
      forall c | a < c < |init| ensures !IsTick(init[c], i) { assert init[c] == steps[c] && !IsTick(steps[c], i); }
      LastTickIs(init, i, a);
      assert step == OfSource(i, Tick(true)) && Enabled(s, step);
      RecoveryFills(s, init, i);
    } else {
      RecoveryIsSignalled(start, init, i, a, b);
      if s.sources[i].signal {
        SignalStays(s, step, i);
        assert step == OfSource(i, TakeSignal) ==> steps[|init|] == OfSource(i, TakeSignal);
      } else {
        var c :| b < c < |init| && init[c] == OfSource(i, TakeSignal);
        assert steps[c] == OfSource(i, TakeSignal);
      }
    }
  }

  lemma RecoveryFills(s: State, steps: seq<Step>, i: string)
    requires i in s.sources && SignalIsRight(s.sources[i], steps, i) && LastTick(steps, i) == Some(false)
    requires Enabled(s, OfSource(i, Tick(true)))
    ensures Apply(s, OfSource(i, Tick(true))).sources[i].signal
  {
  }

  lemma SignalStays(s: State, step: Step, i: string)
    requires Enabled(s, step) && i in s.sources && s.sources[i].signal
    ensures i in Apply(s, step).sources && (Apply(s, step).sources[i].signal || step == OfSource(i, TakeSignal))
  {
    hide Key;
  }

  /** A reconnect that was started has been completed when the reader is at the head of its loop. */
  lemma {:induction false} ReconnectIsCompleted(start: State, steps: seq<Step>, i: string, c: nat)
    requires Run(start, steps).Some? && c < |steps| && i in Run(start, steps).value.sources
    requires steps[c] == OfSource(i, TakeSignal) || steps[c] == OfSource(i, ChannelClosed)
    ensures Run(start, steps).value.sources[i].phase.AtHead? ==>
              exists d | c < d < |steps| :: steps[d] == OfSource(i, Install)
  {
    hide Key, Apply, Enabled;
    var init, step := steps[..|steps| - 1], steps[|steps| - 1];
    OnlyInstallReturns(Run(start, init).value, step, i);
    if c < |init| && step != OfSource(i, Install) && Run(start, steps).value.sources[i].phase.AtHead? {
      ReconnectIsCompleted(start, init, i, c);
      var d :| c < d < |init| && init[d] == OfSource(i, Install);
      assert steps[d] == OfSource(i, Install);
    }
  }

  lemma OnlyInstallReturns(s: State, step: Step, i: string)
    requires Enabled(s, step) && i in Apply(s, step).sources
    ensures i in s.sources
    ensures step == OfSource(i, TakeSignal) || step == OfSource(i, ChannelClosed) ==>
            !Apply(s, step).sources[i].phase.AtHead?
    ensures Apply(s, step).sources[i].phase.AtHead? ==> s.sources[i].phase.AtHead? || step == OfSource(i, Install)
  {
    hide Key;
  }

  /**
    No recovery is lost: after two ticks that see the interface go and come back, the signal is pending, or it
    was taken later and with it a reconnect begun, which has been completed when the reader is at the head of
    its loop again. A pending signal can be taken there.
   */
  lemma NoRecoveryIsLost(start: State, steps: seq<Step>, i: string, a: nat, b: nat)
    requires IsInitial(start) && Run(start, steps).Some? && i in start.sources && IsRecovery(steps, i, a, b)
    ensures i in Run(start, steps).value.sources
    ensures var r := Run(start, steps).value.sources[i];
            && (r.signal || exists c | b < c < |steps| ::
                  && steps[c] == OfSource(i, TakeSignal)
                  && (r.phase.AtHead? ==> exists d | c < d < |steps| :: steps[d] == OfSource(i, Install)))
            && (r.signal && r.phase.AtHead? ==> Enabled(Run(start, steps).value, OfSource(i, TakeSignal)))
  {
    hide Key, Run, Apply;
    RecoveryIsSignalled(start, steps, i, a, b);
    if !Run(start, steps).value.sources[i].signal {
      var c :| b < c < |steps| && steps[c] == OfSource(i, TakeSignal);
      ReconnectIsCompleted(start, steps, i, c);
    }
  }

  /**
    Reconnects on the signal never outnumber the recoveries, and at the head of the loop as many reconnects have
    been completed as were begun.
   */
  lemma ReconnectsAreCounted(start: State, steps: seq<Step>, i: string)
    requires IsInitial(start) && Run(start, steps).Some? && i in start.sources
    ensures Count(steps, OfSource(i, TakeSignal)) <= Recoveries(steps, i)
    ensures i in Run(start, steps).value.sources
    ensures Run(start, steps).value.sources[i].phase.AtHead? ==>
              Count(steps, OfSource(i, Install))
              == Count(steps, OfSource(i, TakeSignal)) + Count(steps, OfSource(i, ChannelClosed))
  {
    EverySignalIsRight(start, steps, i);
  }

  /** What is left of an attempt after the look into the cache. */
  function RestOfAttempt(s: State, i: string, answer: Activation, openBsd: bool): seq<Action> {
    if Key(i, Reader) in s.cache then []
    else if answer.Refused? then [Refuse]
    else if !answer.IsUsable(openBsd) then [Reject]
    else [Open, Store]
  }

  function ApplyAll(s: State, i: string, actions: seq<Action>): Option<State>
    decreases |actions|
  {
    if actions == [] then Some(s)
    else if Enabled(s, OfSource(i, actions[0])) then ApplyAll(Apply(s, OfSource(i, actions[0])), i, actions[1..])
    else None
  }

  /**
    The steps of one attempt, with nothing in between, have the effect of one call of CreateReaderHandle, and
    the reader goes on with the handle that the call returns, or waits again.
   */
  lemma AnAttemptIsOneCall(s: State, i: string, answer: Activation, openBsd: bool)
    requires Enabled(s, OfSource(i, CheckCache)) && (answer.Activated? ==> answer.h == |s.owners|)
    ensures var after := ApplyAll(s, i, [CheckCache] + RestOfAttempt(s, i, answer, openBsd));
            var (cache, r) := Cache(s.cache, s.closed).Attempt(Key(i, Reader), answer, openBsd);
            && after.Some? && after.value.cache == cache.handles && after.value.closed == cache.closed
            && i in after.value.sources
            && after.value.sources[i].phase
               == match r
                  case Some(h) => Reopened(h)
                  case None => Waiting(s.sources[i].phase.failures + 1, Backoff.NextDelay(s.sources[i].phase.delay))
  {
    hide Key;
    var rest := RestOfAttempt(s, i, answer, openBsd);
    var looked := Apply(s, OfSource(i, CheckCache));
    assert ([CheckCache] + rest)[1..] == rest;
    assert looked.cache == s.cache && looked.closed == s.closed && looked.owners == s.owners;
    if |rest| == 2 {
      var opened' := Apply(looked, OfSource(i, Open));
      assert rest[1..] == [Store] && [Store][1..] == [];
      assert ApplyAll(looked, i, rest) == ApplyAll(opened', i, [Store]);
      assert ApplyAll(opened', i, [Store]) == Some(Apply(opened', OfSource(i, Store)));
    } else if |rest| == 1 {
      assert rest[1..] == [];
      assert ApplyAll(looked, i, rest) == Some(Apply(looked, OfSource(i, rest[0])));
    }
  }

  /** How many steps a reconnecting reader is away from the head of its loop, when every attempt succeeds. */
  function Distance(phase: Phase): nat {
    match phase
    case Lost => 6
    case Waiting(_, _) => 5
    case Opening(_, _) => 4
    case Storing(_) => 3
    case Reopened(_) => 1
    case _ => 0
  }

  function NextAction(phase: Phase): Action
    requires phase.IsReconnecting()
  {
    match phase
    case Lost => CloseOld
    case Waiting(_, _) => CheckCache
    case Opening(_, _) => Open
    case Storing(_) => Store
    case Reopened(_) => Install
  }

  lemma RunNext(start: State, steps: seq<Step>, step: Step)
    requires Run(start, steps).Some? && Enabled(Run(start, steps).value, step)
    ensures Run(start, steps + [step]) == Some(Apply(Run(start, steps).value, step))
  {
    assert (steps + [step])[..|steps|] == steps;
  }

  lemma NextActionIsCloser(s: State, i: string)
    requires i in s.sources && s.sources[i].phase.IsReconnecting()
    ensures var step := OfSource(i, NextAction(s.sources[i].phase));
            && Enabled(s, step) && i in Apply(s, step).sources
            && (Apply(s, step).sources[i].phase.IsReconnecting() || Apply(s, step).sources[i].phase.AtHead?)
            && Distance(Apply(s, step).sources[i].phase) < Distance(s.sources[i].phase)
  {
    hide Key;
  }

  /**
    Recovery is possible: from wherever a reconnect is, some steps of its own reader lead to the head of the
    loop, where the handle is open and cached.
   */
  lemma {:induction false} AReaderCanComeBack(start: State, steps: seq<Step>, i: string) returns (after: seq<Step>)
    requires IsInitial(start) && Run(start, steps).Some? && i in Run(start, steps).value.sources
    requires Run(start, steps).value.sources[i].phase.IsReconnecting()
    ensures Run(start, steps + after).Some?
    ensures var s := Run(start, steps + after).value;
            && i in s.sources && s.sources[i].phase.AtHead? && IsOpen(s, s.sources[i].handle)
            && Key(i, Reader) in s.cache && s.cache[Key(i, Reader)] == s.sources[i].handle
    decreases Distance(Run(start, steps).value.sources[i].phase)
  {
    hide Run, Apply, Enabled, Distance, NextAction, IsInitial, Key;
    var s := Run(start, steps).value;
    var step := OfSource(i, NextAction(s.sources[i].phase));
    NextActionIsCloser(s, i);
    RunNext(start, steps, step);
    if Run(start, steps + [step]).value.sources[i].phase.AtHead? {
      after := [step];
      HandleAtHeadIsTheOnlyOpenReader(start, steps + after, i, 0);
    } else {
      var rest := AReaderCanComeBack(start, steps + [step], i);
      after := [step] + rest;
      assert steps + [step] + rest == steps + after;
    }
  }

  lemma {:induction false} ClosedStays(start: State, before: seq<Step>, after: seq<Step>)
    requires Run(start, before).Some? && Run(start, before + after).Some?
    ensures Run(start, before).value.closed <= Run(start, before + after).value.closed
    decreases |after|
  {
    hide Key;
    if after == [] {
      assert before + after == before;
    } else {
      assert (before + after)[..|before + after| - 1] == before + after[..|after| - 1];
      ClosedStays(start, before, after[..|after| - 1]);
    }
  }

  /** An outage is recovered from: the two ticks, the signal and the steps of the reader give it a new, open handle. */
  lemma AnOutageIsRecoveredFrom(start: State, before: seq<Step>, i: string) returns (after: seq<Step>)
    requires IsInitial(start) && Run(start, before).Some? && i in Run(start, before).value.sources
    requires Run(start, before).value.sources[i].phase.AtHead?
    ensures |after| > 3 && after[0] == OfSource(i, Tick(false)) && after[1] == OfSource(i, Tick(true))
    ensures after[2] == OfSource(i, TakeSignal) && Run(start, before + after).Some?
    ensures var s, s' := Run(start, before).value, Run(start, before + after).value;
            && i in s'.sources && s'.sources[i].phase.AtHead? && IsOpen(s', s'.sources[i].handle)
            && s.sources[i].handle in s'.closed && s'.sources[i].handle != s.sources[i].handle
  {
    hide Run, Key, Enabled, Apply, IsOpen, IsInitial;
    var outage := TakesTheSignal(start, before, i);
    var rest := AReaderCanComeBack(start, before + outage, i);
    assert before + outage + rest == before + (outage + rest);
    after := outage + rest;
    ClosedStays(start, before + outage, rest);
    OpenIsNotClosed(Run(start, before + after).value, i);
  }

  lemma OpenIsNotClosed(s: State, i: string)
    requires i in s.sources && IsOpen(s, s.sources[i].handle)
    ensures s.sources[i].handle !in s.closed
  {
  }

  lemma TakesTheSignal(start: State, before: seq<Step>, i: string) returns (after: seq<Step>)
    requires IsInitial(start) && Run(start, before).Some? && i in Run(start, before).value.sources
    requires Run(start, before).value.sources[i].phase.AtHead?
    ensures |after| > 3 && after[0] == OfSource(i, Tick(false)) && after[1] == OfSource(i, Tick(true))
    ensures after[2] == OfSource(i, TakeSignal) && Run(start, before + after).Some?
    ensures i in Run(start, before + after).value.sources
    ensures Run(start, before + after).value.sources[i].phase.IsReconnecting()
    ensures Run(start, before).value.sources[i].handle in Run(start, before + after).value.closed
  {
    hide Key, Run, IsInitial, Apply, Enabled, HandlesAreRight;
    EveryRunIsRight(start, before);
    EverySignalIsRight(start, before, i);
    var s := Run(start, before).value;
    var down, up := OfSource(i, Tick(false)), OfSource(i, Tick(true));
    var take, close := OfSource(i, TakeSignal), OfSource(i, CloseOld);
    OutageSteps(s, i);
    RunNext(start, before, down);
    RunNext(start, before + [down], up);
    RunNext(start, before + [down] + [up], take);
    RunNext(start, before + [down] + [up] + [take], close);
    after := [down, up, take, close];
    assert before + [down] + [up] + [take] + [close] == before + after;
  }

  lemma OutageSteps(s: State, i: string)
    requires HandlesAreRight(s) && i in s.sources && s.sources[i].phase.AtHead? && s.sources[i].monitored
    ensures Enabled(s, OfSource(i, Tick(false)))
    ensures var s1 := Apply(s, OfSource(i, Tick(false)));
            Enabled(s1, OfSource(i, Tick(true)))
            && (var s2 := Apply(s1, OfSource(i, Tick(true)));
                Enabled(s2, OfSource(i, TakeSignal))
                && (var s3 := Apply(s2, OfSource(i, TakeSignal));
                    Enabled(s3, OfSource(i, CloseOld)) && IsRenewing(s, Apply(s3, OfSource(i, CloseOld)), i)))
  {
    hide Key;
    assert SourceIsRight(s, i);
    var s1 := Apply(s, OfSource(i, Tick(false)));
    var s2 := Apply(s1, OfSource(i, Tick(true)));
    var s3 := Apply(s2, OfSource(i, TakeSignal));
    assert s3.cache == s.cache && s3.closed == s.closed && s3.sources[i].phase.Lost?;
    var s4 := Apply(s3, OfSource(i, CloseOld));
    assert s4.closed == s.closed + [s.sources[i].handle];
    assert s4.closed[|s.closed|] == s.sources[i].handle;
  }

  /** The source has closed the handle that it had, and is reconnecting. */
  predicate IsRenewing(s: State, s': State, i: string)
    requires i in s.sources
  {
    i in s'.sources && s'.sources[i].phase.IsReconnecting() && s.sources[i].handle in s'.closed
  }

  /** A closed packet channel is recovered from in the same way. */
  lemma AClosedChannelIsRecoveredFrom(start: State, before: seq<Step>, i: string) returns (after: seq<Step>)
    requires IsInitial(start) && Run(start, before).Some? && i in Run(start, before).value.sources
    requires Run(start, before).value.sources[i].phase.AtHead?
    ensures after != [] && after[0] == OfSource(i, ChannelClosed) && Run(start, before + after).Some?
    ensures var s' := Run(start, before + after).value;
            i in s'.sources && s'.sources[i].phase.AtHead? && IsOpen(s', s'.sources[i].handle)
  {
    hide Run, Key, IsOpen, IsInitial;
    var lost := [OfSource(i, ChannelClosed)];
    RunNext(start, before, lost[0]);
    var rest := AReaderCanComeBack(start, before + lost, i);
    assert before + lost + rest == before + (lost + rest);
    after := lost + rest;
  }

  /** A source that was closed leaves no reader of its interface open. */
  lemma AClosedSourceLeavesNothingOpen(start: State, steps: seq<Step>, i: string, h: Handle)
    requires IsInitial(start) && Run(start, steps).Some? && i in Run(start, steps).value.sources
    requires Run(start, steps).value.sources[i].phase.Gone?
    ensures var s := Run(start, steps).value;
            && !s.sources[i].monitored
            && (h < |s.owners| && s.owners[h] == (i, Reader) ==> h in s.closed)
  {
    hide Key;
    EveryRunIsRight(start, steps);
    EverySignalIsRight(start, steps, i);
    assert SourceIsRight(Run(start, steps).value, i);
  }

  /** From the head of its loop a reader can be cancelled, and its source closed. */
  lemma ASourceCanEnd(start: State, before: seq<Step>, i: string)
    requires Run(start, before).Some? && i in Run(start, before).value.sources
    requires Run(start, before).value.sources[i].phase.AtHead?
    ensures var steps := before + [OfSource(i, Cancel), OfSource(i, CloseSource)];
            Run(start, steps).Some? && i in Run(start, steps).value.sources
              && Run(start, steps).value.sources[i].phase.Gone?
  {
    hide Key;
    RunNext(start, before, OfSource(i, Cancel));
    RunNext(start, before + [OfSource(i, Cancel)], OfSource(i, CloseSource));
    assert before + [OfSource(i, Cancel)] + [OfSource(i, CloseSource)]
           == before + [OfSource(i, Cancel), OfSource(i, CloseSource)];
  }
}
