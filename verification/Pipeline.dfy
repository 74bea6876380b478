/**
  One interface's pipeline (internal/proxy/pipeline.go) and how the pipelines are wired
  (cmd/udp-proxy-2020/main.go).
 */
module Pipelines {
  import opened Wrappers
  import opened Rewrite
  import opened Sequences
  import opened Registry
  import opened Routing

  /** What Source.Read returns: a packet or nil, an error that ends the pipeline, or another error. */
  datatype Read = Delivered(pkt: Option<Packet>) | Ended | Broken

  /** A processor together with the packets it was asked about. */
  class Stage {
    const verdict: Processor
    var processed: seq<Packet>

    constructor (verdict: Processor)
      ensures this.verdict == verdict && processed == []
    {
      this.verdict, processed := verdict, [];
    }

    method Process(pkt: Packet) returns (v: Verdict)
      modifies this`processed
      ensures processed == old(processed) + [pkt] && v == verdict(pkt)
    {
      processed := processed + [pkt];
      v := verdict(pkt);
    }
  }

  function VerdictsOf(stages: seq<Stage>): seq<Processor> {
    seq(|stages|, i requires 0 <= i < |stages| => stages[i].verdict)
  }

  function ProcessedBy(stages: seq<Stage>): (r: seq<seq<Packet>>)
    reads stages`processed
    ensures |r| == |stages| && forall k | 0 <= k < |stages| :: r[k] == stages[k].processed
  {
    if stages == [] then [] else ProcessedBy(stages[..|stages| - 1]) + [stages[|stages| - 1].processed]
  }

  /** The packets that a source delivers before it ends. */
  function Arrivals(inputs: seq<Read>): seq<Packet> {
    if inputs == [] || inputs[0].Ended? then []
    else (if inputs[0].Delivered? && inputs[0].pkt.Some? then [inputs[0].pkt.value] else []) + Arrivals(inputs[1..])
  }

  lemma ArrivalsNext(inputs: seq<Read>, n: nat)
    requires n < |inputs| && !inputs[n].Ended?
    ensures Arrivals(inputs[n..])
         == (if inputs[n].Delivered? && inputs[n].pkt.Some? then [inputs[n].pkt.value] else [])
           + Arrivals(inputs[n + 1..])
  {
    assert inputs[n..][1..] == inputs[n + 1..];
  }

  /** A read that ends the pipeline hides the rest, one that fails or brings nothing is skipped, a packet arrives. */
  lemma WhatArrives(read: Read, rest: seq<Read>)
    ensures read == Ended ==> Arrivals([read] + rest) == []
    ensures read == Broken || read == Delivered(None) ==> Arrivals([read] + rest) == Arrivals(rest)
    ensures forall pkt | read == Delivered(Some(pkt)) :: Arrivals([read] + rest) == [pkt] + Arrivals(rest)
  {
    assert ([read] + rest)[1..] == rest;
  }

  function IfKept(pkt: Packet, processors: seq<Processor>): seq<Packet> {
    if AllKeep(processors, pkt) then [pkt] else []
  }

  /** The packets that every one of the processors keeps, in order. */
  function Kept(pkts: seq<Packet>, processors: seq<Processor>): seq<Packet> {
    if pkts == [] then []
    else Kept(pkts[..|pkts| - 1], processors) + IfKept(pkts[|pkts| - 1], processors)
  }

  /** Keeping is filtering: it goes packet by packet and in order, and all processors have to keep the packet. */
  lemma {:induction false} WhatIsKept(pkts: seq<Packet>, more: seq<Packet>, processors: seq<Processor>, pkt: Packet)
    ensures Kept([], processors) == []
    ensures Kept(pkts + more, processors) == Kept(pkts, processors) + Kept(more, processors)
    ensures Kept([pkt], processors)
         == if forall k | 0 <= k < |processors| :: processors[k](pkt) == Keep then [pkt] else []
    decreases |more|
  {
    assert [pkt][..0] == [];
    if more == [] {
      assert pkts + more == pkts;
    } else {
      var init := more[..|more| - 1];
      assert (pkts + more)[..|pkts + more| - 1] == pkts + init;
      WhatIsKept(pkts, init, processors, pkt);
    }
  }

  lemma NoArrivals()
    ensures Arrivals([]) == []
    ensures forall inputs: seq<Read> | inputs != [] && inputs[0].Ended? :: Arrivals(inputs) == []
  {
  }

  lemma KeptOrNot(pkts: seq<Packet>, pkt: Packet, processors: seq<Processor>)
    ensures IfKept(pkt, processors) == if AllKeep(processors, pkt) then [pkt] else []
    ensures Kept(pkts + [pkt], processors) == Kept(pkts, processors) + if AllKeep(processors, pkt) then [pkt] else []
    ensures !AllKeep(processors, pkt) ==> Kept(pkts + [pkt], processors) == Kept(pkts, processors)
  {
    assert (pkts + [pkt])[..|pkts|] == pkts;
  }

  lemma KeptNext(was: seq<Packet>, pkts: seq<Packet>, pkt: Packet, processors: seq<Processor>)
    ensures was + Kept(pkts + [pkt], processors) == was + Kept(pkts, processors) + IfKept(pkt, processors)
  {
    assert (pkts + [pkt])[..|pkts|] == pkts;
    Regroup(was, Kept(pkts, processors), IfKept(pkt, processors));
  }

  /** What a route knew of the clients on its interface when a packet came. */
  datatype Snapshot = Snapshot(infos: seq<ClientInfo>, keys: seq<string>)

  /** A sink of a pipeline: a recorder of its own packets, or the route to another interface. */
  datatype Sink = Recorder(end: EndSink) | ToInterface(route: RouteSink) {
    /** Where packets end up. */
    function Ends(): seq<EndSink> {
      match this
      case Recorder(end) => [end]
      case ToInterface(route) => route.sinks
    }

    predicate IsSound() { ToInterface? ==> route.SinksAreDistinct() }

    function Registry(): RegistryProcessor? {
      if ToInterface? then route.registry else null
    }

    predicate IsSnapshot(snapshot: Snapshot)
      reads Registry()
    {
      ToInterface? ==> route.IsSnapshot(snapshot.infos, snapshot.keys)
    }

    /** What every end of the sink gets for one packet. */
    function Copies(pkt: Packet, snapshot: Snapshot): seq<Packet> {
      match this
      case Recorder(_) => [pkt]
      case ToInterface(route) => route.Settings().Offers(pkt, route.Settings().TargetsFor(snapshot.infos))
    }

    /** The same for a sequence of packets, each with a snapshot of its own. */
    function AllCopies(pkts: seq<Packet>, snapshots: seq<Snapshot>): seq<Packet>
      requires |pkts| == |snapshots|
    {
      if pkts == [] then []
      else
        var n := |pkts| - 1;
        AllCopies(pkts[..n], snapshots[..n]) + Copies(pkts[n], snapshots[n])
    }

    method Write(pkt: Packet) returns (ghost snapshot: Snapshot)
      requires IsSound()
      modifies Ends()`received
      ensures IsSnapshot(snapshot)
      ensures forall e | e in Ends() :: e.received == old(e.received) + Copies(pkt, snapshot)
    {
      match this
      case Recorder(end) =>
        snapshot := Snapshot([], []);
        assert Ends() == [end] && end in Ends();
        var ok := end.Write(pkt);
      case ToInterface(route) =>
        assert Ends() == route.sinks;
        ghost var infos, keys := route.Write(Some(pkt));
        snapshot := Snapshot(infos, keys);
    }

    method Close()
      requires IsSound()
      modifies Ends()`closed
      ensures forall e | e in Ends() :: e.closed == old(e.closed) + 1
    {
      match this
      case Recorder(end) =>
        assert Ends() == [end] && end in Ends();
        var err := end.Close();
      case ToInterface(route) =>
        assert Ends() == route.sinks;
        var err := route.Close();
    }
  }

  lemma CopiesNext(was: seq<Packet>, s: Sink, pkts: seq<Packet>, snapshots: seq<Snapshot>, pkt: Packet,
                   snapshot: Snapshot)
    requires |pkts| == |snapshots|
    ensures was + s.AllCopies(pkts + [pkt], snapshots + [snapshot])
         == was + s.AllCopies(pkts, snapshots) + s.Copies(pkt, snapshot)
  {
    assert (pkts + [pkt])[..|pkts|] == pkts && (snapshots + [snapshot])[..|snapshots|] == snapshots;
    Regroup(was, s.AllCopies(pkts, snapshots), s.Copies(pkt, snapshot));
  }

  /** What had been given to the processors of a pipeline and to the ends of its sinks. */
  datatype Past = Past(processed: seq<seq<Packet>>, received: map<EndSink, seq<Packet>>)

  lemma WhatIsCopied(s: Sink, pkt: Packet, snapshot: Snapshot)
    ensures s.Recorder? ==> s.Copies(pkt, snapshot) == [pkt]
    ensures s.ToInterface? ==>
              s.Copies(pkt, snapshot) == s.route.Settings().Offers(pkt, s.route.Settings().TargetsFor(snapshot.infos))
  {
  }

  class Pipeline {
    var processors: seq<Stage>
    var sinks: seq<Sink>
    var sourceClosed: nat

    constructor ()
      ensures processors == [] && sinks == [] && sourceClosed == 0
    {
      processors, sinks, sourceClosed := [], [], 0;
    }

    function Ends(): set<EndSink>
      reads this`sinks
    {
      set k, e | 0 <= k < |sinks| && e in sinks[k].Ends() :: e
    }

    predicate PartsAreDistinct()
      reads this`processors, this`sinks
    {
      && (forall i, j | 0 <= i < j < |processors| :: processors[i] != processors[j])
      && (forall i | 0 <= i < |sinks| :: sinks[i].IsSound())
      && (forall i, j, e | 0 <= i < j < |sinks| && e in sinks[i].Ends() :: e !in sinks[j].Ends())
    }

    function Verdicts(): (vs: seq<Processor>)
      reads this`processors
      ensures |vs| == |processors|
    {
      VerdictsOf(processors)
    }

    method AddProcessor(p: Stage)
      modifies this`processors
      ensures processors == old(processors) + [p]
    {
      processors := processors + [p];
    }

    method AddSink(s: Sink)
      modifies this`sinks
      ensures sinks == old(sinks) + [s]
    {
      sinks := sinks + [s];
    }

    /**
      What has happened since the time that was describes: each processor was asked about exactly the packets
      that all processors before it kept; the ends of each sink received the copies of exactly those that all
      processors kept, made from one snapshot for each packet.
     */
    ghost predicate HasHandled(pkts: seq<Packet>, snapshots: seq<seq<Snapshot>>, was: Past)
      reads this`processors, this`sinks, processors`processed, Ends()`received
    {
      var kept := Kept(pkts, Verdicts());
      && |was.processed| == |processors| && |snapshots| == |sinks|
      && (forall k | 0 <= k < |processors| ::
            processors[k].processed == was.processed[k] + Kept(pkts, Verdicts()[..k]))
      && (forall k | 0 <= k < |sinks| :: |snapshots[k]| == |kept|)
      && (forall k, e | 0 <= k < |sinks| && e in sinks[k].Ends() ::
            e in was.received && e.received == was.received[e] + sinks[k].AllCopies(kept, snapshots[k]))
    }

    /** What processors and ends have seen so far. */
    ghost function Present(): (p: Past)
      reads this`processors, this`sinks, processors`processed, Ends()`received
      ensures |p.processed| == |processors| && forall k | 0 <= k < |processors| ::
              p.processed[k] == processors[k].processed
      ensures forall e | e in Ends() :: e in p.received && p.received[e] == e.received
    {
      Past(ProcessedBy(processors), map e | e in Ends() :: e.received)
    }

    /**
      Runs on what the source delivers. When the source ends, it and every end of a sink are closed once;
      until then nothing is closed.
     */
    method Run(inputs: seq<Read>) returns (ended: bool, ghost snapshots: seq<seq<Snapshot>>)
      requires PartsAreDistinct()
      modifies this`sourceClosed, processors`processed, Ends()`received, Ends()`closed
      ensures ended <==> exists n :: 0 <= n < |inputs| && inputs[n].Ended?
      ensures forall k, n | 0 <= k < |sinks| && k < |snapshots| && 0 <= n < |snapshots[k]| ::
              sinks[k].IsSnapshot(snapshots[k][n])
      ensures forall k, e | 0 <= k < |sinks| && e in sinks[k].Ends() ::
              e.closed == old(e.closed) + if ended then 1 else 0
      ensures sourceClosed == old(sourceClosed) + if ended then 1 else 0
      ensures HasHandled(Arrivals(inputs), snapshots, old(Present()))
    {
      hide HasHandled, Present, PartsAreDistinct, Arrivals, IsListing;
      ended, snapshots := ReadAll(inputs);
      if ended { CloseAll(); }
    }

    /** The loop over the reads. */
    method ReadAll(inputs: seq<Read>) returns (ended: bool, ghost snapshots: seq<seq<Snapshot>>)
      requires PartsAreDistinct()
      modifies processors`processed, Ends()`received
      ensures ended <==> exists n :: 0 <= n < |inputs| && inputs[n].Ended?
      ensures HasHandled(Arrivals(inputs), snapshots, old(Present()))
      ensures forall k, n | 0 <= k < |sinks| && k < |snapshots| && 0 <= n < |snapshots[k]| ::
              sinks[k].IsSnapshot(snapshots[k][n])
    {
      hide HasHandled, Arrivals, PartsAreDistinct, Ends, Present, IsListing;
      ghost var pkts: seq<Packet>, was, ends := [], Present(), Ends();
      snapshots := seq(|sinks|, _ => []);
      NothingHandled();
      NoArrivals();
      assert inputs[0..] == inputs;
      ended := false;
      var n := 0;
      while n < |inputs|
        invariant n <= |inputs| && !ended && Ends() == ends && PartsAreDistinct()
        invariant forall m | 0 <= m < n :: !inputs[m].Ended?
        invariant pkts + Arrivals(inputs[n..]) == Arrivals(inputs)
        invariant HasHandled(pkts, snapshots, was)
        invariant forall k, n | 0 <= k < |sinks| && k < |snapshots| && 0 <= n < |snapshots[k]| ::
                  sinks[k].IsSnapshot(snapshots[k][n])
      {
        var read := inputs[n];
        if read.Ended? {
          ended := true;
          break;
        }
        ArrivalsNext(inputs, n);
        n := n + 1;
        if read.Broken? { continue; }
        if read.pkt.None? { continue; }
        var pkt := read.pkt.value;
        snapshots := HandleNext(pkt, pkts, snapshots, was);
        Regroup(pkts, [pkt], Arrivals(inputs[n..]));
        pkts := pkts + [pkt];
      }
      assert Arrivals(inputs[n..]) == [];
      assert pkts + [] == pkts;
    }

    lemma NothingHandled()
      requires PartsAreDistinct()
      ensures HasHandled([], seq(|sinks|, _ => []), Present())
    {
    }

    method HandleNext(pkt: Packet, ghost pkts: seq<Packet>, ghost snapshots: seq<seq<Snapshot>>, ghost was: Past)
      returns (ghost more: seq<seq<Snapshot>>)
      requires PartsAreDistinct() && HasHandled(pkts, snapshots, was)
      requires forall k, n | 0 <= k < |sinks| && k < |snapshots| && 0 <= n < |snapshots[k]| ::
               sinks[k].IsSnapshot(snapshots[k][n])
      modifies processors`processed, Ends()`received
      ensures HasHandled(pkts + [pkt], more, was)
      ensures forall k, n | 0 <= k < |sinks| && k < |more| && 0 <= n < |more[k]| :: sinks[k].IsSnapshot(more[k][n])
    {
      hide Kept, IfKept, Sink.AllCopies, Sink.Copies, IsListing, Sink.IsSound, PartsAreDistinct, AllKeep, Ends,
           VerdictsOf;
      ghost var verdicts := Verdicts();
      ghost var kept := Kept(pkts, verdicts);
      ghost var isKept, taken := Handle(pkt);
      forall k | 0 <= k < |processors|
        ensures processors[k].processed == was.processed[k] + Kept(pkts + [pkt], verdicts[..k])
      {
        KeptNext(was.processed[k], pkts, pkt, verdicts[..k]);
      }
      KeptOrNot(pkts, pkt, verdicts);
      more := snapshots;
      if isKept {
        forall k, e | 0 <= k < |sinks| && e in sinks[k].Ends()
          ensures e.received == was.received[e] + sinks[k].AllCopies(kept + [pkt], snapshots[k] + [taken[k]])
        {
          CopiesNext(was.received[e], sinks[k], kept, snapshots[k], pkt, taken[k]);
        }
        more := Added(snapshots, taken);
      }
    }

    /**
      One packet: through the processors, and if all of them keep it to the sinks, so that the ends of every
      route get exactly what the route offers to the targets of its snapshot, and nothing otherwise.
     */
    method Handle(pkt: Packet) returns (ghost isKept: bool, ghost snapshots: seq<Snapshot>)
      requires PartsAreDistinct()
      modifies processors`processed, Ends()`received
      ensures isKept == AllKeep(Verdicts(), pkt)
      ensures forall k | 0 <= k < |processors| ::
                processors[k].processed == old(processors[k].processed) + IfKept(pkt, Verdicts()[..k])
      ensures isKept ==>
                && |snapshots| == |sinks|
                && (forall k, e | 0 <= k < |sinks| && e in sinks[k].Ends() ::
                      e.received == old(e.received) + sinks[k].Copies(pkt, snapshots[k]))
                && (forall k | 0 <= k < |sinks| :: sinks[k].IsSnapshot(snapshots[k]))
      ensures !isKept ==> forall k, e | 0 <= k < |sinks| && e in sinks[k].Ends() :: e.received == old(e.received)
    {
      hide Sink.Copies, IsListing, IfKept, PartsAreDistinct, AllKeep, Sink.IsSound;
      snapshots := [];
      var continueProcessing := Ask(pkt);
      isKept := continueProcessing;
      if !continueProcessing { return; }
      snapshots := Give(pkt);
    }

    /** What it means that all keep a packet. */
    lemma KeptByAll(pkt: Packet)
      ensures AllKeep(Verdicts(), pkt) <==> forall k | 0 <= k < |processors| :: processors[k].verdict(pkt) == Keep
    {
      assert forall k | 0 <= k < |processors| :: Verdicts()[k] == processors[k].verdict;
    }

    /** The loop over the processors for one packet. */
    method Ask(pkt: Packet) returns (keep: bool)
      requires PartsAreDistinct()
      modifies processors`processed
      ensures keep == AllKeep(Verdicts(), pkt)
      ensures forall k | 0 <= k < |processors| ::
                processors[k].processed == old(processors[k].processed) + IfKept(pkt, Verdicts()[..k])
    {
      keep := true;
      for i := 0 to |processors|
        invariant keep && AllKeep(Verdicts()[..i], pkt)
        invariant forall k | 0 <= k < i :: processors[k].processed == old(processors[k].processed) + [pkt]
        invariant forall k | i <= k < |processors| :: processors[k].processed == old(processors[k].processed)
      {
        var verdict := processors[i].Process(pkt);
        assert Verdicts()[i] == processors[i].verdict;
        if verdict != Keep {
          assert forall k | i < k <= |processors| :: Verdicts()[..k][i](pkt) != Keep;
          keep := false;
          return;
        }
      }
      assert Verdicts()[..|processors|] == Verdicts();
    }

    /** The loop over the sinks for one packet; a sink that fails does not stop the others. */
    method Give(pkt: Packet) returns (ghost snapshots: seq<Snapshot>)
      requires PartsAreDistinct()
      modifies Ends()`received
      ensures |snapshots| == |sinks|
      ensures forall k, e | 0 <= k < |sinks| && e in sinks[k].Ends() ::
                e.received == old(e.received) + sinks[k].Copies(pkt, snapshots[k])
      ensures forall k | 0 <= k < |sinks| :: sinks[k].IsSnapshot(snapshots[k])
    {
      hide Sink.Copies, IsListing, Sink.IsSound, Ends, PartsAreDistinct;
      ghost var ends := Ends();
      snapshots := [];
      for i := 0 to |sinks|
        invariant |snapshots| == i && Ends() == ends
        invariant forall k | 0 <= k < i :: sinks[k].IsSnapshot(snapshots[k])
        invariant forall k, e | 0 <= k < i && e in sinks[k].Ends() ::
                    e.received == old(e.received) + sinks[k].Copies(pkt, snapshots[k])
        invariant forall k, e | i <= k < |sinks| && e in sinks[k].Ends() :: e.received == old(e.received)
      {
        SinkStandsAlone(i);
        ghost var snapshot := sinks[i].Write(pkt);
        forall k, e | 0 <= k <= i && e in sinks[k].Ends()
          ensures e.received == old(e.received) + sinks[k].Copies(pkt, (snapshots + [snapshot])[k])
        {
          assert k < i ==> e !in sinks[i].Ends();
        }
        forall k, e | i < k < |sinks| && e in sinks[k].Ends() ensures e.received == old(e.received) {
          assert e !in sinks[i].Ends();
        }
        snapshots := snapshots + [snapshot];
      }
    }

    method CloseAll()
      requires PartsAreDistinct()
      modifies this`sourceClosed, Ends()`closed
      ensures sourceClosed == old(sourceClosed) + 1
      ensures forall k, e | 0 <= k < |sinks| && e in sinks[k].Ends() :: e.closed == old(e.closed) + 1
    {
      hide Sink.IsSound, Ends, PartsAreDistinct;
      ghost var ends := Ends();
      sourceClosed := sourceClosed + 1;
      for i := 0 to |sinks|
        invariant sourceClosed == old(sourceClosed) + 1 && Ends() == ends
        invariant forall k, e | 0 <= k < i && e in sinks[k].Ends() :: e.closed == old(e.closed) + 1
        invariant forall k, e | i <= k < |sinks| && e in sinks[k].Ends() :: e.closed == old(e.closed)
      {
        SinkStandsAlone(i);
        sinks[i].Close();
        forall k, e | 0 <= k <= i && e in sinks[k].Ends() ensures e.closed == old(e.closed) + 1 {
          assert k < i ==> e !in sinks[i].Ends();
        }
        forall k, e | i < k < |sinks| && e in sinks[k].Ends() ensures e.closed == old(e.closed) {
          assert e !in sinks[i].Ends();
        }
      }
    }

    lemma SinkStandsAlone(i: nat)
      requires PartsAreDistinct() && i < |sinks|
      ensures sinks[i].IsSound()
      ensures forall e | e in sinks[i].Ends() :: e in Ends()
      ensures forall k, e | 0 <= k < |sinks| && k != i && e in sinks[k].Ends() :: e !in sinks[i].Ends()
    {
    }
  }

  function Added(snapshots: seq<seq<Snapshot>>, taken: seq<Snapshot>): seq<seq<Snapshot>>
    requires |snapshots| == |taken|
  {
    seq(|taken|, k requires 0 <= k < |taken| => snapshots[k] + [taken[k]])
  }

  // ---------- wiring ----------

  /** A source and a destination interface, by position. */
  datatype Link = Link(src: nat, dst: nat)

  function LinksFrom<Name(==)>(names: seq<Name>, src: nat, upTo: nat): seq<Link>
    requires src < |names| && upTo <= |names|
  {
    if upTo == 0 then []
    else LinksFrom(names, src, upTo - 1) + if names[src] == names[upTo - 1] then [] else [Link(src, upTo - 1)]
  }

  /** Every pair of interfaces with different names, by source and then by destination. */
  function Links<Name(==)>(names: seq<Name>, upTo: nat): seq<Link>
    requires upTo <= |names|
  {
    if upTo == 0 then [] else Links(names, upTo - 1) + LinksFrom(names, upTo - 1, |names|)
  }

  /** Adds a sink for each pair; the first that cannot be added ends the setup. */
  method AttachCrossInterfaceSinks(names: seq<string>, fails: Link -> bool)
    returns (added: seq<Link>, error: Option<Link>)
    ensures error.None? ==> added == Links(names, |names|)
    ensures error.Some? ==>
              && error.value.src < |names| && error.value.dst < |names|
              && names[error.value.src] != names[error.value.dst] && fails(error.value)
              && added == Links(names, error.value.src) + LinksFrom(names, error.value.src, error.value.dst)
    ensures forall l | l in added :: !fails(l)
  {
    hide Links, LinksFrom;
    added, error := [], None;
    NoLinks(names);
    for src := 0 to |names|
      invariant added == Links(names, src) && forall l | l in added :: !fails(l)
    {
      for dst := 0 to |names|
        invariant added == Links(names, src) + LinksFrom(names, src, dst)
        invariant forall l | l in added :: !fails(l)
      {
        LinksFromNext(names, src, dst);
        if names[src] == names[dst] { continue; }
        if fails(Link(src, dst)) {
          return added, Some(Link(src, dst));
        }
        Regroup(Links(names, src), LinksFrom(names, src, dst), [Link(src, dst)]);
        added := added + [Link(src, dst)];
      }
      LinksNext(names, src);
    }
  }

  lemma NoLinks<Name>(names: seq<Name>)
    ensures Links(names, 0) == []
    ensures forall src | 0 <= src < |names| :: LinksFrom(names, src, 0) == []
  {
  }

  lemma LinksNext<Name>(names: seq<Name>, src: nat)
    requires src < |names|
    ensures Links(names, src + 1) == Links(names, src) + LinksFrom(names, src, |names|)
  {
    hide LinksFrom;
  }

  lemma LinksFromNext<Name>(names: seq<Name>, src: nat, dst: nat)
    requires src < |names| && dst < |names|
    ensures names[src] == names[dst] ==> LinksFrom(names, src, dst + 1) == LinksFrom(names, src, dst)
    ensures names[src] != names[dst] ==> LinksFrom(names, src, dst + 1) == LinksFrom(names, src, dst) + [Link(src, dst)]
  {
  }

  predicate AreDistinct<Name(==)>(names: seq<Name>) { forall i, j | 0 <= i < j < |names| :: names[i] != names[j] }

  /** checkDuplicateInterfaces; the program exits on a duplicate. */
  method CheckDuplicateInterfaces(ifaces: seq<string>) returns (ok: bool)
    ensures ok <==> AreDistinct(ifaces)
  {
    var seen: map<string, bool> := map[];
    for i := 0 to |ifaces|
      invariant AreDistinct(ifaces[..i])
      invariant forall name :: name in seen <==> name in ifaces[..i]
      invariant forall name | name in seen :: seen[name]
    {
      if ifaces[i] in seen && seen[ifaces[i]] {
        return false;
      }
      seen := seen[ifaces[i] := true];
    }
    assert ifaces[..|ifaces|] == ifaces;
    ok := true;
  }

  predicate Precedes(l: Link, m: Link) { l.src < m.src || (l.src == m.src && l.dst < m.dst) }

  predicate InOrder(ls: seq<Link>) { forall i, j | 0 <= i < j < |ls| :: Precedes(ls[i], ls[j]) }

  lemma {:induction false} LinksFromAreInOrder<Name>(names: seq<Name>, src: nat, upTo: nat)
    requires src < |names| && upTo <= |names|
    ensures InOrder(LinksFrom(names, src, upTo))
    ensures forall i | 0 <= i < |LinksFrom(names, src, upTo)| ::
              var l := LinksFrom(names, src, upTo)[i]; l.src == src && l.dst < upTo && names[src] != names[l.dst]
  {
    hide LinksFrom;
    NoLinks(names);
    if upTo > 0 {
      LinksFromAreInOrder(names, src, upTo - 1);
      LinksFromNext(names, src, upTo - 1);
    }
  }

  lemma {:induction false} LinksAreInOrder<Name>(names: seq<Name>, upTo: nat)
    requires upTo <= |names|
    ensures InOrder(Links(names, upTo))
    ensures forall i | 0 <= i < |Links(names, upTo)| ::
              var l := Links(names, upTo)[i]; l.src < upTo && l.dst < |names| && names[l.src] != names[l.dst]
  {
    hide LinksFrom, Links;
    NoLinks(names);
    if upTo > 0 {
      LinksAreInOrder(names, upTo - 1);
      LinksFromAreInOrder(names, upTo - 1, |names|);
      LinksNext(names, upTo - 1);
    }
  }

  lemma {:induction false} LinksHave<Name>(names: seq<Name>, upTo: nat, l: Link)
    requires l.src < upTo <= |names| && l.dst < |names| && names[l.src] != names[l.dst]
    ensures l in Links(names, upTo)
  {
    hide LinksFrom, Links;
    LinksNext(names, upTo - 1);
    if l.src == upTo - 1 {
      LinksFromHave(names, l.src, |names|, l.dst);
    } else {
      LinksHave(names, upTo - 1, l);
    }
  }

  lemma {:induction false} LinksFromHave<Name>(names: seq<Name>, src: nat, upTo: nat, dst: nat)
    requires src < |names| && dst < upTo <= |names| && names[src] != names[dst]
    ensures Link(src, dst) in LinksFrom(names, src, upTo)
  {
    if dst < upTo - 1 { LinksFromHave(names, src, upTo - 1, dst); }
  }

  /** With distinct names every interface gets exactly one sink for each other one, and none for itself. */
  lemma EveryOtherInterfaceIsLinkedOnce<Name>(names: seq<Name>, i: nat, j: nat)
    requires AreDistinct(names) && i < |names| && j < |names|
    ensures multiset(Links(names, |names|))[Link(i, j)] == if i == j then 0 else 1
  {
    var links, link := Links(names, |names|), Link(i, j);
    LinksAreInOrder(names, |names|);
    if i != j { LinksHave(names, |names|, link); }
    OccursOnce(links, link);
  }

  lemma {:induction false} OccursOnce(ls: seq<Link>, l: Link)
    requires InOrder(ls)
    ensures multiset(ls)[l] == if l in ls then 1 else 0
  {
    if ls != [] {
      var init := ls[..|ls| - 1];
      OccursOnce(init, l);
      assert ls == init + [ls[|ls| - 1]];
    }
  }
}
