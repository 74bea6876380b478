/** The cache of libpcap handles (internal/proxy/device_manager.go). */
module DeviceManagers {
  import opened Wrappers
  import Wire

  type Handle = nat

  datatype Direction = Reader | Writer {
    function Name(): string { match this case Reader => "read" case Writer => "write" }
  }

  function Key(iname: string, direction: Direction): string {
    iname + ":" + direction.Name()
  }

  /** A key names its interface and its direction. */
  lemma KeyIsInjective(i: string, d: Direction, j: string, e: Direction)
    requires Key(i, d) == Key(j, e)
    ensures i == j && d == e
  {
    var k := Key(i, d);
    assert k[|k| - 1] == (if d == Reader then 'd' else 'e');
    assert k[|k| - 1] == (if e == Reader then 'd' else 'e');
    assert k[..|i|] == i && k[..|j|] == j;
  }

  /** isValidLinkType: one of the two raw numbers belongs to OpenBSD, the other to every other system. */
  predicate IsValidLinkType(link: int, openBsd: bool) {
    || link == Wire.LINK_LOOP || link == Wire.LINK_ETHERNET || link == Wire.LINK_NULL || link == Wire.LINK_RAW
    || (link == Wire.LINK_RAW_OPENBSD && openBsd)
    || (link == Wire.LINK_RAW_OTHERS && !openBsd)
  }

  /** The numbers: 0, 1, 101 and 108 everywhere, 14 on OpenBSD and 12 elsewhere; the rewriter serves them all. */
  lemma ValidLinkTypesAre(link: int, openBsd: bool)
    ensures IsValidLinkType(link, openBsd) <==> link in {0, 1, 101, 108, if openBsd then 14 else 12}
    ensures IsValidLinkType(link, openBsd) ==>
              link == Wire.LINK_ETHERNET || Wire.IsLoopbackLink(link) || Wire.IsRawLink(link)
  {
  }

  /** What libpcap answers to an attempt to open an interface. */
  datatype Activation = Refused | Activated(h: Handle, link: int, directionIsSet: bool) {
    predicate IsUsable(openBsd: bool) { Activated? && IsValidLinkType(link, openBsd) && directionIsSet }
  }

  /** The cache, and the handles closed so far, in order: what libpcap sees. */
  datatype Cache = Cache(handles: map<string, Handle>, closed: seq<Handle>) {
    /** Close in one critical section. */
    function Without(key: string): Cache {
      if key in handles then Cache(handles - {key}, closed + [handles[key]]) else this
    }

    /** An attempt to get a handle: the cached one, or a new one that is cached if it is usable and closed if not. */
    function Attempt(key: string, answer: Activation, openBsd: bool): (Cache, Option<Handle>) {
      if key in handles then (this, Some(handles[key]))
      else if answer.Refused? then (this, None)
      else if !answer.IsUsable(openBsd) then (this.(closed := closed + [answer.h]), None)
      else (this.(handles := handles[key := answer.h]), Some(answer.h))
    }
  }

  class DeviceManager {
    var handles: map<string, Handle>
    var closed: seq<Handle>
    const openBsd: bool

    ghost function Contents(): Cache
      reads this
    {
      Cache(handles, closed)
    }

    constructor (openBsd: bool)
      ensures handles == map[] && closed == [] && this.openBsd == openBsd
    {
      handles, closed, this.openBsd := map[], [], openBsd;
    }

    method CreateReaderHandle(iname: string, answer: Activation) returns (r: Option<Handle>)
      modifies this
      ensures (Contents(), r) == old(Contents()).Attempt(Key(iname, Reader), answer, openBsd)
      ensures r.Some? ==>
                Key(iname, Reader) in handles && handles[Key(iname, Reader)] == r.value && closed == old(closed)
      ensures r.None? ==>
                handles == old(handles) && closed == old(closed) + if answer.Activated? then [answer.h] else []
    {
      var key := Key(iname, Reader);
      if key in handles { return Some(handles[key]); }
      if answer.Refused? { return None; }
      var handle := answer.h;
      if !IsValidLinkType(answer.link, openBsd) {
        closed := closed + [handle];
        return None;
      }
      if !answer.directionIsSet {
        closed := closed + [handle];
        return None;
      }
      handles := handles[key := handle];
      r := Some(handle);
    }

    method Close(iname: string, direction: Direction) returns (found: bool)
      modifies this
      ensures found == (Key(iname, direction) in old(handles))
      ensures Contents() == old(Contents()).Without(Key(iname, direction))
    {
      var key := Key(iname, direction);
      if key !in handles { return false; }
      closed := closed + [handles[key]];
      handles := handles - {key};
      found := true;
    }

    /** Closes every cached handle; the order of a Go map is arbitrary. */
    method CloseHandles() returns (ghost order: seq<string>)
      modifies this
      ensures handles == map[]
      ensures |order| == |old(handles)| && forall key :: key in order <==> key in old(handles)
      ensures |closed| == |old(closed)| + |order| && closed[..|old(closed)|] == old(closed)
      ensures forall i | 0 <= i < |order| ::
              order[i] in old(handles) && closed[|old(closed)| + i] == old(handles)[order[i]]
    {
      order := [];
      var todo := handles.Keys;
      ghost var was := handles;
      while todo != {}
        invariant todo == handles.Keys
        invariant forall key | key in handles :: key in was && handles[key] == was[key]
        invariant forall key :: key in order <==> key in was && key !in todo
        invariant |order| + |todo| == |was|
        invariant |closed| == |old(closed)| + |order| && closed[..|old(closed)|] == old(closed)
        invariant forall i | 0 <= i < |order| :: order[i] in was && closed[|old(closed)| + i] == was[order[i]]
        decreases todo
      {
        var key :| key in todo;
        closed := closed + [handles[key]];
        handles := handles - {key};
        todo := todo - {key};
        order := order + [key];
      }
      assert handles == map[];
    }
  }
}
