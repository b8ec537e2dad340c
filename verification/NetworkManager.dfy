/** The records kept for network devices, and the notifications that change them. */
module NetworkManager {
  import opened Cells
  import opened Options
  import opened RecordQueues
  import opened TailQueues

  const ACTIVATED := 100

  /** What the library reports about an access point and about a device. */
  datatype AccessPoint = AccessPoint(ssid: Option<string>, strength: int)
  datatype Device = Device(state: int, ip4: Option<seq<string>>, ip6: Option<seq<string>>, wifi: bool, ap: Option<AccessPoint>)

  /** The id of a connected handler. */
  type Handler = h: int | h != 0 witness 1

  // ----- the table of what is known of each interface -----

  datatype Info = Info(state: int, ipv4: Option<string>, ipv6: Option<string>, ap: Option<AccessPoint>,
                       essid: Option<string>, ss: int, apId: int, ssId: int, stateId: int)

  const BLANK := Info(0, None, None, None, None, 0, 0, 0, 0)

  /** An inactive device has no addresses; without an access point there is no ESSID and no strength handler,
      and with one there is a handler. */
  predicate Sound(x: Info) {
    && (x.state != ACTIVATED ==> x.ipv4 == None && x.ipv6 == None)
    && (x.ap == None ==> x.essid == None && x.ssId == 0)
    && (x.ap != None ==> x.ssId != 0)
  }

  function FirstAddress(config: Option<seq<string>>, before: Option<string>): Option<string> {
    if config.Some? && config.value != [] then Some(config.value[0]) else before
  }

  /** After the device reported its state. */
  function StateReported(x: Info, d: Device): Info {
    if d.state == ACTIVATED
    then x.(state := d.state, ipv4 := FirstAddress(d.ip4, x.ipv4), ipv6 := FirstAddress(d.ip6, x.ipv6))
    else x.(state := d.state, ipv4 := None, ipv6 := None)
  }

  /** After the device reported its access point. */
  function PointReported(x: Info, point: Option<AccessPoint>, ssId: Handler): Info {
    match point
    case Some(p) => x.(ap := point, essid := if p.ssid.Some? then p.ssid else x.essid, ss := p.strength, ssId := ssId)
    case None => if x.ap.Some? then x.(ap := None, essid := None, ss := 0, ssId := 0) else x
  }

  /** A device met for the first time. */
  function Met(d: Device, apId: Handler, ssId: Handler, stateId: Handler): Info {
    var x := StateReported(BLANK, d).(stateId := stateId);
    if d.wifi then PointReported(x.(apId := apId), d.ap, ssId) else x
  }

  /** A lookup, with what the library reports of the interface and the ids it would give to the handlers; or a
      notification for the record of an interface. */
  datatype Event =
    | Find(iface: string, reported: Option<Device>, apId: Handler, ssId: Handler, stateId: Handler)
    | StateEvent(iface: string, device: Device)
    | PointEvent(iface: string, point: Option<AccessPoint>, ssId: Handler)
    | StrengthEvent(iface: string, strength: int)

  type Table = map<string, Info>

  /** The first lookup that meets a device adds it; later events change what is known of it. */
  function Applied(t: Table, e: Event): Table {
    if e.iface !in t then
      if e.Find? && e.reported.Some? then t[e.iface := Met(e.reported.value, e.apId, e.ssId, e.stateId)] else t
    else
      var x := t[e.iface];
      match e
      case Find(_, _, _, _, _) => t
      case StateEvent(_, d) => t[e.iface := StateReported(x, d)]
      case PointEvent(_, point, ssId) => t[e.iface := PointReported(x, point, ssId)]
      case StrengthEvent(_, strength) => t[e.iface := x.(ss := strength)]
  }

  function Played(events: seq<Event>): Table {
    if events == [] then map[] else Applied(Played(events[..|events| - 1]), events[|events| - 1])
  }

  /** Whatever happens, what is known stays sound. */
  lemma {:induction false} PlayedSound(events: seq<Event>)
    ensures forall x :: x in Played(events) ==> Sound(Played(events)[x])
    ensures forall x :: x in Played(events) ==>
      var info := Played(events)[x];
      && (info.state != ACTIVATED ==> info.ipv4 == None && info.ipv6 == None)
      && (info.ap == None ==> info.essid == None && info.ssId == 0)
      && (info.ap != None ==> info.ssId != 0)
  {
    if events != [] {
      PlayedSound(events[..|events| - 1]);
    }
  }

  predicate Meets(e: Event, iface: string) {
    e.Find? && e.iface == iface && e.reported.Some?
  }

  /** Some lookup among the first n events met the interface. */
  predicate Known(events: seq<Event>, n: nat, iface: string) {
    exists i :: 0 <= i < n && i < |events| && Meets(events[i], iface)
  }

  lemma {:induction false} PlayedKnows(events: seq<Event>, n: nat, iface: string)
    requires n <= |events|
    ensures iface in Played(events[..n]) <==> Known(events, n, iface)
  {
    if n > 0 {
      PlayedKnows(events, n - 1, iface);
      assert events[..n][..n - 1] == events[..n - 1];
      assert Meets(events[n - 1], iface) ==> Known(events, n, iface);
    }
  }

  /** Event i is the lookup that meets the interface. */
  predicate MeetsFirst(events: seq<Event>, i: nat) {
    i < |events| && Meets(events[i], events[i].iface) && !Known(events, i, events[i].iface)
  }

  /** The kinds of facts a record keeps, and which notifications report one. */
  datatype Kind = State | Point | Strength | Handlers

  predicate Tells(e: Event, iface: string, kind: Kind) {
    e.iface == iface
    && match kind
       case State => e.StateEvent?
       case Point => e.PointEvent?
       case Strength => e.StrengthEvent? || e.PointEvent?
       case Handlers => false
  }

  function Part(x: Info, kind: Kind): Info {
    match kind
    case State => BLANK.(state := x.state, ipv4 := x.ipv4, ipv6 := x.ipv6)
    case Point => BLANK.(ap := x.ap, essid := x.essid, ssId := x.ssId)
    case Strength => BLANK.(ss := x.ss)
    case Handlers => BLANK.(apId := x.apId, stateId := x.stateId)
  }

  /** Event i is the last to report the kind for its interface: the lookup that meets it, or a notification
      behind that. */
  predicate Latest(events: seq<Event>, i: nat, kind: Kind) {
    && i < |events|
    && (MeetsFirst(events, i) || (Known(events, i, events[i].iface) && Tells(events[i], events[i].iface, kind)))
    && forall j :: i < j < |events| ==> !Tells(events[j], events[i].iface, kind)
  }

  lemma UntoldStays(t: Table, e: Event, iface: string, kind: Kind)
    requires iface in t && !Tells(e, iface, kind)
    ensures iface in Applied(t, e) && Part(Applied(t, e)[iface], kind) == Part(t[iface], kind)
  {
  }

  lemma {:induction false} LatestStays(events: seq<Event>, i: nat, kind: Kind)
    requires Latest(events, i, kind)
    ensures events[i].iface in Played(events) && events[i].iface in Played(events[..i + 1])
    ensures Part(Played(events)[events[i].iface], kind) == Part(Played(events[..i + 1])[events[i].iface], kind)
    decreases |events|
  {
    var n := |events| - 1;
    if i == n {
      PlayedKnows(events, n, events[i].iface);
      assert events[..i + 1] == events;
    } else {
      var front := events[..n];
      LatestFront(events, i, kind);
      LatestStays(front, i, kind);
      assert front[..i + 1] == events[..i + 1];
      UntoldStays(Played(front), events[n], events[i].iface, kind);
    }
  }

  lemma LatestFront(events: seq<Event>, i: nat, kind: Kind)
    requires Latest(events, i, kind) && i < |events| - 1
    ensures Latest(events[..|events| - 1], i, kind)
  {
    var front := events[..|events| - 1];
    assert Known(front, i, front[i].iface) <==> Known(events, i, events[i].iface) by {
      assert forall k :: 0 <= k < i ==> Meets(front[k], front[i].iface) == Meets(events[k], events[i].iface);
    }
  }

  /** The table at event i: what it was, and what the event has made of it. */
  lemma AtEvent(events: seq<Event>, i: nat, kind: Kind)
    requires Latest(events, i, kind)
    ensures events[i].iface in Played(events[..i]) <==> !MeetsFirst(events, i)
    ensures events[i].iface in Played(events) && events[i].iface in Applied(Played(events[..i]), events[i])
    ensures Part(Played(events)[events[i].iface], kind)
      == Part(Applied(Played(events[..i]), events[i])[events[i].iface], kind)
  {
    PlayedKnows(events, i, events[i].iface);
    LatestStays(events, i, kind);
    assert events[..i + 1][..i] == events[..i];
  }

  /** State and addresses are those of the last report: none of an inactive device; of an active one the first
      of each configuration, and where it has none, what was known before. */
  lemma ShowsState(events: seq<Event>, i: nat)
    requires Latest(events, i, State)
    ensures events[i].iface in Played(events) && (events[i].StateEvent? ==> events[i].iface in Played(events[..i]))
    ensures
      var x, e := Played(events)[events[i].iface], events[i];
      var d := if e.Find? then e.reported.value else e.device;
      && x.state == d.state
      && (d.state != ACTIVATED ==> x.ipv4 == None && x.ipv6 == None)
      && (d.state == ACTIVATED && d.ip4.Some? && d.ip4.value != [] ==> x.ipv4 == Some(d.ip4.value[0]))
      && (d.state == ACTIVATED && d.ip6.Some? && d.ip6.value != [] ==> x.ipv6 == Some(d.ip6.value[0]))
      && (d.state == ACTIVATED && (d.ip4.None? || d.ip4.value == []) ==>
            x.ipv4 == if e.Find? then None else Played(events[..i])[e.iface].ipv4)
      && (d.state == ACTIVATED && (d.ip6.None? || d.ip6.value == []) ==>
            x.ipv6 == if e.Find? then None else Played(events[..i])[e.iface].ipv6)
  {
    AtEvent(events, i, State);
  }

  /** Access point, ESSID and strength handler are those of the last report; only a wireless device has any
      when it is met, and an access point without an ESSID leaves the one known before. */
  lemma ShowsPoint(events: seq<Event>, i: nat)
    requires Latest(events, i, Point)
    ensures events[i].iface in Played(events) && (events[i].PointEvent? ==> events[i].iface in Played(events[..i]))
    ensures
      var x, e := Played(events)[events[i].iface], events[i];
      var p := if e.PointEvent? then e.point else if e.reported.value.wifi then e.reported.value.ap else None;
      && x.ap == p
      && (p.None? ==> x.essid == None && x.ssId == 0)
      && (p.Some? ==> x.ssId == e.ssId)
      && (p.Some? && p.value.ssid.Some? ==> x.essid == p.value.ssid)
      && (p.Some? && p.value.ssid.None? ==> x.essid == if e.Find? then None else Played(events[..i])[e.iface].essid)
  {
    AtEvent(events, i, Point);
    PlayedSound(events[..i]);
  }

  /** The strength is the last one reported, by itself or with an access point; a known access point that goes
      away resets it. */
  lemma ShowsStrength(events: seq<Event>, i: nat)
    requires Latest(events, i, Strength)
    ensures events[i].iface in Played(events) && (!events[i].Find? ==> events[i].iface in Played(events[..i]))
    ensures
      var x, e := Played(events)[events[i].iface], events[i];
      && (e.StrengthEvent? ==> x.ss == e.strength)
      && (e.PointEvent? && e.point.Some? ==> x.ss == e.point.value.strength)
      && (e.PointEvent? && e.point.None? ==>
            x.ss == if Played(events[..i])[e.iface].ap.Some? then 0 else Played(events[..i])[e.iface].ss)
      && (e.Find? ==>
            var d := e.reported.value;
            x.ss == if d.wifi && d.ap.Some? then d.ap.value.strength else 0)
  {
    AtEvent(events, i, Strength);
  }

  /** The state handler, and for a wireless device the access point handler, are connected when the interface is
      met, and stay. */
  lemma KeepsHandlers(events: seq<Event>, i: nat)
    requires MeetsFirst(events, i)
    ensures events[i].iface in Played(events)
    ensures
      var x, e := Played(events)[events[i].iface], events[i];
      x.stateId == e.stateId && x.apId == if e.reported.value.wifi then e.apId else 0
  {
    AtEvent(events, i, Handlers);
  }

  // ----- the records -----

  class Record {
    const iface: string
    var state: int
    var ipv4: Option<string>
    var ipv6: Option<string>
    var ap: Option<AccessPoint>
    var essid: Option<string>
    var ss: int
    var apId: int
    var ssId: int
    var stateId: int

    function AsInfo(): Info
      reads this
    {
      Info(state, ipv4, ipv6, ap, essid, ss, apId, ssId, stateId)
    }

    constructor (iface: string)
      ensures this.iface == iface && AsInfo() == BLANK
    {
      this.iface := iface;
      state, ss, apId, ssId, stateId := 0, 0, 0, 0, 0;
      ipv4, ipv6, ap, essid := None, None, None, None;
    }

    /** nm_update */
    method Update(d: Device)
      modifies this
      ensures AsInfo() == StateReported(old(AsInfo()), d)
      ensures Sound(old(AsInfo())) ==> Sound(AsInfo())
    {
      state := d.state;
      if state == ACTIVATED {
        if d.ip4.Some? && |d.ip4.value| > 0 {
          ipv4 := Some(d.ip4.value[0]);
        }
        if d.ip6.Some? && |d.ip6.value| > 0 {
          ipv6 := Some(d.ip6.value[0]);
        }
      } else {
        ipv4 := None;
        ipv6 := None;
      }
    }

    /** nm_signal_strength_callback; the handler that fires may be an older one. */
    method StrengthChanged(strength: int)
      modifies this
      ensures AsInfo() == old(AsInfo()).(ss := strength)
      ensures Sound(old(AsInfo())) ==> Sound(AsInfo())
    {
      if strength != ss {
        ss := strength;
      }
    }

    /** nm_access_point_callback; handler is the id of the new strength handler. */
    method AccessPointChanged(point: Option<AccessPoint>, handler: Handler)
      modifies this
      ensures AsInfo() == PointReported(old(AsInfo()), point, handler)
      ensures Sound(old(AsInfo())) ==> Sound(AsInfo())
    {
      if point.Some? {
        ap := point;
        if point.value.ssid.Some? {
          essid := point.value.ssid;
        }
        ss := point.value.strength;
        ssId := handler;
      } else if ap.Some? {
        essid := None;
        ap := None;
        ss := 0;
        ssId := 0;
      }
    }

    /** The tail of nm_find, after the record has been queued. */
    method Attach(d: Device, apHandler: Handler, ssHandler: Handler, stateHandler: Handler)
      requires AsInfo() == StateReported(BLANK, d)
      modifies this
      ensures AsInfo() == Met(d, apHandler, ssHandler, stateHandler)
      ensures Sound(AsInfo())
    {
      if d.wifi {
        ap := d.ap;
        apId := apHandler;
        if ap.Some? {
          if ap.value.ssid.Some? {
            essid := ap.value.ssid;
          }
          ss := ap.value.strength;
          ssId := ssHandler;
        }
      }
      stateId := stateHandler;
    }

    /** The loop body of nm_free. */
    method Release()
      modifies this
      ensures ipv4 == None && ipv6 == None && essid == None && stateId == 0
    {
      ipv4, ipv6, essid := None, None, None;
      if stateId != 0 {
        stateId := 0;
      }
    }
  }

  class Manager {
    const queue: RecordQueue<Record>
    ghost var table: Table  // what the records hold, by interface
    ghost var owned: set<Record>

    ghost predicate Kept(i: nat)
      requires i < |queue.records|
      reads this, queue, owned
    {
      var r := queue.records[i];
      && r in owned && r.iface in table && table[r.iface] == r.AsInfo() && Sound(r.AsInfo())
      && forall j: nat :: j < i ==> queue.records[j].iface != r.iface
    }

    ghost predicate Listed(x: string)
      reads queue
    {
      exists r :: r in queue.records && r.iface == x
    }

    ghost predicate Valid()
      reads this, queue, queue.cells, queue.cells.head, queue.cells.elems, owned
    {
      && queue.Valid()
      && (forall i: nat {:trigger Kept(i)} :: i < |queue.records| ==> Kept(i))
      && forall x :: x in table ==> Listed(x)
    }

    /** nm_init */
    constructor ()
      ensures Valid() && table == map[] && queue.records == [] && owned == {}
      ensures fresh(queue.Footprint())
    {
      queue := new RecordQueue<Record>();
      table, owned := map[], {};
    }

    /** The search loop of nm_find. */
    method Search(iface: string) returns (r: Option<Record>)
      requires Valid()
      ensures r.Some? <==> iface in table
      ensures r.Some? ==> r.value in queue.records && r.value.iface == iface
    {
      ghost var k := 0;
      var cur := queue.cells.First();
      while cur != null
        invariant k <= |queue.records| && cur == if k < |queue.records| then queue.cells.elems[k] else null
        invariant forall i :: 0 <= i < k ==> queue.records[i].iface != iface
        decreases |queue.records| - k
      {
        assert queue.Holds(k) && Kept(k);
        if cur.item.value.iface == iface {
          return cur.item;
        }
        cur := TailQueue.Next(cur, queue.cells, k);
        k := k + 1;
      }
      assert !Listed(iface);
      r := None;
    }

    /** A record that has just been queued is filled in. */
    ghost method Enter(nm: Record)
      requires queue.Valid() && queue.records != [] && queue.records[|queue.records| - 1] == nm
      requires Sound(nm.AsInfo()) && nm.iface !in table
      requires forall i: nat {:trigger Kept(i)} :: i < |queue.records| - 1 ==> Kept(i)
      requires forall x :: x in table ==> exists r :: r in queue.records && r.iface == x
      modifies this
      ensures Valid() && table == old(table)[nm.iface := nm.AsInfo()] && owned == old(owned) + {nm}
    {
      table, owned := table[nm.iface := nm.AsInfo()], owned + {nm};
      forall i: nat | i < |queue.records| ensures Kept(i) {
        if i < |queue.records| - 1 {
          assert old(Kept(i));
        } else {
          forall j: nat | j < i ensures queue.records[j].iface != nm.iface {
            assert old(Kept(j));
          }
        }
      }
      forall x | x in table ensures Listed(x) {
        assert x == nm.iface ==> nm in queue.records;
      }
    }

    /** nm_find: the record of the interface, made and queued at the first lookup that meets the device. */
    method Lookup(iface: string, device: Option<Device>, apHandler: Handler, ssHandler: Handler, stateHandler: Handler)
      returns (r: Option<Record>)
      requires Valid()
      modifies this, queue.Footprint()
      ensures Valid() && fresh(queue.Footprint() - old(queue.Footprint()))
      ensures fresh(owned - old(owned)) && old(owned) <= owned
      ensures table == Applied(old(table), Find(iface, device, apHandler, ssHandler, stateHandler))
      ensures r.Some? <==> iface in table
      ensures r.Some? ==> r.value in queue.records && r.value.iface == iface
      ensures if table == old(table) then queue.records == old(queue.records)
              else r.Some? && fresh(r.value) && queue.records == old(queue.records) + [r.value]
    {
      r := Search(iface);
      if r.Some? || device.None? {
        return;
      }
      var nm := new Record(iface);
      nm.Update(device.value);
      Insert(nm, device.value, apHandler, ssHandler, stateHandler);
      r := Some(nm);
    }

    /** The new record is queued, and then completed. */
    method Insert(nm: Record, d: Device, apHandler: Handler, ssHandler: Handler, stateHandler: Handler)
      requires Valid() && nm !in owned && nm.iface !in table && nm.AsInfo() == StateReported(BLANK, d)
      modifies this, queue.Footprint(), nm
      ensures Valid() && fresh(queue.Footprint() - old(queue.Footprint())) && owned == old(owned) + {nm}
      ensures table == old(table)[nm.iface := Met(d, apHandler, ssHandler, stateHandler)]
      ensures queue.records == old(queue.records) + [nm]
    {
      queue.Append(nm);
      nm.Attach(d, apHandler, ssHandler, stateHandler);
      forall i: nat | i < |queue.records| - 1 ensures Kept(i) {
        assert old(Kept(i));
      }
      forall x | x in table ensures exists r :: r in queue.records && r.iface == x {
        assert old(Listed(x));
      }
      Enter(nm);
    }

    /** A notification for one of the records. */
    method Notify(nm: Record, e: Event)
      requires Valid() && nm in queue.records && !e.Find? && e.iface == nm.iface
      modifies this`table, owned
      ensures Valid() && table == Applied(old(table), e)
    {
      ghost var k :| 0 <= k < |queue.records| && queue.records[k] == nm;
      assert Kept(k);
      match e {
        case StateEvent(_, device) => nm.Update(device);
        case PointEvent(_, point, ssId) => nm.AccessPointChanged(point, ssId);
        case StrengthEvent(_, strength) => nm.StrengthChanged(strength);
      }
      table := table[nm.iface := nm.AsInfo()];
      forall i: nat | i < |queue.records| ensures Kept(i) {
        assert old(Kept(i));
        assert i != k ==> queue.records[i].iface != nm.iface by {
          assert i > k ==> old(Kept(i));
          assert i < k ==> old(Kept(k));
        }
      }
      forall x | x in table ensures Listed(x) {
        assert old(Listed(x));
      }
    }

    /** nm_free: every record is taken off once, in order, and released. */
    method Free() returns (freed: seq<Record>)
      requires Valid()
      modifies this, queue.Footprint(), queue.records
      ensures Valid() && queue.records == [] && table == map[]
      ensures freed == old(queue.records)
      ensures forall r :: r in freed ==> r.ipv4 == None && r.ipv6 == None && r.essid == None && r.stateId == 0
    {
      table := map[];
      freed := [];
      var nm := queue.TakeFirst();
      while nm.Some?
        invariant queue.Valid() && queue.Footprint() <= old(queue.Footprint()) && table == map[]
        invariant freed + (if nm.Some? then [nm.value] else []) + queue.records == old(queue.records)
        invariant nm.None? ==> queue.records == []
        invariant forall r :: r in freed ==> r.ipv4 == None && r.ipv6 == None && r.essid == None && r.stateId == 0
        decreases |queue.records| + if nm.Some? then 1 else 0
      {
        assert nm.value in old(queue.records);
        nm.value.Release();
        freed := freed + [nm.value];
        nm := queue.TakeFirst();
      }
    }
  }

  /** The result of event i, over the records queued so far. */
  ghost predicate Answered(events: seq<Event>, i: nat, r: Option<Record>, records: seq<Record>)
    requires i < |events|
  {
    && (r.Some? <==> events[i].Find? && Known(events, i + 1, events[i].iface))
    && (r.Some? ==> r.value in records && r.value.iface == events[i].iface)
  }

  /** One event. */
  method Handle(m: Manager, events: seq<Event>, n: nat) returns (r: Option<Record>)
    requires m.Valid() && n < |events| && m.table == Played(events[..n])
    modifies m, m.queue.Footprint(), m.owned
    ensures m.Valid() && m.table == Played(events[..n + 1])
    ensures fresh(m.queue.Footprint() - old(m.queue.Footprint())) && fresh(m.owned - old(m.owned))
    ensures old(m.queue.records) <= m.queue.records && Answered(events, n, r, m.queue.records)
  {
    var e := events[n];
    assert events[..n + 1][..n] == events[..n];
    PlayedKnows(events, n + 1, e.iface);
    if e.Find? {
      r := m.Lookup(e.iface, e.reported, e.apId, e.ssId, e.stateId);
    } else {
      r := m.Search(e.iface);  // stands for the record the callback was registered with
      if r.Some? {
        m.Notify(r.value, e);
      }
      r := None;
    }
  }

  /** Any session of lookups and notifications: the records hold the table that the events make; a lookup finds
      a record if and only if some lookup of the interface up to then met a device, and always the same one. */
  method Session(events: seq<Event>) returns (m: Manager, found: seq<Option<Record>>)
    ensures m.Valid() && m.table == Played(events)
    ensures forall r :: r in m.queue.records ==>
      r.iface in m.table && m.table[r.iface] == r.AsInfo() && Sound(r.AsInfo())
    ensures forall r, s :: r in m.queue.records && s in m.queue.records && r.iface == s.iface ==> r == s
    ensures forall x :: x in m.table ==> exists r :: r in m.queue.records && r.iface == x
    ensures |found| == |events| && forall i :: 0 <= i < |events| ==> Answered(events, i, found[i], m.queue.records)
  {
    m := new Manager();
    found := [];
    for n := 0 to |events|
      invariant fresh(m) && fresh(m.queue.Footprint()) && fresh(m.owned) && m.Valid()
      invariant m.table == Played(events[..n])
      invariant |found| == n && forall i :: 0 <= i < n ==> Answered(events, i, found[i], m.queue.records)
    {
      var r := Handle(m, events, n);
      found := found + [r];
    }
    assert events[..|events|] == events;
    OnePerInterface(m);
  }

  lemma OnePerInterface(m: Manager)
    requires m.Valid()
    ensures forall r :: r in m.queue.records ==>
      r.iface in m.table && m.table[r.iface] == r.AsInfo() && Sound(r.AsInfo())
    ensures forall a, b :: a in m.queue.records && b in m.queue.records && a.iface == b.iface ==> a == b
    ensures forall x :: x in m.table ==> exists r :: r in m.queue.records && r.iface == x
  {
    forall r | r in m.queue.records
      ensures r.iface in m.table && m.table[r.iface] == r.AsInfo() && Sound(r.AsInfo())
    {
      var i: nat :| i < |m.queue.records| && m.queue.records[i] == r;
      assert m.Kept(i);
    }
    forall a, b | a in m.queue.records && b in m.queue.records && a.iface == b.iface ensures a == b {
      var i: nat :| i < |m.queue.records| && m.queue.records[i] == a;
      var j: nat :| j < |m.queue.records| && m.queue.records[j] == b;
      assert m.Kept(i) && m.Kept(j);
    }
    forall x | x in m.table ensures exists r :: r in m.queue.records && r.iface == x {
      assert m.Listed(x);
    }
  }
}
