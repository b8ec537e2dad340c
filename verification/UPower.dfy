/** The records kept for power devices. */
module UPower {
  import opened Cells
  import opened Options
  import opened RecordQueues
  import opened TailQueues

  /** A device the daemon lists, with its properties. */
  datatype Device = Device(path: string, model: string, percentage: real, state: int)

  class Record {
    const device: string
    var model: Option<string>
    var percentage: real
    var state: int

    constructor (device: string)
      ensures this.device == device && model == None
    {
      this.device := device;
      model, percentage, state := None, 0.0, 0;
    }

    /** The loop body of upower_free. */
    method Release()
      modifies this`model
      ensures model == None
    {
      model := None;
    }
  }

  /** The first listed device with this path. */
  function FirstListed(devices: seq<Device>, path: string): Option<Device> {
    if devices == [] then None
    else if devices[0].path == path then Some(devices[0])
    else FirstListed(devices[1..], path)
  }

  /** It has the path, and no device before it has; and if there is none, no device has. */
  lemma {:induction false} FirstListedIs(devices: seq<Device>, path: string)
    ensures FirstListed(devices, path).Some? ==>
      exists i :: 0 <= i < |devices| && FirstListed(devices, path) == Some(devices[i]) && devices[i].path == path
                  && forall j :: 0 <= j < i ==> devices[j].path != path
    ensures FirstListed(devices, path).None? ==> forall j :: 0 <= j < |devices| ==> devices[j].path != path
  {
    if devices != [] && devices[0].path != path {
      var rest := devices[1..];
      FirstListedIs(rest, path);
      assert forall j :: 1 <= j < |devices| ==> devices[j] == rest[j - 1];
      if FirstListed(rest, path).Some? {
        var i :| 0 <= i < |rest| && FirstListed(rest, path) == Some(rest[i]) && rest[i].path == path
          && forall j :: 0 <= j < i ==> rest[j].path != path;
        assert devices[i + 1] == rest[i];
      }
    }
  }

  class Manager {
    const queue: RecordQueue<Record>
    var client: bool  // the connection to the daemon exists

    ghost predicate Valid()
      reads this, queue, queue.cells, queue.cells.head, queue.cells.elems
    {
      && queue.Valid()
      && forall i, j {:trigger queue.records[i], queue.records[j]} :: 0 <= i < j < |queue.records| ==>
        queue.records[i].device != queue.records[j].device
    }

    /** upower_init */
    constructor ()
      ensures Valid() && queue.records == [] && client && fresh(queue.Footprint())
    {
      queue := new RecordQueue<Record>();
      client := true;
    }

    /** upower_find: a queued record if there is one, else a new one for the first listed device with this
        path; none without a client. */
    method Find(device: string, devices: seq<Device>) returns (r: Option<Record>)
      requires Valid()
      modifies queue.Footprint()
      ensures Valid() && fresh(queue.Footprint() - old(queue.Footprint()))
      ensures !client ==> r == None && queue.records == old(queue.records)
      ensures r.Some? ==> r.value in queue.records && r.value.device == device
      ensures r == None || r.value in old(queue.records) ==> queue.records == old(queue.records)
      ensures r.Some? && r.value !in old(queue.records) ==>
        fresh(r.value) && queue.records == old(queue.records) + [r.value] && FirstListed(devices, device).Some?
      ensures client ==> (r == None <==>
        FirstListed(devices, device).None? && forall nm :: nm in old(queue.records) ==> nm.device != device)
      ensures r.Some? && r.value !in old(queue.records) ==>
        var d := FirstListed(devices, device).value;
        r.value.model == Some(d.model) && r.value.percentage == d.percentage && r.value.state == d.state
    {
      if !client {
        return None;
      }
      r := Search(device);
      if r.Some? {
        return;
      }
      var i := 0;
      while i < |devices|
        invariant i <= |devices| && FirstListed(devices[i..], device) == FirstListed(devices, device)
      {
        assert devices[i..][0] == devices[i] && devices[i..][1..] == devices[i + 1..];
        if devices[i].path == device {
          var upower := new Record(device);
          queue.Append(upower);
          upower.model, upower.percentage, upower.state := Some(devices[i].model), devices[i].percentage, devices[i].state;
          return Some(upower);
        }
        i := i + 1;
      }
    }

    /** Its search loop over the queue. */
    method Search(device: string) returns (r: Option<Record>)
      requires Valid()
      ensures match r
        case Some(upower) => upower in queue.records && upower.device == device
        case None => forall upower :: upower in queue.records ==> upower.device != device
    {
      ghost var k := 0;
      var cur := queue.cells.First();
      while cur != null
        invariant k <= |queue.records| && cur == if k < |queue.records| then queue.cells.elems[k] else null
        invariant forall i :: 0 <= i < k ==> queue.records[i].device != device
        decreases |queue.records| - k
      {
        assert queue.Holds(k);
        if cur.item.value.device == device {
          return cur.item;
        }
        cur := TailQueue.Next(cur, queue.cells, k);
        k := k + 1;
      }
      r := None;
    }

    /** upower_free: the queue is drained, each record once and in order, and the client dropped. */
    method Free() returns (freed: seq<Record>)
      requires Valid()
      modifies this, queue.Footprint(), queue.records
      ensures Valid() && queue.records == [] && !client
      ensures freed == old(queue.records) && forall r :: r in freed ==> r.model == None
    {
      freed := [];
      var upower := queue.TakeFirst();
      while upower.Some?
        invariant queue.Valid() && queue.Footprint() <= old(queue.Footprint())
        invariant freed + (if upower.Some? then [upower.value] else []) + queue.records == old(queue.records)
        invariant upower.None? ==> queue.records == []
        invariant forall r :: r in freed ==> r.model == None
        decreases |queue.records| + if upower.Some? then 1 else 0
      {
        assert upower.value in old(queue.records);
        upower.value.Release();
        freed := freed + [upower.value];
        upower := queue.TakeFirst();
      }
      client := false;
    }
  }
}
