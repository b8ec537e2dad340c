/** A tail queue used as a list of records: every element holds one, and records are only appended and drained. */
module RecordQueues {
  import opened Cells
  import opened Options
  import opened TailQueues

  class RecordQueue<R> {
    const cells: TailQueue<R>
    ghost var records: seq<R>  // the records of the queue's elements

    ghost predicate Holds(i: nat)
      requires i < |records| == |cells.elems|
      reads this, cells
    {
      cells.elems[i].item == Some(records[i])
    }

    ghost predicate Valid()
      reads this, cells, cells.head, cells.elems
    {
      && cells.Valid()
      && |records| == |cells.elems|
      && forall i: nat {:trigger Holds(i)} :: i < |records| ==> Holds(i)
    }

    ghost function Footprint(): set<object>
      reads this, cells
    {
      {this, cells} + cells.repr
    }

    /** TAILQ_INIT */
    constructor ()
      ensures Valid() && records == [] && fresh(Footprint())
    {
      cells := new TailQueue<R>();
      records := [];
    }

    /** TAILQ_INSERT_TAIL of a new element for the record. */
    method Append(r: R)
      requires Valid()
      modifies Footprint()
      ensures Valid() && records == old(records) + [r]
      ensures fresh(Footprint() - old(Footprint()))
    {
      var c := new Cell.Element(r);
      cells.InsertTail(c);
      records := records + [r];
      forall i: nat | i < |records| ensures Holds(i) {
        assert i < |records| - 1 ==> old(Holds(i));
      }
    }

    /** The guard and the first statement of the drain loops: TAILQ_FIRST and, if there is one, TAILQ_REMOVE. */
    method TakeFirst() returns (r: Option<R>)
      requires Valid()
      modifies Footprint()
      ensures Valid() && Footprint() <= old(Footprint())
      ensures match r
        case None => old(records) == [] && records == []
        case Some(x) => old(records) == [x] + records
    {
      var c := cells.First();
      if c == null {
        return None;
      }
      assert Holds(0);
      ghost var before := cells.elems;
      cells.Remove(c, 0);
      assert cells.elems == before[1..];
      records := records[1..];
      forall i: nat | i < |records| ensures Holds(i) {
        assert old(Holds(i + 1));
      }
      r := c.item;
    }
  }
}
