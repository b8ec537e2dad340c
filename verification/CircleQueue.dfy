module CircleQueues {
  import opened Cells
  import opened Edits

  /** The circular queue: the head itself is the end mark, in both directions. */
  class CircleQueue<T> {
    const head: Cell<T>
    ghost var elems: seq<Cell<T>>
    ghost var repr: set<Cell<T>>

    ghost function Cells(): seq<Cell<T>>
      reads this
    {
      [head] + elems
    }

    ghost predicate Valid()
      reads this, head, elems
    {
      Threaded(head, elems, Circular, repr)
    }

    /** CIRCLEQ_INIT */
    constructor ()
      ensures Valid() && elems == [] && fresh(repr)
    {
      head := new Cell.Head();
      new;
      head.next := head;
      head.prev := head;
      elems, repr := [], {head};
      assert Linked(Cells(), 0, head);
      Close(head, elems, Circular, repr);
    }

    /** CIRCLEQ_INSERT_AFTER */
    method InsertAfter(listelm: Cell<T>, elm: Cell<T>, ghost k: nat)
      requires Valid() && elm !in repr
      requires k < |elems| && elems[k] == listelm
      modifies this, repr, elm
      ensures Valid() && elems == old(elems)[..k + 1] + [elm] + old(elems)[k + 1..]
      ensures repr == old(repr) + {elm}
    {
      Open(head, elems, Circular, repr);
      ghost var c, was := Cells(), Links(Cells());
      Around(c, k + 1, head);
      elm.next := listelm.next;
      elm.prev := listelm;
      if listelm.next == head {
        head.prev := elm;
      } else {
        listelm.next.prev := elm;
      }
      listelm.next := elm;
      elems := ThreadInsert(head, elems, k + 1, elm, Circular, repr, was);
      repr := repr + {elm};
    }

    /** CIRCLEQ_INSERT_BEFORE */
    method InsertBefore(listelm: Cell<T>, elm: Cell<T>, ghost k: nat)
      requires Valid() && elm !in repr
      requires k < |elems| && elems[k] == listelm
      modifies this, repr, elm
      ensures Valid() && elems == old(elems)[..k] + [elm] + old(elems)[k..]
      ensures repr == old(repr) + {elm}
    {
      Open(head, elems, Circular, repr);
      ghost var c, was := Cells(), Links(Cells());
      Around(c, k, head);
      elm.next := listelm;
      elm.prev := listelm.prev;
      if listelm.prev == head {
        head.next := elm;
      } else {
        listelm.prev.next := elm;
      }
      listelm.prev := elm;
      elems := ThreadInsert(head, elems, k, elm, Circular, repr, was);
      repr := repr + {elm};
    }

    /** CIRCLEQ_INSERT_HEAD */
    method InsertHead(elm: Cell<T>)
      requires Valid() && elm !in repr
      modifies this, repr, elm
      ensures Valid() && elems == [elm] + old(elems)
      ensures repr == old(repr) + {elm}
    {
      Open(head, elems, Circular, repr);
      ghost var c, was := Cells(), Links(Cells());
      Around(c, 0, head);
      elm.next := head.next;
      elm.prev := head;
      if head.prev == head {
        head.prev := elm;
      } else {
        head.next.prev := elm;
      }
      head.next := elm;
      assert head.prev == if |c| > 1 then c[|c| - 1] else elm;
      elems := ThreadInsert(head, elems, 0, elm, Circular, repr, was);
      repr := repr + {elm};
    }

    /** CIRCLEQ_INSERT_TAIL */
    method InsertTail(elm: Cell<T>)
      requires Valid() && elm !in repr
      modifies this, repr, elm
      ensures Valid() && elems == old(elems) + [elm]
      ensures repr == old(repr) + {elm}
    {
      Open(head, elems, Circular, repr);
      ghost var c, was := Cells(), Links(Cells());
      Around(c, |c| - 1, head);
      Around(c, 0, head);
      elm.next := head;
      elm.prev := head.prev;
      if head.next == head {
        head.next := elm;
      } else {
        head.prev.next := elm;
      }
      head.prev := elm;
      elems := ThreadInsert(head, elems, |elems|, elm, Circular, repr, was);
      repr := repr + {elm};
    }

    /** CIRCLEQ_REMOVE: the removed cell keeps its own links. */
    method Remove(elm: Cell<T>, ghost k: nat)
      requires Valid()
      requires k < |elems| && elems[k] == elm
      modifies this, repr
      ensures Valid() && elems == old(elems)[..k] + old(elems)[k + 1..]
      ensures repr == old(repr) - {elm}
      ensures elm.next == old(elm.next) && elm.prev == old(elm.prev)
    {
      Open(head, elems, Circular, repr);
      ghost var c, was := Cells(), Links(Cells());
      Around(c, k, head);
      Around(c, k + 1, head);
      if elm.next == head {
        head.prev := elm.prev;
      } else {
        elm.next.prev := elm.prev;
      }
      if elm.prev == head {
        head.next := elm.next;
      } else {
        elm.prev.next := elm.next;
      }
      elems := ThreadRemove(head, elems, k, Circular, repr, was);
      repr := repr - {elm};
    }

    /** CIRCLEQ_REPLACE */
    method Replace(elm: Cell<T>, elm2: Cell<T>, ghost k: nat)
      requires Valid() && elm2 !in repr
      requires k < |elems| && elems[k] == elm
      modifies this, repr, elm2
      ensures Valid() && elems == old(elems)[k := elm2]
      ensures repr == old(repr) - {elm} + {elm2}
      ensures elm.next == old(elm.next) && elm.prev == old(elm.prev)
    {
      Open(head, elems, Circular, repr);
      ghost var c, was := Cells(), Links(Cells());
      Around(c, k, head);
      Around(c, k + 1, head);
      elm2.next := elm.next;
      if elm2.next == head {
        head.prev := elm2;
      } else {
        elm2.next.prev := elm2;
      }
      elm2.prev := elm.prev;
      if elm2.prev == head {
        head.next := elm2;
      } else {
        elm2.prev.next := elm2;
      }
      elems := ThreadReplace(head, elems, k, elm2, Circular, repr, was);
      repr := repr - {elm} + {elm2};
    }

    /** CIRCLEQ_FOREACH */
    method ForEach() returns (visited: seq<Cell<T>>)
      requires Valid()
      ensures visited == elems
    {
      visited := [];
      Open(head, elems, Circular, repr);
      Around(Cells(), 0, head);
      var cur := head.next;
      while cur != head
        invariant |visited| <= |elems| && visited == elems[..|visited|]
        invariant cur == if |visited| < |elems| then elems[|visited|] else head
        decreases |elems| - |visited|
      {
        var elm: Cell<T> := cur;
        visited := visited + [elm];
        Around(Cells(), |visited|, head);
        cur := elm.next;
      }
      assert forall i :: 0 <= i < |elems| ==> elems[i] == Cells()[i + 1];
    }

    /** CIRCLEQ_FOREACH_REVERSE */
    method ForEachReverse() returns (visited: seq<Cell<T>>)
      requires Valid()
      ensures visited == Reverse(elems)
    {
      visited := [];
      ghost var n := |elems|;
      Open(head, elems, Circular, repr);
      Around(Cells(), 0, head);
      var cur := head.prev;
      while cur != head
        invariant |visited| <= n
        invariant forall i :: 0 <= i < |visited| ==> visited[i] == elems[n - 1 - i]
        invariant cur == if |visited| < n then elems[n - 1 - |visited|] else head
        decreases n - |visited|
      {
        var elm: Cell<T> := cur;
        Around(Cells(), n - |visited|, head);
        visited := visited + [elm];
        cur := elm.prev;
      }
      assert forall i :: 0 <= i < |elems| ==> elems[i] == Cells()[i + 1];
    }
  }
}
