module TailQueues {
  import opened Cells
  import opened Edits

  class TailQueue<T> {
    const head: Cell<T>
    ghost var elems: seq<Cell<T>>  // the queue's elements, in order
    ghost var repr: set<Cell<T>>  // the cells the queue owns

    ghost function Cells(): seq<Cell<T>>
      reads this
    {
      [head] + elems
    }

    ghost predicate Valid()
      reads this, head, elems
    {
      Threaded(head, elems, TwoEnded, repr)
    }

    /** TAILQ_INIT */
    constructor ()
      ensures Valid() && elems == [] && fresh(repr)
    {
      head := new Cell.Head();
      new;
      head.next := null;
      head.prev := head;
      elems, repr := [], {head};
      assert Linked(Cells(), 0, null);
      Close(head, elems, TwoEnded, repr);
    }

    /** TAILQ_INSERT_HEAD */
    method InsertHead(elm: Cell<T>)
      requires Valid() && elm !in repr
      modifies this, repr, elm
      ensures Valid() && elems == [elm] + old(elems)
      ensures repr == old(repr) + {elm}
    {
      Open(head, elems, TwoEnded, repr);
      ghost var c, was := Cells(), Links(Cells());
      Around(c, 0, null);
      elm.next := head.next;
      if elm.next != null {
        head.next.prev := elm;
      } else {
        head.prev := elm;
      }
      head.next := elm;
      elm.prev := head;
      elems := ThreadInsert(head, elems, 0, elm, TwoEnded, repr, was);
      repr := repr + {elm};
    }

    /** TAILQ_INSERT_TAIL */
    method InsertTail(elm: Cell<T>)
      requires Valid() && elm !in repr
      modifies this, repr, elm
      ensures Valid() && elems == old(elems) + [elm]
      ensures repr == old(repr) + {elm}
    {
      Open(head, elems, TwoEnded, repr);
      ghost var c, was := Cells(), Links(Cells());
      Around(c, |c| - 1, null);
      elm.next := null;
      elm.prev := head.prev;
      head.prev.next := elm;
      head.prev := elm;
      elems := ThreadInsert(head, elems, |elems|, elm, TwoEnded, repr, was);
      repr := repr + {elm};
    }

    /** TAILQ_INSERT_AFTER */
    method InsertAfter(listelm: Cell<T>, elm: Cell<T>, ghost k: nat)
      requires Valid() && elm !in repr
      requires k < |elems| && elems[k] == listelm
      modifies this, repr, elm
      ensures Valid() && elems == old(elems)[..k + 1] + [elm] + old(elems)[k + 1..]
      ensures repr == old(repr) + {elm}
    {
      Open(head, elems, TwoEnded, repr);
      ghost var c, was := Cells(), Links(Cells());
      Around(c, k + 1, null);
      elm.next := listelm.next;
      if elm.next != null {
        elm.next.prev := elm;
      } else {
        head.prev := elm;
      }
      listelm.next := elm;
      elm.prev := listelm;
      elems := ThreadInsert(head, elems, k + 1, elm, TwoEnded, repr, was);
      repr := repr + {elm};
    }

    /** TAILQ_INSERT_BEFORE: the code sees neither the queue nor its head. */
    static method InsertBefore(listelm: Cell<T>, elm: Cell<T>, ghost q: TailQueue<T>, ghost k: nat)
      requires q.Valid() && elm !in q.repr
      requires k < |q.elems| && q.elems[k] == listelm
      modifies q, q.repr, elm
      ensures q.Valid() && q.elems == old(q.elems)[..k] + [elm] + old(q.elems)[k..]
      ensures q.repr == old(q.repr) + {elm}
    {
      Open(q.head, q.elems, TwoEnded, q.repr);
      ghost var c, was := q.Cells(), Links(q.Cells());
      Around(c, k, null);
      elm.prev := listelm.prev;
      elm.next := listelm;
      listelm.prev.next := elm;
      listelm.prev := elm;
      q.elems := ThreadInsert(q.head, q.elems, k, elm, TwoEnded, q.repr, was);
      q.repr := q.repr + {elm};
    }

    /** TAILQ_REMOVE: the removed cell keeps its own links. */
    method Remove(elm: Cell<T>, ghost k: nat)
      requires Valid()
      requires k < |elems| && elems[k] == elm
      modifies this, repr
      ensures Valid() && elems == old(elems)[..k] + old(elems)[k + 1..]
      ensures repr == old(repr) - {elm}
      ensures elm.next == old(elm.next) && elm.prev == old(elm.prev)
    {
      Open(head, elems, TwoEnded, repr);
      ghost var c, was := Cells(), Links(Cells());
      Around(c, k, null);
      Around(c, k + 1, null);
      if elm.next != null {
        elm.next.prev := elm.prev;
      } else {
        head.prev := elm.prev;
      }
      elm.prev.next := elm.next;
      elems := ThreadRemove(head, elems, k, TwoEnded, repr, was);
      repr := repr - {elm};
    }

    /** TAILQ_REPLACE */
    method Replace(elm: Cell<T>, elm2: Cell<T>, ghost k: nat)
      requires Valid() && elm2 !in repr
      requires k < |elems| && elems[k] == elm
      modifies this, repr, elm2
      ensures Valid() && elems == old(elems)[k := elm2]
      ensures repr == old(repr) - {elm} + {elm2}
      ensures elm.next == old(elm.next) && elm.prev == old(elm.prev)
    {
      Open(head, elems, TwoEnded, repr);
      ghost var c, was := Cells(), Links(Cells());
      Around(c, k, null);
      Around(c, k + 1, null);
      elm2.next := elm.next;
      if elm2.next != null {
        elm2.next.prev := elm2;
      } else {
        head.prev := elm2;
      }
      elm2.prev := elm.prev;
      elm2.prev.next := elm2;
      elems := ThreadReplace(head, elems, k, elm2, TwoEnded, repr, was);
      repr := repr - {elm} + {elm2};
    }

    /** TAILQ_FIRST */
    method First() returns (e: Cell?<T>)
      requires Valid()
      ensures e == if elems == [] then null else elems[0]
    {
      Open(head, elems, TwoEnded, repr);
      Around(Cells(), 0, null);
      e := head.next;
    }

    /** TAILQ_NEXT */
    static method Next(elm: Cell<T>, ghost q: TailQueue<T>, ghost k: nat) returns (e: Cell?<T>)
      requires q.Valid() && k < |q.elems| && q.elems[k] == elm
      ensures e == if k + 1 == |q.elems| then null else q.elems[k + 1]
    {
      Open(q.head, q.elems, TwoEnded, q.repr);
      Around(q.Cells(), k + 1, null);
      e := elm.next;
    }

    /** TAILQ_LAST: two steps along the slot addresses, then one load. */
    method Last() returns (e: Cell?<T>)
      requires Valid()
      ensures e == if elems == [] then null else elems[|elems| - 1]
    {
      Open(head, elems, TwoEnded, repr);
      Around(Cells(), |Cells()| - 1, null);
      if |Cells()| > 1 {
        Around(Cells(), |Cells()| - 2, null);
      }
      e := head.prev.prev.next;
    }

    /** TAILQ_PREV */
    static method Prev(elm: Cell<T>, ghost q: TailQueue<T>, ghost k: nat) returns (e: Cell?<T>)
      requires q.Valid() && k < |q.elems| && q.elems[k] == elm
      ensures e == if k == 0 then null else q.elems[k - 1]
    {
      Open(q.head, q.elems, TwoEnded, q.repr);
      Around(q.Cells(), k, null);
      Around(q.Cells(), |q.Cells()| - 1, null);
      if k > 0 {
        Around(q.Cells(), k - 1, null);
      }
      e := elm.prev.prev.next;
    }

    /** TAILQ_FOREACH */
    method ForEach() returns (visited: seq<Cell<T>>)
      requires Valid()
      ensures visited == elems
    {
      visited := [];
      var cur := First();
      while cur != null
        invariant |visited| <= |elems| && visited == elems[..|visited|]
        invariant cur == if |visited| < |elems| then elems[|visited|] else null
        decreases |elems| - |visited|
      {
        visited := visited + [cur];
        cur := Next(cur, this, |visited| - 1);
      }
    }

    /** TAILQ_FOREACH_REVERSE */
    method ForEachReverse() returns (visited: seq<Cell<T>>)
      requires Valid()
      ensures visited == Reverse(elems)
    {
      visited := [];
      ghost var n := |elems|;
      var cur := Last();
      while cur != null
        invariant |visited| <= n
        invariant forall i :: 0 <= i < |visited| ==> visited[i] == elems[n - 1 - i]
        invariant cur == if |visited| < n then elems[n - 1 - |visited|] else null
        decreases n - |visited|
      {
        visited := visited + [cur];
        cur := Prev(cur, this, n - |visited|);
      }
    }

    /** TAILQ_FOREACH_SAFE around a body that removes the chosen elements. */
    method RemoveChosen(chosen: set<Cell<T>>) returns (visited: seq<Cell<T>>)
      requires Valid()
      modifies this, repr
      ensures Valid() && repr <= old(repr) && visited == old(elems)
      ensures elems == Without(old(elems), chosen)
    {
      visited := [];
      ghost var rest, kept := elems, [];
      var cur := First();
      while cur != null
        invariant Valid() && repr <= old(repr)
        invariant visited + rest == old(elems) && elems == kept + rest && kept == Without(visited, chosen)
        invariant cur == if rest == [] then null else rest[0]
        decreases |rest|
      {
        var elm: Cell<T> := cur;
        var after := Next(elm, this, |kept|);
        RemoveIfChosen(elm, chosen, kept, rest);
        Advance(visited, kept, rest, chosen);
        kept := if elm in chosen then kept else kept + [elm];
        visited, rest := visited + [elm], rest[1..];
        cur := after;
      }
    }

    /** The loop body. */
    method RemoveIfChosen(elm: Cell<T>, chosen: set<Cell<T>>, ghost kept: seq<Cell<T>>, ghost rest: seq<Cell<T>>)
      requires Valid() && elems == kept + rest && rest != [] && rest[0] == elm
      modifies this, repr
      ensures Valid() && repr <= old(repr)
      ensures elems == (if elm in chosen then kept else kept + [elm]) + rest[1..]
    {
      if elm in chosen {
        assert elems[..|kept|] == kept && elems[|kept| + 1..] == rest[1..];
        Remove(elm, |kept|);
      }
    }

    static lemma Advance(visited: seq<Cell<T>>, kept: seq<Cell<T>>, rest: seq<Cell<T>>, chosen: set<Cell<T>>)
      requires rest != [] && kept == Without(visited, chosen)
      ensures visited + [rest[0]] + rest[1..] == visited + rest
      ensures Without(visited + [rest[0]], chosen) == if rest[0] in chosen then kept else kept + [rest[0]]
    {
      assert (visited + [rest[0]])[..|visited|] == visited;
    }

    static lemma TakeFirst(taken: seq<Cell<T>>, rest: seq<Cell<T>>)
      requires rest != []
      ensures taken + [rest[0]] + (rest[..0] + rest[1..]) == taken + rest
    {
    }

    /** The drain loop: take the first element off until none is left. */
    method Drain() returns (freed: seq<Cell<T>>)
      requires Valid()
      modifies this, repr
      ensures Valid() && repr <= old(repr)
      ensures elems == [] && freed == old(elems)
    {
      freed := [];
      var cur := First();
      while cur != null
        invariant Valid() && repr <= old(repr)
        invariant freed + elems == old(elems)
        invariant cur == if elems == [] then null else elems[0]
        decreases |elems|
      {
        var elm: Cell<T> := cur;
        TakeFirst(freed, elems);
        Remove(elm, 0);
        freed := freed + [elm];
        cur := First();
      }
    }
  }
}
