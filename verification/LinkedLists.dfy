module LinkedLists {
  import opened Cells

  /** The doubly linked list with a one-word head: only its first word is a slot, and every operation
      below the head insertion works without the head. */
  class LinkedList<T> {
    const head: Cell<T>
    ghost var elems: seq<Cell<T>>
    ghost var repr: set<Cell<T>>

    ghost function Cells(): seq<Cell<T>>
      reads this
    {
      [head] + elems
    }

    ghost predicate Valid()
      reads this, head, elems
    {
      Threaded(head, elems, OneEnded, repr)
    }

    /** The footprint covers the head and the elements, which are pairwise distinct. */
    lemma Owned()
      requires Valid()
      ensures head in repr && head !in elems && Distinct(elems)
      ensures forall o :: o in repr <==> o == head || o in elems
    {
      Open(head, elems, OneEnded, repr);
      Apart(Cells(), 0);
      forall i: nat, j: nat | i < j < |elems| ensures Differ(elems, i, j) {
        assert Differ(Cells(), i + 1, j + 1);
      }
      assert forall i :: 0 <= i < |elems| ==> elems[i] == Cells()[i + 1];
    }

    /** LIST_INIT */
    constructor ()
      ensures Valid() && elems == [] && fresh(repr)
    {
      head := new Cell.Head();
      new;
      head.next := null;
      elems, repr := [], {head};
      assert Linked(Cells(), 0, null);
      Close(head, elems, OneEnded, repr);
    }

    /** LIST_FIRST */
    method First() returns (e: Cell?<T>)
      requires Valid()
      ensures e == if elems == [] then null else elems[0]
    {
      Open(head, elems, OneEnded, repr);
      Around(Cells(), 0, null);
      e := head.next;
    }

    /** LIST_NEXT */
    static method Next(elm: Cell<T>, ghost q: LinkedList<T>, ghost k: nat) returns (e: Cell?<T>)
      requires q.Valid() && k < |q.elems| && q.elems[k] == elm
      ensures e == if k + 1 == |q.elems| then null else q.elems[k + 1]
    {
      Open(q.head, q.elems, OneEnded, q.repr);
      Around(q.Cells(), k + 1, null);
      e := elm.next;
    }

    /** LIST_INSERT_HEAD */
    method InsertHead(elm: Cell<T>)
      requires Valid() && elm !in repr
      modifies this, repr, elm
      ensures Valid() && elems == [elm] + old(elems)
      ensures repr == old(repr) + {elm}
    {
      Open(head, elems, OneEnded, repr);
      ghost var c, was := Cells(), Links(Cells());
      Around(c, 0, null);
      elm.next := head.next;
      if elm.next != null {
        head.next.prev := elm;
      }
      head.next := elm;
      elm.prev := head;
      elems := ThreadInsert(head, elems, 0, elm, OneEnded, repr, was);
      repr := repr + {elm};
    }

    /** LIST_INSERT_AFTER */
    static method InsertAfter(listelm: Cell<T>, elm: Cell<T>, ghost q: LinkedList<T>, ghost k: nat)
      requires q.Valid() && elm !in q.repr
      requires k < |q.elems| && q.elems[k] == listelm
      modifies q, q.repr, elm
      ensures q.Valid() && q.elems == old(q.elems)[..k + 1] + [elm] + old(q.elems)[k + 1..]
      ensures q.repr == old(q.repr) + {elm}
    {
      Open(q.head, q.elems, OneEnded, q.repr);
      ghost var c, was := q.Cells(), Links(q.Cells());
      Around(c, k + 1, null);
      elm.next := listelm.next;
      if elm.next != null {
        listelm.next.prev := elm;
      }
      listelm.next := elm;
      elm.prev := listelm;
      q.elems := ThreadInsert(q.head, q.elems, k + 1, elm, OneEnded, q.repr, was);
      q.repr := q.repr + {elm};
    }

    /** LIST_INSERT_BEFORE */
    static method InsertBefore(listelm: Cell<T>, elm: Cell<T>, ghost q: LinkedList<T>, ghost k: nat)
      requires q.Valid() && elm !in q.repr
      requires k < |q.elems| && q.elems[k] == listelm
      modifies q, q.repr, elm
      ensures q.Valid() && q.elems == old(q.elems)[..k] + [elm] + old(q.elems)[k..]
      ensures q.repr == old(q.repr) + {elm}
    {
      Open(q.head, q.elems, OneEnded, q.repr);
      ghost var c, was := q.Cells(), Links(q.Cells());
      Around(c, k, null);
      elm.prev := listelm.prev;
      elm.next := listelm;
      listelm.prev.next := elm;
      listelm.prev := elm;
      q.elems := ThreadInsert(q.head, q.elems, k, elm, OneEnded, q.repr, was);
      q.repr := q.repr + {elm};
    }

    /** LIST_REMOVE */
    static method Remove(elm: Cell<T>, ghost q: LinkedList<T>, ghost k: nat)
      requires q.Valid()
      requires k < |q.elems| && q.elems[k] == elm
      modifies q, q.repr
      ensures q.Valid() && q.elems == old(q.elems)[..k] + old(q.elems)[k + 1..]
      ensures q.repr == old(q.repr) - {elm}
      ensures elm.next == old(elm.next) && elm.prev == old(elm.prev)
    {
      Open(q.head, q.elems, OneEnded, q.repr);
      ghost var c, was := q.Cells(), Links(q.Cells());
      Around(c, k, null);
      Around(c, k + 1, null);
      if elm.next != null {
        elm.next.prev := elm.prev;
      }
      elm.prev.next := elm.next;
      q.elems := ThreadRemove(q.head, q.elems, k, OneEnded, q.repr, was);
      q.repr := q.repr - {elm};
    }

    /** LIST_REPLACE */
    static method Replace(elm: Cell<T>, elm2: Cell<T>, ghost q: LinkedList<T>, ghost k: nat)
      requires q.Valid() && elm2 !in q.repr
      requires k < |q.elems| && q.elems[k] == elm
      modifies q, q.repr, elm2
      ensures q.Valid() && q.elems == old(q.elems)[k := elm2]
      ensures q.repr == old(q.repr) - {elm} + {elm2}
      ensures elm.next == old(elm.next) && elm.prev == old(elm.prev)
    {
      Open(q.head, q.elems, OneEnded, q.repr);
      ghost var c, was := q.Cells(), Links(q.Cells());
      Around(c, k, null);
      Around(c, k + 1, null);
      elm2.next := elm.next;
      if elm2.next != null {
        elm2.next.prev := elm2;
      }
      elm2.prev := elm.prev;
      elm2.prev.next := elm2;
      q.elems := ThreadReplace(q.head, q.elems, k, elm2, OneEnded, q.repr, was);
      q.repr := q.repr - {elm} + {elm2};
    }

    /** A removal followed by a head insertion elsewhere: two disjoint lists stay well formed and keep
        their elements between them. */
    static method Move(elm: Cell<T>, to: LinkedList<T>, ghost from: LinkedList<T>, ghost k: nat)
      requires from.Valid() && to.Valid() && from != to && from.repr !! to.repr
      requires k < |from.elems| && from.elems[k] == elm
      modifies from, to, from.repr, to.repr
      ensures from.Valid() && to.Valid() && from.repr !! to.repr
      ensures from.elems == old(from.elems)[..k] + old(from.elems)[k + 1..]
      ensures to.elems == [elm] + old(to.elems)
      ensures multiset(from.elems) + multiset(to.elems) == old(multiset(from.elems) + multiset(to.elems))
    {
      from.Owned();
      to.Owned();
      Remove(elm, from, k);
      from.Owned();
      to.InsertHead(elm);
      ghost var s := old(from.elems);
      assert s == s[..k] + [elm] + s[k + 1..];
    }
  }

  /** The singly linked list: `prev` words play no part. */
  class SinglyLinkedList<T> {
    const head: Cell<T>
    ghost var elems: seq<Cell<T>>

    ghost function Cells(): seq<Cell<T>>
      reads this
    {
      [head] + elems
    }

    /** What slot i of the list holds. */
    ghost predicate Slot(i: nat)
      requires i <= |elems|
      reads this, head, elems
    {
      Cells()[i].next == if i < |elems| then elems[i] else null
    }

    ghost predicate Valid()
      reads this, head, elems
    {
      && Distinct(Cells())
      && forall i: nat {:trigger Slot(i)} :: i <= |elems| ==> Slot(i)
    }

    /** SLIST_INIT */
    constructor ()
      ensures Valid() && elems == [] && fresh(head)
    {
      head := new Cell.Head();
      new;
      head.next := null;
      elems := [];
    }

    /** SLIST_INSERT_HEAD */
    method InsertHead(elm: Cell<T>)
      requires Valid() && elm !in Cells()
      modifies this, head, elm
      ensures Valid() && elems == [elm] + old(elems)
    {
      ghost var c := Cells();
      Apart(c, 0);
      DistinctInsert(c, 1, elm);
      assert Slot(0);
      elm.next := head.next;
      head.next := elm;
      elems := [elm] + elems;
      assert Cells() == c[..1] + [elm] + c[1..];
      forall i: nat | i <= |elems| ensures Slot(i) {
        assert i > 1 ==> old(Slot(i - 1)) && Cells()[i] == c[i - 1];
      }
    }

    /** SLIST_REMOVE: the search for the predecessor ends because elm is a member. */
    method Remove(elm: Cell<T>, ghost k: nat)
      requires Valid() && k < |elems| && elems[k] == elm
      modifies this, head, elems
      ensures Valid() && elems == old(elems)[..k] + old(elems)[k + 1..]
      ensures elm.next == old(elm.next)
    {
      ghost var c := Cells();
      Apart(c, k);
      Apart(c, k + 1);
      DistinctRemove(c, k + 1);
      assert Slot(0) && Slot(k + 1) && Slot(k);
      assert k > 0 ==> c[1] != elm;
      if head.next == elm {
        head.next := head.next.next;
      } else {
        ghost var i := 1;
        var curelm := head.next;
        while curelm.next != elm
          invariant 1 <= i <= k && curelm == c[i]
          decreases k - i
        {
          assert Slot(i) && Slot(i + 1);
          i := i + 1;
          curelm := curelm.next;
        }
        assert Slot(i) && c[i + 1] == elm;
        curelm.next := curelm.next.next;
      }
      elems := elems[..k] + elems[k + 1..];
      assert Cells() == c[..k + 1] + c[k + 2..];
      forall i: nat | i <= |elems| ensures Slot(i) {
        assert i <= k ==> old(Slot(i));
        assert i > k ==> old(Slot(i + 1)) && Cells()[i] == c[i + 1];
      }
    }
  }
}
