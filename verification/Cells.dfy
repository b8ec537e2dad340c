/** The two-word link cells that the queue macros thread through their users' records.

    A head and an element both start with a link pair: the address of a cell, then the address of a
    slot (a word that holds the address of a cell).  The first word of every pair is itself a slot, so
    the address of a slot is represented by the cell whose `next` word lies there.  This is the layout
    that the backward walk of the tail queue relies on when it reads an element's pair as a head. */
module Cells {
  import opened Options

  class Cell<T> {
    var next: Cell?<T>  // first / next: the cell this slot points at
    var prev: Cell?<T>  // last / prev: the cell whose `next` slot is addressed
    const item: Option<T>  // the record around the pair; a head has none

    constructor Head()
      ensures item == None
    {
      next, prev, item := null, null, None;
    }

    constructor Element(x: T)
      ensures item == Some(x)
    {
      next, prev, item := null, null, Some(x);
    }
  }

  ghost predicate Differ<T>(s: seq<T>, i: nat, j: nat)
    requires i < |s| && j < |s|
  {
    s[i] != s[j]
  }

  ghost predicate Distinct<T>(s: seq<T>) {
    forall i: nat, j: nat {:trigger Differ(s, i, j)} :: i < j < |s| ==> Differ(s, i, j)
  }

  lemma Apart<T>(s: seq<T>, k: nat)
    requires Distinct(s) && k < |s|
    ensures forall i :: 0 <= i < |s| && i != k ==> s[i] != s[k]
  {
    forall i: nat | i < |s| && i != k ensures s[i] != s[k] {
      assert if i < k then Differ(s, i, k) else Differ(s, k, i);
    }
  }

  lemma DistinctInsert<T>(s: seq<T>, k: nat, x: T)
    requires Distinct(s) && k <= |s| && x !in s
    ensures Distinct(s[..k] + [x] + s[k..])
  {
    var r := s[..k] + [x] + s[k..];
    forall i: nat, j: nat | i < j < |r| ensures Differ(r, i, j) {
      if i != k && j != k {
        assert Differ(s, if i < k then i else i - 1, if j < k then j else j - 1);
      }
    }
  }

  lemma DistinctRemove<T>(s: seq<T>, k: nat)
    requires Distinct(s) && k < |s|
    ensures Distinct(s[..k] + s[k + 1..])
    ensures s[k] !in s[..k] + s[k + 1..]
  {
    var r := s[..k] + s[k + 1..];
    forall i: nat, j: nat | i < j < |r| ensures Differ(r, i, j) {
      assert Differ(s, if i < k then i else i + 1, if j < k then j else j + 1);
    }
    Apart(s, k);
  }

  lemma DistinctReplace<T>(s: seq<T>, k: nat, x: T)
    requires Distinct(s) && k < |s| && x !in s
    ensures Distinct(s[k := x])
    ensures s[k] !in s[k := x]
  {
    var r := s[k := x];
    forall i: nat, j: nat | i < j < |r| ensures Differ(r, i, j) {
      assert Differ(s, i, j);
    }
    Apart(s, k);
  }

  /** The three disciplines: a head with one word, a tail queue, and a circular queue. */
  datatype Kind = OneEnded | TwoEnded | Circular

  /** What the last cell's `next` holds. */
  ghost function EndMark<T>(head: Cell<T>, kind: Kind): Cell?<T> {
    if kind == Circular then head else null
  }

  /** The links of cell i of chain c: `next` names the following cell (endMark after the last one) and
      `prev` names the cell whose slot points here. */
  ghost predicate Linked<T>(c: seq<Cell<T>>, i: nat, endMark: Cell?<T>)
    requires i < |c|
    reads c[i]
  {
    && c[i].next == (if i + 1 < |c| then c[i + 1] else endMark)
    && (i > 0 ==> c[i].prev == c[i - 1])
  }

  /** The slot invariant of a chain c: a head followed by the elements. */
  ghost predicate Chain<T>(c: seq<Cell<T>>, endMark: Cell?<T>)
    reads c
  {
    && c != []
    && Distinct(c)
    && forall i :: 0 <= i < |c| ==> Linked(c, i, endMark)
  }

  ghost function CellsOf<T>(c: seq<Cell<T>>): set<Cell<T>> {
    set o | o in c
  }

  /** What slot i of the list with this head and these elements promises: its links, a cell that no
      earlier slot has and, at the head, the last slot (where the head names it) and the footprint. */
  ghost predicate Slot<T>(head: Cell<T>, elems: seq<Cell<T>>, i: nat, kind: Kind, repr: set<Cell<T>>)
    requires i <= |elems|
    reads head, elems
  {
    var c := [head] + elems;
    && Linked(c, i, EndMark(head, kind))
    && (forall j: nat :: j < i ==> c[j] != c[i])
    && (i == 0 ==> repr == CellsOf(c) && (kind != OneEnded ==> head.prev == c[|elems|]))
  }

  /** The list invariant, one slot at a time. */
  ghost predicate Threaded<T>(head: Cell<T>, elems: seq<Cell<T>>, kind: Kind, repr: set<Cell<T>>)
    reads head, elems
  {
    forall i: nat {:trigger Slot(head, elems, i, kind, repr)} :: i <= |elems| ==> Slot(head, elems, i, kind, repr)
  }

  lemma Open<T>(head: Cell<T>, elems: seq<Cell<T>>, kind: Kind, repr: set<Cell<T>>)
    requires Threaded(head, elems, kind, repr)
    ensures Chain([head] + elems, EndMark(head, kind)) && repr == CellsOf([head] + elems)
    ensures kind != OneEnded ==> head.prev == if elems == [] then head else elems[|elems| - 1]
  {
    var c := [head] + elems;
    assert Slot(head, elems, 0, kind, repr);
    forall i: nat, j: nat | i < j < |c| ensures Differ(c, i, j) {
      assert Slot(head, elems, j, kind, repr);
    }
    forall i: nat | i < |c| ensures Linked(c, i, EndMark(head, kind)) {
      assert Slot(head, elems, i, kind, repr);
    }
  }

  lemma Close<T>(head: Cell<T>, elems: seq<Cell<T>>, kind: Kind, repr: set<Cell<T>>)
    requires Chain([head] + elems, EndMark(head, kind)) && repr == CellsOf([head] + elems)
    requires kind != OneEnded ==> head.prev == if elems == [] then head else elems[|elems| - 1]
    ensures Threaded(head, elems, kind, repr)
  {
    var c := [head] + elems;
    forall i: nat | i <= |elems| ensures Slot(head, elems, i, kind, repr) {
      Apart(c, i);
      assert Linked(c, i, EndMark(head, kind));
    }
  }

  lemma CellsInsert<T>(c: seq<Cell<T>>, k: nat, elm: Cell<T>)
    requires k <= |c|
    ensures CellsOf(c[..k] + [elm] + c[k..]) == CellsOf(c) + {elm}
  {
    assert c == c[..k] + c[k..];
  }

  lemma CellsRemove<T>(c: seq<Cell<T>>, k: nat)
    requires Distinct(c) && k < |c|
    ensures CellsOf(c[..k] + c[k + 1..]) == CellsOf(c) - {c[k]}
  {
    DistinctRemove(c, k);
    assert c == c[..k] + [c[k]] + c[k + 1..];
  }

  datatype Pair<T> = Pair(next: Cell?<T>, prev: Cell?<T>)

  /** A snapshot of the links of a chain, and the slot invariant read off a snapshot. */
  ghost function Links<T>(c: seq<Cell<T>>): map<Cell<T>, Pair<T>>
    reads c
  {
    map o | o in c :: Pair(o.next, o.prev)
  }

  ghost predicate WasLinked<T>(c: seq<Cell<T>>, i: nat, endMark: Cell?<T>, was: map<Cell<T>, Pair<T>>)
    requires i < |c|
  {
    && c[i] in was
    && was[c[i]].next == (if i + 1 < |c| then c[i + 1] else endMark)
    && (i > 0 ==> was[c[i]].prev == c[i - 1])
  }

  ghost predicate WasChain<T>(c: seq<Cell<T>>, endMark: Cell?<T>, was: map<Cell<T>, Pair<T>>) {
    && c != []
    && Distinct(c)
    && was.Keys == CellsOf(c)
    && forall i :: 0 <= i < |c| ==> WasLinked(c, i, endMark, was)
  }

  /** What an operation at position k of a chain knows about the cells it touches. */
  lemma Around<T>(c: seq<Cell<T>>, k: nat, endMark: Cell?<T>)
    requires Chain(c, endMark) && k < |c|
    ensures WasChain(c, endMark, Links(c))
    ensures Linked(c, 0, endMark) && Linked(c, k, endMark)
    ensures k + 1 < |c| ==> Linked(c, k + 1, endMark)
    ensures forall i :: 0 <= i < |c| && i != k ==> c[i] != c[k]
    ensures k + 1 < |c| ==> forall i :: 0 <= i < |c| && i != k + 1 ==> c[i] != c[k + 1]
  {
    Apart(c, k);
    if k + 1 < |c| {
      Apart(c, k + 1);
    }
    forall i | 0 <= i < |c| ensures WasLinked(c, i, endMark, Links(c)) {
      assert Linked(c, i, endMark);
    }
  }

  lemma ChainInsert<T>(c: seq<Cell<T>>, k: nat, elm: Cell<T>, endMark: Cell?<T>, was: map<Cell<T>, Pair<T>>)
    returns (d: seq<Cell<T>>)
    requires WasChain(c, endMark, was) && elm !in c && k < |c|
    requires c[k].next == elm && elm.next == was[c[k]].next
    requires forall o {:trigger o.next} :: o in c && o != c[k] ==> o.next == was[o].next
    requires elm.prev == c[k] && (k + 1 < |c| ==> c[k + 1].prev == elm)
    requires forall o {:trigger o.prev} ::
      o in c && o != c[0] && (k + 1 < |c| ==> o != c[k + 1]) ==> o.prev == was[o].prev
    ensures Chain(d, endMark) && d[0] == c[0]
    ensures d[|d| - 1] == if k + 1 < |c| then c[|c| - 1] else elm
    ensures d[1..] == c[1..][..k] + [elm] + c[1..][k..]
    ensures CellsOf(d) == CellsOf(c) + {elm}
  {
    DistinctInsert(c, k + 1, elm);
    Apart(c, 0);
    Apart(c, k);
    if k + 1 < |c| {
      Apart(c, k + 1);
    }
    d := c[..k + 1] + [elm] + c[k + 1..];
    CellsInsert(c, k + 1, elm);
    forall i | 0 <= i < |d| ensures Linked(d, i, endMark) {
      assert i <= k ==> WasLinked(c, i, endMark, was);
      assert i == k + 1 ==> WasLinked(c, k, endMark, was);
      assert i > k + 1 ==> WasLinked(c, i - 1, endMark, was);
    }
  }

  /** The cell after position k has been unlinked. */
  lemma ChainRemove<T>(c: seq<Cell<T>>, k: nat, endMark: Cell?<T>, was: map<Cell<T>, Pair<T>>)
    returns (d: seq<Cell<T>>)
    requires WasChain(c, endMark, was) && k + 1 < |c|
    requires c[k].next == was[c[k + 1]].next
    requires forall o {:trigger o.next} :: o in c && o != c[k] ==> o.next == was[o].next
    requires k + 2 < |c| ==> c[k + 2].prev == c[k]
    requires forall o {:trigger o.prev} ::
      o in c && o != c[0] && (k + 2 < |c| ==> o != c[k + 2]) ==> o.prev == was[o].prev
    ensures Chain(d, endMark) && d[0] == c[0]
    ensures d[|d| - 1] == if k + 2 < |c| then c[|c| - 1] else c[k]
    ensures d[1..] == c[1..][..k] + c[1..][k + 1..]
    ensures CellsOf(d) == CellsOf(c) - {c[k + 1]}
  {
    DistinctRemove(c, k + 1);
    Apart(c, 0);
    Apart(c, k);
    if k + 2 < |c| {
      Apart(c, k + 2);
    }
    d := c[..k + 1] + c[k + 2..];
    CellsRemove(c, k + 1);
    assert WasLinked(c, k + 1, endMark, was);
    forall i | 0 <= i < |d| ensures Linked(d, i, endMark) {
      assert i < k + 1 ==> WasLinked(c, i, endMark, was);
      assert i >= k + 1 ==> WasLinked(c, i + 1, endMark, was);
    }
  }

  /** The cell after position k has been replaced by elm. */
  lemma ChainReplace<T>(c: seq<Cell<T>>, k: nat, elm: Cell<T>, endMark: Cell?<T>, was: map<Cell<T>, Pair<T>>)
    returns (d: seq<Cell<T>>)
    requires WasChain(c, endMark, was) && elm !in c && k + 1 < |c|
    requires c[k].next == elm && elm.next == was[c[k + 1]].next
    requires forall o {:trigger o.next} :: o in c && o != c[k] ==> o.next == was[o].next
    requires elm.prev == c[k] && (k + 2 < |c| ==> c[k + 2].prev == elm)
    requires forall o {:trigger o.prev} ::
      o in c && o != c[0] && (k + 2 < |c| ==> o != c[k + 2]) ==> o.prev == was[o].prev
    ensures Chain(d, endMark) && d[0] == c[0]
    ensures d[|d| - 1] == if k + 2 < |c| then c[|c| - 1] else elm
    ensures d[1..] == c[1..][k := elm]
    ensures CellsOf(d) == CellsOf(c) - {c[k + 1]} + {elm}
  {
    DistinctReplace(c, k + 1, elm);
    Apart(c, 0);
    Apart(c, k);
    if k + 2 < |c| {
      Apart(c, k + 2);
    }
    d := c[k + 1 := elm];
    CellsRemove(c, k + 1);
    CellsInsert(c[..k + 1] + c[k + 2..], k + 1, elm);
    assert d == (c[..k + 1] + c[k + 2..])[..k + 1] + [elm] + (c[..k + 1] + c[k + 2..])[k + 1..];
    forall i | 0 <= i < |d| ensures Linked(d, i, endMark) {
      assert WasLinked(c, i, endMark, was);
    }
  }

  /** The element sequence after an insertion at position k, with the list invariant restored. */
  lemma ThreadInsert<T>(head: Cell<T>, s: seq<Cell<T>>, k: nat, elm: Cell<T>, kind: Kind, repr: set<Cell<T>>,
                  was: map<Cell<T>, Pair<T>>) returns (r: seq<Cell<T>>)
    requires var c := [head] + s;
      && WasChain(c, EndMark(head, kind), was) && repr == CellsOf(c) && elm !in repr && k < |c|
      && c[k].next == elm && elm.next == was[c[k]].next
      && (forall o {:trigger o.next} :: o in c && o != c[k] ==> o.next == was[o].next)
      && elm.prev == c[k] && (k + 1 < |c| ==> c[k + 1].prev == elm)
      && (forall o {:trigger o.prev} ::
        o in c && o != head && (k + 1 < |c| ==> o != c[k + 1]) ==> o.prev == was[o].prev)
    requires kind != OneEnded ==> head.prev == if k < |s| then s[|s| - 1] else elm
    ensures r == s[..k] + [elm] + s[k..] && Threaded(head, r, kind, repr + {elm})
  {
    var d := ChainInsert([head] + s, k, elm, EndMark(head, kind), was);
    r := d[1..];
    assert d == [head] + r;
    Close(head, r, kind, repr + {elm});
  }

  /** The same after the removal of element k. */
  lemma ThreadRemove<T>(head: Cell<T>, s: seq<Cell<T>>, k: nat, kind: Kind, repr: set<Cell<T>>,
                  was: map<Cell<T>, Pair<T>>) returns (r: seq<Cell<T>>)
    requires var c := [head] + s;
      && WasChain(c, EndMark(head, kind), was) && repr == CellsOf(c) && k < |s|
      && c[k].next == was[s[k]].next
      && (forall o {:trigger o.next} :: o in c && o != c[k] ==> o.next == was[o].next)
      && (k + 1 < |s| ==> s[k + 1].prev == c[k])
      && (forall o {:trigger o.prev} ::
        o in c && o != head && (k + 1 < |s| ==> o != s[k + 1]) ==> o.prev == was[o].prev)
    requires kind != OneEnded ==> head.prev == if k + 1 < |s| then s[|s| - 1] else ([head] + s)[k]
    ensures r == s[..k] + s[k + 1..] && Threaded(head, r, kind, repr - {s[k]})
  {
    var d := ChainRemove([head] + s, k, EndMark(head, kind), was);
    r := d[1..];
    assert d == [head] + r;
    Close(head, r, kind, repr - {s[k]});
  }

  /** The same after element k has been replaced by elm. */
  lemma ThreadReplace<T>(head: Cell<T>, s: seq<Cell<T>>, k: nat, elm: Cell<T>, kind: Kind, repr: set<Cell<T>>,
                   was: map<Cell<T>, Pair<T>>) returns (r: seq<Cell<T>>)
    requires var c := [head] + s;
      && WasChain(c, EndMark(head, kind), was) && repr == CellsOf(c) && elm !in repr && k < |s|
      && c[k].next == elm && elm.next == was[s[k]].next
      && (forall o {:trigger o.next} :: o in c && o != c[k] ==> o.next == was[o].next)
      && elm.prev == c[k] && (k + 1 < |s| ==> s[k + 1].prev == elm)
      && (forall o {:trigger o.prev} ::
        o in c && o != head && (k + 1 < |s| ==> o != s[k + 1]) ==> o.prev == was[o].prev)
    requires kind != OneEnded ==> head.prev == if k + 1 < |s| then s[|s| - 1] else elm
    ensures r == s[k := elm] && Threaded(head, r, kind, repr - {s[k]} + {elm})
  {
    var d := ChainReplace([head] + s, k, elm, EndMark(head, kind), was);
    r := d[1..];
    assert d == [head] + r;
    Close(head, r, kind, repr - {s[k]} + {elm});
  }
}
