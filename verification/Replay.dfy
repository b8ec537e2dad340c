/** Whole scripts of edits, replayed on the two queues that can be walked both ways. */
module Replay {
  import opened Cells
  import opened CircleQueues
  import opened Edits
  import opened Options
  import opened TailQueues

  /** The cells carry exactly these items. */
  ghost predicate Carry<T>(cells: seq<Cell<T>>, xs: seq<T>) {
    |cells| == |xs| && forall i :: 0 <= i < |cells| ==> cells[i].item == Some(xs[i])
  }

  /** The same edit, on cells instead of items. */
  ghost function OnCells<T>(e: Edit<T>, elm: Cell<T>): Edit<Cell<T>> {
    match e
    case InsertHead(_) => InsertHead(elm)
    case InsertTail(_) => InsertTail(elm)
    case InsertAfter(k, _) => InsertAfter(k, elm)
    case InsertBefore(k, _) => InsertBefore(k, elm)
    case Remove(k) => Remove(k)
    case Replace(k, _) => Replace(k, elm)
  }

  lemma CarryApply<T>(cells: seq<Cell<T>>, s: seq<T>, e: Edit<T>, elm: Cell<T>)
    requires Carry(cells, s) && (e.Remove? || elm.item == Some(e.x))
    ensures Carry(Apply(cells, OnCells(e, elm)), Apply(s, e))
  {
  }

  /** The items of a walk. */
  method Items<T>(cells: seq<Cell<T>>, ghost s: seq<T>) returns (xs: seq<T>)
    requires Carry(cells, s)
    ensures xs == s
  {
    xs := [];
    for i := 0 to |cells|
      invariant xs == s[..i]
    {
      xs := xs + [cells[i].item.value];
    }
  }

  method EditTail<T>(q: TailQueue<T>, e: Edit<T>, ghost s: seq<T>)
    requires q.Valid() && Carry(q.elems, s)
    modifies q, q.repr
    ensures q.Valid() && Carry(q.elems, Apply(s, e)) && fresh(q.repr - old(q.repr))
  {
    if e.InsertHead? || e.InsertTail? {
      var elm := new Cell.Element(e.x);
      CarryApply(q.elems, s, e, elm);
      if e.InsertHead? {
        q.InsertHead(elm);
      } else {
        q.InsertTail(elm);
      }
      return;
    }
    var at := TailAt(q, e.k);
    if at == null {
      return;
    }
    if e.Remove? {
      CarryApply(q.elems, s, e, at);
      q.Remove(at, e.k);
      return;
    }
    var elm := new Cell.Element(e.x);
    CarryApply(q.elems, s, e, elm);
    if e.InsertAfter? {
      q.InsertAfter(at, elm, e.k);
    } else if e.InsertBefore? {
      TailQueue.InsertBefore(at, elm, q, e.k);
    } else {
      q.Replace(at, elm, e.k);
    }
  }

  method TailAt<T>(q: TailQueue<T>, k: nat) returns (at: Cell?<T>)
    requires q.Valid()
    ensures at == if k < |q.elems| then q.elems[k] else null
  {
    var walk := q.ForEach();
    at := if k < |walk| then walk[k] else null;
  }

  method EditCircle<T>(q: CircleQueue<T>, e: Edit<T>, ghost s: seq<T>)
    requires q.Valid() && Carry(q.elems, s)
    modifies q, q.repr
    ensures q.Valid() && Carry(q.elems, Apply(s, e)) && fresh(q.repr - old(q.repr))
  {
    if e.InsertHead? || e.InsertTail? {
      var elm := new Cell.Element(e.x);
      CarryApply(q.elems, s, e, elm);
      if e.InsertHead? {
        q.InsertHead(elm);
      } else {
        q.InsertTail(elm);
      }
      return;
    }
    var at := CircleAt(q, e.k);
    if at == null {
      return;
    }
    if e.Remove? {
      CarryApply(q.elems, s, e, at);
      q.Remove(at, e.k);
      return;
    }
    var elm := new Cell.Element(e.x);
    CarryApply(q.elems, s, e, elm);
    if e.InsertAfter? {
      q.InsertAfter(at, elm, e.k);
    } else if e.InsertBefore? {
      q.InsertBefore(at, elm, e.k);
    } else {
      q.Replace(at, elm, e.k);
    }
  }

  method CircleAt<T>(q: CircleQueue<T>, k: nat) returns (at: Cell?<T>)
    requires q.Valid()
    ensures at == if k < |q.elems| then q.elems[k] else null
  {
    var walk := q.ForEach();
    at := if k < |walk| then walk[k] else null;
  }

  method TailView<T>(q: TailQueue<T>, ghost s: seq<T>) returns (view: View<T>)
    requires q.Valid() && Carry(q.elems, s)
    ensures view == ViewOf(s)
  {
    var cells := q.ForEach();
    var forward := Items(cells, s);
    cells := q.ForEachReverse();
    var backward := Items(cells, Reverse(s));
    view := View(forward, backward);
  }

  /** One edit of a script, and the two walks after it. */
  method TailStep<T>(q: TailQueue<T>, script: seq<Edit<T>>, n: nat) returns (view: View<T>)
    requires q.Valid() && n < |script| && Carry(q.elems, Run(script[..n]))
    modifies q, q.repr
    ensures q.Valid() && fresh(q.repr - old(q.repr))
    ensures Carry(q.elems, Run(script[..n + 1])) && view == ViewOf(Run(script[..n + 1]))
  {
    assert script[..n + 1][..n] == script[..n];
    EditTail(q, script[n], Run(script[..n]));
    view := TailView(q, Run(script[..n + 1]));
  }

  /** What the two walks of a tail queue report after each edit of a script. */
  method TailViews<T>(script: seq<Edit<T>>) returns (views: seq<View<T>>)
    ensures |views| == |script|
    ensures forall i :: 0 <= i < |script| ==> views[i] == ViewOf(Run(script[..i + 1]))
  {
    var q := new TailQueue<T>();
    views := [];
    for n := 0 to |script|
      invariant q.Valid() && fresh(q) && fresh(q.repr) && Carry(q.elems, Run(script[..n]))
      invariant |views| == n
      invariant forall i :: 0 <= i < n ==> views[i] == ViewOf(Run(script[..i + 1]))
    {
      var view := TailStep(q, script, n);
      views := views + [view];
    }
  }

  method CircleView<T>(q: CircleQueue<T>, ghost s: seq<T>) returns (view: View<T>)
    requires q.Valid() && Carry(q.elems, s)
    ensures view == ViewOf(s)
  {
    var cells := q.ForEach();
    var forward := Items(cells, s);
    cells := q.ForEachReverse();
    var backward := Items(cells, Reverse(s));
    view := View(forward, backward);
  }

  /** One edit of a script, and the two walks after it. */
  method CircleStep<T>(q: CircleQueue<T>, script: seq<Edit<T>>, n: nat) returns (view: View<T>)
    requires q.Valid() && n < |script| && Carry(q.elems, Run(script[..n]))
    modifies q, q.repr
    ensures q.Valid() && fresh(q.repr - old(q.repr))
    ensures Carry(q.elems, Run(script[..n + 1])) && view == ViewOf(Run(script[..n + 1]))
  {
    assert script[..n + 1][..n] == script[..n];
    EditCircle(q, script[n], Run(script[..n]));
    view := CircleView(q, Run(script[..n + 1]));
  }

  /** What the two walks of a circular queue report after each edit of a script. */
  method CircleViews<T>(script: seq<Edit<T>>) returns (views: seq<View<T>>)
    ensures |views| == |script|
    ensures forall i :: 0 <= i < |script| ==> views[i] == ViewOf(Run(script[..i + 1]))
  {
    var q := new CircleQueue<T>();
    views := [];
    for n := 0 to |script|
      invariant q.Valid() && fresh(q) && fresh(q.repr) && Carry(q.elems, Run(script[..n]))
      invariant |views| == n
      invariant forall i :: 0 <= i < n ==> views[i] == ViewOf(Run(script[..i + 1]))
    {
      var view := CircleStep(q, script, n);
      views := views + [view];
    }
  }

  /** The two queues cannot be told apart by any script: after every edit their walks agree. */
  method Bisimulate<T>(script: seq<Edit<T>>) returns (tail: seq<View<T>>, circle: seq<View<T>>)
    ensures |tail| == |script| && tail == circle
    ensures forall i :: 0 <= i < |script| ==> tail[i] == ViewOf(Run(script[..i + 1]))
  {
    tail := TailViews(script);
    circle := CircleViews(script);
  }
}
