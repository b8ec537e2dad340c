/** The simple queue and its XOR-masked twin, over 64-bit addresses.  An element is named by the address
    of its link word; the head's first word is one more such slot. */
module SimpleQueues {
  import opened Cells
  import opened Edits
  import opened Options

  datatype Addr = Addr(word: bv64)
  const NULL := Addr(0)

  /** XSIMPLEQ_XOR */
  function Xor(cookie: bv64, p: Addr): Addr {
    Addr(cookie ^ p.word)
  }

  lemma XorTwice(cookie: bv64, p: Addr)
    ensures Xor(cookie, Xor(cookie, p)) == p
  {
  }

  /** What is stored shows nothing but the pointer combined with the whole cookie: the two together give the
      cookie back, so a pointer is stored as it is only under cookie 0. */
  lemma XorMasks(cookie: bv64, p: Addr)
    ensures Xor(cookie, p).word ^ p.word == cookie
    ensures Xor(cookie, p) == p <==> cookie == 0
  {
  }

  /** A plain queue: the slots written so far, and the address of the last slot. */
  datatype Plain = Plain(head: Addr, slots: map<Addr, Addr>, last: Addr)

  datatype Op =
    | InsertHead(elm: Addr)
    | InsertTail(elm: Addr)
    | InsertAfter(listelm: Addr, elm: Addr)
    | RemoveHead
    | RemoveAfter(elm: Addr)

  function Find(s: seq<Addr>, x: Addr): (k: nat)
    requires x in s
    ensures k < |s| && s[k] == x
  {
    if s[0] == x then 0 else 1 + Find(s[1..], x)
  }

  /** The operations a caller may perform on a queue holding s. */
  predicate Enabled(head: Addr, s: seq<Addr>, op: Op) {
    match op
    case InsertHead(elm) => elm !in [NULL, head] + s
    case InsertTail(elm) => elm !in [NULL, head] + s
    case InsertAfter(listelm, elm) => listelm in s && elm !in [NULL, head] + s
    case RemoveHead => s != []
    case RemoveAfter(elm) => elm in s && Find(s, elm) + 1 < |s|
  }

  /** Their effect on the sequence. */
  function Edited(head: Addr, s: seq<Addr>, op: Op): seq<Addr>
    requires Enabled(head, s, op)
  {
    match op
    case InsertHead(elm) => [elm] + s
    case InsertTail(elm) => s + [elm]
    case InsertAfter(listelm, elm) => s[..Find(s, listelm) + 1] + [elm] + s[Find(s, listelm) + 1..]
    case RemoveHead => s[1..]
    case RemoveAfter(elm) => s[..Find(s, elm) + 1] + s[Find(s, elm) + 2..]
  }

  /** The edit of the other queues that an operation is. */
  function AsEdit(s: seq<Addr>, op: Op): Edit<Addr>
    requires (op.InsertAfter? ==> op.listelm in s) && (op.RemoveAfter? ==> op.elm in s)
  {
    if op.InsertHead? then Edit.InsertHead(op.elm)
    else if op.InsertTail? then Edit.InsertTail(op.elm)
    else if op.InsertAfter? then Edit.InsertAfter(Find(s, op.listelm), op.elm)
    else if op.RemoveHead? then Edit.Remove(0)
    else Edit.Remove(Find(s, op.elm) + 1)
  }

  lemma EditsAgree(head: Addr, s: seq<Addr>, op: Op)
    requires Enabled(head, s, op)
    ensures Edited(head, s, op) == Apply(s, AsEdit(s, op))
  {
  }

  /** Slot i of the chain c: the address of the next slot, and NULL in the last one. */
  ghost predicate SlotHolds(c: seq<Addr>, slots: map<Addr, Addr>, i: nat)
    requires i < |c|
  {
    && c[i] in slots && c[i] != NULL
    && slots[c[i]] == if i + 1 < |c| then c[i + 1] else NULL
  }

  /** The queue q holds the sequence s. */
  ghost predicate Holds(q: Plain, s: seq<Addr>) {
    var c := [q.head] + s;
    && Distinct(c)
    && q.last == c[|s|]
    && forall i: nat {:trigger SlotHolds(c, q.slots, i)} :: i < |c| ==> SlotHolds(c, q.slots, i)
  }

  /** One operation, on any queue whose visited slots have been written. */
  function Step(q: Plain, op: Op): Plain
    requires Ready(q, op)
  {
    match op
    case InsertHead(elm) =>
      q.(slots := q.slots[elm := q.slots[q.head]][q.head := elm],
         last := if q.slots[q.head] == NULL then elm else q.last)
    case InsertTail(elm) =>
      q.(slots := q.slots[elm := NULL][q.last := elm], last := elm)
    case InsertAfter(listelm, elm) =>
      q.(slots := q.slots[elm := q.slots[listelm]][listelm := elm],
         last := if q.slots[listelm] == NULL then elm else q.last)
    case RemoveHead =>
      var first := q.slots[q.slots[q.head]];
      q.(slots := q.slots[q.head := first], last := if first == NULL then q.head else q.last)
    case RemoveAfter(elm) =>
      var next := q.slots[q.slots[elm]];
      q.(slots := q.slots[elm := next], last := if next == NULL then elm else q.last)
  }

  /** The slots an operation loads from have been written. */
  predicate Ready(q: Plain, op: Op) {
    match op
    case InsertHead(_) => q.head in q.slots
    case InsertTail(_) => true
    case InsertAfter(listelm, _) => listelm in q.slots
    case RemoveHead => q.head in q.slots && q.slots[q.head] in q.slots
    case RemoveAfter(elm) => elm in q.slots && q.slots[elm] in q.slots
  }

  lemma Near(q: Plain, s: seq<Addr>, k: nat)
    requires Holds(q, s) && k <= |s|
    ensures var c := [q.head] + s;
      && SlotHolds(c, q.slots, k)
      && (k + 1 <= |s| ==> SlotHolds(c, q.slots, k + 1))
      && forall i :: 0 <= i < |c| && i != k ==> c[i] != c[k]
  {
    var c := [q.head] + s;
    Apart(c, k);
    assert SlotHolds(c, q.slots, k);
    assert k + 1 <= |s| ==> SlotHolds(c, q.slots, k + 1);
  }

  /** Writing a fresh slot after slot k inserts there. */
  lemma Inserted(q: Plain, s: seq<Addr>, k: nat, elm: Addr, r: Plain)
    requires Holds(q, s) && k <= |s| && elm !in [NULL, q.head] + s
    requires var c := [q.head] + s; c[k] in q.slots && r.slots == q.slots[elm := q.slots[c[k]]][c[k] := elm]
    requires r.head == q.head && r.last == if k == |s| then elm else q.last
    ensures Holds(r, s[..k] + [elm] + s[k..])
  {
    var c, d := [q.head] + s, [q.head] + (s[..k] + [elm] + s[k..]);
    assert d == c[..k + 1] + [elm] + c[k + 1..];
    DistinctInsert(c, k + 1, elm);
    forall i: nat | i < |d| ensures SlotHolds(d, r.slots, i) {
      InsertedSlot(q, s, k, elm, r.slots, i);
    }
  }

  lemma InsertedSlot(q: Plain, s: seq<Addr>, k: nat, elm: Addr, slots: map<Addr, Addr>, i: nat)
    requires Holds(q, s) && k <= |s| && elm !in [NULL, q.head] + s && i <= |s| + 1
    requires var c := [q.head] + s; c[k] in q.slots && slots == q.slots[elm := q.slots[c[k]]][c[k] := elm]
    ensures SlotHolds([q.head] + (s[..k] + [elm] + s[k..]), slots, i)
  {
    var c := [q.head] + s;
    Near(q, s, k);
    assert forall j :: 0 <= j < |c| ==> c[j] != elm;
    if i < k {
      assert SlotHolds(c, q.slots, i);
    } else if i > k + 1 {
      assert SlotHolds(c, q.slots, i - 1);
    }
  }

  /** Bypassing the slot after slot k removes it. */
  lemma Removed(q: Plain, s: seq<Addr>, k: nat, r: Plain)
    requires Holds(q, s) && k < |s|
    requires var c := [q.head] + s; s[k] in q.slots && r.slots == q.slots[c[k] := q.slots[s[k]]]
    requires r.head == q.head && r.last == if k + 1 == |s| then ([q.head] + s)[k] else q.last
    ensures Holds(r, s[..k] + s[k + 1..])
  {
    var c, d := [q.head] + s, [q.head] + (s[..k] + s[k + 1..]);
    Near(q, s, k);
    DistinctRemove(c, k + 1);
    assert d == c[..k + 1] + c[k + 2..];
    forall i: nat | i < |d| ensures SlotHolds(d, r.slots, i) {
      RemovedSlot(q, s, k, r.slots, i);
    }
  }

  lemma RemovedSlot(q: Plain, s: seq<Addr>, k: nat, slots: map<Addr, Addr>, i: nat)
    requires Holds(q, s) && k < |s| && i < |s|
    requires s[k] in q.slots && slots == q.slots[([q.head] + s)[k] := q.slots[s[k]]]
    ensures SlotHolds([q.head] + (s[..k] + s[k + 1..]), slots, i)
  {
    var c := [q.head] + s;
    Near(q, s, k);
    if i < k {
      assert SlotHolds(c, q.slots, i);
    } else {
      assert SlotHolds(c, q.slots, i + 1);
    }
  }

  lemma InsertHolds(q: Plain, s: seq<Addr>, op: Op)
    requires Holds(q, s) && Enabled(q.head, s, op) && (op.InsertHead? || op.InsertTail? || op.InsertAfter?)
    ensures Ready(q, op) && Holds(Step(q, op), Edited(q.head, s, op))
  {
    var c := [q.head] + s;
    var k := if op.InsertHead? then 0 else if op.InsertTail? then |s| else Find(s, op.listelm) + 1;
    Near(q, s, k);
    assert c[k] == if op.InsertHead? then q.head else if op.InsertTail? then q.last else op.listelm;
    Inserted(q, s, k, op.elm, Step(q, op));
    assert s[..0] + [op.elm] + s[0..] == [op.elm] + s && s[..|s|] + [op.elm] + s[|s|..] == s + [op.elm];
  }

  lemma RemoveHolds(q: Plain, s: seq<Addr>, op: Op)
    requires Holds(q, s) && Enabled(q.head, s, op) && (op.RemoveHead? || op.RemoveAfter?)
    ensures Ready(q, op) && Holds(Step(q, op), Edited(q.head, s, op))
  {
    var k := if op.RemoveHead? then 0 else Find(s, op.elm) + 1;
    Bypass(q, s, k);
    assert ([q.head] + s)[k] == if op.RemoveHead? then q.head else op.elm;
    Removed(q, s, k, Step(q, op));
    assert s[..0] + s[1..] == s[1..];
  }

  /** What the removal of the element after slot k loads. */
  lemma Bypass(q: Plain, s: seq<Addr>, k: nat)
    requires Holds(q, s) && k < |s|
    ensures var a := ([q.head] + s)[k];
      a in q.slots && q.slots[a] == s[k] && s[k] in q.slots && (q.slots[s[k]] == NULL <==> k + 1 == |s|)
  {
    Near(q, s, k);
    Near(q, s, k + 1);
  }

  /** Every enabled operation of the plain queue is the edit it stands for. */
  lemma StepHolds(q: Plain, s: seq<Addr>, op: Op)
    requires Holds(q, s) && Enabled(q.head, s, op)
    ensures Ready(q, op) && Holds(Step(q, op), Edited(q.head, s, op))
  {
    if op.RemoveHead? || op.RemoveAfter? {
      RemoveHolds(q, s, op);
    } else {
      InsertHolds(q, s, op);
    }
  }

  /** A script every operation of which is enabled when its turn comes. */
  ghost predicate Feasible(head: Addr, s: seq<Addr>, script: seq<Op>)
    decreases |script|
  {
    script == [] || (Enabled(head, s, script[0]) && Feasible(head, Edited(head, s, script[0]), script[1..]))
  }

  ghost function EditedBy(head: Addr, s: seq<Addr>, script: seq<Op>): seq<Addr>
    requires Feasible(head, s, script)
    decreases |script|
  {
    if script == [] then s else EditedBy(head, Edited(head, s, script[0]), script[1..])
  }

  /** The simple queue. */
  class SimpleQueue {
    const head: Addr
    var slots: map<Addr, Addr>
    var last: Addr

    ghost function State(): Plain
      reads this
    {
      Plain(head, slots, last)
    }

    /** SIMPLEQ_INIT, in a memory whose other slots hold anything. */
    constructor (head: Addr, memory: map<Addr, Addr>)
      ensures State() == Plain(head, memory[head := NULL], head)
    {
      this.head := head;
      slots := memory[head := NULL];
      last := head;
    }

    /** SIMPLEQ_INSERT_HEAD, _INSERT_TAIL, _INSERT_AFTER, _REMOVE_HEAD and _REMOVE_AFTER. */
    method Perform(op: Op)
      requires Ready(State(), op)
      modifies this
      ensures State() == Step(old(State()), op)
    {
      if op.InsertHead? {
        slots := slots[op.elm := slots[head]];
        if slots[op.elm] == NULL {
          last := op.elm;
        }
        slots := slots[head := op.elm];
      } else if op.InsertTail? {
        slots := slots[op.elm := NULL];
        slots := slots[last := op.elm];
        last := op.elm;
      } else if op.InsertAfter? {
        slots := slots[op.elm := slots[op.listelm]];
        if slots[op.elm] == NULL {
          last := op.elm;
        }
        slots := slots[op.listelm := op.elm];
      } else if op.RemoveHead? {
        slots := slots[head := slots[slots[head]]];
        if slots[head] == NULL {
          last := head;
        }
      } else {
        slots := slots[op.elm := slots[slots[op.elm]]];
        if slots[op.elm] == NULL {
          last := op.elm;
        }
      }
    }
  }

  function Decode(cookie: bv64, slots: map<Addr, Addr>): map<Addr, Addr> {
    map a | a in slots :: Xor(cookie, slots[a])
  }

  lemma DecodeAt(cookie: bv64, slots: map<Addr, Addr>, a: Addr)
    ensures a in Decode(cookie, slots) <==> a in slots
    ensures a in slots ==> Decode(cookie, slots)[a].word ^ slots[a].word == cookie
  {
    if a in slots {
      XorMasks(cookie, slots[a]);
    }
  }

  lemma DecodeStore(cookie: bv64, slots: map<Addr, Addr>, a: Addr, p: Addr)
    ensures Decode(cookie, slots[a := p]) == Decode(cookie, slots)[a := Xor(cookie, p)]
  {
  }

  /** The two stores of an insertion after the slot at `from`. */
  lemma DecodeInsert(cookie: bv64, slots: map<Addr, Addr>, from: Addr, elm: Addr)
    requires from in slots
    ensures Decode(cookie, slots[elm := slots[from]][from := Xor(cookie, elm)])
      == Decode(cookie, slots)[elm := Xor(cookie, slots[from])][from := elm]
  {
    DecodeStore(cookie, slots, elm, slots[from]);
    DecodeStore(cookie, slots[elm := slots[from]], from, Xor(cookie, elm));
    XorTwice(cookie, elm);
  }

  /** The queue whose every stored pointer is masked with the cookie. */
  class XorQueue {
    const head: Addr
    const cookie: bv64
    var slots: map<Addr, Addr>
    var last: Addr

    ghost function State(): Plain
      reads this
    {
      Plain(head, Decode(cookie, slots), Xor(cookie, last))
    }

    /** XSIMPLEQ_INIT with the random cookie it drew. */
    constructor (head: Addr, cookie: bv64, memory: map<Addr, Addr>)
      ensures this.head == head && this.cookie == cookie
      ensures State() == Plain(head, Decode(cookie, memory)[head := NULL], head)
    {
      this.head, this.cookie := head, cookie;
      slots := memory[head := Xor(cookie, NULL)];
      last := Xor(cookie, head);
      new;
      XorTwice(cookie, NULL);
      XorTwice(cookie, head);
      DecodeStore(cookie, memory, head, Xor(cookie, NULL));
    }

    /** XSIMPLEQ_INSERT_HEAD */
    method InsertHead(elm: Addr)
      requires Ready(State(), Op.InsertHead(elm))
      modifies this
      ensures State() == Step(old(State()), Op.InsertHead(elm))
    {
      Masks(head, elm);
      DecodeInsert(cookie, slots, head, elm);
      slots := slots[elm := slots[head]];
      if slots[elm] == Xor(cookie, NULL) {
        last := Xor(cookie, elm);
      }
      slots := slots[head := Xor(cookie, elm)];
    }

    /** XSIMPLEQ_INSERT_TAIL */
    method InsertTail(elm: Addr)
      modifies this
      ensures State() == Step(old(State()), Op.InsertTail(elm))
    {
      Masks(head, elm);
      DecodeStore(cookie, slots, elm, Xor(cookie, NULL));
      slots := slots[elm := Xor(cookie, NULL)];
      DecodeStore(cookie, slots, Xor(cookie, last), Xor(cookie, elm));
      slots := slots[Xor(cookie, last) := Xor(cookie, elm)];
      last := Xor(cookie, elm);
    }

    /** XSIMPLEQ_INSERT_AFTER */
    method InsertAfter(listelm: Addr, elm: Addr)
      requires Ready(State(), Op.InsertAfter(listelm, elm))
      modifies this
      ensures State() == Step(old(State()), Op.InsertAfter(listelm, elm))
    {
      Masks(listelm, elm);
      DecodeInsert(cookie, slots, listelm, elm);
      slots := slots[elm := slots[listelm]];
      if slots[elm] == Xor(cookie, NULL) {
        last := Xor(cookie, elm);
      }
      slots := slots[listelm := Xor(cookie, elm)];
    }

    /** XSIMPLEQ_REMOVE_HEAD */
    method RemoveHead()
      requires Ready(State(), Op.RemoveHead)
      modifies this
      ensures State() == Step(old(State()), Op.RemoveHead)
    {
      var first := Xor(cookie, slots[head]);
      Masks(first, head);
      DecodeStore(cookie, slots, head, slots[first]);
      slots := slots[head := slots[first]];
      if slots[head] == Xor(cookie, NULL) {
        last := Xor(cookie, head);
      }
    }

    /** XSIMPLEQ_REMOVE_AFTER */
    method RemoveAfter(elm: Addr)
      requires Ready(State(), Op.RemoveAfter(elm))
      modifies this
      ensures State() == Step(old(State()), Op.RemoveAfter(elm))
    {
      var next := Xor(cookie, slots[elm]);
      Masks(next, elm);
      DecodeStore(cookie, slots, elm, slots[next]);
      slots := slots[elm := slots[next]];
      if slots[elm] == Xor(cookie, NULL) {
        last := Xor(cookie, elm);
      }
    }

    /** A masked word equals the masked NULL exactly when it masks NULL, and unmasking elm's mask gives elm. */
    lemma Masks(from: Addr, elm: Addr)
      ensures from in slots ==> (slots[from] == Xor(cookie, NULL) <==> Xor(cookie, slots[from]) == NULL)
      ensures Xor(cookie, Xor(cookie, NULL)) == NULL && Xor(cookie, Xor(cookie, elm)) == elm
    {
      XorTwice(cookie, NULL);
      XorTwice(cookie, elm);
      if from in slots {
        XorTwice(cookie, slots[from]);
      }
    }

    method Perform(op: Op)
      requires Ready(State(), op)
      modifies this
      ensures State() == Step(old(State()), op)
    {
      if op.InsertHead? {
        InsertHead(op.elm);
      } else if op.InsertTail? {
        InsertTail(op.elm);
      } else if op.InsertAfter? {
        InsertAfter(op.listelm, op.elm);
      } else if op.RemoveHead? {
        RemoveHead();
      } else {
        RemoveAfter(op.elm);
      }
    }

    /** XSIMPLEQ_FOREACH */
    method ForEach(ghost s: seq<Addr>) returns (visited: seq<Addr>)
      requires Holds(State(), s)
      ensures visited == s
    {
      visited := [];
      ghost var c := [head] + s;
      forall i: nat | i < |s| ensures s[i] != NULL {
        Near(State(), s, i);
        assert c[i + 1] == s[i];
      }
      Near(State(), s, 0);
      var cur := Xor(cookie, slots[head]);
      while cur != NULL
        invariant |visited| <= |s| && visited == s[..|visited|]
        invariant cur == if |visited| < |s| then s[|visited|] else NULL
        decreases |s| - |visited|
      {
        assert c[|visited| + 1] == cur;
        visited := visited + [cur];
        Near(State(), s, |visited|);
        cur := Xor(cookie, slots[cur]);
      }
    }
  }

  /** Any feasible script, run on both queues from memories that agree under the mask: after it the two
      heaps agree slot by slot, and both hold the edited sequence. */
  method RunBoth(head: Addr, cookie: bv64, memory: map<Addr, Addr>, script: seq<Op>)
    returns (x: XorQueue, q: SimpleQueue, walk: seq<Addr>)
    requires head != NULL && Feasible(head, [], script)
    ensures x.cookie == cookie && x.State() == q.State()
    ensures Holds(q.State(), EditedBy(head, [], script)) && walk == EditedBy(head, [], script)
  {
    x := new XorQueue(head, cookie, memory);
    q := new SimpleQueue(head, Decode(cookie, memory));
    ghost var s: seq<Addr> := [];
    assert SlotHolds([head], q.slots, 0);
    for n := 0 to |script|
      invariant x.cookie == cookie && x.State() == q.State() && q.State().head == head
      invariant fresh(x) && fresh(q)
      invariant Holds(q.State(), s) && Feasible(head, s, script[n..])
      invariant EditedBy(head, s, script[n..]) == EditedBy(head, [], script)
    {
      var op := script[n];
      assert script[n..][0] == op && script[n..][1..] == script[n + 1..];
      StepHolds(q.State(), s, op);
      x.Perform(op);
      q.Perform(op);
      s := Edited(head, s, op);
    }
    walk := x.ForEach(s);
  }
}
