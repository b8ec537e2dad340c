/** The sndio control table and the volume folded from it. */
module Volume {
  import opened Cells
  import opened LinkedLists
  import opened Options

  const U32 := 0x1_0000_0000

  datatype Kind = Level | Mute

  /** What the table knows about an address. */
  datatype Entry = Entry(kind: Kind, maxval: nat, val: nat)

  datatype DescType = Num | Switch | OtherType

  /** A control description, as the device reports it. */
  datatype Desc = Desc(addr: nat, group: string, node: string, func: string, typ: DescType, maxval: nat)

  /** The kind of control a description is kept as, if it is kept. */
  function KindOf(d: Desc): Option<Kind> {
    if d.group != "" || d.node != "output" then None
    else if d.typ == Num && d.func == "level" then Some(Level)
    else if d.typ == Switch && d.func == "mute" then Some(Mute)
    else None
  }

  datatype Callback =
    | Describe(desc: Option<Desc>, val: nat, mallocOk: bool)
    | Change(addr: nat, val: nat)

  /** A value callback is for an address the table has. */
  predicate Allowed(t: map<nat, Entry>, c: Callback) {
    c.Change? ==> c.addr in t
  }

  function Updated(t: map<nat, Entry>, c: Callback): map<nat, Entry>
    requires Allowed(t, c)
  {
    match c
    case Change(addr, val) => t[addr := t[addr].(val := val)]
    case Describe(None, _, _) => t
    case Describe(Some(d), val, mallocOk) =>
      if KindOf(d).Some? && mallocOk then t[d.addr := Entry(KindOf(d).value, d.maxval, val)]
      else t - {d.addr}
  }

  ghost predicate AllowedRun(t: map<nat, Entry>, cs: seq<Callback>)
    decreases |cs|
  {
    cs == [] || (Allowed(t, cs[0]) && AllowedRun(Updated(t, cs[0]), cs[1..]))
  }

  ghost function UpdatedBy(t: map<nat, Entry>, cs: seq<Callback>): map<nat, Entry>
    requires AllowedRun(t, cs)
    decreases |cs|
  {
    if cs == [] then t else UpdatedBy(Updated(t, cs[0]), cs[1..])
  }

  /** The rounded percentage of a level, in the 32-bit arithmetic of the program. */
  function LevelOf(e: Entry): int
    requires e.maxval > 0
  {
    var v := (e.val * 100 % U32 + e.maxval / 2) % U32 / e.maxval;
    if v < U32 / 2 then v else v - U32
  }

  /** No step of LevelOf leaves its type: the sum is unsigned, the level an int. */
  predicate InRange(e: Entry) {
    && e.maxval > 0 && e.val * 100 + e.maxval / 2 < U32
    && (e.val * 100 + e.maxval / 2) / e.maxval < U32 / 2
  }

  lemma ProductGrows(q: nat, y: nat)
    requires y > 0
    ensures q <= q * y
  {
  }

  lemma QuotientFits(x: nat, y: nat)
    requires y > 0
    ensures 0 <= x / y <= x
  {
    ProductGrows(x / y, y);
  }

  lemma LevelExact(e: Entry)
    requires InRange(e)
    ensures LevelOf(e) == (e.val * 100 + e.maxval / 2) / e.maxval >= 0
  {
    var x := e.val * 100 + e.maxval / 2;
    assert e.val * 100 % U32 == e.val * 100 && x % U32 == x;
    QuotientFits(x, e.maxval);
  }

  /** One step of the fold. */
  function Fold(value: int, e: Entry): int
    requires e.kind == Level ==> e.maxval > 0
  {
    if e.kind == Mute && e.val == 1 then 0
    else if e.kind == Level && LevelOf(e) < value then LevelOf(e)
    else value
  }

  predicate Muted(e: Entry) {
    e.kind == Mute && e.val == 1
  }

  /** No level control divides by zero. */
  ghost predicate Scaled(t: map<nat, Entry>) {
    forall a :: a in t && t[a].kind == Level ==> t[a].maxval > 0
  }

  /** What the volume of a table is: 0 when some mute is on, and otherwise the least of 100 and the levels. */
  ghost predicate IsVolume(t: map<nat, Entry>, r: int)
    requires Scaled(t)
  {
    if exists a :: a in t && t[a].kind == Mute && t[a].val == 1 then r == 0
    else
      && r <= 100 && (forall a :: a in t && t[a].kind == Level ==> r <= LevelOf(t[a]))
      && (r == 100 || exists a :: a in t && t[a].kind == Level && r == LevelOf(t[a]))
  }

  lemma VolumeUnique(t: map<nat, Entry>, r: int, s: int)
    requires Scaled(t)
    requires IsVolume(t, r) && IsVolume(t, s)
    ensures r == s
  {
  }

  /** One control as the table sees it. */
  datatype Row = Row(addr: nat, entry: Entry)

  ghost function TableOf(rows: seq<Row>): map<nat, Entry> {
    if rows == [] then map[] else TableOf(rows[1..])[rows[0].addr := rows[0].entry]
  }

  ghost predicate Clash(rows: seq<Row>, i: nat, j: nat)
    requires i < |rows| && j < |rows|
  {
    rows[i].addr == rows[j].addr
  }

  ghost predicate OnePerAddr(rows: seq<Row>) {
    forall i: nat, j: nat {:trigger Clash(rows, i, j)} :: i < j < |rows| ==> !Clash(rows, i, j)
  }

  lemma OnePerAddrTail(rows: seq<Row>)
    requires OnePerAddr(rows) && rows != []
    ensures OnePerAddr(rows[1..])
    ensures forall i :: 0 < i < |rows| ==> rows[i].addr != rows[0].addr
  {
    forall i: nat, j: nat | i < j < |rows[1..]| ensures !Clash(rows[1..], i, j) {
      assert !Clash(rows, i + 1, j + 1);
    }
    forall i: nat | 0 < i < |rows| ensures rows[i].addr != rows[0].addr {
      assert !Clash(rows, 0, i);
    }
  }

  /** The table has exactly the addresses of the rows, with their entries. */
  lemma {:induction false} TableRows(rows: seq<Row>)
    requires OnePerAddr(rows)
    ensures forall i :: 0 <= i < |rows| ==> rows[i].addr in TableOf(rows) && TableOf(rows)[rows[i].addr] == rows[i].entry
    ensures forall a :: a in TableOf(rows) ==> exists i :: 0 <= i < |rows| && rows[i].addr == a
  {
    if rows != [] {
      OnePerAddrTail(rows);
      TableRows(rows[1..]);
      forall i | 0 <= i < |rows|
        ensures rows[i].addr in TableOf(rows) && TableOf(rows)[rows[i].addr] == rows[i].entry
      {
        if i > 0 {
          assert rows[i] == rows[1..][i - 1];
        }
      }
      forall a | a in TableOf(rows) ensures exists i :: 0 <= i < |rows| && rows[i].addr == a {
        if a != rows[0].addr {
          var i :| 0 <= i < |rows[1..]| && rows[1..][i].addr == a;
          assert rows[i + 1].addr == a;
        }
      }
    }
  }

  lemma OnePerAddrDelete(rows: seq<Row>, k: nat)
    requires OnePerAddr(rows) && k < |rows|
    ensures OnePerAddr(rows[..k] + rows[k + 1..])
  {
    var r := rows[..k] + rows[k + 1..];
    forall i: nat, j: nat | i < j < |r| ensures !Clash(r, i, j) {
      assert !Clash(rows, if i < k then i else i + 1, if j < k then j else j + 1);
    }
  }

  lemma DeleteAdded(t: map<nat, Entry>, a: nat, e: Entry)
    requires a !in t
    ensures t[a := e] - {a} == t
  {
  }

  lemma DeleteOther(t: map<nat, Entry>, a: nat, e: Entry, x: nat)
    requires a != x
    ensures (t - {x})[a := e] == t[a := e] - {x}
  {
  }

  lemma {:induction false} TableDelete(rows: seq<Row>, k: nat)
    requires OnePerAddr(rows) && k < |rows|
    ensures OnePerAddr(rows[..k] + rows[k + 1..])
    ensures TableOf(rows[..k] + rows[k + 1..]) == TableOf(rows) - {rows[k].addr}
  {
    var r := rows[..k] + rows[k + 1..];
    OnePerAddrDelete(rows, k);
    OnePerAddrTail(rows);
    if k == 0 {
      TableRows(rows[1..]);
      assert r == rows[1..];
      assert rows[0].addr !in TableOf(rows[1..]);
      DeleteAdded(TableOf(rows[1..]), rows[0].addr, rows[0].entry);
    } else {
      TableDelete(rows[1..], k - 1);
      assert r[1..] == rows[1..][..k - 1] + rows[1..][k..];
      DeleteOther(TableOf(rows[1..]), rows[0].addr, rows[0].entry, rows[k].addr);
    }
  }

  lemma {:induction false} TableChange(rows: seq<Row>, k: nat, e: Entry)
    requires OnePerAddr(rows) && k < |rows|
    ensures OnePerAddr(rows[k := Row(rows[k].addr, e)])
    ensures TableOf(rows[k := Row(rows[k].addr, e)]) == TableOf(rows)[rows[k].addr := e]
  {
    var r := rows[k := Row(rows[k].addr, e)];
    forall i: nat, j: nat | i < j < |r| ensures !Clash(r, i, j) {
      assert !Clash(rows, i, j);
    }
    OnePerAddrTail(rows);
    if k == 0 {
      assert r[1..] == rows[1..];
    } else {
      TableChange(rows[1..], k - 1, e);
      assert r[1..] == rows[1..][k - 1 := Row(rows[k].addr, e)];
    }
  }

  lemma TableInsert(rows: seq<Row>, row: Row)
    requires OnePerAddr(rows) && row.addr !in TableOf(rows)
    ensures OnePerAddr([row] + rows) && TableOf([row] + rows) == TableOf(rows)[row.addr := row.entry]
  {
    var r := [row] + rows;
    TableRows(rows);
    forall i: nat, j: nat | i < j < |r| ensures !Clash(r, i, j) {
      if i > 0 {
        assert !Clash(rows, i - 1, j - 1);
      } else {
        assert rows[j - 1].addr in TableOf(rows);
      }
    }
    assert r[1..] == rows;
  }

  /** The fold over the rows in list order. */
  function FoldRows(rows: seq<Row>): int
    requires ScaledRows(rows)
  {
    if rows == [] then 100
    else
      assert rows[|rows| - 1] in rows;
      Fold(FoldRows(rows[..|rows| - 1]), rows[|rows| - 1].entry)
  }

  /** No level divides by zero. */
  predicate ScaledRows(rows: seq<Row>) {
    forall r :: r in rows && r.entry.kind == Level ==> r.entry.maxval > 0
  }

  predicate RowsInRange(rows: seq<Row>) {
    forall r :: r in rows && r.entry.kind == Level ==> InRange(r.entry)
  }

  /** What the fold has found after any number of rows. */
  lemma {:induction false} FoldMeans(rows: seq<Row>)
    requires RowsInRange(rows)
    ensures 0 <= FoldRows(rows) <= 100
    ensures (exists r :: r in rows && Muted(r.entry)) ==> FoldRows(rows) == 0
    ensures forall r :: r in rows && r.entry.kind == Level ==> FoldRows(rows) <= LevelOf(r.entry)
    ensures FoldRows(rows) == 100 || (exists r :: r in rows && Muted(r.entry))
      || exists r :: r in rows && r.entry.kind == Level && FoldRows(rows) == LevelOf(r.entry)
  {
    if rows != [] {
      var front, last := rows[..|rows| - 1], rows[|rows| - 1];
      assert rows == front + [last] && last in rows;
      FoldMeans(front);
      if last.entry.kind == Level {
        LevelExact(last.entry);
      }
    }
  }

  /** Whatever the order of the list, the fold is the volume of the table. */
  lemma FoldIsVolume(rows: seq<Row>)
    requires OnePerAddr(rows) && RowsInRange(rows)
    ensures Scaled(TableOf(rows)) && IsVolume(TableOf(rows), FoldRows(rows))
  {
    TableRows(rows);
    FoldMeans(rows);
    var t := TableOf(rows);
    forall a | a in t ensures exists r :: r in rows && r.addr == a && r.entry == t[a] {
      var i :| 0 <= i < |rows| && rows[i].addr == a;
      assert rows[i] in rows;
    }
    forall r | r in rows ensures r.addr in t && t[r.addr] == r.entry {
      var i :| 0 <= i < |rows| && rows[i] == r;
    }
  }

  class Control {
    const addr: nat
    const kind: Kind
    const maxval: nat
    var val: nat

    constructor (addr: nat, kind: Kind, maxval: nat, val: nat)
      ensures AsRow() == Row(addr, Entry(kind, maxval, val))
    {
      this.addr, this.kind, this.maxval, this.val := addr, kind, maxval, val;
    }

    function AsRow(): Row
      reads this
    {
      Row(addr, Entry(kind, maxval, val))
    }
  }

  class Mixer {
    const controls: LinkedList<Control>
    ghost var records: seq<Control>  // the records of the list's elements
    ghost var rows: seq<Row>  // and what they hold
    ghost var owned: set<Control>  // every record linked so far

    ghost predicate Kept(i: nat)
      requires i < |records| == |rows| == |controls.elems|
      reads this, controls, records
    {
      controls.elems[i].item == Some(records[i]) && records[i] in owned && records[i].AsRow() == rows[i]
    }

    ghost predicate Valid()
      reads this, controls, controls.head, controls.elems, records
    {
      && controls.Valid()
      && |records| == |rows| == |controls.elems|
      && OnePerAddr(rows)
      && forall i: nat {:trigger Kept(i)} :: i < |records| ==> Kept(i)
    }

    /** The table the list stands for. */
    ghost function Table(): map<nat, Entry>
      reads this
    {
      TableOf(rows)
    }

    constructor ()
      ensures Valid() && Table() == map[]
      ensures fresh(controls) && fresh(controls.repr) && owned == {}
    {
      controls := new LinkedList<Control>();
      records, rows, owned := [], [], {};
    }

    /** The first part of ondesc: delete the control with this address, if there is one. */
    method Delete(addr: nat)
      requires Valid()
      modifies this, controls, controls.repr
      ensures Valid() && Table() == old(Table()) - {addr}
      ensures controls.repr <= old(controls.repr) && owned == old(owned)
    {
      ghost var k := 0;
      var c := controls.First();
      while c != null
        invariant Valid() && records == old(records) && rows == old(rows) && controls.repr == old(controls.repr)
        invariant owned == old(owned)
        invariant k <= |records| && c == if k < |records| then controls.elems[k] else null
        invariant forall i :: 0 <= i < k ==> rows[i].addr != addr
        decreases |records| - k
      {
        assert Kept(k);
        var ctmp := LinkedList.Next(c, controls, k);
        if addr == c.item.value.addr {
          TableDelete(rows, k);
          Unlink(c, k);
          return;
        }
        k := k + 1;
        c := ctmp;
      }
      TableRows(rows);
    }

    /** LIST_REMOVE of element k, with its record. */
    method Unlink(c: Cell<Control>, ghost k: nat)
      requires Valid() && k < |records| && controls.elems[k] == c
      modifies this, controls, controls.repr
      ensures controls.Valid() && controls.repr == old(controls.repr) - {c} && owned == old(owned)
      ensures controls.elems == old(controls.elems)[..k] + old(controls.elems)[k + 1..]
      ensures records == old(records)[..k] + old(records)[k + 1..] && rows == old(rows)[..k] + old(rows)[k + 1..]
      ensures Valid()
    {
      LinkedList.Remove(c, controls, k);
      TableDelete(rows, k);
      records, rows := records[..k] + records[k + 1..], rows[..k] + rows[k + 1..];
      forall i: nat | i < |records| ensures Kept(i) {
        assert i < k ==> old(Kept(i));
        assert i >= k ==> old(Kept(i + 1));
      }
    }

    /** ondesc */
    method OnDesc(desc: Option<Desc>, val: nat, mallocOk: bool)
      requires Valid()
      modifies this, controls, controls.repr
      ensures Valid() && Table() == Updated(old(Table()), Describe(desc, val, mallocOk))
      ensures fresh(controls.repr - old(controls.repr)) && fresh(owned - old(owned))
    {
      if desc.None? {
        return;
      }
      var d := desc.value;
      Delete(d.addr);
      var kind := KindOf(d);
      if kind.None? || !mallocOk {
        return;
      }
      var control := new Control(d.addr, kind.value, d.maxval, val);
      var c := new Cell.Element(control);
      TableInsert(rows, control.AsRow());
      Link(c, control);
    }

    /** LIST_INSERT_HEAD of a new control. */
    method Link(c: Cell<Control>, control: Control)
      requires Valid() && c !in controls.repr && c.item == Some(control)
      requires OnePerAddr([control.AsRow()] + rows)
      modifies this, controls, controls.repr, c
      ensures Valid() && records == [control] + old(records) && rows == [control.AsRow()] + old(rows)
      ensures controls.repr == old(controls.repr) + {c} && owned == old(owned) + {control}
    {
      controls.InsertHead(c);
      records, rows, owned := [control] + records, [control.AsRow()] + rows, owned + {control};
      forall i: nat | i < |records| ensures Kept(i) {
        assert i > 0 ==> old(Kept(i - 1));
      }
    }

    /** onval */
    method OnVal(addr: nat, val: nat)
      requires Valid() && addr in Table()
      modifies this`rows, owned
      ensures Valid() && Table() == Updated(old(Table()), Change(addr, val))
    {
      TableRows(rows);
      ghost var k := 0;
      var c := controls.First();
      while c != null
        invariant Valid() && records == old(records) && rows == old(rows) && controls.repr == old(controls.repr)
        invariant owned == old(owned)
        invariant k <= |records| && c == if k < |records| then controls.elems[k] else null
        invariant forall i :: 0 <= i < k ==> rows[i].addr != addr
        decreases |records| - k
      {
        assert Kept(k);
        if c.item.value.addr == addr {
          break;
        }
        c := LinkedList.Next(c, controls, k);
        k := k + 1;
      }
      assert Kept(k);
      ghost var e := rows[k].entry.(val := val);
      TableChange(rows, k, e);
      ghost var before := rows;
      label Found:
      c.item.value.val := val;
      rows := rows[k := Row(addr, e)];
      forall i: nat | i < |records| ensures Kept(i) {
        assert old@Found(Kept(i));
        assert i < k ==> !Clash(before, i, k);
        assert i > k ==> !Clash(before, k, i);
        assert i != k ==> records[i] != records[k];
      }
    }

    /** The drain loop of cleanup. */
    method Cleanup()
      requires Valid()
      modifies this, controls, controls.repr
      ensures Valid() && Table() == map[] && controls.elems == []
      ensures controls.repr <= old(controls.repr)
    {
      var c := controls.First();
      while c != null
        invariant Valid() && controls.repr <= old(controls.repr)
        invariant c == if controls.elems == [] then null else controls.elems[0]
        decreases |controls.elems|
      {
        Unlink(c, 0);
        c := controls.First();
      }
    }

    /** The fold of vol_perc. */
    method VolPerc() returns (value: int)
      requires Valid() && ScaledRows(rows)
      ensures value == FoldRows(rows)
      ensures RowsInRange(rows) ==> Scaled(Table()) && IsVolume(Table(), value)
    {
      if RowsInRange(rows) {
        FoldIsVolume(rows);
      }
      value := 100;
      ghost var k := 0;
      var c := controls.First();
      while c != null
        invariant k <= |records| && c == if k < |records| then controls.elems[k] else null
        invariant ScaledRows(rows[..k]) && value == FoldRows(rows[..k])
        decreases |records| - k
      {
        assert Kept(k);
        assert rows[..k + 1][..k] == rows[..k] && rows[k] in rows;
        var e := c.item.value.AsRow().entry;
        if e.kind == Mute && e.val == 1 {
          value := 0;
        } else if e.kind == Level {
          var v := LevelOf(e);
          if v < value {
            value := v;
          }
        }
        c := LinkedList.Next(c, controls, k);
        k := k + 1;
      }
      assert rows[..|rows|] == rows;
    }
  }

  /** Any run of callbacks leaves the table that the run makes of the empty one. */
  method Callbacks(cs: seq<Callback>) returns (m: Mixer)
    requires AllowedRun(map[], cs)
    ensures fresh(m) && m.Valid() && m.Table() == UpdatedBy(map[], cs)
  {
    m := new Mixer();
    for n := 0 to |cs|
      invariant fresh(m) && fresh(m.controls) && fresh(m.controls.repr) && fresh(m.owned)
      invariant m.Valid()
      invariant AllowedRun(m.Table(), cs[n..]) && UpdatedBy(m.Table(), cs[n..]) == UpdatedBy(map[], cs)
    {
      assert cs[n..][0] == cs[n] && cs[n..][1..] == cs[n + 1..];
      var c := cs[n];
      if c.Describe? {
        m.OnDesc(c.desc, c.val, c.mallocOk);
      } else {
        m.OnVal(c.addr, c.val);
      }
    }
  }

  // ----- what a run of callbacks leaves, by positions -----

  ghost predicate Describes(cs: seq<Callback>, i: nat, a: nat)
    requires i < |cs|
  {
    cs[i].Describe? && cs[i].desc.Some? && cs[i].desc.value.addr == a
  }

  ghost predicate Changes(cs: seq<Callback>, i: nat, a: nat)
    requires i < |cs|
  {
    cs[i].Change? && cs[i].addr == a
  }

  /** Callback i is the last description of the address. */
  ghost predicate LastDescription(cs: seq<Callback>, i: nat, a: nat) {
    i < |cs| && Describes(cs, i, a) && forall j: nat :: i < j < |cs| ==> !Describes(cs, j, a)
  }

  /** The value that the last value callback behind callback i has left, or the description's own. */
  ghost predicate LastValue(cs: seq<Callback>, i: nat, a: nat, val: nat)
    requires i < |cs| && cs[i].Describe?
  {
    || (val == cs[i].val && forall j: nat :: i < j < |cs| ==> !Changes(cs, j, a))
    || exists j: nat :: i < j < |cs| && Changes(cs, j, a) && val == cs[j].val
                        && forall k: nat :: j < k < |cs| ==> !Changes(cs, k, a)
  }

  lemma {:induction false} RunAppend(t: map<nat, Entry>, xs: seq<Callback>, ys: seq<Callback>)
    requires AllowedRun(t, xs + ys)
    ensures AllowedRun(t, xs) && AllowedRun(UpdatedBy(t, xs), ys)
    ensures UpdatedBy(t, xs + ys) == UpdatedBy(UpdatedBy(t, xs), ys)
    decreases |xs|
  {
    if xs == [] {
      assert xs + ys == ys;
    } else {
      assert (xs + ys)[0] == xs[0] && (xs + ys)[1..] == xs[1..] + ys;
      RunAppend(Updated(t, xs[0]), xs[1..], ys);
    }
  }

  lemma RunSplit(t: map<nat, Entry>, cs: seq<Callback>, i: nat) returns (before: map<nat, Entry>)
    requires AllowedRun(t, cs) && i < |cs|
    ensures AllowedRun(t, cs[..i]) && before == UpdatedBy(t, cs[..i])
    ensures Allowed(before, cs[i]) && AllowedRun(Updated(before, cs[i]), cs[i + 1..])
    ensures UpdatedBy(t, cs) == UpdatedBy(Updated(before, cs[i]), cs[i + 1..])
  {
    var behind := [cs[i]] + cs[i + 1..];
    assert cs == cs[..i] + behind && behind[1..] == cs[i + 1..];
    RunAppend(t, cs[..i], behind);
    before := UpdatedBy(t, cs[..i]);
  }

  /** Where an address is not described, it comes and goes no more, and only its value changes. */
  lemma {:induction false} Undescribed(t: map<nat, Entry>, cs: seq<Callback>, a: nat)
    requires AllowedRun(t, cs) && forall j: nat :: j < |cs| ==> !Describes(cs, j, a)
    ensures a in UpdatedBy(t, cs) <==> a in t
    ensures a in t ==> UpdatedBy(t, cs)[a].kind == t[a].kind && UpdatedBy(t, cs)[a].maxval == t[a].maxval
    ensures a in t && (forall j: nat :: j < |cs| ==> !Changes(cs, j, a)) ==> UpdatedBy(t, cs)[a] == t[a]
    decreases |cs|
  {
    if cs != [] {
      var rest := cs[1..];
      assert !Describes(cs, 0, a);
      assert Changes(cs, 0, a) || (a in t ==> a in Updated(t, cs[0]) && Updated(t, cs[0])[a] == t[a]);
      forall j: nat | j < |rest|
        ensures Describes(rest, j, a) == Describes(cs, j + 1, a) && Changes(rest, j, a) == Changes(cs, j + 1, a)
      {
      }
      Undescribed(Updated(t, cs[0]), rest, a);
    }
  }

  /** The last value callback decides the value. */
  lemma LastChangeStays(t: map<nat, Entry>, cs: seq<Callback>, a: nat, j: nat)
    requires AllowedRun(t, cs) && a in UpdatedBy(t, cs) && forall k: nat :: k < |cs| ==> !Describes(cs, k, a)
    requires j < |cs| && Changes(cs, j, a) && forall k: nat :: j < k < |cs| ==> !Changes(cs, k, a)
    ensures UpdatedBy(t, cs)[a].val == cs[j].val
  {
    var before := RunSplit(t, cs, j);
    var rest := cs[j + 1..];
    forall k: nat | k < |rest| ensures !Describes(rest, k, a) && !Changes(rest, k, a) {
      assert !Describes(cs, j + 1 + k, a) && !Changes(cs, j + 1 + k, a);
    }
    Undescribed(Updated(before, cs[j]), rest, a);
  }

  /** For every allowed run and every address: it is in the table if and only if its last description was kept,
      as a level or a mute of the unnamed output group; the entry is that description's, with the value that
      the last value callback behind it left. */
  lemma TableShows(cs: seq<Callback>, i: nat, a: nat)
    requires AllowedRun(map[], cs) && LastDescription(cs, i, a)
    ensures var t, d := UpdatedBy(map[], cs), cs[i].desc.value;
      && (a in t <==>
        && d.group == "" && d.node == "output" && cs[i].mallocOk
        && ((d.typ == Num && d.func == "level") || (d.typ == Switch && d.func == "mute")))
      && (a in t ==> t[a].kind == (if d.typ == Num then Level else Mute) && t[a].maxval == d.maxval)
      && (a in t ==> LastValue(cs, i, a, t[a].val))
  {
    var before := RunSplit(map[], cs, i);
    var rest := cs[i + 1..];
    var t := Updated(before, cs[i]);
    forall j: nat | j < |rest| ensures !Describes(rest, j, a) {
      assert !Describes(cs, i + 1 + j, a);
    }
    Undescribed(t, rest, a);
    if a in t {
      LastValueBehind(cs, i, a, t, rest);
    }
  }

  lemma LastValueBehind(cs: seq<Callback>, i: nat, a: nat, t: map<nat, Entry>, rest: seq<Callback>)
    requires i < |cs| && cs[i].Describe? && rest == cs[i + 1..] && AllowedRun(t, rest)
    requires a in t && t[a].val == cs[i].val && a in UpdatedBy(t, rest)
    requires forall j: nat :: j < |rest| ==> !Describes(rest, j, a)
    ensures LastValue(cs, i, a, UpdatedBy(t, rest)[a].val)
  {
    Undescribed(t, rest, a);
    forall j: nat | j < |rest| ensures Changes(rest, j, a) == Changes(cs, i + 1 + j, a) {
    }
    if forall j: nat :: j < |rest| ==> !Changes(rest, j, a) {
      forall j: nat | i < j < |cs| ensures !Changes(cs, j, a) {
        assert !Changes(rest, j - i - 1, a);
      }
    } else {
      var j := LastChange(rest, a);
      LastChangeStays(t, rest, a, j);
      assert Changes(cs, i + 1 + j, a);
      forall k: nat | i + 1 + j < k < |cs| ensures !Changes(cs, k, a) {
        assert !Changes(rest, k - i - 1, a);
      }
    }
  }

  lemma {:induction false} LastChange(cs: seq<Callback>, a: nat) returns (j: nat)
    requires exists i: nat :: i < |cs| && Changes(cs, i, a)
    ensures j < |cs| && Changes(cs, j, a) && forall k: nat :: j < k < |cs| ==> !Changes(cs, k, a)
  {
    j := |cs| - 1;
    while !Changes(cs, j, a)
      invariant j < |cs| && forall k: nat :: j < k < |cs| ==> !Changes(cs, k, a)
      decreases j
    {
      var i: nat :| i < |cs| && Changes(cs, i, a);
      assert i < j;
      j := j - 1;
    }
  }

  /** And an address that was never described is not in it. */
  lemma TableKnows(cs: seq<Callback>, a: nat)
    requires AllowedRun(map[], cs) && forall i: nat :: i < |cs| ==> !Describes(cs, i, a)
    ensures a !in UpdatedBy(map[], cs)
  {
    Undescribed(map[], cs, a);
  }

  /** So a run that leaves 1 at a mute leaves the volume at 0. */
  lemma MuteSilences(cs: seq<Callback>, i: nat, a: nat, r: int)
    requires AllowedRun(map[], cs) && LastDescription(cs, i, a) && LastValue(cs, i, a, 1)
    requires var d := cs[i].desc.value;
      d.group == "" && d.node == "output" && cs[i].mallocOk && d.typ == Switch && d.func == "mute"
    requires Scaled(UpdatedBy(map[], cs)) && IsVolume(UpdatedBy(map[], cs), r)
    ensures r == 0
  {
    TableShows(cs, i, a);
    LastValueUnique(cs, i, a, UpdatedBy(map[], cs)[a].val, 1);
  }

  lemma LastValueUnique(cs: seq<Callback>, i: nat, a: nat, v: nat, w: nat)
    requires i < |cs| && cs[i].Describe? && LastValue(cs, i, a, v) && LastValue(cs, i, a, w)
    ensures v == w
  {
  }
}
