/** The status slots, the shared buffer, and the line assembled from them. */
module StatusLine {
  import opened CStrings
  import opened Options
  import opened Schedule

  /** What snprintf leaves in n bytes, before the NUL. */
  function Clip(s: string, n: nat): string
    requires n > 0
  {
    if |s| < n then s else s[..n - 1]
  }

  /** As much of the text as fits, from its front. */
  lemma ClipIs(s: string, n: nat)
    requires n > 0
    ensures Clip(s, n) <= s && |Clip(s, n)| == if |s| < n then |s| else n - 1
  {
  }

  predicate PlainArg(a: Arg) {
    Plain(a.pre) && Plain(a.post)
  }

  predicate PlainResult(r: Result) {
    r.Null? || Plain(r.text)
  }

  predicate PlainCall(c: Call) {
    forall r :: r in c.results ==> PlainResult(r)
  }

  predicate PlainRun(run: seq<Pass>) {
    forall j {:trigger run[j]} :: 0 <= j < |run| ==> PlainCall(run[j].call) && forall c :: c in run[j].wakes ==> PlainCall(c)
  }

  /** The slot of module m after a printstatus that found `prior` in it. */
  function NewText(args: seq<Arg>, c: Call, iter: nat, pending: int, m: nat, prior: string): string
    requires m < |args| && Sized(c, |args|)
  {
    if Reaches(args, c, iter, pending, m) then Clip(Rendered(args[m], c.results[m]), CMDLEN) else prior
  }

  /** A slot after a run: what its module returned at its last refresh, clipped to the slot. */
  function SlotText(a: Arg, h: seq<Option<Result>>, first: string): string {
    match Shown(h)
    case None => first
    case Some(r) => Clip(Rendered(a, r), CMDLEN)
  }

  /** Where every text fits, a printstatus puts the whole text of every due module into its slot. */
  lemma FittingText(args: seq<Arg>, c: Call, iter: nat, pending: int, m: nat, prior: string)
    requires m < |args| && Sized(c, |args|)
    requires forall i :: 0 <= i <= m ==> |Rendered(args[i], c.results[i])| < CMDLEN
    ensures NewText(args, c, iter, pending, m, prior)
      == if Due(args[m], iter, Seen(pending, c.arrivals, m)) then Rendered(args[m], c.results[m]) else prior
  {
    FittingReaches(args, c, iter, pending, m);
  }

  /** The slot shows what its module returned Age passes ago, and that is within the staleness bound. */
  ghost predicate Fresh(args: seq<Arg>, m: nat, run: seq<Pass>, first: string, text: string)
    requires m < |args| && SizedRun(run, |args|)
  {
    var h, a := History(args, m, run), args[m];
    && (run != [] && a.turn > 0 ==> Age(h) < a.turn * (Lost(args, m, run) + 1))
    && if Age(h) >= |h| then text == first
       else h[|h| - 1 - Age(h)].Some? && text == Clip(Rendered(a, h[|h| - 1 - Age(h)].value), CMDLEN)
  }

  lemma SlotIsFresh(args: seq<Arg>, m: nat, run: seq<Pass>, first: string)
    requires m < |args| && SizedRun(run, |args|)
    ensures Fresh(args, m, run, first, SlotText(args[m], History(args, m, run), first))
  {
    ShownAtAge(History(args, m, run));
    if run != [] && args[m].turn > 0 {
      BoundedStaleness(args, m, run);
    }
  }

  /** All the slots, when they held `first` before the run. */
  function Texts(args: seq<Arg>, run: seq<Pass>, first: seq<string>): (ts: seq<string>)
    requires |first| == |args| && SizedRun(run, |args|)
    ensures |ts| == |args|
  {
    seq(|args|, m requires 0 <= m < |args| => SlotText(args[m], History(args, m, run), first[m]))
  }

  /** The run up to the w-th interruption of pass p, which follows the run `before`. */
  function Until(before: seq<Pass>, p: Pass, w: nat): seq<Pass>
    requires w <= |p.wakes|
  {
    before + [p.(wakes := p.wakes[..w])]
  }

  lemma UntilSized(before: seq<Pass>, p: Pass, w: nat, n: nat)
    requires SizedRun(before, n) && SizedPass(p, n) && w <= |p.wakes|
    ensures SizedRun(Until(before, p, w), n)
  {
  }

  /** The pass's own printstatus carries the slots from the run before it to the run up to its sleep. */
  lemma TextsStep(args: seq<Arg>, before: seq<Pass>, p: Pass, first: seq<string>, now: seq<string>)
    requires |first| == |now| == |args| && SizedRun(before, |args|) && SizedPass(p, |args|)
    requires forall m :: 0 <= m < |args| ==>
      now[m] == NewText(args, p.call, |before| % WRAP, 0, m, Texts(args, before, first)[m])
    ensures SizedRun(Until(before, p, 0), |args|)
    ensures now == Texts(args, Until(before, p, 0), first)
  {
    UntilSized(before, p, 0, |args|);
    forall m | 0 <= m < |args| ensures now[m] == Texts(args, Until(before, p, 0), first)[m] {
      HistoryUntil(args, m, before, p, 0);
    }
  }

  /** And a printstatus after an interruption carries them to the run up to the next sleep. */
  lemma TextsWake(args: seq<Arg>, before: seq<Pass>, p: Pass, w: nat, first: seq<string>, now: seq<string>)
    requires |first| == |now| == |args| && SizedRun(before, |args|) && SizedPass(p, |args|) && w < |p.wakes|
    requires SizedRun(Until(before, p, w), |args|) && Sized(p.wakes[w], |args|)
    requires forall m :: 0 <= m < |args| ==>
      now[m] == NewText(args, p.wakes[w], 0, 0, m, Texts(args, Until(before, p, w), first)[m])
    ensures SizedRun(Until(before, p, w + 1), |args|)
    ensures now == Texts(args, Until(before, p, w + 1), first)
  {
    UntilSized(before, p, w + 1, |args|);
    forall m | 0 <= m < |args| ensures now[m] == Texts(args, Until(before, p, w + 1), first)[m] {
      HistoryUntil(args, m, before, p, w);
      HistoryUntil(args, m, before, p, w + 1);
      WakeStep(args, m, p, w, |before| % WRAP);
    }
  }

  lemma HistoryUntil(args: seq<Arg>, m: nat, before: seq<Pass>, p: Pass, w: nat)
    requires m < |args| && SizedRun(before, |args|) && SizedPass(p, |args|) && w <= |p.wakes|
    requires SizedRun(Until(before, p, w), |args|)
    ensures SizedPass(p.(wakes := p.wakes[..w]), |args|)
    ensures var last := LastIn(args, m, p.(wakes := p.wakes[..w]), |before| % WRAP);
      && History(args, m, Until(before, p, w)) == History(args, m, before) + [last]
      && Shown(History(args, m, Until(before, p, w))) == if last.Some? then last else Shown(History(args, m, before))
  {
    var r := Until(before, p, w);
    assert r[|before|] == p.(wakes := p.wakes[..w]);
    assert History(args, m, r)[..|before|] == History(args, m, before);
  }

  lemma WakeStep(args: seq<Arg>, m: nat, p: Pass, w: nat, iter: nat)
    requires m < |args| && SizedPass(p, |args|) && w < |p.wakes|
    ensures Sized(p.wakes[w], |args|) && SizedWakes(p.wakes[..w], |args|) && SizedWakes(p.wakes[..w + 1], |args|)
    ensures LastIn(args, m, p.(wakes := p.wakes[..w + 1]), iter)
      == if Reaches(args, p.wakes[w], 0, 0, m) then Some(p.wakes[w].results[m])
         else LastIn(args, m, p.(wakes := p.wakes[..w]), iter)
  {
    assert p.wakes[..w + 1][..w] == p.wakes[..w] && p.wakes[..w + 1][w] == p.wakes[w];
  }

  function Join(texts: seq<string>): string {
    if texts == [] then "" else Join(texts[..|texts| - 1]) + texts[|texts| - 1]
  }

  /** Joining keeps every text whole and in order: it takes concatenation to concatenation. */
  lemma {:induction false} JoinConcat(xs: seq<string>, ys: seq<string>)
    ensures Join(xs + ys) == Join(xs) + Join(ys)
  {
    if ys == [] {
      assert xs + ys == xs;
    } else {
      var n := |ys| - 1;
      assert (xs + ys)[..|xs| + n] == xs + ys[..n];
      JoinConcat(xs, ys[..n]);
    }
  }

  lemma JoinOne(t: string)
    ensures Join([t]) == t
  {
    assert [t][..0] == [];
  }

  lemma {:induction false} JoinFits(texts: seq<string>)
    requires forall i :: 0 <= i < |texts| ==> Plain(texts[i]) && |texts[i]| < CMDLEN
    ensures Plain(Join(texts)) && |Join(texts)| + |texts| <= CMDLEN * |texts|
  {
    if texts != [] {
      JoinFits(texts[..|texts| - 1]);
    }
  }

  ghost predicate RowHolds(slots: array2<char>, i: nat, s: string)
    requires i < slots.Length0
    reads slots
  {
    && |s| < slots.Length1 && Plain(s) && slots[i, |s|] == NUL
    && forall j {:trigger slots[i, j]} :: 0 <= j < |s| ==> slots[i, j] == s[j] && slots[i, j] != NUL
  }

  /** evsnprintf into the shared buffer. */
  method SnprintfBuf(buf: array<char>, s: string) returns (ok: bool)
    requires buf.Length > 0 && Plain(s)
    modifies buf
    ensures HoldsString(buf, Clip(s, buf.Length)) && ok == (|s| < buf.Length)
  {
    var n := if |s| < buf.Length then |s| else buf.Length - 1;
    for j := 0 to n
      invariant forall k :: 0 <= k < j ==> buf[k] == s[k]
    {
      buf[j] := s[j];
    }
    buf[n] := NUL;
    ok := |s| < buf.Length;
  }

  /** esnprintf into one slot; the other slots stay. */
  method SnprintfSlot(slots: array2<char>, i: nat, s: string) returns (ok: bool)
    requires i < slots.Length0 && slots.Length1 > 0 && Plain(s)
    modifies slots
    ensures RowHolds(slots, i, Clip(s, slots.Length1)) && ok == (|s| < slots.Length1)
    ensures forall r, c :: 0 <= r < slots.Length0 && 0 <= c < slots.Length1 && r != i ==> slots[r, c] == old(slots[r, c])
  {
    var n := if |s| < slots.Length1 then |s| else slots.Length1 - 1;
    for j := 0 to n
      invariant forall k :: 0 <= k < j ==> slots[i, k] == s[k]
      invariant forall r, c :: 0 <= r < slots.Length0 && 0 <= c < slots.Length1 && r != i ==> slots[r, c] == old(slots[r, c])
    {
      slots[i, j] := s[j];
    }
    slots[i, n] := NUL;
    ok := |s| < slots.Length1;
  }

  /** strcat of a slot. */
  method Strcat(dst: array<char>, slots: array2<char>, i: nat, ghost s: string, ghost t: string)
    requires i < slots.Length0 && HoldsString(dst, s) && RowHolds(slots, i, t)
    requires |s| + |t| < dst.Length
    modifies dst
    ensures HoldsString(dst, s + t)
  {
    var e := 0;
    while dst[e] != NUL
      invariant e <= |s|
      decreases |s| - e
    {
      e := e + 1;
    }
    var j := 0;
    while slots[i, j] != NUL
      invariant j <= |t|
      invariant forall k {:trigger dst[k]} :: 0 <= k < e + j ==> dst[k] == (s + t)[k] && dst[k] != NUL
      decreases |t| - j
    {
      dst[e + j] := slots[i, j];
      j := j + 1;
    }
    dst[e + j] := NUL;
  }

  /** What the printstatus after the w-th interruption of pass p writes (its own one for w == 0): the slots of
      that moment in order, or nothing while the counter it is given is 0, unless -S asks for it. */
  ghost predicate Writes(args: seq<Arg>, before: seq<Pass>, p: Pass, w: nat, first: seq<string>, always: bool,
                         line: Option<string>)
    requires |first| == |args|
  {
    && w <= |p.wakes| && SizedRun(Until(before, p, w), |args|)
    && line == if always || (w == 0 && |before| % WRAP != 0) then Some(Join(Texts(args, Until(before, p, w), first))) else None
  }

  /** The lines of pass p. */
  ghost predicate PassWrites(args: seq<Arg>, before: seq<Pass>, p: Pass, first: seq<string>, always: bool,
                             lines: seq<Option<string>>)
    requires |first| == |args|
  {
    && |lines| == 1 + |p.wakes|
    && forall w :: 0 <= w < |lines| ==> Writes(args, before, p, w, first, always, lines[w])
  }

  class Status {
    const args: seq<Arg>
    const buf: array<char>  // one buffer for every module
    const slots: array2<char>
    var upsigno: int
    var done: bool
    var errno: int
    ghost var texts: seq<string>  // what the slots hold

    ghost predicate Valid()
      reads this, slots
    {
      && |args| > 0 && (forall a :: a in args ==> PlainArg(a))
      && buf.Length == BUFLEN
      && slots.Length0 == |args| == |texts| && slots.Length1 == CMDLEN
      && forall i :: 0 <= i < |texts| ==> RowHolds(slots, i, texts[i])
    }

    constructor (args: seq<Arg>)
      requires |args| > 0 && forall a :: a in args ==> PlainArg(a)
      ensures Valid() && fresh(buf) && fresh(slots) && this.args == args
      ensures upsigno == 0 && !done && forall t :: t in texts ==> t == ""
    {
      this.args := args;
      buf := new char[BUFLEN](_ => NUL);
      slots := new char[|args|, CMDLEN]((_, _) => NUL);
      upsigno, done, errno := 0, false, 0;
      texts := seq(|args|, _ => "");
    }

    /** sighandler: an update signal takes the place of the pending one and wipes errno out; any other signal
        ends the program. */
    method Handle(signo: int)
      modifies this`upsigno, this`done, this`errno
      ensures if signo == SIGUSR1 || SIGRTMIN <= signo <= SIGRTMAX
        then upsigno == signo && errno == 0 && done == old(done)
        else done && upsigno == old(upsigno) && errno == old(errno)
    {
      if (signo <= SIGRTMAX && signo >= SIGRTMIN) || signo == SIGUSR1 {
        upsigno := signo;
        errno := 0;
      } else {
        done := true;
      }
    }

    /** One module call: a string formatted with bprintf lands in the shared buffer. */
    method Evaluate(r: Result) returns (res: string)
      requires buf.Length == BUFLEN && PlainResult(r)
      modifies buf
      ensures res == Value(r)
    {
      match r
      case Null => res := "";
      case Own(text) => res := text;
      case Shared(text) =>
        var ok := SnprintfBuf(buf, text);
        if ok {
          res := LoadString(buf, text);
        } else {
          res := "";
        }
    }

    /** One module call and the formatting of its slot. */
    method Refresh(i: nat, r: Result) returns (ok: bool)
      requires Valid() && i < |args| && PlainResult(r)
      modifies this`texts, buf, slots
      ensures Valid() && texts == old(texts)[i := Clip(Rendered(args[i], r), CMDLEN)]
      ensures ok == (|Rendered(args[i], r)| < CMDLEN)
    {
      var a := args[i];
      assert PlainArg(a);
      var res := Evaluate(r);
      ok := SnprintfSlot(slots, i, a.pre + res + a.post);
      texts := texts[i := Clip(Rendered(a, r), CMDLEN)];
    }

    /** printstatus: every slot up to the first truncated one is refreshed if due, no other slot changes, the
        pending signal is consumed, and the line is the slots in order. */
    method PrintStatus(iter: nat, c: Call, always: bool) returns (line: Option<string>)
      requires Valid() && Sized(c, |args|) && PlainCall(c)
      modifies this`upsigno, this`errno, this`done, this`texts, buf, slots
      ensures Valid() && upsigno == 0 && done == old(done)
      ensures forall i :: 0 <= i < |args| ==>
        texts[i] == NewText(args, c, iter, old(upsigno), i, old(texts[i]))
      ensures line == if always || iter != 0 then Some(Join(texts)) else None
    {
      ghost var pending, before := upsigno, texts;
      ghost var stop := Stop(args, c, iter, pending, 0);
      var i := 0;
      var truncated := false;
      while i < |args| && !truncated
        invariant Valid() && i <= |args| && |texts| == |before| && done == old(done)
        invariant upsigno == if i == 0 then pending else Seen(pending, c.arrivals, i - 1)
        invariant if truncated then i == stop + 1 else i <= stop
        invariant forall k :: 0 <= k < i ==> texts[k] == NewText(args, c, iter, pending, k, before[k])
        invariant forall k :: i <= k < |args| ==> texts[k] == before[k]
        decreases |args| - i
      {
        if c.arrivals[i] != 0 {
          assert c.arrivals[i] in c.arrivals;
          Handle(c.arrivals[i]);
        }
        if Due(args[i], iter, upsigno) {
          assert c.results[i] in c.results;
          var ok := Refresh(i, c.results[i]);
          truncated := !ok;
        }
        i := i + 1;
      }
      upsigno := 0;

      var status := Assemble();
      line := None;
      if always || iter != 0 {
        var text := LoadString(status, Join(texts));
        line := Some(text);
      }
    }

    /** The strcat loop over a buffer of CMDLEN characters per module. */
    method Assemble() returns (status: array<char>)
      requires Valid()
      ensures fresh(status) && status.Length == CMDLEN * |args| && HoldsString(status, Join(texts))
    {
      status := new char[CMDLEN * |args|](_ => NUL);
      status[0] := NUL;
      for i := 0 to |args|
        invariant HoldsString(status, Join(texts[..i]))
      {
        assert texts[..i + 1][..i] == texts[..i];
        JoinFits(texts[..i + 1]);
        Strcat(status, slots, i, Join(texts[..i]), texts[i]);
      }
      assert texts[..|args|] == texts;
    }

    /** A pass of the main loop: printstatus with the counter, and printstatus(0) for every interruption of
        the sleep, after which the loop clears errno and the pending signal. */
    method OnePass(p: Pass, iter: nat, always: bool, ghost before: seq<Pass>, ghost first: seq<string>)
      returns (lines: seq<Option<string>>)
      requires Valid() && upsigno == 0 && SizedPass(p, |args|) && PlainRun([p])
      requires iter == |before| % WRAP && SizedRun(before, |args|)
      requires |first| == |args| && texts == Texts(args, before, first)
      modifies this`upsigno, this`errno, this`done, this`texts, buf, slots
      ensures Valid() && upsigno == 0 && done == old(done)
      ensures SizedRun(Until(before, p, |p.wakes|), |args|) && texts == Texts(args, Until(before, p, |p.wakes|), first)
      ensures PassWrites(args, before, p, first, always, lines)
    {
      assert [p][0] == p;
      var line := PrintStatus(iter, p.call, always);
      TextsStep(args, before, p, first, texts);
      lines := [line];
      for w := 0 to |p.wakes|
        invariant Valid() && upsigno == 0 && done == old(done)
        invariant SizedRun(Until(before, p, w), |args|) && texts == Texts(args, Until(before, p, w), first)
        invariant |lines| == 1 + w
        invariant forall v :: 0 <= v <= w ==> Writes(args, before, p, v, first, always, lines[v])
      {
        line := Wake(p.wakes[w], always, before, p, w, first);
        lines := lines + [line];
      }
    }

    /** The body of the sleep loop. */
    method Wake(c: Call, always: bool, ghost before: seq<Pass>, ghost p: Pass, ghost w: nat, ghost first: seq<string>)
      returns (line: Option<string>)
      requires Valid() && upsigno == 0 && SizedPass(p, |args|) && PlainRun([p])
      requires w < |p.wakes| && c == p.wakes[w] && SizedRun(before, |args|) && SizedRun(Until(before, p, w), |args|)
      requires |first| == |args| && texts == Texts(args, Until(before, p, w), first)
      modifies this`upsigno, this`errno, this`done, this`texts, buf, slots
      ensures Valid() && upsigno == 0 && done == old(done)
      ensures SizedRun(Until(before, p, w + 1), |args|) && texts == Texts(args, Until(before, p, w + 1), first)
      ensures Writes(args, before, p, w + 1, first, always, line) && errno == 0
    {
      assert [p][0] == p && p.wakes[w] in p.wakes;
      line := PrintStatus(0, c, always);
      errno, upsigno := 0, 0;
      TextsWake(args, before, p, w, first, texts);
    }

    /** Any run of the main loop: each slot shows what its module returned when it was last refreshed, clipped
        to the slot, whatever the modules after it have written to the shared buffer since; and every line
        written on the way shows the slots of its moment in order. */
    method MainLoop(run: seq<Pass>, always: bool) returns (lines: seq<seq<Option<string>>>)
      requires Valid() && upsigno == 0 && SizedRun(run, |args|) && PlainRun(run)
      modifies this`upsigno, this`errno, this`done, this`texts, buf, slots
      ensures Valid()
      ensures forall m :: 0 <= m < |args| ==> texts[m] == SlotText(args[m], History(args, m, run), old(texts)[m])
      ensures forall m :: 0 <= m < |args| ==> Fresh(args, m, run, old(texts)[m], texts[m])
      ensures |lines| == |run|
      ensures forall j :: 0 <= j < |run| ==> PassWrites(args, run[..j], run[j], old(texts), always, lines[j])
    {
      lines := [];
      var iter := 0;
      ghost var first := texts;
      TextsBefore(first);
      for j := 0 to |run|
        invariant Valid() && upsigno == 0 && iter == j % WRAP && |lines| == j
        invariant texts == Texts(args, run[..j], first)
        invariant forall i :: 0 <= i < j ==> PassWrites(args, run[..i], run[i], first, always, lines[i])
      {
        var ls := OnePass(run[j], iter, always, run[..j], first);
        UntilAll(run, j);
        lines := lines + [ls];
        NextIter(iter, j);
        iter := (iter + 1) % WRAP;
      }
      assert run[..|run|] == run;
      SlotsAreFresh(run, first);
    }

    lemma NextIter(iter: nat, j: nat)
      requires iter == j % WRAP
      ensures (iter + 1) % WRAP == (j + 1) % WRAP
    {
    }

    lemma UntilAll(run: seq<Pass>, j: nat)
      requires j < |run|
      ensures Until(run[..j], run[j], |run[j].wakes|) == run[..j + 1]
    {
      assert run[j].wakes[..|run[j].wakes|] == run[j].wakes;
    }

    lemma SlotsAreFresh(run: seq<Pass>, first: seq<string>)
      requires |first| == |args| && SizedRun(run, |args|)
      ensures forall m :: 0 <= m < |args| ==> Fresh(args, m, run, first[m], Texts(args, run, first)[m])
    {
      forall m | 0 <= m < |args| ensures Fresh(args, m, run, first[m], Texts(args, run, first)[m]) {
        SlotIsFresh(args, m, run, first[m]);
      }
    }

    lemma TextsBefore(first: seq<string>)
      requires |first| == |args|
      ensures first == Texts(args, [], first)
    {
    }
  }
}
