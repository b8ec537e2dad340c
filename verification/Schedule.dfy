/** Which modules a printstatus refreshes, and what that means over whole runs of the main loop. */
module Schedule {
  import opened Options

  const SIGUSR1 := 10
  const SIGRTMIN := 34
  const SIGRTMAX := 64
  const WRAP := 0x1_0000_0000  // the pass counter is a 32-bit unsigned
  const CMDLEN := 128
  const BUFLEN := 1024

  /** One entry of the configuration; its format is `pre` and `post` around the one %s. */
  datatype Arg = Arg(pre: string, post: string, turn: nat, signal: int)

  /** What a module returns: no string, a string formatted into the shared buffer, or one of its own. */
  datatype Result = Null | Shared(text: string) | Own(text: string)

  /** The string argument a result stands for; a result too long for the shared buffer is replaced, like a
      missing one, by the configured (empty) text. */
  function Value(r: Result): string {
    match r
    case Null => ""
    case Shared(text) => if |text| < BUFLEN then text else ""
    case Own(text) => text
  }

  function Rendered(a: Arg, r: Result): string {
    a.pre + Value(r) + a.post
  }

  // ----- one call of printstatus -----

  /** One call of printstatus: what each module would return, and the last update signal (0 for none)
      delivered since the test of the module before it. */
  datatype Call = Call(results: seq<Result>, arrivals: seq<int>)

  predicate Sized(c: Call, n: nat) {
    && |c.results| == n && |c.arrivals| == n
    && forall s :: s in c.arrivals ==> s == 0 || s == SIGUSR1 || SIGRTMIN <= s <= SIGRTMAX
  }

  predicate SizedWakes(wakes: seq<Call>, n: nat) {
    forall c :: c in wakes ==> Sized(c, n)
  }

  /** The pending signal module i finds, when `pending` was there before the call. */
  function Seen(pending: int, arrivals: seq<int>, i: nat): int
    requires i < |arrivals|
  {
    if arrivals[i] != 0 then arrivals[i]
    else if i == 0 then pending
    else Seen(pending, arrivals, i - 1)
  }

  /** printstatus does not skip the module. */
  predicate Due(a: Arg, iter: nat, upsigno: int) {
    !(iter != 0 && !(
      || (iter == 0 && upsigno == 0)
      || upsigno == SIGUSR1
      || (upsigno == 0 && a.turn > 0 && iter % a.turn == 0)
      || (a.signal >= 0 && upsigno - SIGRTMIN == a.signal)))
  }

  /** The first module from k on that is due and does not fit its slot, or the number of modules. */
  function Stop(args: seq<Arg>, c: Call, iter: nat, pending: int, k: nat): (s: nat)
    requires k <= |args| && Sized(c, |args|)
    ensures k <= s <= |args|
    ensures forall i :: k <= i < s && Due(args[i], iter, Seen(pending, c.arrivals, i)) ==>
      |Rendered(args[i], c.results[i])| < CMDLEN
    ensures s < |args| ==> Due(args[s], iter, Seen(pending, c.arrivals, s)) && |Rendered(args[s], c.results[s])| >= CMDLEN
    decreases |args| - k
  {
    if k == |args| then k
    else if Due(args[k], iter, Seen(pending, c.arrivals, k)) && |Rendered(args[k], c.results[k])| >= CMDLEN then k
    else Stop(args, c, iter, pending, k + 1)
  }

  /** The call ends before module m, because the text of an earlier one is truncated. */
  predicate Cut(args: seq<Arg>, c: Call, iter: nat, pending: int, m: nat)
    requires Sized(c, |args|)
  {
    Stop(args, c, iter, pending, 0) < m
  }

  /** The call refreshes module m. */
  predicate Reaches(args: seq<Arg>, c: Call, iter: nat, pending: int, m: nat)
    requires m < |args| && Sized(c, |args|)
  {
    !Cut(args, c, iter, pending, m) && Due(args[m], iter, Seen(pending, c.arrivals, m))
  }

  /** Where every text fits its slot, a call refreshes exactly the modules that are due. */
  lemma FittingReaches(args: seq<Arg>, c: Call, iter: nat, pending: int, m: nat)
    requires m < |args| && Sized(c, |args|)
    requires forall i :: 0 <= i < m ==> |Rendered(args[i], c.results[i])| < CMDLEN
    ensures Reaches(args, c, iter, pending, m) <==> Due(args[m], iter, Seen(pending, c.arrivals, m))
  {
  }

  // ----- what decides a refresh -----

  /** s is the last update signal that has arrived when module m is tested. */
  ghost predicate LastArrival(pending: int, arrivals: seq<int>, m: nat, s: int)
    requires m < |arrivals|
  {
    && s != 0
    && ((s == pending && forall k :: 0 <= k <= m ==> arrivals[k] == 0)
        || exists j :: 0 <= j <= m && arrivals[j] == s && forall k :: j < k <= m ==> arrivals[k] == 0)
  }

  /** None has arrived. */
  ghost predicate NoArrival(pending: int, arrivals: seq<int>, m: nat)
    requires m < |arrivals|
  {
    pending == 0 && forall k :: 0 <= k <= m ==> arrivals[k] == 0
  }

  lemma {:induction false} SeenIsLast(pending: int, arrivals: seq<int>, m: nat)
    requires m < |arrivals|
    ensures Seen(pending, arrivals, m) == 0 <==> NoArrival(pending, arrivals, m)
    ensures forall s :: LastArrival(pending, arrivals, m, s) <==> s != 0 && s == Seen(pending, arrivals, m)
  {
    if arrivals[m] == 0 && m > 0 {
      SeenIsLast(pending, arrivals, m - 1);
      forall s
        ensures LastArrival(pending, arrivals, m, s) <==> LastArrival(pending, arrivals, m - 1, s)
      {
        LastArrivalOn(pending, arrivals, m, s);
      }
    }
  }

  lemma LastArrivalOn(pending: int, arrivals: seq<int>, m: nat, s: int)
    requires 0 < m < |arrivals| && arrivals[m] == 0
    ensures LastArrival(pending, arrivals, m, s) <==> LastArrival(pending, arrivals, m - 1, s)
  {
  }

  /** A printstatus refreshes module m if and only if it gets there and the counter is 0, or the last signal
      that has arrived is SIGUSR1 or the module's own, or none has arrived and the module's turn divides the
      counter. */
  lemma RefreshedIff(args: seq<Arg>, c: Call, iter: nat, pending: int, m: nat)
    requires m < |args| && Sized(c, |args|)
    ensures Reaches(args, c, iter, pending, m) <==>
      && !Cut(args, c, iter, pending, m)
      && (|| iter == 0
          || LastArrival(pending, c.arrivals, m, SIGUSR1)
          || (args[m].signal >= 0 && LastArrival(pending, c.arrivals, m, SIGRTMIN + args[m].signal))
          || (NoArrival(pending, c.arrivals, m) && args[m].turn > 0 && iter % args[m].turn == 0))
  {
    SeenIsLast(pending, c.arrivals, m);
  }

  /** And it does not get there if and only if it has refreshed an earlier module with a text too long for its
      slot. */
  lemma CutIff(args: seq<Arg>, c: Call, iter: nat, pending: int, m: nat)
    requires m <= |args| && Sized(c, |args|)
    ensures Cut(args, c, iter, pending, m) <==>
      exists i :: 0 <= i < m && Reaches(args, c, iter, pending, i) && |Rendered(args[i], c.results[i])| >= CMDLEN
  {
    var s := Stop(args, c, iter, pending, 0);
    if s < m {
      assert Reaches(args, c, iter, pending, s);
    }
  }

  /** The text of a module: what it returned between the two ends of its format, or nothing between them if it
      returned no string or one that does not fit the shared buffer. */
  lemma RenderedSays(a: Arg, r: Result)
    ensures (r.Own? || (r.Shared? && |r.text| < BUFLEN)) ==> Rendered(a, r) == a.pre + r.text + a.post
    ensures (r.Null? || (r.Shared? && |r.text| >= BUFLEN)) ==> Rendered(a, r) == a.pre + a.post
  {
    assert a.pre + "" == a.pre;
  }

  // ----- runs -----

  /** One pass of the main loop: its printstatus, then one for every interruption of the sleep. */
  datatype Pass = Pass(call: Call, wakes: seq<Call>)

  predicate SizedPass(p: Pass, n: nat) {
    Sized(p.call, n) && SizedWakes(p.wakes, n)
  }

  predicate SizedRun(run: seq<Pass>, n: nat) {
    forall j {:trigger run[j]} :: 0 <= j < |run| ==> SizedPass(run[j], n)
  }

  /** What module m returned to the last of these calls that refreshed it. */
  function LastWake(args: seq<Arg>, m: nat, wakes: seq<Call>): Option<Result>
    requires m < |args| && SizedWakes(wakes, |args|)
  {
    if wakes == [] then None
    else
      var c := wakes[|wakes| - 1];
      if Reaches(args, c, 0, 0, m) then Some(c.results[m]) else LastWake(args, m, wakes[..|wakes| - 1])
  }

  /** What module m returned when the pass last refreshed it. */
  function LastIn(args: seq<Arg>, m: nat, p: Pass, iter: nat): Option<Result>
    requires m < |args| && SizedPass(p, |args|)
  {
    var woken := LastWake(args, m, p.wakes);
    if woken.Some? then woken
    else if Reaches(args, p.call, iter, 0, m) then Some(p.call.results[m])
    else None
  }

  /** Pass by pass, what module m returned when the pass last refreshed it. */
  function History(args: seq<Arg>, m: nat, run: seq<Pass>): (h: seq<Option<Result>>)
    requires m < |args| && SizedRun(run, |args|)
    ensures |h| == |run|
  {
    seq(|run|, j requires 0 <= j < |run| => LastIn(args, m, run[j], j % WRAP))
  }

  /** What the module returned when it was last refreshed. */
  function Shown(h: seq<Option<Result>>): Option<Result> {
    if h == [] then None else if h[|h| - 1].Some? then h[|h| - 1] else Shown(h[..|h| - 1])
  }

  /** Passes since the module was last refreshed, or since the run began. */
  function Age(h: seq<Option<Result>>): nat {
    if h == [] || h[|h| - 1].Some? then 0 else 1 + Age(h[..|h| - 1])
  }

  /** The pass is the module's turn. */
  predicate Turn(a: Arg, iter: nat) {
    iter == 0 || (a.turn > 0 && iter % a.turn == 0)
  }

  /** Turns since then. */
  function Missed(a: Arg, h: seq<Option<Result>>): nat {
    if h == [] || h[|h| - 1].Some? then 0
    else (if Turn(a, (|h| - 1) % WRAP) then 1 else 0) + Missed(a, h[..|h| - 1])
  }

  /** What is shown is what the module returned Age passes ago, and no later pass has refreshed it. */
  lemma {:induction false} ShownAtAge(h: seq<Option<Result>>)
    ensures Age(h) <= |h|
    ensures Age(h) == |h| ==> Shown(h).None?
    ensures Age(h) < |h| ==> Shown(h).Some? && Shown(h) == h[|h| - 1 - Age(h)]
    ensures forall j :: |h| - Age(h) <= j < |h| ==> h[j].None?
  {
    if h != [] && h[|h| - 1].None? {
      ShownAtAge(h[..|h| - 1]);
    }
  }

  // ----- turns -----

  /** A pending signal that is none of the module's business. */
  predicate Foreign(a: Arg, upsigno: int) {
    upsigno != 0 && upsigno != SIGUSR1 && !(a.signal >= 0 && upsigno - SIGRTMIN == a.signal)
  }

  /** A pending signal of somebody else's takes the turn. */
  predicate Suppressed(args: seq<Arg>, c: Call, iter: nat, m: nat)
    requires m < |args| && Sized(c, |args|)
  {
    iter != 0 && Foreign(args[m], Seen(0, c.arrivals, m))
  }

  /** A module's own printstatus misses its turn if and only if an earlier module's text is truncated or
      another module's signal is pending. */
  lemma TurnMissed(args: seq<Arg>, c: Call, iter: nat, m: nat)
    requires m < |args| && Sized(c, |args|) && Turn(args[m], iter)
    ensures !Reaches(args, c, iter, 0, m) <==> Cut(args, c, iter, 0, m) || Suppressed(args, c, iter, m)
  {
  }

  /** How the turns of a module end: refreshed, cut off by a truncated text, or taken by a signal. */
  datatype Turns = Turns(refreshed: nat, cut: nat, suppressed: nat) {
    function Total(): nat {
      refreshed + cut + suppressed
    }
  }

  function Tally(args: seq<Arg>, m: nat, run: seq<Pass>): Turns
    requires m < |args| && SizedRun(run, |args|)
  {
    if run == [] then Turns(0, 0, 0)
    else
      var j := |run| - 1;
      var t, c, iter := Tally(args, m, run[..j]), run[j].call, j % WRAP;
      if !Turn(args[m], iter) then t
      else
        Turns(
          t.refreshed + if Reaches(args, c, iter, 0, m) then 1 else 0,
          t.cut + if Cut(args, c, iter, 0, m) then 1 else 0,
          t.suppressed + if !Cut(args, c, iter, 0, m) && Suppressed(args, c, iter, m) then 1 else 0)
  }

  /** How many of the first n passes are turns of the module. */
  function TurnsIn(a: Arg, n: nat): nat {
    if n == 0 then 0 else TurnsIn(a, n - 1) + if Turn(a, n - 1) then 1 else 0
  }

  /** ceil(n/t) for a module with turn t, and one for a module without a turn. */
  predicate IsTurns(a: Arg, n: nat, k: nat) {
    && (a.turn > 0 ==> k == (n + a.turn - 1) / a.turn)
    && (a.turn == 0 && n > 0 ==> k == 1)
  }

  lemma {:induction false} TurnsInAre(a: Arg, n: nat)
    ensures IsTurns(a, n, TurnsIn(a, n))
  {
    if n == 0 {
      if a.turn > 0 {
        DivOf(a.turn - 1, 0, a.turn - 1, a.turn);
      }
    } else {
      TurnsInAre(a, n - 1);
      if a.turn > 0 {
        CeilStep(n - 1, a.turn);
        if n == 1 {
          DivOf(0, 0, 0, a.turn);
        }
      }
    }
  }

  lemma TallyStep(args: seq<Arg>, m: nat, run: seq<Pass>)
    requires m < |args| && SizedRun(run, |args|) && run != []
    ensures Tally(args, m, run).Total() == Tally(args, m, run[..|run| - 1]).Total()
      + if Turn(args[m], (|run| - 1) % WRAP) then 1 else 0
  {
    var j := |run| - 1;
    if Turn(args[m], j % WRAP) {
      TurnMissed(args, run[j].call, j % WRAP, m);
    }
  }

  /** Over every run before the counter wraps, the turns of a module are accounted for: each is refreshed, cut
      or suppressed. */
  lemma {:induction false} TurnsAddUp(args: seq<Arg>, m: nat, run: seq<Pass>)
    requires m < |args| && SizedRun(run, |args|) && |run| <= WRAP
    ensures Tally(args, m, run).Total() == TurnsIn(args[m], |run|)
  {
    if run != [] {
      var j := |run| - 1;
      assert j % WRAP == j;
      TurnsAddUp(args, m, run[..j]);
      TallyStep(args, m, run);
    }
  }

  /** Turns lost since the last refresh: to a truncated text of an earlier module, or to the pending signal of
      another one. */
  function Lost(args: seq<Arg>, m: nat, run: seq<Pass>): nat
    requires m < |args| && SizedRun(run, |args|)
  {
    if run == [] then 0
    else
      var j := |run| - 1;
      var c, iter := run[j].call, j % WRAP;
      var lost := Turn(args[m], iter) && (Cut(args, c, iter, 0, m) || Suppressed(args, c, iter, m));
      if LastIn(args, m, run[j], iter).Some? then 0 else (if lost then 1 else 0) + Lost(args, m, run[..j])
  }

  /** Nothing else costs a module its turn. */
  lemma {:induction false} MissedIsLost(args: seq<Arg>, m: nat, run: seq<Pass>)
    requires m < |args| && SizedRun(run, |args|)
    ensures Missed(args[m], History(args, m, run)) == Lost(args, m, run)
  {
    if run != [] {
      var j := |run| - 1;
      MissedIsLost(args, m, run[..j]);
      HistoryInit(args, m, run);
      if Turn(args[m], j % WRAP) {
        TurnMissed(args, run[j].call, j % WRAP, m);
      }
    }
  }

  lemma HistoryInit(args: seq<Arg>, m: nat, run: seq<Pass>)
    requires m < |args| && SizedRun(run, |args|) && run != []
    ensures History(args, m, run)[..|run| - 1] == History(args, m, run[..|run| - 1])
    ensures History(args, m, run)[|run| - 1] == LastIn(args, m, run[|run| - 1], (|run| - 1) % WRAP)
  {
  }

  /** Bounded staleness over all runs: the age stays below turn * (k + 1), where k turns were lost to truncated
      texts and to signals of other modules since the last refresh.  The counter's wrap-around does no harm: its
      pass 0 is a turn of every module. */
  lemma BoundedStaleness(args: seq<Arg>, m: nat, run: seq<Pass>)
    requires m < |args| && SizedRun(run, |args|) && run != [] && args[m].turn > 0
    ensures Age(History(args, m, run)) < args[m].turn * (Lost(args, m, run) + 1)
  {
    MissedIsLost(args, m, run);
    AgeAndTurns(args[m], History(args, m, run));
  }

  /** The age is below turn * (k + 1) when k turns lie inside it. */
  lemma {:induction false} AgeAndTurns(a: Arg, h: seq<Option<Result>>)
    requires h != [] && a.turn > 0
    ensures Age(h) <= a.turn * Missed(a, h) + (|h| - 1) % WRAP % a.turn
    ensures Age(h) < a.turn * (Missed(a, h) + 1)
    decreases |h|
  {
    var j, t := |h| - 1, a.turn;
    if h[j].None? {
      var k := Missed(a, h[..j]);
      assert t * (k + 1) == t * k + t;
      if j > 0 {
        AgeAndTurns(a, h[..j]);
        if j % WRAP != 0 {
          NextTurn(j - 1, t);
        }
      }
    }
    var k := Missed(a, h);
    assert t * (k + 1) == t * k + t;
  }

  /** Nothing in the pass refreshes module m: no interruption, and either another module's signal, or none
      and not its turn. */
  predicate Ignores(args: seq<Arg>, m: nat, p: Pass, iter: nat)
    requires m < |args| && SizedPass(p, |args|)
  {
    var s := Seen(0, p.call.arrivals, m);
    p.wakes == [] && iter != 0 && (Foreign(args[m], s) || (s == 0 && !Turn(args[m], iter)))
  }

  /** If signals of other modules take every turn after the first, a module grows stale by one pass at a time
      until the counter wraps, and loses a turn at every t-th of the passes. */
  lemma SignalsStarve(args: seq<Arg>, m: nat, run: seq<Pass>)
    requires m < |args| && SizedRun(run, |args|) && run != [] && |run| <= WRAP && args[m].turn > 0
    requires LastIn(args, m, run[0], 0).Some?
    requires forall j :: 1 <= j < |run| ==> Ignores(args, m, run[j], j)
    ensures Age(History(args, m, run)) == |run| - 1
    ensures Lost(args, m, run) == (|run| - 1) / args[m].turn
  {
    OnlyFirst(args, m, run);
    Starved(args[m], History(args, m, run));
    TurnsAfterFirst(args[m], |run|);
    MissedIsLost(args, m, run);
  }

  lemma OnlyFirst(args: seq<Arg>, m: nat, run: seq<Pass>)
    requires m < |args| && SizedRun(run, |args|) && 0 < |run| <= WRAP
    requires LastIn(args, m, run[0], 0).Some?
    requires forall j :: 1 <= j < |run| ==> Ignores(args, m, run[j], j)
    ensures History(args, m, run)[0].Some?
    ensures forall j :: 1 <= j < |run| ==> History(args, m, run)[j].None?
  {
    forall j | 1 <= j < |run| ensures History(args, m, run)[j].None? {
      IgnoredPass(args, m, run[j], j);
      assert j % WRAP == j;
    }
  }

  lemma IgnoredPass(args: seq<Arg>, m: nat, p: Pass, iter: nat)
    requires m < |args| && SizedPass(p, |args|) && Ignores(args, m, p, iter)
    ensures LastIn(args, m, p, iter).None?
  {
  }

  lemma {:induction false} Starved(a: Arg, h: seq<Option<Result>>)
    requires 0 < |h| <= WRAP && h[0].Some? && forall j :: 1 <= j < |h| ==> h[j].None?
    ensures Age(h) == |h| - 1 && Missed(a, h) + 1 == TurnsIn(a, |h|)
  {
    var j := |h| - 1;
    if j > 0 {
      assert j % WRAP == j;
      Starved(a, h[..j]);
    }
  }

  lemma {:induction false} TurnsAfterFirst(a: Arg, n: nat)
    requires a.turn > 0 && n > 0
    ensures TurnsIn(a, n) == (n - 1) / a.turn + 1
  {
    if n == 1 {
      DivOf(0, 0, 0, a.turn);
    } else {
      TurnsAfterFirst(a, n - 1);
      FloorStep(n - 1, a.turn);
    }
  }

  /** So the bound is tight until the counter wraps: for every turn and every number of lost turns that fit
      one round of the counter, a module may be as stale as the bound allows. */
  lemma BoundAttained(t: nat, k: nat) returns (args: seq<Arg>, run: seq<Pass>)
    requires t > 0 && t * (k + 1) <= WRAP
    ensures |args| == 1 && args[0].turn == t && SizedRun(run, 1)
    ensures Lost(args, 0, run) == k && Age(History(args, 0, run)) == t * (k + 1) - 1
  {
    var n := t * (k + 1);
    LastOfRound(t, k);
    args := [Arg("", "", t, -1)];
    run := seq(n, j => Pass(Call([Null], [if j == 0 then 0 else SIGRTMIN]), []));
    SignalsStarve(args, 0, run);
  }

  lemma LastOfRound(t: nat, k: nat)
    requires t > 0
    ensures t * (k + 1) > 0 && (t * (k + 1) - 1) / t == k
  {
    assert t * (k + 1) == t * k + t;
    DivOf(t * (k + 1) - 1, k, t - 1, t);
  }

  /** A pass that gets to module m after its own signal or SIGUSR1 leaves it fresh, whatever its turn. */
  lemma SignalRefreshes(args: seq<Arg>, m: nat, run: seq<Pass>, s: int)
    requires m < |args| && SizedRun(run, |args|) && run != []
    requires !Cut(args, run[|run| - 1].call, (|run| - 1) % WRAP, 0, m)
    requires LastArrival(0, run[|run| - 1].call.arrivals, m, s)
    requires s == SIGUSR1 || (args[m].signal >= 0 && s == SIGRTMIN + args[m].signal)
    ensures Age(History(args, m, run)) == 0
  {
    RefreshedIff(args, run[|run| - 1].call, (|run| - 1) % WRAP, 0, m);
    FreshPass(args, m, run);
  }

  /** So does any interruption that gets to it, whatever the signal. */
  lemma WakeRefreshes(args: seq<Arg>, m: nat, run: seq<Pass>, w: nat)
    requires m < |args| && SizedRun(run, |args|) && run != []
    requires w < |run[|run| - 1].wakes| && !Cut(args, run[|run| - 1].wakes[w], 0, 0, m)
    ensures Age(History(args, m, run)) == 0
  {
    AnyWake(args, m, run[|run| - 1].wakes, w);
    FreshPass(args, m, run);
  }

  lemma FreshPass(args: seq<Arg>, m: nat, run: seq<Pass>)
    requires m < |args| && SizedRun(run, |args|) && run != []
    requires LastIn(args, m, run[|run| - 1], (|run| - 1) % WRAP).Some?
    ensures Age(History(args, m, run)) == 0
  {
  }

  lemma {:induction false} AnyWake(args: seq<Arg>, m: nat, wakes: seq<Call>, w: nat)
    requires m < |args| && SizedWakes(wakes, |args|) && w < |wakes| && !Cut(args, wakes[w], 0, 0, m)
    ensures LastWake(args, m, wakes).Some?
  {
    var n := |wakes| - 1;
    if w < n {
      AnyWake(args, m, wakes[..n], w);
    } else {
      FirstRefreshesAll(args, wakes[n], m);
    }
  }

  lemma FirstRefreshesAll(args: seq<Arg>, c: Call, m: nat)
    requires m < |args| && Sized(c, |args|) && !Cut(args, c, 0, 0, m)
    ensures Reaches(args, c, 0, 0, m)
  {
  }

  // ----- runs without signals -----

  /** No update signal in the whole run. */
  predicate Quiet(run: seq<Pass>) {
    forall j {:trigger run[j]} :: 0 <= j < |run| ==>
      run[j].wakes == [] && forall x :: x in run[j].call.arrivals ==> x == 0
  }

  /** How often the run refreshes module m in a pass's own printstatus. */
  function Refreshes(args: seq<Arg>, m: nat, run: seq<Pass>): nat
    requires m < |args| && SizedRun(run, |args|)
  {
    if run == [] then 0
    else
      var j := |run| - 1;
      Refreshes(args, m, run[..j]) + if Reaches(args, run[j].call, j % WRAP, 0, m) then 1 else 0
  }

  lemma {:induction false} QuietSeesNothing(arrivals: seq<int>, i: nat)
    requires i < |arrivals| && forall x :: x in arrivals ==> x == 0
    ensures Seen(0, arrivals, i) == 0
  {
    assert arrivals[i] in arrivals;
    if i > 0 {
      QuietSeesNothing(arrivals, i - 1);
    }
  }

  /** Without signals no turn is suppressed and there is no refresh out of turn: before the counter wraps, a
      module with turn t is refreshed ceil(N/t) times in N passes and one without a turn once, less the turns
      that a truncated text cuts off. */
  lemma QuietRefreshes(args: seq<Arg>, m: nat, run: seq<Pass>)
    requires m < |args| && SizedRun(run, |args|) && Quiet(run) && |run| <= WRAP
    ensures IsTurns(args[m], |run|, Refreshes(args, m, run) + Tally(args, m, run).cut)
  {
    QuietTurns(args, m, run);
    TurnsInAre(args[m], |run|);
  }

  lemma QuietTurns(args: seq<Arg>, m: nat, run: seq<Pass>)
    requires m < |args| && SizedRun(run, |args|) && Quiet(run) && |run| <= WRAP
    ensures Refreshes(args, m, run) + Tally(args, m, run).cut == TurnsIn(args[m], |run|)
  {
    QuietTally(args, m, run);
    TurnsAddUp(args, m, run);
  }

  lemma {:induction false} QuietTally(args: seq<Arg>, m: nat, run: seq<Pass>)
    requires m < |args| && SizedRun(run, |args|) && Quiet(run) && |run| <= WRAP
    ensures Refreshes(args, m, run) == Tally(args, m, run).refreshed && Tally(args, m, run).suppressed == 0
  {
    if run != [] {
      var j := |run| - 1;
      QuietTally(args, m, run[..j]);
      QuietSeesNothing(run[j].call.arrivals, m);
    }
  }

  /** Where the texts before module m always fit, nothing cuts it off. */
  lemma {:induction false} FittingCutsNothing(args: seq<Arg>, m: nat, run: seq<Pass>)
    requires m < |args| && SizedRun(run, |args|)
    requires forall j, i :: 0 <= j < |run| && 0 <= i < m ==> |Rendered(args[i], run[j].call.results[i])| < CMDLEN
    ensures Tally(args, m, run).cut == 0
  {
    if run != [] {
      var j := |run| - 1;
      FittingCutsNothing(args, m, run[..j]);
    }
  }

  // ----- arithmetic -----

  /** The step from one value of the counter to the next, modulo a period. */
  lemma NextTurn(j: nat, t: nat)
    requires t > 0 && (j + 1) % WRAP != 0
    ensures (j + 1) % WRAP == j % WRAP + 1
    ensures (j + 1) % WRAP % t == if j % WRAP % t == t - 1 then 0 else j % WRAP % t + 1
  {
    assert j == j / WRAP * WRAP + j % WRAP;
    var i := j % WRAP;
    var q, r := i / t, i % t;
    assert i == q * t + r;
    if r == t - 1 {
      assert i + 1 == (q + 1) * t by { assert (q + 1) * t == q * t + t; }
      ModOf(i + 1, q + 1, 0, t);
    } else {
      ModOf(i + 1, q, r + 1, t);
    }
  }

  lemma ModOf(x: int, q: int, r: int, t: int)
    requires t > 0 && x == q * t + r && 0 <= r < t
    ensures x % t == r
  {
    var d := x / t - q;
    assert x == (x / t) * t + x % t;
    assert d * t == r - x % t by { assert d * t == (x / t) * t - q * t; }
  }

  lemma FloorStep(j: nat, t: nat)
    requires t > 0 && j > 0
    ensures j / t == (j - 1) / t + if j % t == 0 then 1 else 0
  {
    var q, r := j / t, j % t;
    assert j == q * t + r;
    if r == 0 {
      assert (q - 1) * t == q * t - t;
      DivOf(j - 1, q - 1, t - 1, t);
    } else {
      DivOf(j - 1, q, r - 1, t);
    }
  }

  lemma CeilStep(j: nat, t: nat)
    requires t > 0
    ensures (j + 1 + t - 1) / t == (j + t - 1) / t + if j % t == 0 then 1 else 0
  {
    var q, r := j / t, j % t;
    assert j == q * t + r;
    assert (q + 1) * t == q * t + t;
    DivOf(j + t, q + 1, r, t);
    if r == 0 {
      DivOf(j + t - 1, q, t - 1, t);
    } else {
      DivOf(j + t - 1, q + 1, r - 1, t);
    }
  }

  lemma DivOf(x: int, q: int, r: int, t: int)
    requires t > 0 && x == q * t + r && 0 <= r < t
    ensures x / t == q
  {
    ModOf(x, q, r, t);
    assert x == (x / t) * t + x % t;
    assert (x / t - q) * t == 0 by { assert (x / t - q) * t == (x / t) * t - q * t; }
  }
}
