/** The main loop as a machine whose steps interleave with signal arrivals. */
module MainLoop {

  /** Where the program is; Printing and Reprinting are inside printstatus, Sleeping inside nanosleep. */
  datatype Pc =
    | Tick | Printing | CheckDone
    | SleepTest | Sleeping | ReturnTest | ErrnoTest | DoneTest
    | Reprint | Reprinting | Clear
    | FailTest | LoopTest | Exited | Died

  datatype Errno = Zero | Eintr | Other

  datatype State = State(pc: Pc, done: bool, failed: bool, errno: Errno, negative: bool)
  // failed: nanosleep returned -1;  negative: wait.tv_sec < 0

  /** What happens next: an update signal, a terminating signal, or a step of the program.  A sleep ends
      with a return value and an errno; the first wait of a pass may be negative. */
  datatype Event =
    | Update
    | Terminate
    | Run(sleepFails: bool, sleepErrno: Errno, overdue: bool)

  function Step(s: State, e: Event): State {
    match e
    case Update => s.(errno := Zero)
    case Terminate => s.(done := true)
    case Run(sleepFails, sleepErrno, overdue) =>
      match s.pc
      case Tick => s.(pc := Printing)
      case Printing => s.(pc := CheckDone)
      case CheckDone => if s.done then s.(pc := LoopTest) else s.(pc := SleepTest, negative := overdue)
      case SleepTest => if s.negative then s.(pc := FailTest) else s.(pc := Sleeping)
      case Sleeping =>
        if sleepFails then s.(pc := ReturnTest, failed := true, errno := sleepErrno, negative := false)
        else s.(pc := ReturnTest, failed := false)
      case ReturnTest => if s.failed then s.(pc := ErrnoTest) else s.(pc := FailTest)
      case ErrnoTest => if s.errno == Eintr then s.(pc := DoneTest) else s.(pc := FailTest)
      case DoneTest => if s.done then s.(pc := FailTest) else s.(pc := Reprint)
      case Reprint => s.(pc := Reprinting)
      case Reprinting => s.(pc := Clear)
      case Clear => s.(pc := SleepTest, errno := Zero)
      case FailTest => if s.failed && s.errno != Eintr then s.(pc := Died) else s.(pc := LoopTest)
      case LoopTest => if s.done then s.(pc := Exited) else s.(pc := Tick)
      case Exited => s
      case Died => s
  }

  function After(s: State, trace: seq<Event>): State
    decreases |trace|
  {
    if trace == [] then s else After(Step(s, trace[0]), trace[1..])
  }

  /** How many times the trace starts printstatus, and how many times it starts nanosleep. */
  function Prints(s: State, trace: seq<Event>): nat
    decreases |trace|
  {
    if trace == [] then 0
    else (if trace[0].Run? && s.pc in {Tick, Reprint} then 1 else 0) + Prints(Step(s, trace[0]), trace[1..])
  }

  function Sleeps(s: State, trace: seq<Event>): nat
    decreases |trace|
  {
    if trace == [] then 0
    else (if trace[0].Run? && s.pc == SleepTest && !s.negative then 1 else 0) + Sleeps(Step(s, trace[0]), trace[1..])
  }

  function Runs(trace: seq<Event>): nat {
    if trace == [] then 0 else (if trace[0].Run? then 1 else 0) + Runs(trace[1..])
  }

  predicate Stopped(s: State) {
    s.pc in {Exited, Died}
  }

  /** Program steps left before the loop is left, once done is set. */
  function Rank(pc: Pc): nat {
    match pc
    case Reprint => 10
    case Reprinting => 9
    case Clear => 8
    case SleepTest => 7
    case Sleeping => 6
    case ReturnTest => 5
    case ErrnoTest => 4
    case DoneTest => 3
    case FailTest => 2
    case Tick => 4
    case Printing => 3
    case CheckDone => 2
    case LoopTest => 1
    case Exited => 0
    case Died => 0
  }

  /** From the moment done is set, whatever signals arrive: done stays set, at most one more printstatus and
      one more nanosleep start, and at most ten more program steps leave the loop. */
  lemma {:induction false} DoneStops(s: State, trace: seq<Event>)
    requires s.done
    ensures After(s, trace).done
    ensures Prints(s, trace) <= (if s.pc in {Tick, Reprint} then 1 else 0)
    ensures Sleeps(s, trace) <= (if s.pc in {Reprint, Reprinting, Clear, SleepTest} then 1 else 0)
    ensures Runs(trace) >= Rank(s.pc) ==> Stopped(After(s, trace))
    decreases |trace|
  {
    if trace != [] {
      DoneStops(Step(s, trace[0]), trace[1..]);
    }
  }

  // ----- interruptions that kill -----

  const START := State(Tick, false, false, Zero, false)

  /** nanosleep fails only when a signal interrupts it. */
  predicate OnlyInterrupted(trace: seq<Event>) {
    forall e :: e in trace && e.Run? && e.sleepFails ==> e.sleepErrno == Eintr
  }

  /** What every such run keeps: a failed sleep is on record from the return of nanosleep until it is called
      again, or until the program leaves. */
  predicate Sane(s: State) {
    && (s.pc in {Tick, Printing, CheckDone} ==> !s.failed)
    && (s.pc in {ErrnoTest, DoneTest, Reprint, Reprinting, Clear} ==> s.failed)
    && (s.failed && s.pc in {SleepTest, ReturnTest, ErrnoTest, DoneTest, Reprint, Reprinting, Clear} ==> !s.negative)
    && (s.failed && s.pc == FailTest && s.errno == Eintr ==> s.done)
    && (s.failed && s.pc == LoopTest ==> s.done)
    && (s.failed && s.pc in {SleepTest, Sleeping} ==> s.errno == Zero)
  }

  /** The program is dead or cannot escape: the failed sleep has lost its EINTR on the way to the error exit. */
  predicate Doomed(s: State) {
    s.pc == Died || (s.failed && s.errno != Eintr && (s.pc in {ReturnTest, ErrnoTest, FailTest} || (s.pc == DoneTest && s.done)))
  }

  /** The signals that doom it: an update signal wipes errno out between the return of an interrupted
      nanosleep and the last test of errno that will be made, or, after the first test, a terminating signal
      sends the program to the last one although an update signal has wiped errno out. */
  predicate Strikes(s: State, e: Event) {
    s.failed && (
      || (e.Update? && s.errno == Eintr && (s.pc in {ReturnTest, ErrnoTest} || (s.done && s.pc in {DoneTest, FailTest})))
      || (e.Terminate? && s.errno != Eintr && s.pc == DoneTest))
  }

  predicate Struck(s: State, trace: seq<Event>)
    decreases |trace|
  {
    trace != [] && (Strikes(s, trace[0]) || Struck(Step(s, trace[0]), trace[1..]))
  }

  /** Nothing but such a signal dooms the program. */
  lemma {:induction false} DoomedIffStruck(s: State, trace: seq<Event>)
    requires Sane(s) && OnlyInterrupted(trace)
    ensures Sane(After(s, trace))
    ensures Doomed(After(s, trace)) <==> Doomed(s) || Struck(s, trace)
    decreases |trace|
  {
    if trace != [] {
      assert trace[0] in trace;
      DoomedIffStruck(Step(s, trace[0]), trace[1..]);
    }
  }

  /** Program steps a doomed program has left. */
  function Fuse(pc: Pc): (n: nat)
    ensures n <= 3
  {
    match pc
    case ReturnTest => 3
    case ErrnoTest => 2
    case DoneTest => 2
    case FailTest => 1
    case _ => 0
  }

  /** Nothing saves a doomed program: at most three steps kill it, whatever signals arrive. */
  lemma {:induction false} DoomedDies(s: State, trace: seq<Event>)
    requires Doomed(s)
    ensures Doomed(After(s, trace))
    ensures Runs(trace) >= Fuse(s.pc) ==> After(s, trace).pc == Died
    decreases |trace|
  {
    if trace != [] {
      DoomedDies(Step(s, trace[0]), trace[1..]);
    }
  }

  predicate AllRuns(trace: seq<Event>) {
    forall e :: e in trace ==> e.Run?
  }

  lemma {:induction false} RunsNeverStrike(s: State, trace: seq<Event>)
    requires AllRuns(trace)
    ensures !Struck(s, trace) && Runs(trace) == |trace|
    decreases |trace|
  {
    if trace != [] {
      assert trace[0] in trace;
      RunsNeverStrike(Step(s, trace[0]), trace[1..]);
    }
  }

  /** An interrupted program dies of it if and only if a signal has struck: from the start, with -1 or without
      (`once`), for every trace and any three or more program steps after it. */
  lemma DiesIffStruck(once: bool, trace: seq<Event>, more: seq<Event>)
    requires OnlyInterrupted(trace) && OnlyInterrupted(more) && AllRuns(more) && |more| >= 3
    ensures After(START.(done := once), trace + more).pc == Died <==> Struck(START.(done := once), trace)
  {
    var s := After(START.(done := once), trace);
    AfterAppend(START.(done := once), trace, more);
    DoomedIffStruck(START.(done := once), trace);
    DoomedIffStruck(s, more);
    RunsNeverStrike(s, more);
    if Doomed(s) {
      DoomedDies(s, more);
    }
  }

  /** So a run in which no signal strikes never dies. */
  lemma SparedSurvives(once: bool, trace: seq<Event>)
    requires OnlyInterrupted(trace) && !Struck(START.(done := once), trace)
    ensures After(START.(done := once), trace).pc != Died
  {
    DoomedIffStruck(START.(done := once), trace);
  }

  /** And such a run exists: of two update signals on the first sleep, the second strikes. */
  lemma WindowKills() returns (trace: seq<Event>)
    ensures OnlyInterrupted(trace) && forall e :: e in trace ==> !e.Terminate?
    ensures Struck(START, trace) && After(START, trace).pc == Died
  {
    var run := Run(false, Zero, false);
    trace := Extend([], run);
    trace := Extend(trace, run);
    trace := Extend(trace, run);
    trace := Extend(trace, run);
    assert After(START, trace) == START.(pc := Sleeping);
    trace := Extend(trace, Update);
    trace := Extend(trace, Run(true, Eintr, false));
    trace := Extend(trace, Update);  // in the window
    assert After(START, trace) == START.(pc := ReturnTest, failed := true);
    trace := Extend(trace, run);
    trace := Extend(trace, run);
    trace := Extend(trace, run);
    DoomedIffStruck(START, trace);
  }

  lemma Extend(trace: seq<Event>, e: Event) returns (r: seq<Event>)
    ensures r == trace + [e] && After(START, r) == Step(After(START, trace), e)
  {
    r := trace + [e];
    AfterAppend(START, trace, [e]);
    assert [e][1..] == [];
  }

  lemma {:induction false} AfterAppend(s: State, xs: seq<Event>, ys: seq<Event>)
    ensures After(s, xs + ys) == After(After(s, xs), ys)
    decreases |xs|
  {
    if xs == [] {
      assert xs + ys == ys;
    } else {
      assert (xs + ys)[1..] == xs[1..] + ys;
      AfterAppend(Step(s, xs[0]), xs[1..], ys);
    }
  }

  // ----- the loop goes on -----

  /** Once out of the loop by its end, done is set: nothing else leaves it. */
  lemma {:induction false} ExitNeedsDone(s: State, trace: seq<Event>)
    requires s.pc == Exited ==> s.done
    ensures After(s, trace).pc == Exited ==> After(s, trace).done
    ensures After(s, trace).done <==> s.done || exists e :: e in trace && e.Terminate?
    decreases |trace|
  {
    if trace != [] {
      ExitNeedsDone(Step(s, trace[0]), trace[1..]);
      assert trace == [trace[0]] + trace[1..];
    }
  }

  /** Nobody asks the program to end, and no signal strikes. */
  predicate Undisturbed(s: State, trace: seq<Event>) {
    && OnlyInterrupted(trace) && !Struck(s, trace)
    && forall e :: e in trace ==> !e.Terminate?
  }

  /** A program that runs on: sane, not doomed, and not asked to end. */
  predicate Running(s: State) {
    Sane(s) && !Doomed(s) && !s.done && s.pc != Exited
  }

  lemma RunsOn(s: State, trace: seq<Event>)
    requires Running(s) && trace != [] && Undisturbed(s, trace)
    ensures Running(Step(s, trace[0])) && Undisturbed(Step(s, trace[0]), trace[1..])
    ensures !Strikes(s, trace[0]) && !trace[0].Terminate?
    ensures trace[0].Run? && trace[0].sleepFails ==> trace[0].sleepErrno == Eintr
  {
    assert trace[0] in trace;
    DoomedIffStruck(s, [trace[0]]);
    assert [trace[0]][1..] == [];
  }

  /** Calls of nanosleep that a signal interrupts, and ends of a sleep: nanosleep returns 0, or the pass has
      taken too long for any. */
  function Interruptions(s: State, trace: seq<Event>): nat
    decreases |trace|
  {
    if trace == [] then 0
    else
      (if trace[0].Run? && s.pc == Sleeping && trace[0].sleepFails then 1 else 0)
      + Interruptions(Step(s, trace[0]), trace[1..])
  }

  function SleepsOver(s: State, trace: seq<Event>): nat
    decreases |trace|
  {
    if trace == [] then 0
    else
      (if trace[0].Run? && (if s.pc == Sleeping then !trace[0].sleepFails else s.pc == CheckDone && trace[0].overdue)
       then 1 else 0)
      + SleepsOver(Step(s, trace[0]), trace[1..])
  }

  function Overdue(s: State, trace: seq<Event>): nat
    decreases |trace|
  {
    if trace == [] then 0
    else
      (if trace[0].Run? && s.pc == CheckDone && trace[0].overdue then 1 else 0) + Overdue(Step(s, trace[0]), trace[1..])
  }

  predicate SkipsSleep(s: State) {
    s.pc == SleepTest && s.negative
  }

  /** A printstatus that the program owes: for an interruption or the end of a sleep. */
  function PrintOwed(s: State): nat {
    if s.pc in {ReturnTest, ErrnoTest, DoneTest, Reprint, FailTest, LoopTest, Tick} || SkipsSleep(s) then 1 else 0
  }

  /** A nanosleep that it owes after a printstatus. */
  function SleepOwed(s: State): nat {
    if s.pc in {Printing, CheckDone, SleepTest, Reprinting, Clear} && !SkipsSleep(s) then 1 else 0
  }

  /** A program that nobody disturbs runs on, and starts exactly one printstatus for every interruption and one
      for every end of a sleep, and one nanosleep (or none, if the pass took too long) after every
      printstatus. */
  lemma {:induction false} PrintsAddUp(s: State, trace: seq<Event>)
    requires Running(s) && Undisturbed(s, trace)
    ensures Running(After(s, trace))
    ensures Prints(s, trace) + PrintOwed(After(s, trace))
      == Interruptions(s, trace) + SleepsOver(s, trace) + PrintOwed(s)
    ensures Sleeps(s, trace) + Overdue(s, trace) + SleepOwed(After(s, trace)) == Prints(s, trace) + SleepOwed(s)
    decreases |trace|
  {
    if trace != [] {
      RunsOn(s, trace);
      PrintsAddUp(Step(s, trace[0]), trace[1..]);
    }
  }

  /** Program steps to the start of the next printstatus. */
  function Wait(pc: Pc): (n: nat)
    ensures n <= 9
  {
    match pc
    case Tick => 1
    case LoopTest => 2
    case FailTest => 3
    case Reprint => 1
    case DoneTest => 2
    case ErrnoTest => 3
    case ReturnTest => 4
    case Sleeping => 5
    case SleepTest => 6
    case CheckDone => 7
    case Printing => 8
    case Clear => 7
    case Reprinting => 8
    case Exited => 0
    case Died => 0
  }

  /** Nor does it stall: wherever it is, nine steps of its own start another printstatus. */
  lemma {:induction false} NextPrint(s: State, trace: seq<Event>)
    requires Running(s) && Undisturbed(s, trace) && Runs(trace) >= Wait(s.pc)
    ensures Prints(s, trace) >= 1
    decreases |trace|
  {
    if trace != [] {
      RunsOn(s, trace);
      if !(trace[0].Run? && s.pc in {Tick, Reprint}) {
        NextPrint(Step(s, trace[0]), trace[1..]);
      }
    }
  }

  /** After an interrupted nanosleep the program prints before it sleeps again. */
  lemma {:induction false} PrintsBeforeSleep(s: State, trace: seq<Event>)
    requires Running(s) && Undisturbed(s, trace)
    requires s.failed && s.pc in {ReturnTest, ErrnoTest, DoneTest, Reprint}
    requires Prints(s, trace) == 0
    ensures Sleeps(s, trace) == 0
    ensures s.failed && After(s, trace).pc in {ReturnTest, ErrnoTest, DoneTest, Reprint}
    decreases |trace|
  {
    if trace != [] {
      RunsOn(s, trace);
      PrintsBeforeSleep(Step(s, trace[0]), trace[1..]);
    }
  }

  /** Once done is set the program leaves by the end of the loop, unless a signal strikes. */
  lemma DoneExits(s: State, trace: seq<Event>)
    requires s.done && Sane(s) && !Doomed(s) && OnlyInterrupted(trace) && !Struck(s, trace)
    requires Runs(trace) >= Rank(s.pc)
    ensures After(s, trace).pc == Exited
  {
    DoneStops(s, trace);
    DoomedIffStruck(s, trace);
  }

  /** With -1 the program prints once, never sleeps, and leaves: done is set from the start. */
  lemma OncePrints(trace: seq<Event>)
    requires Runs(trace) >= 4
    ensures var s := START.(done := true);
      Prints(s, trace) == 1 && Sleeps(s, trace) == 0 && After(s, trace).pc == Exited
  {
    var s := START.(done := true);
    DoneStops(s, trace);
    OnceSteps(s, trace);
  }

  lemma {:induction false} OnceSteps(s: State, trace: seq<Event>)
    requires s.done && !s.failed && s.pc in {Tick, Printing, CheckDone, LoopTest, Exited}
    ensures !After(s, trace).failed && After(s, trace).pc in {Tick, Printing, CheckDone, LoopTest, Exited}
    ensures s.pc == Tick && Runs(trace) >= 1 ==> Prints(s, trace) >= 1
    decreases |trace|
  {
    if trace != [] {
      OnceSteps(Step(s, trace[0]), trace[1..]);
    }
  }
}
