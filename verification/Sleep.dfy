/** Time arithmetic and the restartable sleep. */
module Sleep {
  class Timespec {
    var sec: int
    var nsec: int

    constructor (sec: int, nsec: int)
      ensures this.sec == sec && this.nsec == nsec
    {
      this.sec, this.nsec := sec, nsec;
    }

    ghost predicate Normal()
      reads this
    {
      0 <= nsec < 1_000_000_000
    }

    function Total(): int
      reads this
    {
      sec * 1_000_000_000 + nsec
    }
  }

  /** difftimespec */
  method DiffTimespec(res: Timespec, a: Timespec, b: Timespec)
    requires a.Normal() && b.Normal() && res != a && res != b
    modifies res
    ensures res.Normal() && res.Total() == a.Total() - b.Total()
  {
    var borrow := if a.nsec < b.nsec then 1 else 0;
    res.sec := a.sec - b.sec - borrow;
    res.nsec := a.nsec - b.nsec + borrow * 1_000_000_000;
  }

  /** The loop's test: a normal time is negative exactly when its seconds are. */
  method StillWaiting(t: Timespec) returns (b: bool)
    requires t.Normal()
    ensures b <==> t.Total() >= 0
  {
    b := t.sec >= 0;
  }

  /** An interrupted nanosleep(&wait, &wait): the time slept is taken off, normalised. */
  method Interrupted(wait: Timespec, slept: nat)
    requires wait.Normal() && slept <= wait.Total()
    modifies wait
    ensures wait.Normal() && wait.Total() == old(wait.Total()) - slept
  {
    var left := wait.sec * 1_000_000_000 + wait.nsec - slept;
    wait.sec, wait.nsec := left / 1_000_000_000, left % 1_000_000_000;
  }

  method IntervalSpec(interval: nat) returns (t: Timespec)
    ensures fresh(t) && t.Normal() && t.Total() == interval * 1_000_000
  {
    t := new Timespec(interval / 1000, interval % 1000 * 1_000_000);
  }

  function Sum(s: seq<nat>): nat {
    if s == [] then 0 else Sum(s[..|s| - 1]) + s[|s| - 1]
  }

  lemma {:induction false} SumPrefix(s: seq<nat>, i: nat)
    requires i <= |s|
    ensures Sum(s[..i]) <= Sum(s)
    decreases |s| - i
  {
    if i < |s| {
      SumPrefix(s, i + 1);
      assert s[..i + 1][..i] == s[..i];
    } else {
      assert s[..i] == s;
    }
  }

  /** The restart loop.  The n-th interrupted nanosleep lasts interrupted[n] and stores what is left; the
      one after the last interruption runs to its end.  None of the signals sets done. */
  method Restart(wait: Timespec, interrupted: seq<nat>) returns (slept: seq<nat>)
    requires wait.Normal() && (wait.Total() >= 0 ==> Sum(interrupted) <= wait.Total())
    modifies wait
    ensures if old(wait.Total()) < 0 then slept == []
      else Sum(slept) == old(wait.Total()) && |slept| == |interrupted| + 1
  {
    slept := [];
    ghost var rest, total := wait.Total(), wait.Total();
    var more := StillWaiting(wait);
    while more
      invariant wait.Normal() && wait.Total() == rest && (more <==> rest >= 0)
      invariant total < 0 ==> slept == [] && rest == total
      invariant total >= 0 ==> |slept| <= |interrupted| && slept == interrupted[..|slept|] && rest == total - Sum(slept)
      invariant total >= 0 ==> rest >= 0
      decreases |interrupted| - |slept|
    {
      var n := |slept|;
      if n == |interrupted| {
        slept := slept + [wait.Total()];
        assert slept[..n] == interrupted;
        return;
      }
      SumStep(interrupted, n);
      Interrupted(wait, interrupted[n]);
      rest := rest - interrupted[n];
      slept := slept + [interrupted[n]];
      more := StillWaiting(wait);
    }
  }

  lemma SumStep(s: seq<nat>, n: nat)
    requires n < |s|
    ensures s[..n] + [s[n]] == s[..n + 1] && Sum(s[..n + 1]) == Sum(s[..n]) + s[n] <= Sum(s)
  {
    LastStep(s[..n + 1], s[..n], s[n]);
    SumPrefix(s, n + 1);
  }

  lemma LastStep(t: seq<nat>, u: seq<nat>, x: nat)
    requires t == u + [x]
    ensures Sum(t) == Sum(u) + x
  {
    assert t[..|t| - 1] == u;
  }

  /** The sleep of one pass: the pieces add up to exactly the interval less the time the pass took, and
      there is no sleep exactly when the pass took longer than the interval. */
  method SleepPass(interval: nat, start: Timespec, current: Timespec, interrupted: seq<nat>)
    returns (slept: seq<nat>)
    requires start.Normal() && current.Normal()
    requires var rest := interval * 1_000_000 - (current.Total() - start.Total());
      rest >= 0 ==> Sum(interrupted) <= rest
    ensures var rest := interval * 1_000_000 - (current.Total() - start.Total());
      if rest < 0 then slept == [] else Sum(slept) == rest && |slept| == |interrupted| + 1
  {
    var diff := new Timespec(0, 0);
    DiffTimespec(diff, current, start);
    var intspec := IntervalSpec(interval);
    var wait := new Timespec(0, 0);
    DiffTimespec(wait, intspec, diff);
    slept := Restart(wait, interrupted);
  }
}
