/**
 * The control flow of a counted instruction: the iterations it makes, one single-step at a time, and
 * what happens when it is run to its end with another counter. What an iteration does is left open.
 */
module RepLoops {
  import opened Words

  /**
   * An instruction at `at`, followed by the one at `limit`. `body` is the effect of an iteration on
   * everything but the instruction pointer and the counter; `exits` tells if it ends the loop early.
   */
  datatype RepLoop<!D(!new)> = RepLoop(at: u64, limit: u64, body: D -> D, exits: D -> bool)

  datatype Cpu<D> = Cpu(ip: u64, cx: u64, data: D)

  /** One single-step; a processor that has left the instruction stays where it is. */
  function Step<D(!new)>(x: RepLoop<D>, c: Cpu<D>): Cpu<D> {
    if c.ip != x.at then c
    else if c.cx == 0 then c.(ip := x.limit)
    else
      var d := x.body(c.data);
      Cpu(if c.cx == 1 || x.exits(d) then x.limit else x.at, c.cx - 1, d)
  }

  function Steps<D(!new)>(x: RepLoop<D>, c: Cpu<D>, n: nat): Cpu<D> {
    if n == 0 then c else Step(x, Steps(x, c, n - 1))
  }

  /** Runs until the instruction is left, as a resumed tracee does with a breakpoint behind it. */
  function RunToLimit<D(!new)>(x: RepLoop<D>, c: Cpu<D>): (r: Cpu<D>)
    requires x.limit != x.at
    ensures r.cx <= c.cx
    decreases c.cx + if c.ip == x.at then 1 else 0
  {
    if c.ip != x.at then c else RunToLimit(x, Step(x, c))
  }

  // ----- A run with a doctored counter

  lemma {:induction false} StepsFromNext<D(!new)>(x: RepLoop<D>, c: Cpu<D>, n: nat)
    ensures Steps(x, Step(x, c), n) == Steps(x, c, n + 1)
  {
    if n > 0 {
      StepsFromNext(x, c, n - 1);
    }
  }

  lemma {:induction false} StepsRunToLimit<D(!new)>(x: RepLoop<D>, c: Cpu<D>, n: nat)
    requires x.limit != x.at && Steps(x, c, n).ip != x.at
    ensures RunToLimit(x, c) == Steps(x, c, n)
    decreases n
  {
    if c.ip != x.at {
      StaysPut(x, c, n);
    } else {
      StepsFromNext(x, c, n - 1);
      StepsRunToLimit(x, Step(x, c), n - 1);
    }
  }

  lemma {:induction false} StaysPut<D(!new)>(x: RepLoop<D>, c: Cpu<D>, n: nat)
    requires c.ip != x.at
    ensures Steps(x, c, n) == c
  {
    if n > 0 {
      StaysPut(x, c, n - 1);
    }
  }

  /** While the instruction lasts, each step counts down and the steps do not depend on the counter. */
  lemma {:induction false} DoctoredSteps<D(!new)>(x: RepLoop<D>, c: Cpu<D>, n: u64, i: nat)
    requires c.ip == x.at && i < n <= c.cx
    requires Steps(x, c, i).ip == x.at
    ensures Steps(x, c, i).cx == c.cx - i
    ensures Steps(x, c.(cx := n), i) == Steps(x, c, i).(cx := n - i)
  {
    if i > 0 {
      DoctoredSteps(x, c, n, i - 1);
    }
  }

  /** How many of the first `n` iterations end inside the instruction. */
  function Stays<D(!new)>(x: RepLoop<D>, c: Cpu<D>, n: nat): (s: nat)
    ensures s <= n
    ensures s == 0 || Steps(x, c, s).ip == x.at
    ensures s < n ==> Steps(x, c, s + 1).ip != x.at
  {
    if n == 0 || Steps(x, c, n).ip == x.at then n else Stays(x, c, n - 1)
  }

  /** The instruction is left for good. */
  lemma {:induction false} LeavesOnce<D(!new)>(x: RepLoop<D>, c: Cpu<D>, i: nat, n: nat)
    requires i <= n && Steps(x, c, n).ip == x.at
    ensures Steps(x, c, i).ip == x.at
    decreases n
  {
    if i < n {
      LeavesOnce(x, c, i, n - 1);
    }
  }

  lemma DoctoredStep<D(!new)>(x: RepLoop<D>, c: Cpu<D>, k: u64)
    requires c.ip == x.at && c.cx >= 2 && k >= 1
    ensures Step(x, c.(cx := k)) == Cpu(if k == 1 then x.limit else Step(x, c).ip, k - 1, Step(x, c).data)
    ensures Step(x, c).cx == c.cx - 1
    ensures Step(x, c).ip != x.at ==> Step(x, c).ip == x.limit
  {
  }

  /** The run of `n` iterations ends after `i + 1` of them if all but the last stay in the instruction. */
  lemma DoctoredRunOf<D(!new)>(x: RepLoop<D>, c: Cpu<D>, n: u64, i: nat)
    requires x.limit != x.at && c.ip == x.at && i < n < c.cx
    requires Steps(x, c, i).ip == x.at && (i + 1 == n || Steps(x, c, i + 1).ip != x.at)
    ensures RunToLimit(x, c.(cx := n)) == Cpu(x.limit, n - i - 1, Steps(x, c, i + 1).data)
    ensures Steps(x, c, i + 1).cx == c.cx - i - 1
    ensures Steps(x, c, i + 1).ip != x.at ==> Steps(x, c, i + 1).ip == x.limit
  {
    DoctoredSteps(x, c, n, i);
    var before := Steps(x, c, i);
    DoctoredStep(x, before, n - i);
    var last := Step(x, before.(cx := n - i));
    assert Steps(x, c.(cx := n), i + 1) == last;
    StepsRunToLimit(x, c.(cx := n), i + 1);
  }

  /**
   * One run with the counter set to `n`. Unless the flags end it before, it ends after `n` iterations
   * in the data state of `n` single-steps; an earlier exit shows as a counter left above 0.
   */
  lemma DoctoredRun<D(!new)>(x: RepLoop<D>, c: Cpu<D>, n: u64)
    requires x.limit != x.at && c.ip == x.at && 1 <= n < c.cx
    ensures
      var s, done := Stays(x, c, n), RunToLimit(x, c.(cx := n));
      if s == n then done == Cpu(x.limit, 0, Steps(x, c, n).data) && Steps(x, c, n).cx == c.cx - n
      else done == Steps(x, c, s + 1).(cx := n - s - 1) && Steps(x, c, s + 1).ip == x.limit
           && Steps(x, c, s + 1).cx == c.cx - s - 1
  {
    var s := Stays(x, c, n);
    if s == n {
      LeavesOnce(x, c, n - 1, n);
      DoctoredRunOf(x, c, n, n - 1);
    } else {
      DoctoredRunOf(x, c, n, s);
    }
  }

  // ----- Fast-forwarding with a bound on the iterations

  /** The flags end the loop exactly on the last iteration the bound permits. */
  ghost predicate FlagExitOnLast<D(!new)>(x: RepLoop<D>, c: Cpu<D>, n: nat) {
    Stays(x, c, n) + 1 == n
  }

  /** The state that fast-forwarding with bound `n` leaves. */
  ghost function FastForwarded<D(!new)>(x: RepLoop<D>, c: Cpu<D>, n: nat): Cpu<D> {
    if FlagExitOnLast(x, c, n) then Steps(x, c, n).(ip := x.at) else Steps(x, c, Stays(x, c, n))
  }

  lemma {:induction false} CountedStays<D(!new)>(x: RepLoop<D>, c: Cpu<D>, n: nat)
    requires forall d :: !x.exits(d)
    requires c.ip == x.at && n < c.cx
    ensures Steps(x, c, n).ip == x.at && Steps(x, c, n).cx == c.cx - n
  {
    if n > 0 {
      CountedStays(x, c, n - 1);
    }
  }

  /** What every iteration keeps holds of the data while the instruction lasts. */
  lemma {:induction false} KeptAlong<D(!new)>(x: RepLoop<D>, c: Cpu<D>, inv: (nat, D) -> bool, i: nat)
    requires inv(0, c.data) && forall k: nat, d :: inv(k, d) ==> inv(k + 1, x.body(d))
    requires c.ip == x.at && i < c.cx && Steps(x, c, i).ip == x.at
    ensures inv(i, Steps(x, c, i).data) && Steps(x, c, i).cx == c.cx - i
  {
    if i > 0 {
      KeptAlong(x, c, inv, i - 1);
    }
  }

  /** Iteration `i`, unless it is the last by the counter, leaves the instruction just when `ends(i)`. */
  ghost predicate DecidedBy<D(!new)>(x: RepLoop<D>, c: Cpu<D>, ends: nat -> bool) {
    forall i: nat :: i + 1 < c.cx && Steps(x, c, i).ip == x.at ==> (Steps(x, c, i + 1).ip == x.at <==> !ends(i))
  }

  lemma {:induction false} StaysIff<D(!new)>(x: RepLoop<D>, c: Cpu<D>, ends: nat -> bool, n: nat)
    requires DecidedBy(x, c, ends) && c.ip == x.at && n < c.cx
    ensures Steps(x, c, n).ip == x.at <==> forall i: nat :: i < n ==> !ends(i)
  {
    if n > 0 {
      StaysIff(x, c, ends, n - 1);
      if Steps(x, c, n - 1).ip == x.at {
        assert Steps(x, c, n).ip == x.at <==> !ends(n - 1);
      }
    }
  }

  lemma LastIff<D(!new)>(x: RepLoop<D>, c: Cpu<D>, n: nat)
    requires c.ip == x.at
    ensures FlagExitOnLast(x, c, n) <==> n > 0 && Steps(x, c, n - 1).ip == x.at && Steps(x, c, n).ip != x.at
  {
    if n > 0 && Steps(x, c, n).ip != x.at {
      assert Stays(x, c, n) == Stays(x, c, n - 1);
    }
  }

  /** The last permitted iteration ends the loop and none before it does. */
  lemma FlagExitOnLastWhen<D(!new)>(x: RepLoop<D>, c: Cpu<D>, ends: nat -> bool, n: nat)
    requires DecidedBy(x, c, ends) && c.ip == x.at && n < c.cx
    ensures FlagExitOnLast(x, c, n) <==> n > 0 && ends(n - 1) && forall i: nat :: i < n - 1 ==> !ends(i)
  {
    LastIff(x, c, n);
    if n > 0 {
      StaysIff(x, c, ends, n - 1);
      if Steps(x, c, n - 1).ip == x.at {
        assert Steps(x, c, n).ip == x.at <==> !ends(n - 1);
      }
    }
  }

  /** The state reached by a flag exit on the last permitted iteration is none that single-stepping passes. */
  lemma NotReached<D(!new)>(x: RepLoop<D>, c: Cpu<D>, n: nat, k: nat)
    requires x.limit != x.at && c.ip == x.at && n < c.cx && FlagExitOnLast(x, c, n)
    ensures FastForwarded(x, c, n) != Steps(x, c, k)
  {
    if Steps(x, c, k).ip == x.at {
      if k >= n {
        LeavesOnce(x, c, n, k);
      } else {
        DoctoredSteps(x, c, c.cx, k);
        DoctoredRun(x, c, n);
      }
    }
  }

  /**
   * Fast-forwarding is single-stepping, exactly unless the flags end the loop on the last permitted
   * iteration. It stops where the instruction still has an iteration to go: after the bound, or just
   * before the iteration with which the flags end the loop.
   */
  lemma RefinesSingleStepping<D(!new)>(x: RepLoop<D>, c: Cpu<D>, n: nat)
    requires x.limit != x.at && c.ip == x.at && n < c.cx
    ensures
      var s, f := Stays(x, c, n), FastForwarded(x, c, n);
      && f.ip == x.at && f.cx > 0
      && (!FlagExitOnLast(x, c, n) <==> exists k: nat :: f == Steps(x, c, k))
      && (!FlagExitOnLast(x, c, n) ==> f == Steps(x, c, s) && (s == n || Steps(x, c, s + 1).ip == x.limit))
      && ((forall d :: !x.exits(d)) ==> s == n)
  {
    var s := Stays(x, c, n);
    if forall d :: !x.exits(d) {
      CountedStays(x, c, n);
    }
    DoctoredSteps(x, c, c.cx, s);
    if s < n {
      DoctoredRun(x, c, n);
    }
    if FlagExitOnLast(x, c, n) {
      forall k: nat ensures FastForwarded(x, c, n) != Steps(x, c, k) {
        NotReached(x, c, n, k);
      }
    }
  }

  /**
   * A first run with the full bound, or the rerun that stops just before the exit of the first: only
   * the first can leave the counter above 0, and otherwise undoing the change to the counter gives
   * the fast-forwarded state.
   */
  lemma RunOutcome<D(!new)>(x: RepLoop<D>, c: Cpu<D>, n: nat, m: nat)
    requires x.limit != x.at && c.ip == x.at && 1 <= m <= n < c.cx
    requires m == n || (m == Stays(x, c, n) && m + 1 < n)
    ensures
      var s, done := Stays(x, c, n), RunToLimit(x, c.(cx := m));
      if done.cx > 0 then
        && m == n && s + 1 < n && done.cx == n - s - 1
        && Steps(x, c, s + 1) == Cpu(x.limit, c.cx - s - 1, done.data)
        && exists d :: x.exits(d)
      else Cpu(x.at, c.cx - m, done.data) == FastForwarded(x, c, n)
  {
    var s := Stays(x, c, n);
    DoctoredRun(x, c, m);
    if m == n && s < n && !(exists d :: x.exits(d)) {
      CountedStays(x, c, n);
    }
  }
}
