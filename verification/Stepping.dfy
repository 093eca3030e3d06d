/**
 * The run loop of `emu_cont` against single steps, for any machine: `step` executes one
 * instruction, `why` gives the reason not to run one, `done` is looked at after each.
 */
module Stepping {
  import opened Bytes

  /** `Wild` is undefined behaviour; `ok` is false for an instruction that is not implemented. */
  datatype Outcome<M> = Wild | Ran(m: M, ok: bool)

  datatype Stop<R> = NotRun(reason: R) | Halted | BadInstruction | ToHost | WildAccess

  /** How a run ends: the machine, the instructions executed, and why. */
  datatype Ended<M, R> = Ended(m: M, steps: nat, stop: Stop<R>)

  /** The loop, when the halt flag is seen set after `budget` rounds. */
  function Continue<M, R>(step: M -> Outcome<M>, why: M -> Option<R>, done: M -> bool, m: M, budget: nat): Ended<M, R>
    decreases budget
  {
    if why(m).Some? then Ended(m, 0, NotRun(why(m).value))
    else if budget == 0 then Ended(m, 0, Halted)
    else
      match step(m)
      case Wild => Ended(m, 0, WildAccess)
      case Ran(r, ok) =>
        if !ok then Ended(r, 1, BadInstruction)
        else if done(r) then Ended(r, 1, ToHost)
        else
          var e := Continue(step, why, done, r, budget - 1);
          e.(steps := e.steps + 1)
  }

  /** `n` single steps; `None` if one of them goes wild. */
  function StepMany<M>(step: M -> Outcome<M>, m: M, n: nat): Option<M>
    decreases n
  {
    if n == 0 then Some(m)
    else if step(m).Wild? then None
    else StepMany(step, step(m).m, n - 1)
  }

  /** The first `n` rounds from `m` run, succeed, and give no reason to stop after them. */
  ghost predicate GoesOn<M, R>(step: M -> Outcome<M>, why: M -> Option<R>, done: M -> bool, m: M, n: nat)
    decreases n
  {
    n == 0 ||
    (why(m).None? && step(m).Ran? && step(m).ok && !done(step(m).m) && GoesOn(step, why, done, step(m).m, n - 1))
  }

  /** All rounds before the last went on; the last one ran and gave the reason. */
  ghost predicate LastRound<M, R>(step: M -> Outcome<M>, why: M -> Option<R>, done: M -> bool, m: M,
                                  e: Ended<M, R>, ok: bool)
  {
    && e.steps > 0 && GoesOn(step, why, done, m, e.steps - 1)
    && var before := StepMany(step, m, e.steps - 1);
       before.Some? && why(before.value).None? && step(before.value).Ran? && step(before.value).m == e.m
       && step(before.value).ok == ok && (ok ==> done(e.m))
  }

  /** The run stopped for the reason it gives, and there was none before. */
  ghost predicate StopsRightly<M, R>(step: M -> Outcome<M>, why: M -> Option<R>, done: M -> bool, m: M,
                                     budget: nat, e: Ended<M, R>)
  {
    match e.stop
    case NotRun(r) => why(e.m).Some? && why(e.m).value == r && GoesOn(step, why, done, m, e.steps)
    case Halted => why(e.m).None? && e.steps == budget && GoesOn(step, why, done, m, e.steps)
    case WildAccess => why(e.m).None? && step(e.m).Wild? && e.steps < budget && GoesOn(step, why, done, m, e.steps)
    case BadInstruction => LastRound(step, why, done, m, e, false)
    case ToHost => LastRound(step, why, done, m, e, true)
  }

  /** A run that ends has done what that many single steps do, and has stopped rightly. */
  lemma {:induction false} ContinueIsSteps<M, R>(step: M -> Outcome<M>, why: M -> Option<R>, done: M -> bool, m: M,
                                                 budget: nat)
    ensures var e := Continue(step, why, done, m, budget);
      && e.steps <= budget
      && StepMany(step, m, e.steps) == Some(e.m)
      && StopsRightly(step, why, done, m, budget, e)
    decreases budget
  {
    if why(m).None? && budget > 0 && step(m).Ran? {
      var r := step(m).m;
      if step(m).ok && !done(r) {
        ContinueIsSteps(step, why, done, r, budget - 1);
      } else {
        assert StepMany(step, r, 0) == Some(r) && StepMany(step, m, 0) == Some(m);
      }
    }
  }

  /** A run has only one right end: these facts determine how many steps it takes, where it ends and why. */
  lemma {:induction false} RightEndUnique<M, R>(step: M -> Outcome<M>, why: M -> Option<R>, done: M -> bool,
                                                m: M, budget: nat, e: Ended<M, R>)
    requires e.steps <= budget && StepMany(step, m, e.steps) == Some(e.m)
    requires StopsRightly(step, why, done, m, budget, e)
    ensures e == Continue(step, why, done, m, budget)
    decreases budget
  {
    if e.steps > 0 {
      var r := step(m).m;
      if e.steps == 1 && (e.stop == BadInstruction || e.stop == ToHost) {
        assert StepMany(step, m, 0) == Some(m);
      } else {
        var e' := e.(steps := e.steps - 1);
        RightEndUnique(step, why, done, r, budget - 1, e');
      }
    }
  }

  /** How long the flag takes does not change where an uninterrupted run ends. */
  lemma {:induction false} ContinueStable<M, R>(step: M -> Outcome<M>, why: M -> Option<R>, done: M -> bool,
                                                m: M, budget: nat, longer: nat)
    requires budget <= longer && Continue(step, why, done, m, budget).stop != Halted
    ensures Continue(step, why, done, m, longer) == Continue(step, why, done, m, budget)
    decreases budget
  {
    if why(m).None? && budget > 0 && step(m).Ran? && step(m).ok && !done(step(m).m) {
      ContinueStable(step, why, done, step(m).m, budget - 1, longer - 1);
    }
  }

  /** One more round of a run that has gone on for `n`. */
  lemma {:induction false} ContinueAfter<M, R>(step: M -> Outcome<M>, why: M -> Option<R>, done: M -> bool,
                                               m: M, n: nat, cur: M, budget: nat)
    requires n <= budget && GoesOn(step, why, done, m, n) && StepMany(step, m, n) == Some(cur)
    ensures var e := Continue(step, why, done, cur, budget - n);
      Continue(step, why, done, m, budget) == e.(steps := e.steps + n)
    decreases n
  {
    if n > 0 {
      ContinueAfter(step, why, done, step(m).m, n - 1, cur, budget - 1);
    }
  }

  lemma {:induction false} GoesOnSnoc<M, R>(step: M -> Outcome<M>, why: M -> Option<R>, done: M -> bool, m: M,
                                            n: nat, cur: M)
    requires GoesOn(step, why, done, m, n) && StepMany(step, m, n) == Some(cur)
    requires why(cur).None? && step(cur).Ran? && step(cur).ok && !done(step(cur).m)
    ensures GoesOn(step, why, done, m, n + 1) && StepMany(step, m, n + 1) == Some(step(cur).m)
    decreases n
  {
    if n > 0 {
      GoesOnSnoc(step, why, done, step(m).m, n - 1, cur);
    } else {
      assert StepMany(step, step(cur).m, 0) == Some(step(cur).m);
      assert GoesOn(step, why, done, step(cur).m, 0);
    }
  }

  // ---------------------------------------------------------------- what a run comes by

  /** Within `budget` rounds the run comes by a machine that is `good`. */
  ghost predicate Visits<M(!new), R>(step: M -> Outcome<M>, why: M -> Option<R>, done: M -> bool, m: M, budget: nat,
                                     good: M -> bool)
  {
    exists n: nat, x: M :: n <= budget && GoesOn(step, why, done, m, n) && StepMany(step, m, n) == Some(x) && good(x)
  }

  /** Round by round: now, or after one more. */
  lemma VisitsStep<M(!new), R>(step: M -> Outcome<M>, why: M -> Option<R>, done: M -> bool, m: M, budget: nat,
                               good: M -> bool)
    ensures Visits(step, why, done, m, budget, good) <==>
      || good(m)
      || (budget > 0 && why(m).None? && step(m).Ran? && step(m).ok && !done(step(m).m)
          && Visits(step, why, done, step(m).m, budget - 1, good))
  {
    assert GoesOn(step, why, done, m, 0) && StepMany(step, m, 0) == Some(m);
    if n: nat, x: M :| n <= budget && GoesOn(step, why, done, m, n) && StepMany(step, m, n) == Some(x) && good(x) {
      if n > 0 {
        assert GoesOn(step, why, done, step(m).m, n - 1) && StepMany(step, step(m).m, n - 1) == Some(x);
      }
    }
    if budget > 0 && why(m).None? && step(m).Ran? && step(m).ok && !done(step(m).m)
       && Visits(step, why, done, step(m).m, budget - 1, good) {
      var n: nat, x: M :| n <= budget - 1 && GoesOn(step, why, done, step(m).m, n)
                          && StepMany(step, step(m).m, n) == Some(x) && good(x);
      assert GoesOn(step, why, done, m, n + 1) && StepMany(step, m, n + 1) == Some(x);
    }
  }

  /** A run is stopped for a reason exactly when it comes by a machine that has it. */
  lemma StopsIfVisits<M(!new), R(!new)>(step: M -> Outcome<M>, why: M -> Option<R>, done: M -> bool, m: M, budget: nat,
                                        r: R)
    ensures Continue(step, why, done, m, budget).stop == NotRun(r)
      <==> exists n: nat, x: M :: n <= budget && GoesOn(step, why, done, m, n)
                                   && StepMany(step, m, n) == Some(x) && why(x) == Some(r)
  {
    var e := Continue(step, why, done, m, budget);
    ContinueIsSteps(step, why, done, m, budget);
    if e.stop == NotRun(r) {
      assert GoesOn(step, why, done, m, e.steps) && StepMany(step, m, e.steps) == Some(e.m);
    }
    if n: nat, x: M :| n <= budget && GoesOn(step, why, done, m, n)
                       && StepMany(step, m, n) == Some(x) && why(x) == Some(r) {
      RightEndUnique(step, why, done, m, budget, Ended(x, n, NotRun(r)));
    }
  }
}
