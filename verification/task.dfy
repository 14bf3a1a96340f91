/**
 * CoroutineTask of Coroutines_20 and Coroutines_24: a lazily started coroutine without a
 * value channel whose body suspends with co_await, a resume() that reports whether there is
 * still something to process, and final_suspend = suspend_always so that the frame stays
 * until the destructor destroys it. The task is neither copyable nor movable.
 */
module Task {
  import opened Wrappers
  import opened Coroutine
  import Views
  import Bodies

  /**
   * The awaitables used in a co_await: the two trivial ones of <coroutine> and the Awaiter
   * class of Coroutines_24.
   */
  datatype Awaitable = AlwaysAwaitable | NeverAwaitable | CustomAwaiter

  /** await_ready(): only suspend_never is ready; the custom Awaiter returns false. */
  function AwaitReady(a: Awaitable): bool
  {
    match a
    case AlwaysAwaitable => false
    case NeverAwaitable => true
    case CustomAwaiter => false
  }

  /**
   * Whether `co_await a` suspends: when the awaitable is not ready, a void await_suspend
   * (all three have one) always suspends.
   */
  predicate Suspends(a: Awaitable) { !AwaitReady(a) }

  /**
   * coroutine(max) of both files: `for (val = 1; val <= max; ++val) co_await a;`, then
   * falling off the end (return_void). Each iteration is a suspension point iff a suspends.
   */
  function AwaitLoop(max: int, a: Awaitable): Body<(), ()>
  {
    Finite(if Suspends(a) then Views.Map(_ => (), Bodies.CountingLoop(1, max + 1)) else [], ())
  }

  /** coroutine(max) of Coroutines_20 (co_await std::suspend_always{}). */
  function CoroutineMax(max: int): Body<(), ()> { AwaitLoop(max, AlwaysAwaitable) }

  /**
   * `co_await Awaiter{}` behaves as `co_await std::suspend_always{}`, so coroutine(max) of
   * Coroutines_24 suspends exactly where the one of Coroutines_20 does: once per iteration.
   */
  lemma AwaiterActsLikeSuspendAlways(max: int)
    ensures Suspends(CustomAwaiter) == Suspends(AlwaysAwaitable)
    ensures AwaitLoop(max, CustomAwaiter) == CoroutineMax(max)
    ensures |CoroutineMax(max).values| == if max > 0 then max else 0
    ensures |AwaitLoop(max, NeverAwaitable).values| == 0
  {
  }

  /** The task object; the handle of these classes is never empty in the examples. */
  datatype TaskObj = TaskObj(handle: Option<Frame<(), ()>>)

  ghost predicate Inv(t: TaskObj) {
    t.handle.Some? ==> Valid(t.handle.value) && t.handle.value.final == SuspendAlways && t.handle.value.pc != Released
  }

  /** The coroutine call: initial_suspend returns suspend_always, so no statement of the body has run. */
  function Call(b: Body<(), ()>): (t: TaskObj)
    ensures Inv(t) && t.handle.Some? && t.handle.value.body == b
    ensures t.handle.value.pc == Initial && Progress(t.handle.value) == 0
  {
    TaskObj(Some(Create(b, SuspendAlways)))
  }

  /**
   * CoroutineTask::resume(): false, doing nothing, on an empty handle or a finished coroutine;
   * otherwise resume once and report whether the coroutine has not finished.
   */
  function ResumeTask(t: TaskObj): (r: (TaskObj, bool))
    requires Inv(t)
    ensures Inv(r.0) && (r.0.handle.Some? <==> t.handle.Some?)
    ensures t.handle.None? || Done(t.handle.value) ==> r == (t, false)
    ensures t.handle.Some? && !Done(t.handle.value) ==>
      r.0.handle.value.body == t.handle.value.body &&
      Progress(r.0.handle.value) == Progress(t.handle.value) + 1 &&
      (r.1 <==> HasPoint(t.handle.value.body, Progress(t.handle.value)))
  {
    if t.handle.None? || Done(t.handle.value) then (t, false)
    else
      var (f, _) := Resume(t.handle.value);
      (TaskObj(Some(f)), !Done(f))
  }

  /** n calls of resume() in a row, and what each returned. */
  function ResumeTimes(t: TaskObj, n: nat): (r: (TaskObj, seq<bool>))
    requires Inv(t)
    ensures Inv(r.0) && |r.1| == n
    decreases n
  {
    if n == 0 then (t, [])
    else
      var (u, x) := ResumeTask(t);
      var (v, xs) := ResumeTimes(u, n - 1);
      (v, [x] + xs)
  }

  /** A task of a finite body, resumed n times: the i-th call reports whether a suspension point remained. */
  lemma {:induction false} ResumeTimesReports(t: TaskObj, n: nat)
    requires Inv(t) && t.handle.Some? && t.handle.value.body.Finite?
    ensures ResumeTimes(t, n).0.handle.Some?
    ensures ResumeTimes(t, n).0.handle.value.body == t.handle.value.body
    ensures forall i :: 0 <= i < n ==>
      ResumeTimes(t, n).1[i] == (Progress(t.handle.value) + i < |t.handle.value.body.values|)
    ensures Progress(t.handle.value) + n > |t.handle.value.body.values| ==> Done(ResumeTimes(t, n).0.handle.value)
    decreases n
  {
    var f := t.handle.value;
    if n > 0 {
      var (u, x) := ResumeTask(t);
      if Done(f) {
        assert Progress(f) == |f.body.values| + 1;
      } else {
        assert Progress(f) <= |f.body.values|;
      }
      assert x == (Progress(f) < |f.body.values|);
      assert Done(f) ==> u == t;
      assert !Done(f) ==> Progress(u.handle.value) == Progress(f) + 1;
      ResumeTimesReports(u, n - 1);
      assert ResumeTimes(t, n).1 == [x] + ResumeTimes(u, n - 1).1;
      forall i | 0 <= i < n
        ensures ResumeTimes(t, n).1[i] == (Progress(f) + i < |f.body.values|)
      {
        if i > 0 {
          assert ResumeTimes(t, n).1[i] == ResumeTimes(u, n - 1).1[i - 1];
        }
      }
    } else if Progress(f) > |f.body.values| {
      assert f.pc == AtFinal;
    }
  }

  /**
   * For coroutine(max), the first max calls of resume() return true and every later call
   * returns false (no calls return true when max <= 0).
   */
  lemma CoroutineMaxResumes(max: int, n: nat)
    ensures ResumeTimes(Call(CoroutineMax(max)), n).1 == seq(n, i => i < max)
  {
    ResumeTimesReports(Call(CoroutineMax(max)), n);
  }

  /** coroutine(2) of Coroutines_24, driven by motivation_01: true, true, false. */
  lemma AwaiterTaskResumes()
    ensures ResumeTimes(Call(AwaitLoop(2, CustomAwaiter)), 3).1 == [true, true, false]
  {
    AwaiterActsLikeSuspendAlways(2);
    CoroutineMaxResumes(2, 3);
  }

  /**
   * motivation_01 of both files: `while (task.resume()) { ... }`. The loop ends, with the
   * frame finished, after one more resume() than the body has suspension points.
   */
  method DriveToEnd(b: Body<(), ()>) returns (t: TaskObj, trues: nat)
    requires b.Finite?
    ensures t.handle.Some? && Done(t.handle.value)
    ensures trues == |b.values|
  {
    t := Call(b);
    trues := 0;
    var r := ResumeTask(t);
    t := r.0;
    var more := r.1;
    while more
      invariant Inv(t) && t.handle.Some? && t.handle.value.body == b
      invariant Progress(t.handle.value) == trues + 1 && !t.handle.value.pc.Initial?
      invariant more <==> trues < |b.values|
      invariant !more ==> Done(t.handle.value)
      decreases |b.values| - trues
    {
      trues := trues + 1;
      r := ResumeTask(t);
      t, more := r.0, r.1;
    }
  }

  /**
   * Resume two tasks in the order a schedule gives (true: the first one, false: the
   * second). Only the owning task's frame changes at each step.
   */
  function Interleave(t1: TaskObj, t2: TaskObj, schedule: seq<bool>): (TaskObj, TaskObj)
    requires Inv(t1) && Inv(t2)
    decreases |schedule|
  {
    if schedule == [] then (t1, t2)
    else if schedule[0] then Interleave(ResumeTask(t1).0, t2, schedule[1..])
    else Interleave(t1, ResumeTask(t2).0, schedule[1..])
  }

  function Count(schedule: seq<bool>, which: bool): nat
  {
    if schedule == [] then 0 else (if schedule[0] == which then 1 else 0) + Count(schedule[1..], which)
  }

  /**
   * Two tasks do not affect each other: after any interleaving, each is where resuming it
   * alone the same number of times would have left it.
   */
  lemma {:induction false} InterleaveIndependent(t1: TaskObj, t2: TaskObj, schedule: seq<bool>)
    requires Inv(t1) && Inv(t2)
    ensures Interleave(t1, t2, schedule) ==
      (ResumeTimes(t1, Count(schedule, true)).0, ResumeTimes(t2, Count(schedule, false)).0)
    decreases |schedule|
  {
    if schedule != [] {
      if schedule[0] {
        InterleaveIndependent(ResumeTask(t1).0, t2, schedule[1..]);
      } else {
        InterleaveIndependent(t1, ResumeTask(t2).0, schedule[1..]);
      }
    }
  }

  /** The schedule of motivation_02 in Coroutines_20 (true: the first task, false: the second). */
  function Motivation02Schedule(): seq<bool>
  {
    [false, true, true, true, true, false, false, false, false, false]
  }

  /**
   * motivation_02 of Coroutines_20, each task on its own: coroutine(3) driven to its end
   * answers true, true, true, false; coroutine(5), resumed once and then five more times,
   * answers true five times and then false.
   */
  lemma TwoTasksAnswers(first: int, second: int)
    requires first == 3 && second == 5
    ensures ResumeTimes(Call(CoroutineMax(first)), 4).1 == [true, true, true, false]
    ensures ResumeTimes(Call(CoroutineMax(second)), 6).1 == [true, true, true, true, true, false]
  {
    FirstTaskAnswers(first, 4);
    SecondTaskAnswers(second, 6);
  }

  lemma FirstTaskAnswers(max: int, n: nat)
    requires max == 3 && n == 4
    ensures ResumeTimes(Call(CoroutineMax(max)), n).1 == [true, true, true, false]
  {
    CoroutineMaxResumes(max, n);
    var a := seq(n, i => i < max);
    assert a == [true, true, true, false] by {
      assert a[0] && a[1] && a[2] && !a[3];
    }
  }

  lemma SecondTaskAnswers(max: int, n: nat)
    requires max == 5 && n == 6
    ensures ResumeTimes(Call(CoroutineMax(max)), n).1 == [true, true, true, true, true, false]
  {
    CoroutineMaxResumes(max, n);
    var b := seq(n, i => i < max);
    assert b == [true, true, true, true, true, false] by {
      assert b[0] && b[1] && b[2] && b[3] && b[4] && !b[5];
    }
  }

  /** motivation_02 interleaved as written: both tasks end finished. */
  lemma TwoTasksFinish(first: int, second: int, s: seq<bool>)
    requires first == 3 && second == 5 && s == Motivation02Schedule()
    ensures var (a, b) := Interleave(Call(CoroutineMax(first)), Call(CoroutineMax(second)), s);
      a.handle.Some? && Done(a.handle.value) && b.handle.Some? && Done(b.handle.value)
  {
    var t1, t2 := Call(CoroutineMax(first)), Call(CoroutineMax(second));
    InterleaveIndependent(t1, t2, s);
    assert Count(s, true) == 4 && Count(s, false) == 6;
    ResumeTimesReports(t1, 4);
    ResumeTimesReports(t2, 6);
  }
}
