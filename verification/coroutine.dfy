/**
 * The life cycle every coroutine of the examples goes through, independent of the
 * wrapper class around it (ISO/IEC 14882:2020 [dcl.fct.def.coroutine]):
 *  - the call creates the frame and runs to initial_suspend, which either suspends
 *    (std::suspend_always: lazy start) or does not (std::suspend_never: eager start);
 *  - each resumption runs the body to its next suspension point (co_yield / co_await)
 *    or off its end (co_return), after which the frame reaches final_suspend;
 *  - at final_suspend the frame either stays alive, done() being true, until the handle
 *    destroys it (std::suspend_always), or is freed at once (std::suspend_never).
 * Resuming a coroutine that is not suspended is undefined behaviour
 * ([coroutine.handle.resumption]); here it is a precondition of Resume.
 */
module Coroutine {

  /** The two trivial awaitables of <coroutine>. */
  datatype Suspend = SuspendAlways | SuspendNever

  /**
   * What a coroutine body does, seen from the outside: the values it hands to the
   * promise at its suspension points, in order, and, if it ends, its co_return operand
   * (() for co_return; / falling off the end). Bodies without a co_yield (tasks that
   * suspend with co_await) use T = (). An endless body suspends forever.
   */
  datatype Body<T, R> = Finite(values: seq<T>, result: R) | Endless(at: nat -> T)

  /** Whether the body has an (i+1)-th suspension point. */
  predicate HasPoint<T, R>(b: Body<T, R>, i: nat) {
    b.Endless? || i < |b.values|
  }

  function Point<T, R>(b: Body<T, R>, i: nat): T
    requires HasPoint(b, i)
  {
    if b.Endless? then b.at(i) else b.values[i]
  }

  /** Whether the body reacts to an (i+1)-th resumption at all. */
  predicate Within<T, R>(b: Body<T, R>, i: nat) {
    b.Endless? || i <= |b.values|
  }

  /** What the promise is told on one resumption: yield_value(v), or return_value/return_void. */
  datatype Event<T, R> = Yielded(value: T) | Returned(result: R)

  /** The reference behaviour: the event the (i+1)-th resumption of a body produces. */
  function Expected<T, R>(b: Body<T, R>, i: nat): Event<T, R>
    requires Within(b, i)
  {
    if HasPoint(b, i) then Yielded(Point(b, i)) else Returned(b.result)
  }

  /**
   * Where a frame is: at initial_suspend, at the n-th suspension point of the body,
   * at final_suspend (done() is true), or freed by a final_suspend that did not suspend.
   */
  datatype Pc = Initial | AtYield(n: nat) | AtFinal | Released

  datatype Frame<T, R> = Frame(body: Body<T, R>, final: Suspend, pc: Pc)

  ghost predicate Valid<T, R>(f: Frame<T, R>) {
    match f.pc
    case Initial => true
    case AtYield(n) => 1 <= n && HasPoint(f.body, n - 1)
    case AtFinal => f.body.Finite? && f.final == SuspendAlways
    case Released => f.body.Finite? && f.final == SuspendNever
  }

  /** The frame is suspended somewhere other than at its final suspend point. */
  predicate Resumable<T, R>(f: Frame<T, R>) {
    f.pc.Initial? || f.pc.AtYield?
  }

  /** coroutine_handle::done(). */
  predicate Done<T, R>(f: Frame<T, R>) {
    f.pc.AtFinal?
  }

  /** How many resumptions the frame has executed. */
  function Progress<T, R>(f: Frame<T, R>): nat {
    match f.pc
    case Initial => 0
    case AtYield(n) => n
    case AtFinal => if f.body.Finite? then |f.body.values| + 1 else 0
    case Released => if f.body.Finite? then |f.body.values| + 1 else 0
  }

  /** The frame a coroutine call creates, before initial_suspend. */
  function Create<T, R>(b: Body<T, R>, final: Suspend): (f: Frame<T, R>)
    ensures Valid(f) && Resumable(f) && Progress(f) == 0
  {
    Frame(b, final, Initial)
  }

  /**
   * coroutine_handle::resume(): run from the current suspension point to the next one,
   * reporting what the body told the promise on the way.
   */
  function Resume<T, R>(f: Frame<T, R>): (r: (Frame<T, R>, Event<T, R>))
    requires Valid(f) && Resumable(f)
    ensures Valid(r.0) && r.0.body == f.body && r.0.final == f.final
    ensures Within(f.body, Progress(f)) && r.1 == Expected(f.body, Progress(f))
    ensures Progress(r.0) == Progress(f) + 1
    ensures Resumable(r.0) <==> r.1.Yielded?
    ensures Done(r.0) <==> r.1.Returned? && f.final == SuspendAlways
  {
    var i := Progress(f);
    if HasPoint(f.body, i) then
      (f.(pc := AtYield(i + 1)), Yielded(Point(f.body, i)))
    else
      (f.(pc := if f.final == SuspendAlways then AtFinal else Released), Returned(f.body.result))
  }

  /** Whether n more resumptions are all defined. */
  predicate CanRun<T, R>(f: Frame<T, R>, n: nat) {
    n == 0 || (Resumable(f) && (f.body.Endless? || Progress(f) + n <= |f.body.values| + 1))
  }

  /** n resumptions in a row and the events they report. */
  function Run<T, R>(f: Frame<T, R>, n: nat): (r: (Frame<T, R>, seq<Event<T, R>>))
    requires Valid(f) && CanRun(f, n)
    ensures Valid(r.0) && r.0.body == f.body && r.0.final == f.final
    decreases n
  {
    if n == 0 then (f, [])
    else
      var (g, e) := Resume(f);
      var (h, es) := Run(g, n - 1);
      (h, [e] + es)
  }

  /**
   * The coroutine call itself: create the frame, then initial_suspend. A lazy coroutine
   * has run none of its body when the call returns; an eager one has run it up to its
   * first suspension point, or to its end.
   */
  function Call<T, R>(b: Body<T, R>, initial: Suspend, final: Suspend): (r: (Frame<T, R>, seq<Event<T, R>>))
    ensures Valid(r.0) && r.0.body == b && r.0.final == final
    ensures initial == SuspendAlways ==> r.0.pc == Initial && r.1 == []
    ensures initial == SuspendNever ==> Progress(r.0) == 1 && r.1 == [Expected(b, 0)]
  {
    var f := Create(b, final);
    if initial == SuspendAlways then (f, [])
    else
      var (g, e) := Resume(f);
      (g, [e])
  }

  /** Resuming n times observes exactly the next n events of the body, in order. */
  lemma {:induction false} RunFollowsBody<T, R>(f: Frame<T, R>, n: nat)
    requires Valid(f) && CanRun(f, n)
    ensures Progress(Run(f, n).0) == Progress(f) + n
    ensures |Run(f, n).1| == n
    ensures forall i :: 0 <= i < n ==> Run(f, n).1[i] == Expected(f.body, Progress(f) + i)
    decreases n
  {
    if n > 0 {
      var (g, e) := Resume(f);
      assert CanRun(g, n - 1) by {
        if n - 1 > 0 {
          assert f.body.Endless? || Progress(f) + 1 <= |f.body.values|;
          assert HasPoint(f.body, Progress(f));
        }
      }
      RunFollowsBody(g, n - 1);
      assert Run(f, n).1 == [e] + Run(g, n - 1).1;
      forall i | 0 <= i < n
        ensures Run(f, n).1[i] == Expected(f.body, Progress(f) + i)
      {
        if i > 0 {
          assert Run(f, n).1[i] == Run(g, n - 1).1[i - 1];
        }
      }
    }
  }

  /**
   * A finite body with final_suspend = suspend_always is done exactly after one
   * resumption per suspension point plus the one that runs off its end.
   */
  lemma {:induction false} FiniteBodyFinishes<T, R>(b: Body<T, R>, n: nat)
    requires b.Finite? && n <= |b.values| + 1
    ensures CanRun(Create(b, SuspendAlways), n)
    ensures Done(Run(Create(b, SuspendAlways), n).0) <==> n == |b.values| + 1
    ensures Resumable(Run(Create(b, SuspendAlways), n).0) <==> n <= |b.values|
  {
    var f := Create(b, SuspendAlways);
    RunFollowsBody(f, n);
    var g := Run(f, n).0;
    assert Progress(g) == n;
    if n == |b.values| + 1 {
      assert !g.pc.Initial? && !g.pc.AtYield?;
    } else if n > 0 {
      assert g.pc == AtYield(n);
    }
  }

  /**
   * An eager coroutine whose body has no suspension point (only co_return) runs to its
   * end inside the call; with final_suspend = suspend_never its frame is already freed
   * when the call returns.
   */
  lemma EagerCallRunsToEnd<T, R>(b: Body<T, R>, final: Suspend)
    requires b.Finite? && b.values == []
    ensures Call(b, SuspendNever, final).1 == [Returned(b.result)]
    ensures final == SuspendNever ==> Call(b, SuspendNever, final).0.pc == Released
    ensures final == SuspendAlways ==> Done(Call(b, SuspendNever, final).0)
  {
  }

  /**
   * A lazy coroutine runs its body only on the first explicit resume; with
   * final_suspend = suspend_never the frame frees itself at the end.
   */
  lemma LazyCallRunsOnFirstResume<T, R>(b: Body<T, R>)
    requires b.Finite? && b.values == []
    ensures Call(b, SuspendAlways, SuspendNever).1 == []
    ensures Resume(Call(b, SuspendAlways, SuspendNever).0) == (Frame(b, SuspendNever, Released), Returned(b.result))
  {
  }
}
