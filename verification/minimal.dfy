/**
 * The minimal generators of Coroutines_03. Namespaces 01 and 02 are eager coroutines whose
 * body only does co_return; namespace 03 starts lazily and is run by one explicit resume();
 * namespaces 04 and 05 are counters read through get_next(), which resumes without testing
 * done() and returns the promise's current value.
 */
module Minimal {
  import opened Coroutine
  import Views
  import Bodies

  /** What the instrumented tests 02 and 03 show on the console, in order. */
  datatype Mark = BeforeCall | InsideCoroutine | AfterCall

  /** The body of myCoroutine() in namespaces 01-03: print "inside coroutine", then co_return. */
  function TraceBody(): Body<(), ()> { Finite([], ()) }

  /** The body prints its line on the resumption that starts it. */
  function Marks(events: seq<Event<(), ()>>): seq<Mark>
  {
    if events == [] then [] else [InsideCoroutine]
  }

  /**
   * test_02 / test_03: print, call myCoroutine(), print, and (test_03 only) resume once.
   * The second component is the frame once the test has finished with it.
   */
  function CallTrace(initial: Suspend, final: Suspend, resumeAfter: bool): (r: (seq<Mark>, Frame<(), ()>))
    ensures Valid(r.1)
    ensures initial == SuspendNever ==> r.0 == [BeforeCall, InsideCoroutine, AfterCall]
    ensures initial == SuspendAlways && resumeAfter ==> r.0 == [BeforeCall, AfterCall, InsideCoroutine]
    ensures initial == SuspendAlways && !resumeAfter ==> r.0 == [BeforeCall, AfterCall] && r.1.pc == Initial
    ensures initial == SuspendNever || resumeAfter ==> (r.1.pc == Released <==> final == SuspendNever)
  {
    var (f, es) := Call(TraceBody(), initial, final);
    var during := [BeforeCall] + Marks(es) + [AfterCall];
    if resumeAfter && Resumable(f) then
      var (g, e) := Resume(f);
      (during + Marks([e]), g)
    else (during, f)
  }

  /**
   * Namespaces 01 and 02 (suspend_never at both ends): the body has run, and the frame is
   * freed, before the call returns. Namespace 03 (suspend_always, then suspend_never): the
   * call returns before the body runs; the explicit resume() runs it and frees the frame, so
   * the generator, whose destructor does not destroy, leaks nothing.
   */
  lemma EagerAndLazyTraces()
    ensures CallTrace(SuspendNever, SuspendNever, false) ==
      ([BeforeCall, InsideCoroutine, AfterCall], Frame(TraceBody(), SuspendNever, Released))
    ensures CallTrace(SuspendAlways, SuspendNever, true) ==
      ([BeforeCall, AfterCall, InsideCoroutine], Frame(TraceBody(), SuspendNever, Released))
  {
    EagerCallRunsToEnd(TraceBody(), SuspendNever);
    LazyCallRunsOnFirstResume(TraceBody());
  }

  /**
   * The generator of namespaces 04 and 05 with its handle and the promise's current value.
   * In namespace 04 current_value starts indeterminate, in namespace 05 it is 0; the model
   * takes the starting value as a parameter.
   */
  datatype Counter = Counter(frame: Frame<int, ()>, current: int)

  ghost predicate Inv(c: Counter) {
    Valid(c.frame) && c.frame.final == SuspendAlways && c.frame.pc != Released
  }

  function Call04(b: Body<int, ()>, start: int): (c: Counter)
    ensures Inv(c) && c.frame.body == b && Progress(c.frame) == 0 && Resumable(c.frame)
  {
    Counter(Create(b, SuspendAlways), start)
  }

  /**
   * get_next(): resume (the coroutine must still be suspended: the function does not test
   * done()) and return current_value, which the resumption overwrote if it reached a co_yield
   * and left alone if the body ran off its end.
   */
  function GetNext(c: Counter): (r: (Counter, int))
    requires Inv(c) && Resumable(c.frame)
    ensures Inv(r.0) && r.0.frame.body == c.frame.body
    ensures Progress(r.0.frame) == Progress(c.frame) + 1
    ensures r.1 == r.0.current
    ensures HasPoint(c.frame.body, Progress(c.frame)) ==>
      r.1 == Point(c.frame.body, Progress(c.frame)) && Resumable(r.0.frame)
    ensures !HasPoint(c.frame.body, Progress(c.frame)) ==> r.1 == c.current && Done(r.0.frame)
  {
    var (f, e) := Resume(c.frame);
    var v := match e case Yielded(x) => x case Returned(_) => c.current;
    (Counter(f, v), v)
  }

  /**
   * test_04 (limit 10) and test_05 (limit 3): `while ((x = c.get_next()) < limit)` over the
   * counter. The values seen are 0, 1, ..., limit-1; the loop stops at the get_next() that
   * returns limit, after limit + 1 resumptions.
   */
  method CountBelow(limit: int, start: int) returns (seen: seq<int>, c: Counter)
    ensures seen == Views.Iota(0, limit)
    ensures Progress(c.frame) == |seen| + 1 && c.current == |seen|
  {
    c := Call04(Bodies.Counter(), start);
    var r := GetNext(c);
    c := r.0;
    var x := r.1;
    seen := [];
    while x < limit
      invariant Inv(c) && c.frame.body == Bodies.Counter() && Resumable(c.frame)
      invariant Progress(c.frame) == |seen| + 1 && x == |seen| && c.current == x
      invariant seen == Views.Iota(0, |seen|) && (seen == [] || x <= limit)
      decreases limit - x
    {
      seen := seen + [x];
      r := GetNext(c);
      c := r.0;
      x := r.1;
    }
  }

  /** The two drivers, test_04 with limit 10 and test_05 with limit 3, see 0..9 and 0..2. */
  method CountBelowExamples(start: int) returns (ten: seq<int>, three: seq<int>)
    ensures ten == [0, 1, 2, 3, 4, 5, 6, 7, 8, 9]
    ensures three == [0, 1, 2]
  {
    var c;
    ten, c := CountBelow(10, start);
    three, c := CountBelow(3, start);
  }
}
