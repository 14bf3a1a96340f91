/**
 * Generator<T> of Coroutines_01 and Coroutines_05 (the same class template in both):
 * a lazily started coroutine whose promise keeps the last co_yield-ed value in a
 * std::optional<T>, with final_suspend = suspend_always, an input-iterator interface for
 * range-based for, and (in Coroutines_05) a next() member. The move operations are in
 * module Ownership.
 */
module Generator {
  import opened Wrappers
  import opened Coroutine
  import opened Views
  import Bodies

  /** A coroutine frame of the generator together with its promise's current_value. */
  datatype Coro<T> = Coro(frame: Frame<T, ()>, current: Option<T>)

  /** The Generator object: an empty handle (default-constructed or moved-from) or a frame. */
  datatype Gen<T> = Gen(handle: Option<Coro<T>>)

  /** std::bad_optional_access, thrown by current_value.value() on an empty optional. */
  datatype NextError = BadOptionalAccess

  /** How many values the body has yielded after p resumptions. */
  function YieldsAfter<T, R>(b: Body<T, R>, p: nat): nat
  {
    if b.Endless? || p <= |b.values| then p else |b.values|
  }

  /** The value of current_value after p resumptions: the most recent yield, if any. */
  function LastYielded<T, R>(b: Body<T, R>, p: nat): Option<T>
  {
    var k := YieldsAfter(b, p);
    if k == 0 then None
    else assert HasPoint(b, k - 1); Some(Point(b, k - 1))
  }

  /** The generator's frame is a legal frame of this promise type and the promise agrees with it. */
  ghost predicate Inv<T>(g: Gen<T>) {
    g.handle.Some? ==>
      var c := g.handle.value;
      Valid(c.frame) && c.frame.final == SuspendAlways && c.frame.pc != Released &&
      c.current == LastYielded(c.frame.body, Progress(c.frame))
  }

  /** The coroutine call: get_return_object wraps the frame; initial_suspend suspends at once. */
  function Call<T>(b: Body<T, ()>): (g: Gen<T>)
    ensures Inv(g) && g.handle.Some?
    ensures g.handle.value.frame.pc == Initial && g.handle.value.current == None
  {
    Gen(Some(Coro(Create(b, SuspendAlways), None)))
  }

  /** The promise's reaction to what the body did: yield_value stores, return_void does nothing. */
  function React<T>(current: Option<T>, e: Event<T, ()>): Option<T>
  {
    match e
    case Yielded(v) => Some(v)
    case Returned(_) => current
  }

  /** coroutine_handle::resume() on the generator's frame, with the promise's reaction. */
  function Step<T>(c: Coro<T>): (r: Coro<T>)
    requires Inv(Gen(Some(c))) && Resumable(c.frame)
    ensures Inv(Gen(Some(r))) && r.frame.body == c.frame.body
    ensures Progress(r.frame) == Progress(c.frame) + 1
  {
    var (f, e) := Resume(c.frame);
    Coro(f, React(c.current, e))
  }

  /** Generator::begin(): resume once if the handle is not empty; the iterator shares the handle. */
  function Begin<T>(g: Gen<T>): (r: Gen<T>)
    requires Inv(g) && (g.handle.Some? ==> Resumable(g.handle.value.frame))
    ensures Inv(r) && (r.handle.Some? <==> g.handle.Some?)
    ensures g.handle.None? ==> r == g
    ensures g.handle.Some? ==> r.handle.value.frame.body == g.handle.value.frame.body
    ensures g.handle.Some? ==> Progress(r.handle.value.frame) == Progress(g.handle.value.frame) + 1
  {
    if g.handle.Some? then Gen(Some(Step(g.handle.value))) else g
  }

  /** Iter::operator++: resume once (the handle must be non-empty and suspended). */
  function Increment<T>(g: Gen<T>): (r: Gen<T>)
    requires Inv(g) && g.handle.Some? && Resumable(g.handle.value.frame)
    ensures Inv(r) && r.handle.Some?
    ensures r.handle.value.frame.body == g.handle.value.frame.body
    ensures Progress(r.handle.value.frame) == Progress(g.handle.value.frame) + 1
  {
    Gen(Some(Step(g.handle.value)))
  }

  /** Iter == default_sentinel: the handle is empty or the coroutine is done. */
  predicate AtEnd<T>(g: Gen<T>) {
    g.handle.None? || Done(g.handle.value.frame)
  }

  /** Iter::operator*: the promise's current value (which must hold one). */
  function Deref<T>(g: Gen<T>): (v: T)
    requires Inv(g) && g.handle.Some? && g.handle.value.current.Some?
    ensures Some(v) == LastYielded(g.handle.value.frame.body, Progress(g.handle.value.frame))
  {
    g.handle.value.current.value
  }

  /**
   * A suspended, not finished generator has yielded exactly as often as it was resumed,
   * so the iterator's value is the body's value at that position.
   */
  lemma {:induction false} NotAtEndHasValue<T>(g: Gen<T>)
    requires Inv(g) && !AtEnd(g)
    ensures Resumable(g.handle.value.frame)
    ensures Progress(g.handle.value.frame) >= 1 ==>
      HasPoint(g.handle.value.frame.body, Progress(g.handle.value.frame) - 1) &&
      g.handle.value.current == Some(Point(g.handle.value.frame.body, Progress(g.handle.value.frame) - 1))
  {
    var f := g.handle.value.frame;
    if f.pc.AtYield? {
      assert YieldsAfter(f.body, Progress(f)) == Progress(f);
    }
  }

  function Max1(n: nat): nat { if n == 0 then 1 else n }

  /**
   * The drivers of both files: `for (const auto& x : generator) { use x; if (++n >= limit) break; }`
   * (the first check comes after the first element, so a limit of 0 acts like 1). The loop
   * observes the body's values in order, stopping at the end of a finite body.
   */
  method RangeFor<T>(b: Body<T, ()>, limit: nat) returns (seen: seq<T>)
    ensures |seen| == if b.Finite? then Min(Max1(limit), |b.values|) else Max1(limit)
    ensures forall i :: 0 <= i < |seen| ==> HasPoint(b, i) && seen[i] == Point(b, i)
  {
    var g := Call(b);
    g := Begin(g);
    seen := [];
    while !AtEnd(g)
      invariant Inv(g) && g.handle.Some? && g.handle.value.frame.body == b
      invariant Progress(g.handle.value.frame) == |seen| + 1
      invariant |seen| < Max1(limit)
      invariant forall i :: 0 <= i < |seen| ==> HasPoint(b, i) && seen[i] == Point(b, i)
      decreases if b.Finite? then |b.values| + 1 - |seen| else Max1(limit) - |seen|
    {
      NotAtEndHasValue(g);
      var x := Deref(g);
      seen := seen + [x];
      if |seen| >= Max1(limit) {
        break;
      }
      g := Increment(g);
    }
  }

  /**
   * What next() of Coroutines_05 hands back after the p-th resumption: current_value.value(),
   * which is the latest yield, and throws when nothing was ever yielded.
   */
  function NextResult<T, R>(b: Body<T, R>, p: nat): Result<T, NextError>
  {
    match LastYielded(b, p)
    case Some(v) => Ok(v)
    case None => Err(BadOptionalAccess)
  }

  /**
   * Generator::next() of Coroutines_05: on an empty handle the value-initialised T (zero);
   * otherwise resume once and return current_value.value(). Nothing checks done() first, so a
   * suspended (not finished) frame is a precondition.
   */
  function Next<T>(g: Gen<T>, zero: T): (r: (Gen<T>, Result<T, NextError>))
    requires Inv(g) && (g.handle.Some? ==> Resumable(g.handle.value.frame))
    ensures Inv(r.0) && (r.0.handle.Some? <==> g.handle.Some?)
    ensures g.handle.None? ==> r == (g, Ok(zero))
    ensures g.handle.Some? ==>
      r.0.handle.value.frame.body == g.handle.value.frame.body &&
      Progress(r.0.handle.value.frame) == Progress(g.handle.value.frame) + 1 &&
      r.1 == NextResult(g.handle.value.frame.body, Progress(g.handle.value.frame) + 1)
  {
    if g.handle.Some? then
      var c := Step(g.handle.value);
      (Gen(Some(c)), if c.current.Some? then Ok(c.current.value) else Err(BadOptionalAccess))
    else (g, Ok(zero))
  }

  /** n calls of next() in a row. */
  function NextTimes<T>(g: Gen<T>, zero: T, n: nat): (r: (Gen<T>, seq<Result<T, NextError>>))
    requires Inv(g) && g.handle.Some? && CanRun(g.handle.value.frame, n)
    ensures Inv(r.0) && r.0.handle.Some? && r.0.handle.value.frame.body == g.handle.value.frame.body
    decreases n
  {
    if n == 0 then (g, [])
    else
      var (h, v) := Next(g, zero);
      var (k, vs) := NextTimes(h, zero, n - 1);
      (k, [v] + vs)
  }

  /** Successive next() calls report the body's yields one by one, then repeat the last. */
  lemma {:induction false} NextTimesFollowsBody<T>(g: Gen<T>, zero: T, n: nat)
    requires Inv(g) && g.handle.Some? && CanRun(g.handle.value.frame, n)
    ensures Progress(NextTimes(g, zero, n).0.handle.value.frame) == Progress(g.handle.value.frame) + n
    ensures |NextTimes(g, zero, n).1| == n
    ensures forall i :: 0 <= i < n ==>
      NextTimes(g, zero, n).1[i] == NextResult(g.handle.value.frame.body, Progress(g.handle.value.frame) + i + 1)
    decreases n
  {
    if n > 0 {
      var f := g.handle.value.frame;
      var (h, v) := Next(g, zero);
      assert CanRun(h.handle.value.frame, n - 1) by {
        if n - 1 > 0 {
          assert f.body.Endless? || Progress(f) + 1 <= |f.body.values|;
          assert HasPoint(f.body, Progress(f));
        }
      }
      NextTimesFollowsBody(h, zero, n - 1);
      assert NextTimes(g, zero, n).1 == [v] + NextTimes(h, zero, n - 1).1;
      forall i | 0 <= i < n
        ensures NextTimes(g, zero, n).1[i] == NextResult(f.body, Progress(f) + i + 1)
      {
        if i > 0 {
          assert NextTimes(g, zero, n).1[i] == NextTimes(h, zero, n - 1).1[i - 1];
        }
      }
    }
  }

  /**
   * return_void leaves current_value alone: for a finite body with at least one yield, the
   * next() call that runs the body to its end returns the last yielded value again, and the
   * frame is then done, so one more next() would resume a finished coroutine.
   */
  lemma FinalNextRepeatsLast<T>(b: Body<T, ()>)
    requires b.Finite? && |b.values| > 0
    ensures NextResult(b, |b.values| + 1) == Ok(b.values[|b.values| - 1])
    ensures NextResult(b, |b.values|) == Ok(b.values[|b.values| - 1])
  {
  }

  /** Before the body finishes, the p-th next() returns the p-th yielded value. */
  lemma NextResultFollowsValues<T>(b: Body<T, ()>, p: nat)
    requires b.Finite? && 1 <= p <= |b.values|
    ensures NextResult(b, p) == Ok(b.values[p - 1])
  {
  }

  /** What the ten next() calls of test_02 report. */
  function WordsSeen(): seq<Result<string, NextError>>
  {
    [Ok("The"), Ok("quick"), Ok("brown "), Ok("fox"), Ok("jumps "), Ok("over"), Ok("the"),
     Ok("lazy"), Ok("dog"), Ok("dog")]
  }

  lemma WordsNextResults(b: Body<string, ()>, seen: seq<Result<string, NextError>>)
    requires b == Bodies.Words() && seen == WordsSeen()
    ensures forall i :: 0 <= i < 10 ==> NextResult(b, i + 1) == seen[i]
  {
    forall i | 0 <= i < 10
      ensures NextResult(b, i + 1) == seen[i]
    {
      if i < 9 {
        NextResultFollowsValues(b, i + 1);
      } else {
        FinalNextRepeatsLast(b);
      }
    }
  }

  /**
   * test_02 of Coroutines_05 as written: the loop `while ((s = next()) != "")` sees the nine
   * words, then "dog" a second time from the call that finished the body; since "dog" is not
   * empty it calls next() an eleventh time on a finished coroutine.
   */
  lemma WordsDriverOverruns(b: Body<string, ()>)
    requires b == Bodies.Words()
    ensures CanRun(Call(b).handle.value.frame, 10)
    ensures NextTimes(Call(b), "", 10).1 == WordsSeen()
    ensures Done(NextTimes(Call(b), "", 10).0.handle.value.frame)
  {
    var g := Call(b);
    NextTimesFollowsBody(g, "", 10);
    WordsNextResults(b, WordsSeen());
    var f := NextTimes(g, "", 10).0.handle.value.frame;
    assert Progress(f) == 10;
  }
}
