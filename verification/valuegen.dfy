/**
 * CoroutineGen of Coroutines_21: a lazily started coroutine that both co_yields ints and
 * co_returns one. The promise keeps the latest yielded value and the returned value, both
 * initialised to 0; resume() reports whether there is more to process, getValue() and
 * getResult() read the two promise members. final_suspend = suspend_always keeps the frame
 * (and so the promise) readable after the body has finished.
 */
module ValueGen {
  import opened Wrappers
  import opened Coroutine
  import Views
  import Bodies

  datatype Promise = Promise(yieldValue: int, returnValue: int)

  datatype Coro = Coro(frame: Frame<int, int>, promise: Promise)

  /** The generator object; neither copyable nor movable. */
  datatype GenObj = GenObj(handle: Option<Coro>)

  /** coroutine(max): `for (val = 1; val <= max; ++val) co_yield val;` then `co_return max;`. */
  function CoroutineMax(max: int): Body<int, int>
  {
    Finite(Bodies.CountingLoop(1, max + 1), max)
  }

  /** The promise members after p resumptions of body b: last yield (or 0), co_return operand (or 0). */
  function PromiseAfter(b: Body<int, int>, p: nat): Promise
  {
    var k := if b.Endless? || p <= |b.values| then p else |b.values|;
    Promise(if k == 0 then 0 else assert HasPoint(b, k - 1); Point(b, k - 1),
            if b.Finite? && p > |b.values| then b.result else 0)
  }

  ghost predicate Inv(g: GenObj) {
    g.handle.Some? ==>
      var c := g.handle.value;
      Valid(c.frame) && c.frame.final == SuspendAlways && c.frame.pc != Released &&
      c.promise == PromiseAfter(c.frame.body, Progress(c.frame))
  }

  /** The coroutine call; the promise members start at 0 and initial_suspend suspends. */
  function Call(b: Body<int, int>): (g: GenObj)
    ensures Inv(g) && g.handle.Some? && g.handle.value.frame.body == b && Progress(g.handle.value.frame) == 0
  {
    GenObj(Some(Coro(Create(b, SuspendAlways), Promise(0, 0))))
  }

  /** yield_value stores into m_yieldValue; return_value stores into m_returnValue. */
  function React(p: Promise, e: Event<int, int>): Promise
  {
    match e
    case Yielded(v) => p.(yieldValue := v)
    case Returned(v) => p.(returnValue := v)
  }

  /**
   * CoroutineGen::resume(): false without resuming on an empty handle or a finished frame;
   * otherwise resume once and return !done().
   */
  function ResumeGen(g: GenObj): (r: (GenObj, bool))
    requires Inv(g)
    ensures Inv(r.0) && (r.0.handle.Some? <==> g.handle.Some?)
    ensures g.handle.None? || Done(g.handle.value.frame) ==> r == (g, false)
    ensures g.handle.Some? && !Done(g.handle.value.frame) ==>
      r.0.handle.value.frame.body == g.handle.value.frame.body &&
      Progress(r.0.handle.value.frame) == Progress(g.handle.value.frame) + 1 &&
      (r.1 <==> HasPoint(g.handle.value.frame.body, Progress(g.handle.value.frame)))
  {
    if g.handle.None? || Done(g.handle.value.frame) then (g, false)
    else
      var c := g.handle.value;
      var (f, e) := Resume(c.frame);
      (GenObj(Some(Coro(f, React(c.promise, e)))), !Done(f))
  }

  /** getValue(): the latest co_yield-ed value (0 before the first). */
  function GetValue(g: GenObj): (v: int)
    requires g.handle.Some?
    ensures Inv(g) && Progress(g.handle.value.frame) == 0 ==> v == 0
    ensures Inv(g) && 1 <= Progress(g.handle.value.frame) && HasPoint(g.handle.value.frame.body, Progress(g.handle.value.frame) - 1) ==>
      v == Point(g.handle.value.frame.body, Progress(g.handle.value.frame) - 1)
    ensures Inv(g) && Done(g.handle.value.frame) && g.handle.value.frame.body.values != [] ==>
      v == g.handle.value.frame.body.values[|g.handle.value.frame.body.values| - 1]
  {
    g.handle.value.promise.yieldValue
  }

  /** getResult(): the co_return operand once the body has returned (0 before). */
  function GetResult(g: GenObj): (v: int)
    requires g.handle.Some?
    ensures Inv(g) && Done(g.handle.value.frame) ==> v == g.handle.value.frame.body.result
    ensures Inv(g) && Resumable(g.handle.value.frame) ==> v == 0
  {
    g.handle.value.promise.returnValue
  }

  /** n calls of resume() in a row and their answers. */
  function ResumeTimes(g: GenObj, n: nat): (r: (GenObj, seq<bool>))
    requires Inv(g)
    ensures Inv(r.0) && |r.1| == n && (r.0.handle.Some? <==> g.handle.Some?)
    decreases n
  {
    if n == 0 then (g, [])
    else
      var (h, x) := ResumeGen(g);
      var (k, xs) := ResumeTimes(h, n - 1);
      (k, [x] + xs)
  }

  /**
   * Resuming a fresh generator of a finite body n times: it stops advancing once finished,
   * and the i-th call answers whether a yield was still ahead.
   */
  lemma {:induction false} ResumeTimesAdvances(g: GenObj, n: nat)
    requires Inv(g) && g.handle.Some? && g.handle.value.frame.body.Finite?
    ensures ResumeTimes(g, n).0.handle.value.frame.body == g.handle.value.frame.body
    ensures Progress(ResumeTimes(g, n).0.handle.value.frame) ==
      Views.Min(Progress(g.handle.value.frame) + n, |g.handle.value.frame.body.values| + 1)
    ensures forall i :: 0 <= i < n ==>
      ResumeTimes(g, n).1[i] == (Progress(g.handle.value.frame) + i < |g.handle.value.frame.body.values|)
    decreases n
  {
    var f := g.handle.value.frame;
    if n > 0 {
      var (h, x) := ResumeGen(g);
      if Done(f) {
        assert Progress(f) == |f.body.values| + 1;
      } else {
        assert Progress(f) <= |f.body.values|;
      }
      assert x == (Progress(f) < |f.body.values|);
      ResumeTimesAdvances(h, n - 1);
      assert ResumeTimes(g, n).1 == [x] + ResumeTimes(h, n - 1).1;
      forall i | 0 <= i < n
        ensures ResumeTimes(g, n).1[i] == (Progress(f) + i < |f.body.values|)
      {
        if i > 0 {
          assert ResumeTimes(g, n).1[i] == ResumeTimes(h, n - 1).1[i - 1];
        }
      }
    }
  }

  function Max0(n: int): nat { if n < 0 then 0 else n }

  /**
   * coroutine(max) after n calls of resume(): the answers are `i < max`; getValue() is the
   * count of yields so far (it stays at max after the end, since nothing resets it), and
   * getResult() is 0 until the co_return has run and max afterwards.
   */
  lemma CoroutineMaxState(max: int, n: nat)
    ensures ResumeTimes(Call(CoroutineMax(max)), n).1 == seq(n, i => i < max)
    ensures GetValue(ResumeTimes(Call(CoroutineMax(max)), n).0) == Views.Min(n, Max0(max))
    ensures GetResult(ResumeTimes(Call(CoroutineMax(max)), n).0) == if n > Max0(max) then max else 0
  {
    var g := Call(CoroutineMax(max));
    ResumeTimesAdvances(g, n);
    var b := CoroutineMax(max);
    assert |b.values| == Max0(max);
  }

  /**
   * motivation_01: resume() answers true with getValue() 1, 2, 3, then false; getResult() is
   * then 3, and getValue() still reads 3.
   */
  lemma Motivation01()
    ensures ResumeTimes(Call(CoroutineMax(3)), 4).1 == [true, true, true, false]
    ensures GetValue(ResumeTimes(Call(CoroutineMax(3)), 1).0) == 1
    ensures GetValue(ResumeTimes(Call(CoroutineMax(3)), 2).0) == 2
    ensures GetValue(ResumeTimes(Call(CoroutineMax(3)), 3).0) == 3
    ensures GetResult(ResumeTimes(Call(CoroutineMax(3)), 3).0) == 0
    ensures GetResult(ResumeTimes(Call(CoroutineMax(3)), 4).0) == 3
    ensures GetValue(ResumeTimes(Call(CoroutineMax(3)), 4).0) == 3
  {
    CoroutineMaxState(3, 1);
    CoroutineMaxState(3, 2);
    CoroutineMaxState(3, 3);
    CoroutineMaxState(3, 4);
  }
}
