/**
 * The two Promise/Generator pairs of Coroutines_02. The promise keeps the last yielded
 * value in a plain member (value-initialised: "" or 0), and return_void overwrites it with
 * a sentinel ("" via clear() in the string variant, -1 in the int variant), which is what
 * the drivers test to stop. Both start lazily and keep the frame at final_suspend.
 */
module FirstSteps {
  import opened Wrappers
  import opened Coroutine
  import Bodies

  /** A frame together with the promise's m_value. */
  datatype Slot<T> = Slot(frame: Frame<T, ()>, value: T)

  /**
   * The generator: its handle, the value-initialised T that m_value starts with and next()
   * returns on an empty handle, and the sentinel return_void stores.
   */
  datatype Gen<T> = Gen(handle: Option<Slot<T>>, zero: T, cleared: T)

  /** What m_value holds after p resumptions of body b. */
  function SlotAfter<T>(b: Body<T, ()>, p: nat, zero: T, cleared: T): T
  {
    if p == 0 then zero
    else if HasPoint(b, p - 1) then Point(b, p - 1)
    else cleared
  }

  ghost predicate Inv<T>(g: Gen<T>) {
    g.handle.Some? ==>
      var s := g.handle.value;
      Valid(s.frame) && s.frame.final == SuspendAlways && s.frame.pc != Released &&
      s.value == SlotAfter(s.frame.body, Progress(s.frame), g.zero, g.cleared)
  }

  /** The coroutine call: the promise is default-constructed and initial_suspend suspends. */
  function Call<T>(b: Body<T, ()>, zero: T, cleared: T): (g: Gen<T>)
    ensures Inv(g) && g.handle.Some? && g.handle.value.frame.pc == Initial
    ensures g.handle.value.value == zero
  {
    Gen(Some(Slot(Create(b, SuspendAlways), zero)), zero, cleared)
  }

  /** The string generator of the first namespace: m_value{} is "", return_void clears it. */
  function StringCall(b: Body<string, ()>): Gen<string> { Call(b, "", "") }

  /** The int generator of the second namespace: m_value{} is 0, return_void stores -1. */
  function IntCall(b: Body<int, ()>): Gen<int> { Call(b, 0, -1) }

  /** The promise's reaction: yield_value stores the value, return_void stores the sentinel. */
  function React<T>(value: T, cleared: T, e: Event<T, ()>): T
  {
    match e
    case Yielded(v) => v
    case Returned(_) => cleared
  }

  /**
   * Generator::next(): on an empty handle the value-initialised T; otherwise resume once and
   * return m_value. It does not test done(), so the frame must still be suspended.
   */
  function Next<T>(g: Gen<T>): (r: (Gen<T>, T))
    requires Inv(g) && (g.handle.Some? ==> Resumable(g.handle.value.frame))
    ensures Inv(r.0) && (r.0.handle.Some? <==> g.handle.Some?)
    ensures r.0.zero == g.zero && r.0.cleared == g.cleared
    ensures g.handle.None? ==> r == (g, g.zero)
    ensures g.handle.Some? ==>
      r.0.handle.value.frame.body == g.handle.value.frame.body &&
      Progress(r.0.handle.value.frame) == Progress(g.handle.value.frame) + 1 &&
      r.1 == SlotAfter(g.handle.value.frame.body, Progress(g.handle.value.frame) + 1, g.zero, g.cleared)
  {
    if g.handle.Some? then
      var s := g.handle.value;
      var (f, e) := Resume(s.frame);
      var v := React(s.value, g.cleared, e);
      (g.(handle := Some(Slot(f, v))), v)
    else (g, g.zero)
  }

  /** The elements of s before the first occurrence of x (all of s if x does not occur). */
  function TakeUntil<T(==)>(s: seq<T>, x: T): (r: seq<T>)
    ensures r <= s && x !in r
    ensures |r| < |s| ==> s[|r|] == x
  {
    if s == [] then []
    else if s[0] == x then []
    else [s[0]] + TakeUntil(s[1..], x)
  }

  /** A prefix free of x that ends at x or at the end of s is the prefix TakeUntil takes. */
  lemma {:induction false} TakeUntilUnique<T>(s: seq<T>, x: T, k: nat)
    requires k <= |s| && x !in s[..k] && (k < |s| ==> s[k] == x)
    ensures TakeUntil(s, x) == s[..k]
    decreases k
  {
    if k == 0 {
      if s != [] {
        assert s[0] == x;
      }
    } else {
      assert s[0] == s[..k][0];
      assert s[1..][..k - 1] == s[..k][1..];
      TakeUntilUnique(s[1..], x, k - 1);
    }
  }

  /**
   * The driver loops of both namespaces: call next() until it returns the sentinel
   * (`while ((s = next()) != std::string{})`, `if (value == -1) break;`). The loop never
   * resumes a finished frame, and it sees the yields up to, not including, the first one
   * equal to the sentinel: all of them when the body never yields the sentinel.
   */
  method Drain<T(==)>(b: Body<T, ()>, zero: T, cleared: T) returns (seen: seq<T>)
    requires b.Finite?
    ensures seen == TakeUntil(b.values, cleared)
  {
    var g := Call(b, zero, cleared);
    var r := Next(g);
    g := r.0;
    var v := r.1;
    seen := [];
    while v != cleared
      invariant Inv(g) && g.handle.Some? && g.handle.value.frame.body == b
      invariant g.zero == zero && g.cleared == cleared
      invariant Progress(g.handle.value.frame) == |seen| + 1 && |seen| <= |b.values|
      invariant v == SlotAfter(b, |seen| + 1, zero, cleared)
      invariant seen == b.values[..|seen|] && cleared !in seen
      decreases |b.values| - |seen|
    {
      assert g.handle.value.frame.pc == AtYield(|seen| + 1);
      seen := seen + [v];
      assert seen == b.values[..|seen|];
      r := Next(g);
      g := r.0;
      v := r.1;
    }
    TakeUntilUnique(b.values, cleared, |seen|);
  }

  /** coroutines_hello_world_02: the loop prints "Hello " and "World", then sees "" and stops. */
  lemma HelloWorldDrains()
    ensures TakeUntil(Bodies.HelloWorld().values, "") == ["Hello ", "World"]
  {
    TakeUntilUnique(Bodies.HelloWorld().values, "", 2);
  }

  /** coroutines_exercise: generatorForNumbers(1, 10) gives 1..10 and then -1. */
  lemma NumbersDrain()
    ensures TakeUntil(Bodies.NumbersFromTo(1, 10).values, -1) == [1, 2, 3, 4, 5, 6, 7, 8, 9, 10]
  {
    var s := Bodies.NumbersFromTo(1, 10).values;
    assert s == [1, 2, 3, 4, 5, 6, 7, 8, 9, 10];
    TakeUntilUnique(s, -1, 10);
  }

  /**
   * The int sentinel is an ordinary value: a body that yields -1 itself (here
   * generatorForNumbers(-3, 2)) is cut short there, though its frame is not finished.
   */
  lemma YieldedSentinelStopsEarly()
    ensures Bodies.NumbersFromTo(-3, 2).values == [-3, -2, -1, 0, 1, 2]
    ensures TakeUntil(Bodies.NumbersFromTo(-3, 2).values, -1) == [-3, -2]
  {
    var s := Bodies.NumbersFromTo(-3, 2).values;
    assert s == [-3, -2, -1, 0, 1, 2];
    TakeUntilUnique(s, -1, 2);
  }

  /**
   * With a promise whose return_void clears the value, as in this file, the word generator of
   * Coroutines_05 would be drained exactly: nine words, and the loop stops at the empty string
   * that the final resumption leaves behind.
   */
  lemma ClearingPromiseDrainsWords()
    ensures TakeUntil(Bodies.Words().values, "") == Bodies.Words().values
  {
    var s := Bodies.Words().values;
    assert "" !in s;
    TakeUntilUnique(s, "", |s|);
  }
}
