/**
 * CoroutineGen<T> of Coroutines_22: a lazily started generator whose promise keeps the
 * latest yield in a value-initialised member, and whose iterator holds either the
 * generator's handle or nullptr (the end iterator). getNext() resumes and drops the handle
 * once the coroutine is done; begin() returns the end iterator without resuming when the
 * handle is empty or done.
 */
module IterGen {
  import opened Wrappers
  import opened Coroutine
  import Bodies

  datatype Coro<T> = Coro(frame: Frame<T, ()>, yieldValue: T)

  /** The generator object and the value-initialised T{} its promise starts with. */
  datatype GenObj<T> = GenObj(handle: Option<Coro<T>>, zero: T)

  /**
   * An iterator of this generator: it holds the generator's own handle, or nullptr. All
   * handles an iterator can hold are this generator's, so whether it holds one is all
   * that distinguishes two iterators.
   */
  datatype Iterator = Iterator(attached: bool)

  /** m_yieldValue after p resumptions: the last yield, or T{} before the first. */
  function ValueAfter<T>(b: Body<T, ()>, p: nat, zero: T): T
  {
    var k := if b.Endless? || p <= |b.values| then p else |b.values|;
    if k == 0 then zero else assert HasPoint(b, k - 1); Point(b, k - 1)
  }

  ghost predicate GenInv<T>(g: GenObj<T>) {
    g.handle.Some? ==>
      var c := g.handle.value;
      Valid(c.frame) && c.frame.final == SuspendAlways && c.frame.pc != Released &&
      c.yieldValue == ValueAfter(c.frame.body, Progress(c.frame), g.zero)
  }

  /** An iterator that holds the handle points to a suspended, unfinished frame. */
  ghost predicate Inv<T>(g: GenObj<T>, it: Iterator) {
    GenInv(g) && (it.attached ==> g.handle.Some? && Resumable(g.handle.value.frame))
  }

  function Call<T>(b: Body<T, ()>, zero: T): (g: GenObj<T>)
    ensures GenInv(g) && g.handle.Some? && g.handle.value.frame.body == b
    ensures g.handle.value.frame.pc == Initial
  {
    GenObj(Some(Coro(Create(b, SuspendAlways), zero)), zero)
  }

  /** end(): an iterator holding nullptr. */
  function End(): Iterator { Iterator(false) }

  /** iterator::operator==: the handles are equal. */
  predicate Equal(a: Iterator, b: Iterator) { a.attached == b.attached }

  /** iterator::getNext(): nothing on nullptr; otherwise resume, and drop the handle once done. */
  function GetNext<T>(g: GenObj<T>, it: Iterator): (r: (GenObj<T>, Iterator))
    requires Inv(g, it)
    ensures Inv(r.0, r.1) && (r.0.handle.Some? <==> g.handle.Some?) && r.0.zero == g.zero
    ensures !it.attached ==> r == (g, it)
    ensures it.attached ==>
      r.0.handle.value.frame.body == g.handle.value.frame.body &&
      Progress(r.0.handle.value.frame) == Progress(g.handle.value.frame) + 1 &&
      (r.1.attached <==> !Done(r.0.handle.value.frame))
  {
    if it.attached then
      var c := g.handle.value;
      var (f, e) := Resume(c.frame);
      var v := match e case Yielded(x) => x case Returned(_) => c.yieldValue;
      (g.(handle := Some(Coro(f, v))), Iterator(!Done(f)))
    else (g, it)
  }

  /**
   * begin(): the end iterator, without resuming, if the handle is empty or done; otherwise an
   * iterator on the handle, advanced once.
   */
  function Begin<T>(g: GenObj<T>): (r: (GenObj<T>, Iterator))
    requires GenInv(g)
    ensures Inv(r.0, r.1) && (r.0.handle.Some? <==> g.handle.Some?) && r.0.zero == g.zero
    ensures g.handle.None? || Done(g.handle.value.frame) ==> r == (g, End())
    ensures g.handle.Some? && !Done(g.handle.value.frame) ==>
      r.0.handle.value.frame.body == g.handle.value.frame.body &&
      Progress(r.0.handle.value.frame) == Progress(g.handle.value.frame) + 1 &&
      (r.1.attached <==> !Done(r.0.handle.value.frame))
  {
    if g.handle.None? || Done(g.handle.value.frame) then (g, End())
    else GetNext(g, Iterator(true))
  }

  /** iterator::operator*: m_yieldValue; the handle must not be nullptr (asserted). */
  function Deref<T>(g: GenObj<T>, it: Iterator): (v: T)
    requires Inv(g, it) && it.attached
    ensures v == ValueAfter(g.handle.value.frame.body, Progress(g.handle.value.frame), g.zero)
  {
    g.handle.value.yieldValue
  }

  /** iterator::operator++: getNext(). */
  function Increment<T>(g: GenObj<T>, it: Iterator): (r: (GenObj<T>, Iterator))
    requires Inv(g, it)
    ensures Inv(r.0, r.1) && (r.0.handle.Some? <==> g.handle.Some?) && r.0.zero == g.zero
    ensures !it.attached ==> r == (g, it)
    ensures it.attached ==>
      r.0.handle.value.frame.body == g.handle.value.frame.body &&
      Progress(r.0.handle.value.frame) == Progress(g.handle.value.frame) + 1 &&
      (r.1.attached <==> !Done(r.0.handle.value.frame))
  {
    GetNext(g, it)
  }

  /**
   * motivation_01's `for (const auto& val : coroutineGen)` over a fresh generator of a
   * finite body: it observes exactly the body's yields, in order.
   */
  method RangeFor<T>(b: Body<T, ()>, zero: T) returns (seen: seq<T>)
    requires b.Finite?
    ensures seen == b.values
  {
    var g := Call(b, zero);
    var r := Begin(g);
    g := r.0;
    var it := r.1;
    seen := [];
    while !Equal(it, End())
      invariant Inv(g, it) && g.handle.Some? && g.handle.value.frame.body == b && g.zero == zero
      invariant Progress(g.handle.value.frame) == |seen| + 1
      invariant it.attached <==> |seen| < |b.values|
      invariant seen == b.values[..|seen|]
      decreases |b.values| - |seen|
    {
      seen := seen + [Deref(g, it)];
      r := Increment(g, it);
      g, it := r.0, r.1;
    }
  }

  /** coroutine(max) of Coroutines_22: `for (val = 1; val <= max; ++val) co_yield val;`. */
  function CoroutineMax(max: int): Body<int, ()>
  {
    Finite(Bodies.CountingLoop(1, max + 1), ())
  }

  /** The loop over coroutine(3) in motivation_01 therefore sees 1, 2, 3. */
  lemma CoroutineThreeYields()
    ensures CoroutineMax(3).values == [1, 2, 3]
  {
  }

  /** begin() on a generator that has finished returns end() and leaves the frame alone. */
  lemma BeginOnFinished<T>(b: Body<T, ()>, zero: T)
    requires b.Finite?
    ensures var g := Call(b, zero);
      CanRun(g.handle.value.frame, |b.values| + 1) &&
      var f := Run(g.handle.value.frame, |b.values| + 1).0;
      Done(f) && Begin(GenObj(Some(Coro(f, ValueAfter(b, Progress(f), zero))), zero)).1 == End()
  {
    var g := Call(b, zero);
    FiniteBodyFinishes(b, |b.values| + 1);
  }
}
