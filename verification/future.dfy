/**
 * MyFuture<T> of Coroutines09_Future: the promise's constructor allocates a shared cell
 * holding 123, get_return_object hands the same cell to the future, return_value writes the
 * co_return operand into it, and both initial_suspend and final_suspend are suspend_never.
 * The call therefore runs the body to its end and frees the frame (and with it the promise's
 * share of the cell) before the future is returned; the future's share keeps the cell readable.
 */
module Future {
  import opened Coroutine

  /**
   * The state after the call: the coroutine frame, the shared cell's content, and whether the
   * future still holds its share. The promise holds its share while the frame is not freed.
   */
  datatype Shared = Shared(frame: Frame<(), int>, cell: int, futureHolds: bool)

  /** The value `std::make_shared<T>(123)` puts in the cell. */
  const InitialValue: int := 123

  predicate PromiseHolds(s: Shared) { s.frame.pc != Released }

  /** The shared_ptr use count of the cell. */
  function UseCount(s: Shared): nat
  {
    (if PromiseHolds(s) then 1 else 0) + (if s.futureHolds then 1 else 0)
  }

  /** return_value(v) overwrites the cell with v; the body has no co_yield. */
  function React(cell: int, e: Event<(), int>): int
  {
    match e
    case Returned(v) => v
    case Yielded(_) => cell
  }

  /**
   * `createFuture()`: the promise is constructed (cell := 123), get_return_object builds the
   * future on the same cell (its constructor reads the cell: the second component), then the
   * body runs without suspending at the start. A body that reaches co_return without any
   * co_await leaves the operand in the cell and its frame freed.
   */
  function CreateFuture(b: Body<(), int>): (r: (Shared, int))
    requires b.Finite?
    ensures r.1 == InitialValue && r.0.futureHolds && r.0.frame.body == b && Valid(r.0.frame)
    ensures b.values == [] ==> r.0.frame.pc == Released && r.0.cell == b.result && UseCount(r.0) == 1
    ensures b.values != [] ==> Resumable(r.0.frame) && r.0.cell == InitialValue && UseCount(r.0) == 2
  {
    var seenByFuture := InitialValue;
    var (f, es) := Call(b, SuspendNever, SuspendNever);
    (Shared(f, React(InitialValue, es[0]), true), seenByFuture)
  }

  /** MyFuture::getValue(): a copy of the cell's content; the future must still hold the cell. */
  function GetValue(s: Shared): (r: (Shared, int))
    requires s.futureHolds
    ensures r.0 == s && r.1 == s.cell
  {
    (s, s.cell)
  }

  /** ~MyFuture(): the future's share of the cell is released. */
  function DestroyFuture(s: Shared): (r: Shared)
    ensures !r.futureHolds && r.frame == s.frame
    ensures UseCount(r) == UseCount(s) - (if s.futureHolds then 1 else 0)
  {
    s.(futureHolds := false)
  }

  /** createFuture() of the example: `co_return 12345;` and nothing else. */
  function CreateFutureBody(): Body<(), int> { Finite([], 12345) }

  /**
   * For any body that goes straight to co_return, getValue() after the call returns the
   * co_return operand, although the frame and promise are gone by then: the future alone
   * keeps the cell. Reading it again gives the same value, and destroying the future then
   * releases the last share.
   */
  lemma EagerFutureDelivers(b: Body<(), int>)
    requires b.Finite? && b.values == []
    ensures var (s, _) := CreateFuture(b);
      !PromiseHolds(s) && UseCount(s) == 1 &&
      GetValue(s).1 == b.result &&
      GetValue(GetValue(s).0).1 == GetValue(s).1 &&
      UseCount(DestroyFuture(GetValue(s).0)) == 0
  {
  }

  /**
   * coroutines_01: the future's constructor sees 123 (return_value has not run yet when
   * get_return_object is called), and getValue() then returns 12345.
   */
  lemma Coroutines01()
    ensures CreateFuture(CreateFutureBody()).1 == 123
    ensures GetValue(CreateFuture(CreateFutureBody()).0).1 == 12345
  {
    EagerFutureDelivers(CreateFutureBody());
  }
}
