/**
 * The two hand-written custom_take_view classes of Ranges_04 and their adaptors. Both views
 * hold the base range and a signed count; begin() is the base's begin and end() is begin
 * advanced by count, with no clamping, so count must lie in [0, size of base]. The second
 * class also offers size(), which computes the size of the base minus the count.
 */
module CustomTake {
  import opened Views

  /** The view: its base range and count_. */
  datatype TakeView<T> = TakeView(base: seq<T>, count: int)

  /** Whether end() = next(begin(), count) stays within the base range. */
  predicate InBounds<T>(v: TakeView<T>) { 0 <= v.count <= |v.base| }

  /**
   * The constructor `custom_take_view(R base, count)`: base() gives the range back, and for a
   * count within the base the view visits what std::views::take(count) visits, count of them.
   */
  function MakeView<T>(base: seq<T>, count: int): (v: TakeView<T>)
    ensures Base(v) == base
    ensures InBounds(v) <==> 0 <= count <= |base|
    ensures 0 <= count <= |base| ==> Elements(v) == Take(base, count) && Size(v) == count
  {
    TakeView(base, count)
  }

  /** base(): the underlying view, unchanged. */
  function Base<T>(v: TakeView<T>): seq<T> { v.base }

  /** What iterating [begin(), end()) visits. */
  function Elements<T>(v: TakeView<T>): (r: seq<T>)
    requires InBounds(v)
    ensures |r| == v.count && r <= v.base
  {
    v.base[..v.count]
  }

  /** Within bounds the view visits what std::views::take visits. */
  lemma ElementsAreTake<T>(v: TakeView<T>)
    requires InBounds(v)
    ensures Elements(v) == Take(Base(v), v.count)
  {
  }

  /** std::size_t arithmetic: values modulo 2^64. */
  const SizeModulus: int := 0x1_0000_0000_0000_0000

  /**
   * size() of the second class, as written: s = size of the base, c = count cast to size_t,
   * and `s < c ? 0 : s - c`.
   */
  function SizeAsWritten<T>(v: TakeView<T>): (n: nat)
    ensures |v.base| < SizeModulus && 0 <= v.count < SizeModulus ==>
      n == if |v.base| < v.count then 0 else |v.base| - v.count
  {
    var s := |v.base| % SizeModulus;
    var c := v.count % SizeModulus;
    if s < c then 0 else s - c
  }

  /**
   * The as-written size() equals the number of visited elements only when the base is
   * exactly twice as long as the count.
   */
  lemma SizeAsWrittenMismatch<T>(v: TakeView<T>)
    requires InBounds(v) && |v.base| < SizeModulus
    ensures SizeAsWritten(v) == |Elements(v)| <==> |v.base| == 2 * v.count
  {
  }

  /** A base of three elements and a count of 2: two elements are visited, size() says 1. */
  lemma SizeAsWrittenCounterexample()
    ensures |Elements(MakeView([2, 6, 8], 2))| == 2
    ensures SizeAsWritten(MakeView([2, 6, 8], 2)) == 1
  {
  }

  /** size() as std::ranges::take_view defines it: the smaller of the base size and the count. */
  function Size<T>(v: TakeView<T>): (n: nat)
    requires v.count >= 0
    ensures n <= |v.base| && n <= v.count
    ensures n == |v.base| || n == v.count
  {
    Min(|v.base|, v.count)
  }

  /** The corrected size() is the number of elements the view visits. */
  lemma SizeCountsElements<T>(v: TakeView<T>)
    requires InBounds(v)
    ensures Size(v) == |Elements(v)|
  {
  }

  /** The range adaptor closure: custom_take(count) with the range still to come. */
  datatype Closure = Closure(count: int)

  /** custom_take(count): one argument gives a closure. */
  function AdaptOne(count: int): (c: Closure)
    ensures c.count == count
  {
    Closure(count)
  }

  /** custom_take(r, count): two arguments give the view over r at once. */
  function AdaptTwo<T>(r: seq<T>, count: int): (v: TakeView<T>)
    ensures Base(v) == r
    ensures InBounds(v) <==> 0 <= count <= |r|
    ensures 0 <= count <= |r| ==> Elements(v) == Take(r, count) && Size(v) == count
    ensures v == Pipe(r, AdaptOne(count))
  {
    MakeView(r, count)
  }

  /**
   * `r | closure`: the closure applied to the range. The view ranges over r and, when the
   * closure's count fits, visits the first count elements of r.
   */
  function Pipe<T>(r: seq<T>, c: Closure): (v: TakeView<T>)
    ensures Base(v) == r
    ensures InBounds(v) <==> 0 <= c.count <= |r|
    ensures 0 <= c.count <= |r| ==> Elements(v) == Take(r, c.count) && Size(v) == c.count
  {
    TakeView(r, c.count)
  }

  /** `r | custom_take(n)` and `custom_take(r, n)` build the same view. */
  lemma PipeIsDirect<T>(r: seq<T>, n: int)
    ensures Pipe(r, AdaptOne(n)) == AdaptTwo(r, n)
  {
  }

  /**
   * `r | custom_take(n)` for n within r visits the first n elements of r and reports n as its
   * corrected size(); for any other n the view's end() lies outside r.
   */
  lemma PipeTakes<T>(r: seq<T>, n: int)
    ensures 0 <= n <= |r| ==>
      Elements(Pipe(r, AdaptOne(n))) == Take(r, n) && Size(Pipe(r, AdaptOne(n))) == n
    ensures !(0 <= n <= |r|) ==> !InBounds(Pipe(r, AdaptOne(n)))
  {
  }

  /** ranges_ex_09_test_custom_view_01 and _02: filter(is_even) then take 2 of [2,3,5,6,7,8,9]. */
  lemma TestCustomView01()
    ensures Filter(IsEven, [2, 3, 5, 6, 7, 8, 9]) == [2, 6, 8]
    ensures Elements(Pipe([2, 6, 8], AdaptOne(2))) == [2, 6]
  {
  }

  /** The Fibonacci numbers listed in ranges_ex_09_test_custom_view_03. */
  function FibonacciList(): seq<int>
  {
    [1, 1, 2, 3, 5, 8, 13, 21, 34, 55, 89, 144, 233, 377]
  }

  /** The even ones among them. */
  lemma FibonacciEvens(fib: seq<int>)
    requires fib == FibonacciList()
    ensures Filter(IsEven, fib) == [2, 8, 34, 144]
  {
    var front, back := [1, 1, 2, 3, 5, 8, 13, 21], [34, 55, 89, 144, 233, 377];
    assert fib == front + back;
    FrontEvens(front);
    BackEvens(back);
    FilterAppend(IsEven, front, back);
  }

  lemma FrontEvens(front: seq<int>)
    requires front == [1, 1, 2, 3, 5, 8, 13, 21]
    ensures Filter(IsEven, front) == [2, 8]
  {
    var a, b := [1, 1, 2, 3], [5, 8, 13, 21];
    assert front == a + b;
    assert Filter(IsEven, a) == [2];
    assert Filter(IsEven, b) == [8];
    FilterAppend(IsEven, a, b);
  }

  lemma BackEvens(back: seq<int>)
    requires back == [34, 55, 89, 144, 233, 377]
    ensures Filter(IsEven, back) == [34, 144]
  {
    var c, d := [34, 55, 89], [144, 233, 377];
    assert back == c + d;
    assert Filter(IsEven, c) == [34];
    assert Filter(IsEven, d) == [144];
    FilterAppend(IsEven, c, d);
  }

  /** ranges_ex_09_test_custom_view_03: filter(is_even), reverse, take 2 of the Fibonacci list. */
  lemma TestCustomView03(fib: seq<int>)
    requires fib == FibonacciList()
    ensures var v := Pipe(Reverse(Filter(IsEven, fib)), AdaptOne(2));
      InBounds(v) && Elements(v) == [144, 34]
  {
    FibonacciEvens(fib);
    TakeTwoOfReversed(Filter(IsEven, fib));
  }

  lemma TakeTwoOfReversed(evens: seq<int>)
    requires evens == [2, 8, 34, 144]
    ensures var v := Pipe(Reverse(evens), AdaptOne(2)); InBounds(v) && Elements(v) == [144, 34]
  {
    assert Reverse(evens) == [144, 34, 8, 2];
  }
}
