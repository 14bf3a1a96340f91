/**
 * The generator bodies of the coroutine examples, each as the sequence of values it
 * co_yields (and, for finite bodies, what it co_returns). Bodies that loop forever are
 * functions from the index of the suspension point to the yielded value.
 */
module Bodies {
  import opened Coroutine
  import opened Views
  import Decimal

  /**
   * The yields of `for (T i = first; i < last; ++i) co_yield i;`, one loop iteration at
   * a time (the shape of range() in Coroutines_01 and of the counting loops elsewhere).
   */
  function CountingLoop(first: int, last: int): (r: seq<int>)
    ensures r == Iota(first, last)
    decreases last - first
  {
    if first < last then [first] + CountingLoop(first + 1, last) else []
  }

  /**
   * getNumbers(begin, end) of Coroutines_01, the eager version the generators replace: a
   * vector filled by `for (i = begin; i <= end; ++i) numbers.push_back(i);`.
   */
  method GetNumbers(begin: int, end: int) returns (numbers: seq<int>)
    ensures |numbers| == if begin <= end then end - begin + 1 else 0
    ensures forall k :: 0 <= k < |numbers| ==> numbers[k] == begin + k
  {
    numbers := [];
    var i := begin;
    while i <= end
      invariant begin <= end ==> begin <= i <= end + 1
      invariant begin > end ==> i == begin
      invariant |numbers| == i - begin
      invariant forall k :: 0 <= k < |numbers| ==> numbers[k] == begin + k
      decreases end - i
    {
      numbers := numbers + [i];
      i := i + 1;
    }
  }

  /** The eager vector and the yields of the counting loop up to end + 1 are the same numbers. */
  method GetNumbersIsCountingLoop(begin: int, end: int) returns (numbers: seq<int>)
    ensures numbers == CountingLoop(begin, end + 1)
  {
    numbers := GetNumbers(begin, end);
    assert numbers == Iota(begin, end + 1);
  }

  /** range(first, last) of Coroutines_01. */
  function Range(first: int, last: int): Body<int, ()>
  {
    Finite(CountingLoop(first, last), ())
  }

  /** hello() of Coroutines_01. */
  function Hello(): Body<char, ()>
  {
    Finite(['h', 'e', 'l', 'l', 'o'], ())
  }

  /**
   * The state (a, b) of fibonacci()'s loop in Coroutines_01 after k iterations; each
   * iteration yields b and then moves to (b, a + b).
   */
  function FibState(k: nat): (int, int)
  {
    if k == 0 then (0, 1)
    else var (a, b) := FibState(k - 1); (b, b + a)
  }

  function Fibonacci(): Body<int, ()>
  {
    Endless(k => FibState(k).1)
  }

  /** The textbook Fibonacci numbers, 0, 1, 1, 2, 3, 5, ... */
  function Fib(n: nat): nat
  {
    if n < 2 then n else Fib(n - 1) + Fib(n - 2)
  }

  /** The loop state is a pair of consecutive Fibonacci numbers. */
  lemma {:induction false} FibStateIsFib(k: nat)
    ensures FibState(k) == (Fib(k), Fib(k + 1))
  {
    if k > 0 {
      FibStateIsFib(k - 1);
    }
  }

  /**
   * fibonacci() yields 1, 1, 2, 3, 5, ...: the k-th yield is Fib(k+1), so every value
   * from the third on is the sum of the two before it.
   */
  lemma FibonacciYields(k: nat)
    ensures Fibonacci().at(k) == Fib(k + 1)
    ensures Fibonacci().at(k + 2) == Fibonacci().at(k + 1) + Fibonacci().at(k)
    ensures Fibonacci().at(0) == 1 && Fibonacci().at(1) == 1 && Fibonacci().at(2) == 2
    ensures Fibonacci().at(3) == 3 && Fibonacci().at(4) == 5
  {
    FibStateIsFib(k);
    FibStateIsFib(k + 1);
    FibStateIsFib(k + 2);
    FibStateIsFib(4);
  }

  /** The counter body of Coroutines_03 (myCoroutine of namespace 04): 0, 1, 2, ... */
  function Counter(): Body<int, ()>
  {
    Endless(k => k)
  }

  /** generator() of Coroutines_02 (first namespace). */
  function HelloWorld(): Body<string, ()>
  {
    Finite(["Hello ", "World"], ())
  }

  /** generatorForNumbers(begin, end) of Coroutines_02: `for (i = begin; i <= end; ++i)`. */
  function NumbersFromTo(begin: int, end: int): Body<int, ()>
  {
    Finite(CountingLoop(begin, end + 1), ())
  }

  /** generator() of Coroutines_05: the nine words, then co_return. */
  function Words(): Body<string, ()>
  {
    Finite(["The", "quick", "brown ", "fox", "jumps ", "over", "the", "lazy", "dog"], ())
  }

  /**
   * One iteration of fizzbuzz() in Coroutines_05: start from the empty string, append
   * "Fizz" when 3 divides i and "Buzz" when 5 does, and yield the decimal form of i if
   * nothing was appended.
   */
  function FizzBuzzStep(i: int): string
  {
    var result := (if i % 3 == 0 then "Fizz" else "") + (if i % 5 == 0 then "Buzz" else "");
    if result == "" then Decimal.IntToString(i) else result
  }

  /** fizzbuzz() loops from i = 1 upwards without end. */
  function FizzBuzz(): Body<string, ()>
  {
    Endless(k => FizzBuzzStep(k + 1))
  }

  /** The usual statement of FizzBuzz, as a reference for FizzBuzzStep. */
  function FizzBuzzSpec(i: int): string
  {
    if i % 15 == 0 then "FizzBuzz"
    else if i % 3 == 0 then "Fizz"
    else if i % 5 == 0 then "Buzz"
    else Decimal.IntToString(i)
  }

  /** The k-th value of fizzbuzz() (k >= 1) is the usual FizzBuzz answer for k. */
  lemma FizzBuzzAgrees(k: nat)
    requires k >= 1
    ensures FizzBuzz().at(k - 1) == FizzBuzzSpec(k)
  {
    if k % 15 == 0 {
      assert k % 3 == 0 && k % 5 == 0;
    } else if k % 3 == 0 {
      assert k % 5 != 0;
    } else if k % 5 == 0 {
      assert k % 3 != 0;
    }
  }

  /** The first six values that test_04 prints. */
  lemma FizzBuzzFirstSix()
    ensures FizzBuzz().at(0) == "1" && FizzBuzz().at(1) == "2" && FizzBuzz().at(2) == "Fizz"
    ensures FizzBuzz().at(3) == "4" && FizzBuzz().at(4) == "Buzz" && FizzBuzz().at(5) == "Fizz"
  {
  }
}
