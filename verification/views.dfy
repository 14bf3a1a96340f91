/**
 * The standard range adaptors the examples compose (std::views::iota, filter, transform,
 * reverse, take, drop, join), modelled eagerly on finite sequences. A view in the examples
 * is lazy, but every pipeline is consumed completely by a for_each or a copy, so the
 * sequence it produces is all that can be observed.
 */
module Views {

  function Min(a: int, b: int): int { if a <= b then a else b }

  function Max(a: int, b: int): int { if a >= b then a else b }

  /** std::views::iota(first, last): first, first+1, ..., last-1; empty when first >= last. */
  function Iota(first: int, last: int): seq<int>
  {
    seq(if first < last then last - first else 0, i => first + i)
  }

  /** std::views::filter: the elements satisfying p, in their original order. */
  function Filter<T>(p: T -> bool, s: seq<T>): (r: seq<T>)
    ensures |r| <= |s|
    ensures forall i :: 0 <= i < |r| ==> p(r[i])
  {
    if s == [] then []
    else if p(s[0]) then [s[0]] + Filter(p, s[1..])
    else Filter(p, s[1..])
  }

  /** std::views::transform. */
  function Map<T, U>(f: T -> U, s: seq<T>): (r: seq<U>)
    ensures |r| == |s|
    ensures forall i :: 0 <= i < |s| ==> r[i] == f(s[i])
  {
    if s == [] then [] else [f(s[0])] + Map(f, s[1..])
  }

  /** std::views::reverse. */
  function Reverse<T>(s: seq<T>): seq<T>
  {
    seq(|s|, i requires 0 <= i < |s| => s[|s| - 1 - i])
  }

  /** std::views::take(n): the first n elements, or all of them when there are fewer. */
  function Take<T>(s: seq<T>, n: nat): (r: seq<T>)
    ensures |r| == Min(n, |s|)
    ensures r <= s
  {
    s[..Min(n, |s|)]
  }

  /** std::views::drop(n): everything after the first n elements, or nothing. */
  function Drop<T>(s: seq<T>, n: nat): (r: seq<T>)
    ensures |r| == |s| - Min(n, |s|)
    ensures forall i :: 0 <= i < |r| ==> r[i] == s[i + n]
  {
    s[Min(n, |s|)..]
  }

  /** std::views::join over a range of strings (or any range of sequences). */
  function Flatten<T>(parts: seq<seq<T>>): (r: seq<T>)
    ensures parts == [] ==> r == []
  {
    if parts == [] then [] else parts[0] + Flatten(parts[1..])
  }

  /** The total length of the parts: the number of elements join produces. */
  function TotalLength<T>(parts: seq<seq<T>>): nat
  {
    if parts == [] then 0 else |parts[0]| + TotalLength(parts[1..])
  }

  /** The `[](auto i) { return i % 2 == 0; }` lambda of the examples. */
  predicate IsEven(i: int) { i % 2 == 0 }

  /** An element survives the filter iff it was there and satisfies the predicate. */
  lemma {:induction false} FilterMembership<T>(p: T -> bool, s: seq<T>, x: T)
    ensures x in Filter(p, s) <==> x in s && p(x)
  {
    if s != [] {
      FilterMembership(p, s[1..], x);
      assert x in s <==> x == s[0] || x in s[1..];
    }
  }

  lemma ReverseCons<T>(x: T, s: seq<T>)
    ensures Reverse([x] + s) == Reverse(s) + [x]
  {
    var a, b := Reverse([x] + s), Reverse(s) + [x];
    assert |a| == |b|;
    forall i | 0 <= i < |a| ensures a[i] == b[i] {
      if i < |s| {
        assert a[i] == s[|s| - 1 - i];
      }
    }
  }

  lemma {:induction false} FilterAppend<T>(p: T -> bool, a: seq<T>, b: seq<T>)
    ensures Filter(p, a + b) == Filter(p, a) + Filter(p, b)
    decreases |a|
  {
    if a != [] {
      assert (a + b)[1..] == a[1..] + b;
      FilterAppend(p, a[1..], b);
    } else {
      assert a + b == b;
    }
  }

  /**
   * Filtering one more element at the end extends the result by that element exactly when it
   * satisfies the predicate: the kept elements stay in their original order.
   */
  lemma FilterSnoc<T>(p: T -> bool, s: seq<T>, x: T)
    ensures Filter(p, s + [x]) == Filter(p, s) + (if p(x) then [x] else [])
  {
    FilterAppend(p, s, [x]);
    assert [x][1..] == [];
  }

  /** Every value satisfying the predicate is kept as often as it occurs; no other value is. */
  lemma {:induction false} FilterCount<T>(p: T -> bool, s: seq<T>, x: T)
    ensures multiset(Filter(p, s))[x] == if p(x) then multiset(s)[x] else 0
  {
    if s != [] {
      FilterCount(p, s[1..], x);
      assert s == [s[0]] + s[1..];
      assert multiset(s) == multiset{s[0]} + multiset(s[1..]);
      if p(s[0]) {
        assert Filter(p, s) == [s[0]] + Filter(p, s[1..]);
        assert multiset(Filter(p, s)) == multiset{s[0]} + multiset(Filter(p, s[1..]));
      }
    }
  }

  /** When every element satisfies the predicate the filter changes nothing. */
  lemma {:induction false} FilterKeepsAll<T>(p: T -> bool, s: seq<T>)
    requires forall i :: 0 <= i < |s| ==> p(s[i])
    ensures Filter(p, s) == s
  {
    if s != [] {
      FilterKeepsAll(p, s[1..]);
      assert s == [s[0]] + s[1..];
    }
  }

  /** Filtering commutes with reversing (the commented-out alternative of example_04). */
  lemma {:induction false} FilterReverseCommute<T>(p: T -> bool, s: seq<T>)
    ensures Filter(p, Reverse(s)) == Reverse(Filter(p, s))
    decreases |s|
  {
    if s != [] {
      assert s == [s[0]] + s[1..];
      ReverseCons(s[0], s[1..]);
      FilterReverseCommute(p, s[1..]);
      FilterAppend(p, Reverse(s[1..]), [s[0]]);
      assert [s[0]][1..] == [];
      if p(s[0]) {
        assert Filter(p, s) == [s[0]] + Filter(p, s[1..]);
        ReverseCons(s[0], Filter(p, s[1..]));
      }
    }
  }

  lemma {:induction false} ReverseInvolution<T>(s: seq<T>)
    ensures Reverse(Reverse(s)) == s
  {
    var r := Reverse(Reverse(s));
    assert |r| == |s|;
    forall i | 0 <= i < |s| ensures r[i] == s[i] {
      assert r[i] == Reverse(s)[|s| - 1 - i];
    }
  }

  /** take(n) and drop(n) split a range without losing or repeating an element. */
  lemma TakeDrop<T>(s: seq<T>, n: nat)
    ensures Take(s, n) + Drop(s, n) == s
  {
  }

  lemma {:induction false} FlattenAppend<T>(a: seq<seq<T>>, b: seq<seq<T>>)
    ensures Flatten(a + b) == Flatten(a) + Flatten(b)
    ensures TotalLength(a + b) == TotalLength(a) + TotalLength(b)
    decreases |a|
  {
    if a == [] {
      assert a + b == b;
    } else {
      assert (a + b)[1..] == a[1..] + b;
      FlattenAppend(a[1..], b);
    }
  }

  lemma {:induction false} FlattenLength<T>(parts: seq<seq<T>>)
    ensures |Flatten(parts)| == TotalLength(parts)
  {
    if parts != [] {
      FlattenLength(parts[1..]);
    }
  }

  // ---- the pipelines of the example programs ------------------------------------------

  /** example_02 (reverse of 1..10). */
  lemma ReverseOneToTen()
    ensures Reverse(Iota(1, 11)) == [10, 9, 8, 7, 6, 5, 4, 3, 2, 1]
  {
    var r := Reverse(Iota(1, 11));
    assert forall i :: 0 <= i < 10 ==> r[i] == 10 - i;
  }

  /** example_04: filter even, then reverse. */
  lemma EvenThenReverse()
    ensures Reverse(Filter(IsEven, Iota(1, 11))) == [10, 8, 6, 4, 2]
  {
    FilterEvenIota(1, 11);
    var r := Reverse(Filter(IsEven, Iota(1, 11)));
    assert forall i :: 0 <= i < 5 ==> r[i] == 10 - 2 * i;
  }

  /** Filtering the even numbers out of 2k+1 .. 2m: 2k+2, 2k+4, ..., 2m. */
  lemma {:induction false} FilterEvenIota(first: int, last: int)
    requires first % 2 == 1 && last % 2 == 1 && first <= last
    ensures Filter(IsEven, Iota(first, last)) == seq((last - first) / 2, i => first + 1 + 2 * i)
    decreases last - first
  {
    if first < last {
      var s := Iota(first, last);
      assert s[1..] == Iota(first + 1, last);
      assert !IsEven(first);
      assert Filter(IsEven, s) == Filter(IsEven, s[1..]);
      var t := Iota(first + 1, last);
      assert t[1..] == Iota(first + 2, last);
      assert IsEven(first + 1);
      FilterEvenIota(first + 2, last);
      assert Filter(IsEven, t) == [first + 1] + Filter(IsEven, Iota(first + 2, last));
    }
  }

  /** example_05: drop 2, take 4, filter even. */
  lemma DropTakeFilter()
    ensures Filter(IsEven, Take(Drop(Iota(1, 11), 2), 4)) == [4, 6]
  {
    assert Iota(1, 11) == [1, 2, 3, 4, 5, 6, 7, 8, 9, 10];
    assert Take(Drop(Iota(1, 11), 2), 4) == [3, 4, 5, 6];
  }

  /** example_06: iota(1, 21) is 1..20. */
  lemma IotaOneToTwenty()
    ensures Iota(1, 21) == [1, 2, 3, 4, 5, 6, 7, 8, 9, 10, 11, 12, 13, 14, 15, 16, 17, 18, 19, 20]
  {
  }
}
