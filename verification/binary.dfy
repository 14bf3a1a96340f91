/**
 * The binary-to-decimal example of Ranges_06 and Ranges_Ex_06: the digits are given most
 * significant first; the value is std::inner_product of the reversed digits with the powers
 * `1 << x` over iota(0, number of digits), starting from 0.
 */
module Binary {
  import opened Views

  /** `1 << x`, as an unbounded integer. */
  function Pow2(x: nat): (r: nat)
    ensures r >= 1
  {
    if x == 0 then 1 else 2 * Pow2(x - 1)
  }

  /** std::inner_product(a, a + |a|, b, init): init plus the sum of the products. */
  function InnerProduct(a: seq<int>, b: seq<int>, init: int): int
    requires |a| <= |b|
  {
    if a == [] then init else InnerProduct(a[1..], b[1..], init + a[0] * b[0])
  }

  /** The powers of two from 2^first up to, excluding, 2^last. */
  function Powers(first: nat, last: nat): (r: seq<int>)
    ensures |r| == if first < last then last - first else 0
    ensures forall i :: 0 <= i < |r| ==> r[i] == Pow2(first + i)
  {
    Map((x: int) => if x < 0 then 0 else Pow2(x), Iota(first, last))
  }

  /** example_02_binaryToDecimalConversion. */
  function BinaryValue(digits: seq<int>): int
  {
    InnerProduct(Reverse(digits), Powers(0, |digits|), 0)
  }

  /** The reference: Horner's rule on the digits, most significant first. */
  function Horner(digits: seq<int>): int
  {
    if digits == [] then 0 else 2 * Horner(digits[..|digits| - 1]) + digits[|digits| - 1]
  }

  /** The sum of a[i] * 2^(k+i). */
  function Weighted(a: seq<int>, k: nat): int
  {
    if a == [] then 0 else a[0] * Pow2(k) + Weighted(a[1..], k + 1)
  }

  lemma {:induction false} InnerProductIsWeighted(a: seq<int>, k: nat, init: int)
    ensures InnerProduct(a, Powers(k, k + |a|), init) == init + Weighted(a, k)
    decreases |a|
  {
    if a != [] {
      var p := Powers(k, k + |a|);
      assert p[1..] == Powers(k + 1, k + 1 + |a[1..]|);
      InnerProductIsWeighted(a[1..], k + 1, init + a[0] * p[0]);
    }
  }

  lemma {:induction false} WeightedShift(a: seq<int>, k: nat)
    ensures Weighted(a, k + 1) == 2 * Weighted(a, k)
    decreases |a|
  {
    if a != [] {
      WeightedShift(a[1..], k + 1);
    }
  }

  lemma ReverseSnoc(s: seq<int>, x: int)
    ensures Reverse(s + [x]) == [x] + Reverse(s)
  {
  }

  lemma BinaryValueIsWeighted(digits: seq<int>)
    ensures BinaryValue(digits) == Weighted(Reverse(digits), 0)
  {
    InnerProductIsWeighted(Reverse(digits), 0, 0);
  }

  /**
   * Weighting the reversed digits by increasing powers of two is Horner's rule: the value
   * the example computes is the number the digits denote in base 2.
   */
  lemma {:induction false} BinaryIsHorner(digits: seq<int>)
    ensures BinaryValue(digits) == Horner(digits)
    decreases |digits|
  {
    BinaryValueIsWeighted(digits);
    if digits != [] {
      var init, last := digits[..|digits| - 1], digits[|digits| - 1];
      var r := Reverse(init);
      assert Reverse(digits) == [last] + r by {
        assert digits == init + [last];
        ReverseSnoc(init, last);
      }
      assert Weighted([last] + r, 0) == last + Weighted(r, 1) by {
        assert ([last] + r)[1..] == r;
      }
      WeightedShift(r, 0);
      BinaryValueIsWeighted(init);
      BinaryIsHorner(init);
    }
  }

  /** [1, 1, 1, 0] is 14, and no digits give the initial value 0. */
  lemma Examples()
    ensures BinaryValue([1, 1, 1, 0]) == 14
    ensures BinaryValue([]) == 0
  {
    BinaryIsHorner([1, 1, 1, 0]);
    assert [1, 1, 1, 0][..3] == [1, 1, 1];
    assert [1, 1, 1][..2] == [1, 1];
    assert [1, 1][..1] == [1];
  }
}
