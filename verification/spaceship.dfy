/**
 * The comparison operators of SpaceshipOperator.cpp: a hand-written Point::operator== (with
 * != rewritten from it), the built-in three-way comparison on int, a defaulted
 * Point::operator<=>, a hand-written PointEx::operator<=> with a defaulted ==, and
 * Fraction::operator<=>, which answers `equal` only for identical members and otherwise
 * compares the cross products. `a @ b` for @ among < <= > >= is rewritten as `(a <=> b) @ 0`.
 * Members are unbounded integers (see the README for the int products).
 */
module Spaceship {

  /** std::strong_ordering. */
  datatype Ordering = Less | Equal | Greater

  /** The ordering of b <=> a, given that of a <=> b. */
  function Flip(o: Ordering): Ordering
  {
    match o
    case Less => Greater
    case Equal => Equal
    case Greater => Less
  }

  /** The relational operators a C++20 compiler rewrites into `(a <=> b) @ 0`. */
  datatype Relation = Lt | Le | Gt | Ge

  /** `(a <=> b) @ 0` for the ordering o = a <=> b. */
  function Holds(rel: Relation, o: Ordering): bool
  {
    match rel
    case Lt => o == Less
    case Le => o != Greater
    case Gt => o == Greater
    case Ge => o != Less
  }

  /** The built-in `a <=> b` on int. */
  function CompareInt(a: int, b: int): (o: Ordering)
    ensures o == Less <==> a < b
    ensures o == Equal <==> a == b
    ensures o == Greater <==> a > b
  {
    if a < b then Less else if a > b then Greater else Equal
  }

  /** test_20: for ints, `(a <=> b) < 0`, `> 0` and `== 0` are exactly a < b, a > b and a == b. */
  lemma IntRelations(a: int, b: int)
    ensures Holds(Lt, CompareInt(a, b)) <==> a < b
    ensures Holds(Le, CompareInt(a, b)) <==> a <= b
    ensures Holds(Gt, CompareInt(a, b)) <==> a > b
    ensures Holds(Ge, CompareInt(a, b)) <==> a >= b
    ensures CompareInt(b, a) == Flip(CompareInt(a, b))
  {
  }

  // ---- Point and PointEx ---------------------------------------------------------------

  datatype Point = Point(x: int, y: int)

  /** Point::operator== of Spaceship_01: both coordinates equal. */
  function PointEquals(p: Point, q: Point): (r: bool)
    ensures r <==> p == q
  {
    p.x == q.x && p.y == q.y
  }

  /** `p1 != p2`, which C++20 rewrites as `!(p1 == p2)`. */
  function PointNotEquals(p: Point, q: Point): (r: bool)
    ensures r <==> p != q
    ensures r == !PointEquals(q, p)
  {
    !PointEquals(p, q)
  }

  /** The defaulted Point::operator<=>: the members compared in declaration order. */
  function DefaultCompare(p: Point, q: Point): Ordering
  {
    var c := CompareInt(p.x, q.x);
    if c != Equal then c else CompareInt(p.y, q.y)
  }

  /**
   * The defaulted comparison is the lexicographic order on (x, y): less exactly when x is
   * smaller or x ties and y is smaller, equal exactly for equal points, and swapping the
   * operands flips the answer.
   */
  lemma DefaultCompareIsLexicographic(p: Point, q: Point)
    ensures DefaultCompare(p, q) == Less <==> p.x < q.x || (p.x == q.x && p.y < q.y)
    ensures DefaultCompare(p, q) == Equal <==> p == q
    ensures DefaultCompare(p, q) == Greater <==> p.x > q.x || (p.x == q.x && p.y > q.y)
    ensures DefaultCompare(q, p) == Flip(DefaultCompare(p, q))
  {
  }

  /** The defaulted comparison is transitive: it is a total order on points. */
  lemma DefaultCompareTransitive(p: Point, q: Point, r: Point)
    requires DefaultCompare(p, q) == Less && DefaultCompare(q, r) == Less
    ensures DefaultCompare(p, r) == Less
  {
    DefaultCompareIsLexicographic(p, q);
    DefaultCompareIsLexicographic(q, r);
    DefaultCompareIsLexicographic(p, r);
  }

  /** test_30: (1, 4) against (1, 5). */
  lemma Test30()
    ensures !PointEquals(Point(1, 4), Point(1, 5)) && PointNotEquals(Point(1, 4), Point(1, 5))
    ensures Holds(Lt, DefaultCompare(Point(1, 4), Point(1, 5)))
    ensures Holds(Le, DefaultCompare(Point(1, 4), Point(1, 5)))
    ensures !Holds(Gt, DefaultCompare(Point(1, 4), Point(1, 5)))
    ensures !Holds(Ge, DefaultCompare(Point(1, 4), Point(1, 5)))
  {
  }

  /** PointEx::operator<=>: x decides unless the x values tie, then y, else equal. */
  function PointExCompare(p: Point, q: Point): (o: Ordering)
    ensures o == Equal ==> p == q
  {
    if p.x < q.x then Less
    else if p.x > q.x then Greater
    else if p.y < q.y then Less
    else if p.y > q.y then Greater
    else Equal
  }

  /**
   * The hand-written PointEx comparison answers what the defaulted one would, and its
   * defaulted == (memberwise) holds exactly when <=> says equal.
   */
  lemma PointExAgrees(p: Point, q: Point)
    ensures PointExCompare(p, q) == DefaultCompare(p, q)
    ensures PointEquals(p, q) <==> PointExCompare(p, q) == Equal
  {
  }

  /** test_31: (1, 1) against (1, 2). */
  lemma Test31()
    ensures !PointEquals(Point(1, 1), Point(1, 2))
    ensures Holds(Lt, PointExCompare(Point(1, 1), Point(1, 2)))
    ensures Holds(Le, PointExCompare(Point(1, 1), Point(1, 2)))
    ensures !Holds(Gt, PointExCompare(Point(1, 1), Point(1, 2)))
    ensures !Holds(Ge, PointExCompare(Point(1, 1), Point(1, 2)))
  {
  }

  // ---- Fraction ------------------------------------------------------------------------

  datatype Fraction = Fraction(num: int, den: int)

  /** The default constructor: 0/1. */
  function DefaultFraction(): (f: Fraction)
    ensures f.num == 0 && f.den == 1
  {
    Fraction(0, 1)
  }

  /**
   * Fraction::operator<=>: equal for identical members; otherwise less when
   * num * other.denom < denom * other.num, and greater in every other case.
   */
  function FractionCompare(f: Fraction, g: Fraction): Ordering
  {
    if f.num == g.num && f.den == g.den then Equal
    else if f.num * g.den < f.den * g.num then Less
    else Greater
  }

  /** The rational number a fraction with a positive denominator stands for. */
  function Value(f: Fraction): real
    requires f.den > 0
  {
    (f.num as real) / (f.den as real)
  }

  /** Cross-multiplying by positive denominators preserves the order of the quotients. */
  lemma CrossMultiply(f: Fraction, g: Fraction)
    requires f.den > 0 && g.den > 0
    ensures Value(f) < Value(g) <==> f.num * g.den < g.num * f.den
    ensures Value(f) == Value(g) <==> f.num * g.den == g.num * f.den
  {
    var a, b, c, d := f.num as real, f.den as real, g.num as real, g.den as real;
    var x, y := a / b, c / d;
    assert a == x * b && c == y * d;
    assert (f.num * g.den) as real == a * d == x * (b * d);
    assert (g.num * f.den) as real == c * b == y * (b * d);
    assert b * d > 0.0;
    if x < y {
      assert x * (b * d) < y * (b * d);
    } else if x == y {
    } else {
      assert x * (b * d) > y * (b * d);
    }
  }

  /**
   * What Fraction's <=> means: equal exactly for identical members; for distinct fractions
   * with positive denominators, less exactly when the first is the smaller rational number.
   */
  lemma FractionCompareMeaning(f: Fraction, g: Fraction)
    ensures FractionCompare(f, g) == Equal <==> f == g
    ensures f.den > 0 && g.den > 0 && f != g ==>
      (FractionCompare(f, g) == Less <==> Value(f) < Value(g)) &&
      (FractionCompare(f, g) == Greater <==> Value(f) >= Value(g))
  {
    if f.den > 0 && g.den > 0 {
      CrossMultiply(f, g);
      assert f.den * g.num == g.num * f.den;
    }
  }

  /**
   * Equivalent fractions that are not identical compare greater in both directions, so the
   * ordering is not antisymmetric: 1/2 > 2/4 and 2/4 > 1/2.
   */
  lemma NotAntisymmetric()
    ensures FractionCompare(Fraction(1, 2), Fraction(2, 4)) == Greater
    ensures FractionCompare(Fraction(2, 4), Fraction(1, 2)) == Greater
    ensures Value(Fraction(1, 2)) == Value(Fraction(2, 4))
  {
    CrossMultiply(Fraction(1, 2), Fraction(2, 4));
  }

  /** test_41: 1/7 against 3/7, with the defaulted (memberwise) == and the rewritten relations. */
  lemma Test41(f1: Fraction, f2: Fraction)
    requires f1 == Fraction(1, 7) && f2 == Fraction(3, 7)
    ensures f1 != f2
    ensures Holds(Lt, FractionCompare(f1, f2)) && Holds(Le, FractionCompare(f1, f2))
    ensures !Holds(Gt, FractionCompare(f1, f2)) && !Holds(Ge, FractionCompare(f1, f2))
    ensures Value(f1) < Value(f2)
  {
    CrossMultiply(f1, f2);
  }

  /** `f < g`, rewritten as `(f <=> g) < 0`: what std::set<Fraction> orders by. */
  predicate FractionLess(f: Fraction, g: Fraction)
  {
    Holds(Lt, FractionCompare(f, g))
  }

  /** With positive denominators, `<` is exactly the order of the rational values. */
  lemma FractionLessIsRational(f: Fraction, g: Fraction)
    requires f.den > 0 && g.den > 0
    ensures FractionLess(f, g) <==> Value(f) < Value(g)
  {
    FractionCompareMeaning(f, g);
    if f == g {
      assert !FractionLess(f, g);
    }
  }

  /**
   * With denominators of both signs `<` is not a strict weak ordering: it runs in a cycle,
   * so a std::set<Fraction> holding such fractions has no defined behaviour.
   */
  lemma MixedSignsCycle()
    ensures FractionLess(Fraction(0, 1), Fraction(1, 1))
    ensures FractionLess(Fraction(1, 1), Fraction(-1, -2))
    ensures FractionLess(Fraction(-1, -2), Fraction(0, 1))
  {
  }

  predicate PositiveDenominators(s: seq<Fraction>)
  {
    forall i :: 0 <= i < |s| ==> s[i].den > 0
  }

  /** The elements of a std::set<Fraction> in iteration order: strictly ascending by `<`. */
  predicate Ascending(s: seq<Fraction>)
    requires PositiveDenominators(s)
  {
    forall i, j :: 0 <= i < j < |s| ==> Value(s[i]) < Value(s[j])
  }

  /** The rational values a set holds. */
  function Values(s: seq<Fraction>): (r: set<real>)
    requires PositiveDenominators(s)
    ensures forall i :: 0 <= i < |s| ==> Value(s[i]) in r
    ensures forall v :: v in r ==> exists i :: 0 <= i < |s| && Value(s[i]) == v
  {
    set i | 0 <= i < |s| :: Value(s[i])
  }

  /**
   * std::set::insert: keep the order, and leave the set unchanged when it already holds an
   * element equivalent to f (neither is less than the other).
   */
  function Insert(s: seq<Fraction>, f: Fraction): (r: seq<Fraction>)
    requires PositiveDenominators(s) && f.den > 0
    ensures PositiveDenominators(r)
    ensures forall i :: 0 <= i < |r| ==> r[i] in s || r[i] == f
  {
    if s == [] then [f]
    else if FractionLess(f, s[0]) then [f] + s
    else if FractionLess(s[0], f) then [s[0]] + Insert(s[1..], f)
    else s
  }

  lemma ValuesCons(x: Fraction, s: seq<Fraction>)
    requires x.den > 0 && PositiveDenominators(s)
    ensures PositiveDenominators([x] + s)
    ensures Values([x] + s) == {Value(x)} + Values(s)
  {
    var r := [x] + s;
    forall v | v in Values(r) ensures v in {Value(x)} + Values(s) {
      var i :| 0 <= i < |r| && Value(r[i]) == v;
      if i > 0 { assert r[i] == s[i - 1]; }
    }
    forall v | v in Values(s) ensures v in Values(r) {
      var i :| 0 <= i < |s| && Value(s[i]) == v;
      assert r[i + 1] == s[i];
    }
    assert Value(r[0]) in Values(r);
  }

  /** A fraction below every value of an ascending set can go in front of it. */
  lemma AscendingCons(x: Fraction, s: seq<Fraction>)
    requires x.den > 0 && PositiveDenominators(s) && Ascending(s)
    requires forall v :: v in Values(s) ==> Value(x) < v
    ensures PositiveDenominators([x] + s) && Ascending([x] + s)
  {
    var r := [x] + s;
    forall i, j | 0 <= i < j < |r| ensures Value(r[i]) < Value(r[j]) {
      assert r[j] == s[j - 1];
      if i > 0 {
        assert r[i] == s[i - 1];
      } else {
        assert Value(s[j - 1]) in Values(s);
      }
    }
  }

  /** Inserting adds exactly the value of f to the values the set holds. */
  lemma {:induction false} InsertValues(s: seq<Fraction>, f: Fraction)
    requires PositiveDenominators(s) && f.den > 0
    ensures Values(Insert(s, f)) == Values(s) + {Value(f)}
    decreases |s|
  {
    if s == [] {
      ValuesCons(f, []);
    } else {
      FractionLessIsRational(f, s[0]);
      FractionLessIsRational(s[0], f);
      assert s == [s[0]] + s[1..];
      ValuesCons(s[0], s[1..]);
      if FractionLess(f, s[0]) {
        ValuesCons(f, s);
      } else if FractionLess(s[0], f) {
        InsertValues(s[1..], f);
        ValuesCons(s[0], Insert(s[1..], f));
      } else {
        assert Value(f) == Value(s[0]);
      }
    }
  }

  /** The rest of an ascending set is ascending and lies above its first element. */
  lemma AscendingTail(s: seq<Fraction>)
    requires PositiveDenominators(s) && s != [] && Ascending(s)
    ensures PositiveDenominators(s[1..]) && Ascending(s[1..])
    ensures forall v :: v in Values(s[1..]) ==> Value(s[0]) < v
  {
    var tail := s[1..];
    forall i, j | 0 <= i < j < |tail| ensures Value(tail[i]) < Value(tail[j]) {
      assert tail[i] == s[i + 1] && tail[j] == s[j + 1];
    }
    forall v | v in Values(tail) ensures Value(s[0]) < v {
      var i :| 0 <= i < |tail| && Value(tail[i]) == v;
      assert tail[i] == s[i + 1];
    }
  }

  /** Inserting into an ascending set keeps it ascending. */
  lemma {:induction false} InsertAscending(s: seq<Fraction>, f: Fraction)
    requires PositiveDenominators(s) && f.den > 0 && Ascending(s)
    ensures Ascending(Insert(s, f))
    decreases |s|
  {
    if s != [] {
      FractionLessIsRational(f, s[0]);
      FractionLessIsRational(s[0], f);
      AscendingTail(s);
      if FractionLess(f, s[0]) {
        assert s == [s[0]] + s[1..];
        ValuesCons(s[0], s[1..]);
        AscendingCons(f, s);
      } else if FractionLess(s[0], f) {
        InsertAscending(s[1..], f);
        InsertValues(s[1..], f);
        AscendingCons(s[0], Insert(s[1..], f));
      }
    }
  }

  /**
   * Inserting into an ascending set keeps it ascending and adds exactly the value of f to
   * the values it holds.
   */
  lemma InsertKeepsSet(s: seq<Fraction>, f: Fraction)
    requires PositiveDenominators(s) && f.den > 0 && Ascending(s)
    ensures Ascending(Insert(s, f))
    ensures Values(Insert(s, f)) == Values(s) + {Value(f)}
  {
    InsertAscending(s, f);
    InsertValues(s, f);
  }

  /** test_42: inserting 3/8, 1/7, 1/2 and 1/7 again gives 1/7, 3/8, 1/2. */
  lemma Test42()
    ensures Insert(Insert(Insert(Insert([], Fraction(3, 8)), Fraction(1, 7)), Fraction(1, 2)), Fraction(1, 7)) ==
      [Fraction(1, 7), Fraction(3, 8), Fraction(1, 2)]
  {
    var s1 := Insert([], Fraction(3, 8));
    assert s1 == [Fraction(3, 8)];
    var s2 := Insert(s1, Fraction(1, 7));
    assert s2 == [Fraction(1, 7), Fraction(3, 8)];
    var s3 := Insert(s2, Fraction(1, 2));
    assert s3 == [Fraction(1, 7), Fraction(3, 8), Fraction(1, 2)] by {
      assert s2[1..] == [Fraction(3, 8)];
      assert Insert(s2[1..], Fraction(1, 2)) == [Fraction(3, 8), Fraction(1, 2)];
    }
    assert Insert(s3, Fraction(1, 7)) == s3;
  }
}
