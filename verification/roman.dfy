/**
 * toRoman of Ranges_05 and Ranges_Ex_05: a greedy scan over thirteen (value, token) pairs in
 * descending order, appending a token and subtracting its value while the remaining value is
 * at least the pair's value. The examples feed it from iota/filter/reverse/take pipelines.
 */
module Roman {
  import opened Views

  datatype Numeral = Numeral(value: nat, token: string)

  /** The `romans` table, largest value first. */
  function Table(): (t: seq<Numeral>)
    ensures |t| == 13
  {
    [Numeral(1000, "M"), Numeral(900, "CM"), Numeral(500, "D"), Numeral(400, "CD"),
     Numeral(100, "C"), Numeral(90, "XC"), Numeral(50, "L"), Numeral(40, "XL"),
     Numeral(10, "X"), Numeral(9, "IX"), Numeral(5, "V"), Numeral(4, "IV"), Numeral(1, "I")]
  }

  /** The table is strictly descending and ends with the value 1. */
  lemma TableShape()
    ensures forall i, j :: 0 <= i < j < 13 ==> Table()[i].value > Table()[j].value
    ensures Table()[12].value == 1
  {
  }

  function ValueAt(k: nat): (v: nat)
    requires k < 13
    ensures v >= 1
  {
    Table()[k].value
  }

  /**
   * The positions of the pairs the greedy scan appends, starting at pair k with `value` left:
   * the inner while loop repeats pair k as long as it fits, then the for loop moves on.
   */
  function Emit(k: nat, value: int): (r: seq<nat>)
    requires k <= 13
    ensures forall i :: 0 <= i < |r| ==> k <= r[i] < 13
    decreases 13 - k, if value < 0 then 0 else value
  {
    if k == 13 then []
    else if value >= ValueAt(k) then [k] + Emit(k, value - ValueAt(k))
    else Emit(k + 1, value)
  }

  /** The tokens at the given positions, concatenated. */
  function Spell(ks: seq<nat>): string
    requires forall i :: 0 <= i < |ks| ==> ks[i] < 13
  {
    if ks == [] then "" else Table()[ks[0]].token + Spell(ks[1..])
  }

  /** The sum of the values at the given positions. */
  function Total(ks: seq<nat>): int
    requires forall i :: 0 <= i < |ks| ==> ks[i] < 13
  {
    if ks == [] then 0 else ValueAt(ks[0]) + Total(ks[1..])
  }

  /** toRoman(value). */
  function RomanOf(value: int): string
  {
    Spell(Emit(0, value))
  }

  /**
   * Reading the emitted tokens back gives the input: the values of the tokens emitted from
   * pair k onward add up to everything that is left, because the last pair has value 1.
   */
  lemma {:induction false} EmitTotal(k: nat, value: int)
    requires k <= 12 && value >= 0
    ensures Total(Emit(k, value)) == value
    decreases 13 - k, value
  {
    if value >= ValueAt(k) {
      EmitTotal(k, value - ValueAt(k));
      assert Emit(k, value)[1..] == Emit(k, value - ValueAt(k));
    } else if k < 12 {
      EmitTotal(k + 1, value);
    } else {
      assert value == 0;
    }
  }

  /** Nothing is emitted for a value that is not positive. */
  lemma {:induction false} EmitNonPositive(k: nat, value: int)
    requires k <= 13 && value <= 0
    ensures Emit(k, value) == []
    decreases 13 - k
  {
    if k < 13 {
      EmitNonPositive(k + 1, value);
    }
  }

  /** The positions are non-decreasing, so the token values are non-increasing. */
  lemma {:induction false} EmitOrdered(k: nat, value: int)
    requires k <= 13
    ensures forall i, j :: 0 <= i < j < |Emit(k, value)| ==>
      Emit(k, value)[i] <= Emit(k, value)[j] &&
      ValueAt(Emit(k, value)[i]) >= ValueAt(Emit(k, value)[j])
    decreases 13 - k, if value < 0 then 0 else value
  {
    TableShape();
    if k < 13 {
      if value >= ValueAt(k) {
        EmitOrdered(k, value - ValueAt(k));
        var r := Emit(k, value);
        assert r[1..] == Emit(k, value - ValueAt(k));
        forall i, j | 0 <= i < j < |r| ensures r[i] <= r[j] {
          if i > 0 {
            assert r[i] == r[1..][i - 1] && r[j] == r[1..][j - 1];
          } else {
            assert r[j] == r[1..][j - 1];
          }
        }
      } else {
        EmitOrdered(k + 1, value);
      }
    }
  }

  /**
   * For a value of at least 0, the tokens toRoman emits add up to the value and come in
   * non-increasing order of value; for a value of at most 0 the result is empty.
   */
  lemma RomanOfMeaning(value: int)
    ensures value >= 0 ==> Total(Emit(0, value)) == value
    ensures forall i, j :: 0 <= i < j < |Emit(0, value)| ==>
      ValueAt(Emit(0, value)[i]) >= ValueAt(Emit(0, value)[j])
    ensures value <= 0 ==> RomanOf(value) == ""
  {
    if value >= 0 {
      EmitTotal(0, value);
    }
    EmitOrdered(0, value);
    if value <= 0 {
      EmitNonPositive(0, value);
    }
  }

  /** The two nested loops of toRoman, as written. */
  method ToRoman(value: int) returns (result: string)
    ensures result == RomanOf(value)
  {
    var v := value;
    result := "";
    for k := 0 to 13
      invariant result + Spell(Emit(k, v)) == RomanOf(value)
    {
      while v >= Table()[k].value
        invariant result + Spell(Emit(k, v)) == RomanOf(value)
        decreases v
      {
        var rest := Emit(k, v - ValueAt(k));
        assert Emit(k, v) == [k] + rest;
        assert Spell(Emit(k, v)) == Table()[k].token + Spell(rest);
        result := result + Table()[k].token;
        v := v - Table()[k].value;
      }
    }
  }

  /** Pairs too large for the value are skipped without emitting anything. */
  lemma {:induction false} EmitSkip(k: nat, j: nat, value: int)
    requires k <= j <= 13 && forall i :: k <= i < j ==> value < ValueAt(i)
    ensures Emit(k, value) == Emit(j, value)
    decreases j - k
  {
    if k < j {
      EmitSkip(k + 1, j, value);
    }
  }

  lemma RomanSeven(v: int)
    requires v == 7
    ensures RomanOf(v) == "VII"
  {
    EmitSeven(v);
    assert Spell([10, 12, 12]) == "VII";
  }

  lemma EmitSeven(v: int)
    requires v == 7
    ensures Emit(0, v) == [10, 12, 12]
  {
    assert Emit(12, v - 5) == [12, 12] by {
      EmitNonPositive(12, v - 7);
    }
    EmitSkip(0, 10, v);
    EmitSkip(10, 12, v - 5);
  }

  lemma RomanFourteen(v: int)
    requires v == 14
    ensures RomanOf(v) == "XIV"
  {
    EmitFourteen(v);
    assert Spell([8, 11]) == "XIV";
  }

  lemma EmitFourteen(v: int)
    requires v == 14
    ensures Emit(0, v) == [8, 11]
  {
    assert Emit(11, v - 10) == [11] by {
      EmitNonPositive(11, v - 14);
    }
    EmitSkip(0, 8, v);
    EmitSkip(8, 11, v - 10);
  }

  lemma RomanTwentyOne(v: int)
    requires v == 21
    ensures RomanOf(v) == "XXI"
  {
    EmitTwentyOne(v);
    assert Spell([8, 8, 12]) == "XXI";
  }

  lemma EmitTwentyOne(v: int)
    requires v == 21
    ensures Emit(0, v) == [8, 8, 12]
  {
    assert Emit(8, v - 20) == [12] by {
      EmitSkip(8, 12, v - 20);
      EmitNonPositive(12, v - 21);
    }
    EmitSkip(0, 8, v);
  }

  /** The `i % 7 == 0` lambda of example_08. */
  predicate DivisibleBySeven(i: int) { i % 7 == 0 }

  /**
   * example_08: iota(1, 22) | filter(i % 7 == 0) | transform(toRoman) | reverse | take(3)
   * gives XXI, XIV, VII.
   */
  lemma Example08(first: int, last: int)
    requires first == 1 && last == 22
    ensures Take(Reverse(Map(RomanOf, Filter(DivisibleBySeven, Iota(first, last)))), 3) == ["XXI", "XIV", "VII"]
  {
    SevensUpToTwentyOne(first, last);
    var sevens := Filter(DivisibleBySeven, Iota(first, last));
    assert Map(RomanOf, sevens) == ["VII", "XIV", "XXI"] by {
      RomanSeven(sevens[0]);
      RomanFourteen(sevens[1]);
      RomanTwentyOne(sevens[2]);
    }
    assert Reverse(["VII", "XIV", "XXI"]) == ["XXI", "XIV", "VII"];
  }

  /** The multiples of seven in iota(1, 22). */
  lemma SevensUpToTwentyOne(first: int, last: int)
    requires first == 1 && last == 22
    ensures Filter(DivisibleBySeven, Iota(first, last)) == [7, 14, 21]
  {
    IotaSplit(first, 8, last);
    IotaSplit(8, 15, last);
    SevenBlock(7);
    SevenBlock(14);
    SevenBlock(21);
    FilterAppend(DivisibleBySeven, Iota(8, 15), Iota(15, last));
    FilterAppend(DivisibleBySeven, Iota(first, 8), Iota(8, last));
  }

  lemma IotaSplit(first: int, mid: int, last: int)
    requires first <= mid <= last
    ensures Iota(first, last) == Iota(first, mid) + Iota(mid, last)
  {
  }

  /** The seven numbers ending at a multiple of seven hold exactly that one multiple. */
  lemma SevenBlock(m: int)
    requires m % 7 == 0
    ensures Filter(DivisibleBySeven, Iota(m - 6, m + 1)) == [m]
  {
    IotaSplit(m - 6, m, m + 1);
    NoMultipleOfSeven(m - 6, m);
    assert Iota(m, m + 1) == [m];
    FilterAppend(DivisibleBySeven, Iota(m - 6, m), [m]);
  }

  /** Between two consecutive multiples of seven the filter keeps nothing. */
  lemma NoMultipleOfSeven(first: int, last: int)
    requires first <= last && (forall i :: first <= i < last ==> i % 7 != 0)
    ensures Filter(DivisibleBySeven, Iota(first, last)) == []
  {
    var s := Iota(first, last);
    if Filter(DivisibleBySeven, s) != [] {
      var x := Filter(DivisibleBySeven, s)[0];
      FilterMembership(DivisibleBySeven, s, x);
      assert false;
    }
  }
}
