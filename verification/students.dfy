/**
 * The "maximum score of a year" examples of Ranges_02 and Ranges_Ex_02. Every version keeps
 * the students of the year, projects their scores and takes the largest; they differ in what
 * they return when no student of the year exists (-1 in views1_17 and views1_23 of Ranges_02,
 * 0 elsewhere). getMaxScoreAlternate instead starts a running maximum at 0, so it can never
 * be negative. Scores are unbounded integers here.
 */
module Students {
  import opened Views
  import Decimal
  import opened Wrappers

  datatype Student = Student(name: string, year: int, score: int)

  /** `[=](const auto& s) { return s.m_year == year; }` */
  function ByYear(year: int): Student -> bool
  {
    (s: Student) => s.year == year
  }

  /** `&Student::m_score` */
  function Score(s: Student): int { s.score }

  /** filter(byYear) | transform(&Student::m_score) */
  function ScoresOf(students: seq<Student>, year: int): (r: seq<int>)
    ensures |r| <= |students|
  {
    Map(Score, Filter(ByYear(year), students))
  }

  /** m is an element of r and no element of r exceeds it. */
  predicate IsMaxOf(m: int, r: seq<int>)
  {
    m in r && forall i :: 0 <= i < |r| ==> r[i] <= m
  }

  /**
   * The `maxValue` lambda: `max_element` and, when the range is empty, the fallback value
   * (-1 or 0, depending on the example).
   */
  function MaxValue(r: seq<int>, fallback: int): (m: int)
    ensures r == [] ==> m == fallback
    ensures r != [] ==> IsMaxOf(m, r)
  {
    if r == [] then fallback
    else if |r| == 1 then r[0]
    else
      var m := MaxValue(r[..|r| - 1], fallback);
      assert forall i :: 0 <= i < |r| - 1 ==> r[..|r| - 1][i] == r[i];
      if r[|r| - 1] > m then r[|r| - 1] else m
  }

  /** A sequence has at most one maximum. */
  lemma MaxUnique(a: int, b: int, r: seq<int>)
    requires IsMaxOf(a, r) && IsMaxOf(b, r)
    ensures a == b
  {
    var i :| 0 <= i < |r| && r[i] == a;
    var j :| 0 <= j < |r| && r[j] == b;
  }

  /**
   * getMaxScore of every version: the highest score among the students of the year, or the
   * version's fallback (-1 or 0) when there is none.
   */
  function GetMaxScore(students: seq<Student>, year: int, fallback: int): (m: int)
  {
    MaxValue(ScoresOf(students, year), fallback)
  }

  /** The scores kept are exactly those of the students of the year. */
  lemma {:induction false} ScoresOfMembers(students: seq<Student>, year: int, x: int)
    ensures x in ScoresOf(students, year) <==>
      exists i :: 0 <= i < |students| && students[i].year == year && students[i].score == x
    decreases |students|
  {
    if students != [] {
      ScoresOfMembers(students[1..], year, x);
      var s0 := students[0];
      if s0.year == year {
        assert Filter(ByYear(year), students) == [s0] + Filter(ByYear(year), students[1..]);
        assert ScoresOf(students, year) == [s0.score] + ScoresOf(students[1..], year);
      } else {
        assert ScoresOf(students, year) == ScoresOf(students[1..], year);
      }
      if exists i :: 0 <= i < |students| && students[i].year == year && students[i].score == x {
        var i :| 0 <= i < |students| && students[i].year == year && students[i].score == x;
        if i > 0 {
          assert students[1..][i - 1] == students[i];
        }
      }
      if exists i :: 0 <= i < |students| - 1 && students[1..][i].year == year && students[1..][i].score == x {
        var i :| 0 <= i < |students| - 1 && students[1..][i].year == year && students[1..][i].score == x;
        assert students[i + 1] == students[1..][i];
      }
    }
  }

  /**
   * What getMaxScore promises, in terms of the students: with a student of the year, the
   * result is one of their scores and no student of the year scored more; without one, it is
   * the fallback.
   */
  lemma GetMaxScoreMeaning(students: seq<Student>, year: int, fallback: int)
    ensures (forall i :: 0 <= i < |students| ==> students[i].year != year) ==>
      GetMaxScore(students, year, fallback) == fallback
    ensures (exists i :: 0 <= i < |students| && students[i].year == year) ==>
      (exists i :: 0 <= i < |students| && students[i].year == year &&
         students[i].score == GetMaxScore(students, year, fallback)) &&
      (forall i :: 0 <= i < |students| && students[i].year == year ==>
         students[i].score <= GetMaxScore(students, year, fallback))
  {
    var r := ScoresOf(students, year);
    var m := GetMaxScore(students, year, fallback);
    if r != [] {
      ScoresOfMembers(students, year, m);
      forall i | 0 <= i < |students| && students[i].year == year
        ensures students[i].score <= m
      {
        ScoresOfMembers(students, year, students[i].score);
      }
    } else if exists i :: 0 <= i < |students| && students[i].year == year {
      var i :| 0 <= i < |students| && students[i].year == year;
      ScoresOfMembers(students, year, students[i].score);
      assert false;
    }
  }

  lemma ScoresOfSnoc(students: seq<Student>, s: Student, year: int)
    ensures ScoresOf(students + [s], year) ==
      ScoresOf(students, year) + (if s.year == year then [s.score] else [])
  {
    FilterAppend(ByYear(year), students, [s]);
    assert [s][1..] == [];
    var a, b := Filter(ByYear(year), students), Filter(ByYear(year), [s]);
    assert Map(Score, a + b) == Map(Score, a) + Map(Score, b);
  }

  /**
   * getMaxScoreAlternate: one pass with `max_score = std::max(max_score, student.m_score)`
   * over the students of the year, starting from 0. The result is max(0, best score), and 0
   * when nobody of the year exists.
   */
  method GetMaxScoreAlternate(students: seq<Student>, year: int) returns (maxScore: int)
    ensures maxScore == Max(0, GetMaxScore(students, year, 0))
  {
    maxScore := 0;
    for i := 0 to |students|
      invariant maxScore == Max(0, GetMaxScore(students[..i], year, 0))
    {
      var s := students[i];
      assert students[..i + 1] == students[..i] + [s];
      ScoresOfSnoc(students[..i], s, year);
      var before := ScoresOf(students[..i], year);
      if s.year == year {
        assert (before + [s.score])[..|before|] == before;
        maxScore := Max(maxScore, s.score);
      } else {
        assert ScoresOf(students[..i + 1], year) == before;
      }
    }
    assert students[..|students|] == students;
  }

  /**
   * getMaxScore of views1_17 (fallback -1) and getMaxScoreAlternate return the same value
   * exactly when some student of the year exists and the best score is not negative.
   */
  lemma MaxScoreVersionsAgree(students: seq<Student>, year: int)
    ensures GetMaxScore(students, year, -1) == Max(0, GetMaxScore(students, year, 0)) <==>
      ScoresOf(students, year) != [] && GetMaxScore(students, year, -1) >= 0
  {
    var r := ScoresOf(students, year);
    if r != [] {
      MaxUnique(GetMaxScore(students, year, -1), GetMaxScore(students, year, 0), r);
    }
  }

  /** The fallback only matters when no student of the year exists. */
  lemma FallbackIrrelevant(students: seq<Student>, year: int, f1: int, f2: int)
    requires ScoresOf(students, year) != []
    ensures GetMaxScore(students, year, f1) == GetMaxScore(students, year, f2)
  {
    MaxUnique(GetMaxScore(students, year, f1), GetMaxScore(students, year, f2), ScoresOf(students, year));
  }

  /** The student list of the examples. */
  function Sample(): seq<Student>
  {
    [Student("Georg", 2021, 120), Student("Hans", 2021, 140), Student("Susan", 2020, 180),
     Student("Mike", 2020, 110), Student("Hello", 2021, 190), Student("Franz", 2021, 110)]
  }

  /** The scores of 2021 in the example list, in list order. */
  lemma SampleScoresOf2021(s: seq<Student>)
    requires s == Sample()
    ensures ScoresOf(s, 2021) == [120, 140, 190, 110]
  {
    var y := ByYear(2021);
    assert Filter(y, s[4..]) == [s[4], s[5]];
    assert Filter(y, s[2..]) == [s[4], s[5]];
    assert Filter(y, s) == [s[0], s[1], s[4], s[5]];
  }

  /** For 2021 every version answers 190; for a year without students they answer -1 or 0. */
  lemma SampleScores(s: seq<Student>)
    requires s == Sample()
    ensures GetMaxScore(s, 2021, -1) == 190
    ensures GetMaxScore(s, 2021, 0) == 190
    ensures GetMaxScore(s, 2019, -1) == -1
    ensures GetMaxScore(s, 2019, 0) == 0
  {
    var r := ScoresOf(s, 2021);
    SampleScoresOf2021(s);
    assert IsMaxOf(190, r) by { assert r[2] == 190; }
    MaxUnique(GetMaxScore(s, 2021, -1), 190, r);
    MaxUnique(GetMaxScore(s, 2021, 0), 190, r);
    SampleScoresOf2019(s);
  }

  /** Nobody in the example list is of 2019. */
  lemma SampleScoresOf2019(s: seq<Student>)
    requires s == Sample()
    ensures ScoresOf(s, 2019) == []
  {
    var y := ByYear(2019);
    assert Filter(y, s[4..]) == [];
    assert Filter(y, s[2..]) == [];
    assert Filter(y, s) == [];
  }

  /** numberToString: the decimal form of i between double quotes. */
  function NumberToString(i: int): (s: string)
    ensures |s| >= 3 && s[0] == '"' && s[|s| - 1] == '"'
  {
    "\"" + Decimal.IntToString(i) + "\""
  }

  /** Reading the quoted number back: the inverse of NumberToString. */
  function ParseQuoted(s: string): Option<int>
  {
    if |s| >= 2 && s[0] == '"' && s[|s| - 1] == '"' then Decimal.ParseInt(s[1..|s| - 1]) else None
  }

  /** Quoting loses nothing: the number can be read back, so distinct numbers give distinct strings. */
  lemma NumberToStringRoundTrip(i: int)
    ensures ParseQuoted(NumberToString(i)) == Some(i)
  {
    var s := NumberToString(i);
    assert s[1..|s| - 1] == Decimal.IntToString(i);
    Decimal.IntToStringRoundTrip(i);
  }
}
