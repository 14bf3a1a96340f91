/**
 * The string helpers of Ranges_05 and Ranges_Ex_02: sizeOfRange, toVector / to_vector /
 * toString, std::views::split on a character or a string pattern, std::views::join, and
 * the string accumulation of example_strings_03.
 */
module TextViews {
  import opened Views

  // ---- sizeOfRange and materialisation ---------------------------------------------------

  /**
   * sizeOfRange: std::ranges::size for a sized range, otherwise std::distance from begin to
   * end, which walks the range once.
   */
  method SizeOfRange<T>(r: seq<T>, sized: bool) returns (n: nat)
    ensures n == |r|
  {
    if sized {
      n := |r|;
    } else {
      n := 0;
      var it := r;
      while it != []
        invariant |it| + n == |r|
        decreases |it|
      {
        it := it[1..];
        n := n + 1;
      }
    }
  }

  /** std::ranges::copy(r, std::back_inserter(dest)): push_back of every element in order. */
  method CopyBackInserter<T>(dest: seq<T>, r: seq<T>) returns (out: seq<T>)
    ensures out == dest + r
  {
    out := dest;
    for i := 0 to |r|
      invariant out == dest + r[..i]
    {
      assert r[..i + 1] == r[..i] + [r[i]];
      out := out + [r[i]];
    }
    assert r[..|r|] == r;
  }

  /**
   * toVector of Ranges_05 (toString there is the same template on characters): reserve the
   * element count, whichever way it is obtained, then copy. The result holds the elements
   * of the range in order; `reserved` is the capacity requested.
   */
  method ToVector<T>(r: seq<T>, sized: bool) returns (v: seq<T>, reserved: nat)
    ensures v == r && |v| == |r|
    ensures reserved == |r|
  {
    reserved := SizeOfRange(r, sized);
    v := CopyBackInserter([], r);
  }

  /** to_vector of Ranges_Ex_02: reserves only for a sized range, then copies. */
  method ToVectorSizedOnly<T>(r: seq<T>, sized: bool) returns (v: seq<T>, reserved: nat)
    ensures v == r && |v| == |r|
    ensures reserved == if sized then |r| else 0
  {
    reserved := 0;
    if sized {
      reserved := |r|;
    }
    v := CopyBackInserter([], r);
  }

  // ---- std::views::split -----------------------------------------------------------------

  /**
   * The pieces of a non-empty input between the leftmost, non-overlapping occurrences of the
   * pattern: a match ends the current piece and starts a new one, so k matches give k + 1
   * pieces (a trailing match gives a trailing empty piece).
   */
  function Pieces<T(==)>(s: seq<T>, pattern: seq<T>): (r: seq<seq<T>>)
    requires pattern != []
    ensures |r| >= 1
    decreases |s|
  {
    if s == [] then [[]]
    else if pattern <= s then [[]] + Pieces(s[|pattern|..], pattern)
    else
      var rest := Pieces(s[1..], pattern);
      [[s[0]] + rest[0]] + rest[1..]
  }

  /** std::views::split(pattern): an empty input gives no piece at all. */
  function Split<T(==)>(s: seq<T>, pattern: seq<T>): (r: seq<seq<T>>)
    requires pattern != []
    ensures s == [] <==> r == []
  {
    if s == [] then [] else Pieces(s, pattern)
  }

  /** The reference: the parts with the pattern between each two of them. */
  function JoinWith<T>(parts: seq<seq<T>>, pattern: seq<T>): seq<T>
  {
    if parts == [] then []
    else if |parts| == 1 then parts[0]
    else parts[0] + pattern + JoinWith(parts[1..], pattern)
  }

  lemma JoinWithConsFirst<T>(x: T, a: seq<T>, t: seq<seq<T>>, pattern: seq<T>)
    ensures JoinWith([[x] + a] + t, pattern) == [x] + JoinWith([a] + t, pattern)
  {
    if t != [] {
      assert ([[x] + a] + t)[1..] == t;
      assert ([a] + t)[1..] == t;
    }
  }

  lemma JoinWithCons<T>(a: seq<T>, t: seq<seq<T>>, pattern: seq<T>)
    requires t != []
    ensures JoinWith([a] + t, pattern) == a + pattern + JoinWith(t, pattern)
  {
    assert ([a] + t)[1..] == t;
  }

  lemma PrefixSplit<T>(pattern: seq<T>, s: seq<T>)
    requires pattern <= s
    ensures s == pattern + s[|pattern|..]
  {
  }

  lemma PiecesJoinMatch<T>(s: seq<T>, pattern: seq<T>)
    requires pattern != [] && s != [] && pattern <= s
    requires JoinWith(Pieces(s[|pattern|..], pattern), pattern) == s[|pattern|..]
    ensures JoinWith(Pieces(s, pattern), pattern) == s
  {
    var t := s[|pattern|..];
    var rest := Pieces(t, pattern);
    calc {
      JoinWith(Pieces(s, pattern), pattern);
      JoinWith([[]] + rest, pattern);
      { JoinWithCons([], rest, pattern); }
      [] + pattern + JoinWith(rest, pattern);
      { assert [] + pattern == pattern; }
      pattern + t;
      { PrefixSplit(pattern, s); }
      s;
    }
  }

  lemma PiecesJoinNoMatch<T>(s: seq<T>, pattern: seq<T>)
    requires pattern != [] && s != [] && !(pattern <= s)
    requires JoinWith(Pieces(s[1..], pattern), pattern) == s[1..]
    ensures JoinWith(Pieces(s, pattern), pattern) == s
  {
    var t := s[1..];
    var rest := Pieces(t, pattern);
    assert Pieces(s, pattern) == [[s[0]] + rest[0]] + rest[1..];
    JoinWithConsFirst(s[0], rest[0], rest[1..], pattern);
    assert [rest[0]] + rest[1..] == rest;
    assert s == [s[0]] + t;
  }

  /** Splitting loses nothing: putting the pattern back between the pieces gives the input. */
  lemma {:induction false} PiecesJoin<T>(s: seq<T>, pattern: seq<T>)
    requires pattern != []
    ensures JoinWith(Pieces(s, pattern), pattern) == s
    decreases |s|
  {
    if s != [] {
      if pattern <= s {
        PiecesJoin(s[|pattern|..], pattern);
        PiecesJoinMatch(s, pattern);
      } else {
        PiecesJoin(s[1..], pattern);
        PiecesJoinNoMatch(s, pattern);
      }
    }
  }

  lemma SplitJoin<T>(s: seq<T>, pattern: seq<T>)
    requires pattern != []
    ensures JoinWith(Split(s, pattern), pattern) == s
  {
    PiecesJoin(s, pattern);
  }

  /** A word free of the pattern's first element is a single piece. */
  lemma {:induction false} PiecesOfWord<T>(w: seq<T>, pattern: seq<T>)
    requires pattern != [] && pattern[0] !in w
    ensures Pieces(w, pattern) == [w]
    decreases |w|
  {
    if w != [] {
      PiecesOfWord(w[1..], pattern);
      assert !(pattern <= w) by { assert w[0] != pattern[0]; }
      assert [w[0]] + w[1..] == w;
    }
  }

  /** Such a word followed by the pattern is one piece, and splitting goes on after it. */
  lemma {:induction false} PiecesAfterWord<T>(w: seq<T>, pattern: seq<T>, b: seq<T>)
    requires pattern != [] && pattern[0] !in w
    ensures Pieces(w + pattern + b, pattern) == [w] + Pieces(b, pattern)
    decreases |w|
  {
    var s := w + pattern + b;
    if w == [] {
      assert s == pattern + b;
      assert pattern <= s;
      assert s[|pattern|..] == b;
    } else {
      var w' := w[1..];
      assert !(pattern <= s) by { assert s[0] == w[0] != pattern[0]; }
      assert s[1..] == w' + pattern + b;
      PiecesAfterWord(w', pattern, b);
      var rest := Pieces(s[1..], pattern);
      assert rest[0] == w' && rest[1..] == Pieces(b, pattern);
      assert Pieces(s, pattern) == [[s[0]] + rest[0]] + rest[1..];
      assert [s[0]] + w' == w;
    }
  }

  /** Splitting words joined by the pattern gives the words back, when none holds its first element. */
  lemma {:induction false} SplitWords<T>(words: seq<seq<T>>, pattern: seq<T>)
    requires pattern != [] && words != []
    requires forall i :: 0 <= i < |words| ==> pattern[0] !in words[i]
    ensures Pieces(JoinWith(words, pattern), pattern) == words
    decreases |words|
  {
    if |words| == 1 {
      PiecesOfWord(words[0], pattern);
    } else {
      SplitWords(words[1..], pattern);
      PiecesAfterWord(words[0], pattern, JoinWith(words[1..], pattern));
      assert [words[0]] + words[1..] == words;
    }
  }

  /** The nine words of the pangram "The quick brown fox jumps over the lazy dog". */
  function PangramWords(): seq<string>
  {
    ["The", "quick", "brown", "fox", "jumps", "over", "the", "lazy", "dog"]
  }

  /**
   * example_strings_01: the pangram, its words joined by single spaces, splits on ' ' into
   * nine words; example_strings_02: joined by '-' instead, it splits on '-' into the same.
   */
  lemma PangramHasNineWords(words: seq<string>, sep: string)
    requires words == PangramWords() && (sep == " " || sep == "-")
    ensures Split(JoinWith(words, sep), sep) == words && |words| == 9
  {
    SplitWords(words, sep);
  }

  /** example_strings_04: six words joined by the three-character pattern "-_-" split back apart. */
  lemma SplitOnPattern(words: seq<string>, sep: string)
    requires words == ["Modern", "C++", "is", "really", "awesome", "!"] && sep == "-_-"
    ensures Split(JoinWith(words, sep), sep) == words
  {
    SplitWords(words, sep);
  }

  // ---- accumulate and join ---------------------------------------------------------------

  /** std::accumulate(first, last, acc) on strings: `acc = acc + word` for every word. */
  function ConcatFold(acc: string, words: seq<string>): string
    decreases |words|
  {
    if words == [] then acc else ConcatFold(acc + words[0], words[1..])
  }

  /** The left fold is the initial value followed by the flattening of the words. */
  lemma {:induction false} ConcatFoldIsFlatten(acc: string, words: seq<string>)
    ensures ConcatFold(acc, words) == acc + Flatten(words)
    decreases |words|
  {
    if words != [] {
      ConcatFoldIsFlatten(acc + words[0], words[1..]);
      assert Flatten(words) == words[0] + Flatten(words[1..]);
    }
  }

  /**
   * example_strings_03 (accumulate from an empty string) and example_strings_03a
   * (views::join, then toString) build the same text: the words one after the other.
   */
  lemma AccumulateEqualsJoin(words: seq<string>)
    ensures ConcatFold("", words) == Flatten(words)
    ensures |ConcatFold("", words)| == TotalLength(words)
  {
    ConcatFoldIsFlatten("", words);
    FlattenLength(words);
  }

  /** The words with the separator as an element of its own between each two of them. */
  function Interleave<T>(words: seq<seq<T>>, sep: seq<T>): (r: seq<seq<T>>)
    ensures |r| == if words == [] then 0 else 2 * |words| - 1
  {
    if |words| <= 1 then words else [words[0], sep] + Interleave(words[1..], sep)
  }

  /** Joining the interleaved elements is joining the words with the separator. */
  lemma {:induction false} FlattenInterleave<T>(words: seq<seq<T>>, sep: seq<T>)
    ensures Flatten(Interleave(words, sep)) == JoinWith(words, sep)
    decreases |words|
  {
    if |words| == 1 {
      assert Flatten(words) == words[0] + Flatten(words[1..]);
    } else if |words| > 1 {
      var rest := Interleave(words[1..], sep);
      FlattenInterleave(words[1..], sep);
      calc {
        Flatten(Interleave(words, sep));
        Flatten([words[0], sep] + rest);
        { assert ([words[0], sep] + rest)[1..] == [sep] + rest; assert ([sep] + rest)[1..] == rest; }
        words[0] + (sep + Flatten(rest));
        words[0] + sep + JoinWith(words[1..], sep);
      }
    }
  }

  /** The five words of the sentence "Lorem ipsum dolor sit amet". */
  function LoremIpsumWords(): seq<string>
  {
    ["Lorem", "ipsum", "dolor", "sit", "amet"]
  }

  /**
   * example_strings_03: accumulating the words and '.' separators from an empty string gives
   * the words joined by '.': "Lorem.ipsum.dolor.sit.amet".
   */
  lemma LoremIpsumAccumulated(words: seq<string>)
    requires words == ["Lorem", ".", "ipsum", ".", "dolor", ".", "sit", ".", "amet"]
    ensures ConcatFold("", words) == JoinWith(LoremIpsumWords(), ".")
  {
    AccumulateEqualsJoin(words);
    LoremIpsumInterleaved(words, ".");
  }

  /** example_strings_03a: joining the words and '-' separators: "Lorem-ipsum-dolor-sit-amet". */
  lemma LoremIpsumJoined(words: seq<string>)
    requires words == ["Lorem", "-", "ipsum", "-", "dolor", "-", "sit", "-", "amet"]
    ensures Flatten(words) == JoinWith(LoremIpsumWords(), "-")
  {
    LoremIpsumInterleaved(words, "-");
  }

  lemma LoremIpsumInterleaved(words: seq<string>, sep: string)
    requires words == ["Lorem", sep, "ipsum", sep, "dolor", sep, "sit", sep, "amet"]
    ensures Flatten(words) == JoinWith(LoremIpsumWords(), sep)
  {
    var five := LoremIpsumWords();
    assert Interleave(five[3..], sep) == ["sit", sep, "amet"];
    assert Interleave(five[1..], sep) == ["ipsum", sep, "dolor", sep, "sit", sep, "amet"];
    assert words == Interleave(five, sep);
    FlattenInterleave(five, sep);
  }
}
