/**
 * The two variadic string concatenations of ConceptsExercises: both first add up the sizes
 * of the arguments; concat then reserves that many characters and appends the arguments one
 * after the other, while concatImproved allocates a buffer of exactly that many '\0'
 * characters and copies each argument to a running offset in it. The parameter pack is a
 * sequence of strings here.
 */
module Concat {
  import opened Views

  /** One more argument: its size and its characters are added at the end. */
  lemma PrefixStep(args: seq<string>, i: nat)
    requires i < |args|
    ensures TotalLength(args[..i + 1]) == TotalLength(args[..i]) + |args[i]| <= TotalLength(args)
    ensures Flatten(args[..i + 1]) == Flatten(args[..i]) + args[i]
  {
    assert args[..i + 1] == args[..i] + [args[i]];
    FlattenAppend(args[..i], [args[i]]);
    FlattenAppend(args[..i + 1], args[i + 1..]);
    assert args[..i + 1] + args[i + 1..] == args;
  }

  /** The first loop: `len += s.size()` for every argument. */
  method TotalSize(args: seq<string>) returns (len: nat)
    ensures len == TotalLength(args)
    ensures len == |Flatten(args)|
  {
    len := 0;
    for i := 0 to |args|
      invariant len == TotalLength(args[..i])
    {
      PrefixStep(args, i);
      len := len + |args[i]|;
    }
    assert args[..|args|] == args;
    FlattenLength(args);
  }

  /** concat: reserve len characters, then `result += s` for every argument. */
  method ConcatStrings(args: seq<string>) returns (result: string, reserved: nat)
    ensures result == Flatten(args)
    ensures reserved == |result| == TotalLength(args)
  {
    reserved := TotalSize(args);
    result := [];
    for i := 0 to |args|
      invariant result == Flatten(args[..i])
    {
      PrefixStep(args, i);
      result := result + args[i];
    }
    assert args[..|args|] == args;
  }

  /**
   * std::copy(begin(s), end(s), it) with `it` at offset `at`: the characters of s overwrite
   * buf[at..at + |s|] one by one; the buffer keeps its size and everything else.
   */
  method CopyAt(buf: string, at: nat, s: string) returns (out: string)
    requires at + |s| <= |buf|
    ensures |out| == |buf|
    ensures out[at..at + |s|] == s
    ensures out[..at] == buf[..at] && out[at + |s|..] == buf[at + |s|..]
  {
    out := buf;
    for k := 0 to |s|
      invariant |out| == |buf|
      invariant forall m :: 0 <= m < k ==> out[at + m] == s[m]
      invariant forall m :: 0 <= m < |buf| && !(at <= m < at + k) ==> out[m] == buf[m]
    {
      out := out[at + k := s[k]];
    }
    assert out[at..at + |s|] == s by {
      forall m | 0 <= m < |s|
        ensures out[at..at + |s|][m] == s[m]
      {
        assert out[at + m] == s[m];
      }
    }
  }

  /**
   * concatImproved: a buffer of len '\0' characters, each argument copied at a running
   * offset that then advances by its size. Every offset stays inside the buffer and the
   * buffer is filled exactly, so the result is the concatenation.
   */
  method ConcatImproved(args: seq<string>) returns (result: string)
    ensures result == Flatten(args)
    ensures |result| == TotalLength(args)
  {
    var len := TotalSize(args);
    result := seq(len, _ => '\0');
    var it: nat := 0;
    for i := 0 to |args|
      invariant |result| == len
      invariant it == TotalLength(args[..i]) <= len
      invariant result[..it] == Flatten(args[..i])
    {
      PrefixStep(args, i);
      var prev := result;
      result := CopyAt(result, it, args[i]);
      assert result[..it + |args[i]|] == prev[..it] + args[i] by {
        assert result[..it + |args[i]|] == result[..it] + result[it..it + |args[i]|];
      }
      it := it + |args[i]|;
    }
    assert args[..|args|] == args;
    assert result[..it] == result;
  }

  /** concat and concatImproved build the same string from the same arguments. */
  method ConcatVersionsAgree(args: seq<string>) returns (plain: string, improved: string)
    ensures plain == improved
    ensures |plain| == TotalLength(args)
  {
    var reserved;
    plain, reserved := ConcatStrings(args);
    improved := ConcatImproved(args);
  }

  /** Argument i of the pack sits at the offset the sizes of the arguments before it add up to. */
  lemma ArgumentAtOffset(args: seq<string>, i: nat)
    requires i < |args|
    ensures var at := TotalLength(args[..i]);
      at + |args[i]| <= |Flatten(args)| && Flatten(args)[at..at + |args[i]|] == args[i]
  {
    var a, b := args[..i], args[i + 1..];
    assert args == a + [args[i]] + b;
    FlattenAppend(a + [args[i]], b);
    FlattenAppend(a, [args[i]]);
    FlattenLength(a);
    var at := TotalLength(a);
    assert Flatten(args) == Flatten(a) + args[i] + Flatten(b);
  }

  /** testExercise_01a and 01b: four numbers separated by '/' and closed by '.'. */
  lemma SlashSeparatedNumbers(args: seq<string>)
    requires args == ["111", "/", "222", "/", "333", "/", "444", "."]
    ensures Flatten(args) == "111/222/333/444."
  {
    assert Flatten(args[6..]) == "444.";
    assert Flatten(args[4..]) == "333/444.";
    assert Flatten(args[2..]) == "222/333/444.";
  }

  /**
   * testExercise_01c: s2 and s4 are references to s1 and s3, so each of those strings is
   * passed twice; the last argument is "7" + "7" + "7".
   */
  lemma AliasedArguments(s1: string, s3: string, last: string)
    requires s1 == "111/" && s3 == "333/" && last == "7" + "7" + "7"
    ensures Flatten([s1, s1, s3, s3, "555/", last]) == "111/111/333/333/555/777"
  {
    var args := [s1, s1, s3, s3, "555/", last];
    assert Flatten(args[4..]) == "555/777";
    assert Flatten(args[2..]) == "333/333/555/777";
  }
}
