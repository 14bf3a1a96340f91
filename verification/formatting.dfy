/**
 * The hand-written std::formatter pieces of Formatting_02 and Formatting_REVISED_02: the
 * Always* classes, the width parser of formatter<Always222> (formatter<SimpleClass> has the
 * same parse), the Color name mapping and SimpleClass. The format specification handed to
 * parse is the text after the ':' of a replacement field, up to the end of the format string.
 */
module Formatting {
  import opened Wrappers
  import opened Decimal

  // ---- the Always classes and SimpleClass ------------------------------------------------

  datatype Always = Always111 | Always222 | Always333 | Always444

  /** getValue of each class: the number in its name. */
  function GetValue(a: Always): (v: int)
    ensures 111 <= v <= 444 && v % 111 == 0
  {
    match a
    case Always111 => 111
    case Always222 => 222
    case Always333 => 333
    case Always444 => 444
  }

  /** Different classes report different values. */
  lemma GetValueInjective(a: Always, b: Always)
    ensures GetValue(a) == GetValue(b) <==> a == b
  {
  }

  datatype SimpleClass = SimpleClass(value: int)

  /** SimpleClass(): delegates to SimpleClass{0}. */
  function DefaultSimpleClass(): (s: SimpleClass)
    ensures GetSimpleValue(s) == 0
  {
    SimpleClass(0)
  }

  /** getValue: what the constructor stored. */
  function GetSimpleValue(s: SimpleClass): int { s.value }

  /** SimpleClass(v) followed by getValue() gives v back. */
  lemma SimpleClassRoundTrip(v: int)
    ensures GetSimpleValue(SimpleClass(v)) == v
    ensures SimpleClass(v) == DefaultSimpleClass() <==> v == 0
  {
  }

  // ---- the width parser ------------------------------------------------------------------

  /** std::format_error{"invalid format '<c>'"}. */
  datatype FormatError = InvalidFormat(c: char)

  /** The formatter's state: the field width parse has read. */
  datatype Formatter = Formatter(width: int)

  /** The formatter as constructed: width 0. */
  function NewFormatter(): (f: Formatter)
    ensures f.width == 0
  {
    Formatter(0)
  }

  /** The position of the first '}' of the specification, or its end. */
  function SpecEnd(spec: string): (k: nat)
    ensures k <= |spec|
    ensures k < |spec| ==> spec[k] == '}'
    ensures forall i :: 0 <= i < k ==> spec[i] != '}'
  {
    if spec == [] || spec[0] == '}' then 0 else 1 + SpecEnd(spec[1..])
  }

  /** The position of the first character that is not a decimal digit, or the end. */
  function FirstNonDigit(s: string): (k: nat)
    ensures k <= |s|
    ensures forall i :: 0 <= i < k ==> IsDigit(s[i])
    ensures k < |s| ==> !IsDigit(s[k])
  {
    if s == [] || !IsDigit(s[0]) then 0 else 1 + FirstNonDigit(s[1..])
  }

  /**
   * What parse promises: up to the first '}' (or the end) every character must be a digit,
   * else format_error names the first one that is not; on success the digits are appended
   * to the width the formatter already had, and the position of the '}' is returned.
   */
  function ParseSpec(f: Formatter, spec: string): Result<(Formatter, nat), FormatError>
  {
    var k := SpecEnd(spec);
    var j := FirstNonDigit(spec[..k]);
    if j < k then Err(InvalidFormat(spec[j]))
    else Ok((Formatter(AppendDigits(f.width, spec[..k])), k))
  }

  /** `width = width * 10 + digit` for each digit of s in turn, starting from w. */
  function AppendDigits(w: int, s: string): int
    requires AllDigits(s)
  {
    if s == [] then w else AppendDigits(w, s[..|s| - 1]) * 10 + DigitValue(s[|s| - 1])
  }

  /** The digits shift the old width left by their count and add their own value. */
  lemma {:induction false} AppendDigitsValue(w: int, s: string)
    requires AllDigits(s)
    ensures AppendDigits(w, s) == w * Pow10(|s|) + DigitsValue(s)
    decreases |s|
  {
    if s != [] {
      var p := s[..|s| - 1];
      AppendDigitsValue(w, p);
      calc {
        AppendDigits(w, s);
        AppendDigits(w, p) * 10 + DigitValue(s[|s| - 1]);
        (w * Pow10(|p|) + DigitsValue(p)) * 10 + DigitValue(s[|s| - 1]);
        w * (Pow10(|p|) * 10) + (DigitsValue(p) * 10 + DigitValue(s[|s| - 1]));
        w * Pow10(|s|) + DigitsValue(s);
      }
    }
  }

  /** parse, as the while loop of formatter<Always222> and formatter<SimpleClass> writes it. */
  method Parse(f: Formatter, spec: string) returns (r: Result<(Formatter, nat), FormatError>)
    ensures r == ParseSpec(f, spec)
  {
    var width := f.width;
    var pos := 0;
    while pos < |spec| && spec[pos] != '}'
      invariant 0 <= pos <= |spec|
      invariant forall i :: 0 <= i < pos ==> spec[i] != '}' && IsDigit(spec[i])
      invariant width == AppendDigits(f.width, spec[..pos])
      decreases |spec| - pos
    {
      if spec[pos] < '0' || spec[pos] > '9' {
        assert SpecEnd(spec) > pos;
        assert spec[..SpecEnd(spec)][..pos] == spec[..pos];
        FirstNonDigitAt(spec[..SpecEnd(spec)], pos);
        return Err(InvalidFormat(spec[pos]));
      }
      assert spec[..pos + 1][..pos] == spec[..pos];
      width := width * 10 + spec[pos] as int - '0' as int;
      pos := pos + 1;
    }
    SpecEndAt(spec, pos);
    FirstNonDigitAt(spec[..pos], pos);
    return Ok((Formatter(width), pos));
  }

  /** The first '}' is where the scan for one stops. */
  lemma SpecEndAt(spec: string, k: nat)
    requires k <= |spec| && (k < |spec| ==> spec[k] == '}')
    requires forall i :: 0 <= i < k ==> spec[i] != '}'
    ensures SpecEnd(spec) == k
  {
  }

  /** The first non-digit is where the scan for one stops. */
  lemma FirstNonDigitAt(s: string, k: nat)
    requires k <= |s| && (k < |s| ==> !IsDigit(s[k]))
    requires forall i :: 0 <= i < k ==> IsDigit(s[i])
    ensures FirstNonDigit(s) == k
  {
  }

  /** Nothing after the first '}' matters: parse stops there. */
  lemma ParseIgnoresRest(f: Formatter, spec: string, rest: string)
    requires SpecEnd(spec) < |spec|
    ensures ParseSpec(f, spec + rest) == ParseSpec(f, spec)
  {
    var k := SpecEnd(spec);
    var t := spec + rest;
    SpecEndAt(t, k);
    assert t[..k] == spec[..k];
    var j := FirstNonDigit(spec[..k]);
    assert SpecEnd(t) == k;
    assert FirstNonDigit(t[..k]) == j;
    if j < k {
      assert t[j] == spec[j];
      assert ParseSpec(f, t) == Err(InvalidFormat(spec[j]));
      assert ParseSpec(f, spec) == Err(InvalidFormat(spec[j]));
    } else {
      assert ParseSpec(f, t) == Ok((Formatter(AppendDigits(f.width, spec[..k])), k));
    }
  }

  /** Appending a + b digit by digit is appending a, then b. */
  lemma {:induction false} AppendDigitsConcat(w: int, a: string, b: string)
    requires AllDigits(a) && AllDigits(b)
    ensures AllDigits(a + b)
    ensures AppendDigits(AppendDigits(w, a), b) == AppendDigits(w, a + b)
    decreases |b|
  {
    if b == [] {
      assert a + b == a;
    } else {
      var p := b[..|b| - 1];
      AppendDigitsConcat(w, a, p);
      assert (a + b)[..|a + b| - 1] == a + p;
    }
  }

  /**
   * parse never resets the width: parsing the digits a and then, on the same formatter, the
   * digits b leaves the width that parsing a + b at once would.
   */
  lemma ParseAccumulates(f: Formatter, a: string, b: string)
    requires AllDigits(a) && AllDigits(b)
    ensures ParseSpec(f, a).Ok? && ParseSpec(ParseSpec(f, a).value.0, b).Ok?
    ensures ParseSpec(ParseSpec(f, a).value.0, b).value.0 == ParseSpec(f, a + b).value.0
  {
    AppendDigitsConcat(f.width, a, b);
    SpecEndAt(a, |a|);
    SpecEndAt(b, |b|);
    SpecEndAt(a + b, |a + b|);
    FirstNonDigitAt(a, |a|);
    FirstNonDigitAt(b, |b|);
    FirstNonDigitAt(a + b, |a + b|);
    assert a[..|a|] == a && b[..|b|] == b && (a + b)[..|a + b|] == a + b;
  }

  /**
   * The examples: an empty specification leaves the width at 0, "6}" sets it to 6 and stops
   * at the '}', parsing "6}" again on that formatter gives 66, and "x}" is rejected.
   */
  lemma ParseExamples()
    ensures ParseSpec(NewFormatter(), "") == Ok((Formatter(0), 0))
    ensures ParseSpec(NewFormatter(), "}") == Ok((Formatter(0), 0))
    ensures ParseSpec(NewFormatter(), "6}") == Ok((Formatter(6), 1))
    ensures ParseSpec(Formatter(6), "6}") == Ok((Formatter(66), 1))
    ensures ParseSpec(NewFormatter(), "x}") == Err(InvalidFormat('x'))
  {
    assert "6}"[..1] == "6";
    assert "x}"[..1] == "x";
    assert ""[..0] == "" && "}"[..0] == "";
  }

  // ---- the Color formatter ---------------------------------------------------------------

  /**
   * formatter<Color>::format: the enumerators red, green and blue (0, 1, 2) by name, any
   * other value n of the underlying int as "Color" followed by n.
   */
  function ColorName(c: int): (s: string)
    ensures c == 0 ==> s == "red"
    ensures c == 1 ==> s == "green"
    ensures c == 2 ==> s == "blue"
    ensures !(0 <= c <= 2) ==> |s| > 5 && s[..5] == "Color"
  {
    if c == 0 then "red"
    else if c == 1 then "green"
    else if c == 2 then "blue"
    else "Color" + IntToString(c)
  }

  /** Different colour values get different names. */
  lemma ColorNameInjective(a: int, b: int)
    ensures ColorName(a) == ColorName(b) <==> a == b
  {
    if ColorName(a) == ColorName(b) && !(0 <= a <= 2) && !(0 <= b <= 2) {
      var s := ColorName(a);
      assert s[5..] == IntToString(a) && s[5..] == IntToString(b);
      IntToStringInjective(a, b);
    }
  }
}
