/** The text of a number in a result slot: "0" for zero, the exponential
    text for magnitudes below one millionth, and otherwise the fixed-point
    text with six fraction digits, trailing zeros removed and thousands
    separators in the integer part. The fixed-point and exponential texts
    come from the runtime and are inputs here. */
module Format {
  import opened Digits
  import opened Trim
  import opened Separators
  import opened Units
  import opened Conversion

  /** One millionth, below which a nonzero magnitude is written in
      exponential notation. */
  const Micro: real := 0.000001

  /** `s[i..]` cut at every point. */
  function SplitFrom(s: seq<char>, i: nat): (parts: seq<seq<char>>)
    requires i <= |s|
    ensures |parts| >= 1
    decreases |s| - i
  {
    var k := DotFrom(s, i);
    if k == |s| then [s[i..]] else [s[i..k]] + SplitFrom(s, k + 1)
  }

  /** `s` cut at every point. */
  function SplitDots(s: seq<char>): (parts: seq<seq<char>>)
    ensures |parts| >= 1
  {
    SplitFrom(s, 0)
  }

  /** No part of a split contains a point. */
  lemma {:induction false} SplitFromParts(s: seq<char>, i: nat)
    requires i <= |s|
    ensures forall n :: 0 <= n < |SplitFrom(s, i)| ==> '.' !in SplitFrom(s, i)[n]
    decreases |s| - i
  {
    var k := DotFrom(s, i);
    DotFromIsFirst(s, i);
    assert '.' !in s[i..k];
    if k < |s| {
      SplitFromParts(s, k + 1);
    }
  }

  /** No part of a split contains a point. */
  lemma SplitDotsParts(s: seq<char>)
    ensures forall n :: 0 <= n < |SplitDots(s)| ==> '.' !in SplitDots(s)[n]
  {
    SplitFromParts(s, 0);
  }

  /** The parts put back together with a point between each two. */
  function JoinDots(parts: seq<seq<char>>): seq<char>
    requires |parts| >= 1
    decreases |parts|
  {
    if |parts| == 1 then parts[0] else parts[0] + "." + JoinDots(parts[1..])
  }

  lemma JoinDotsCons(first: seq<char>, rest: seq<seq<char>>)
    requires |rest| >= 1
    ensures JoinDots([first] + rest) == first + "." + JoinDots(rest)
  {
    assert ([first] + rest)[1..] == rest;
  }

  /** A text is the text before index `k`, the point at `k`, and the text
      after it. */
  lemma AroundPoint(s: seq<char>, i: nat, k: nat)
    requires i <= k < |s| && s[k] == '.'
    ensures s[i..] == s[i..k] + "." + s[k + 1..]
  {
  }

  /** Joining the parts of a split gives back the text. */
  lemma {:induction false} JoinSplitFrom(s: seq<char>, i: nat)
    requires i <= |s|
    ensures JoinDots(SplitFrom(s, i)) == s[i..]
    decreases |s| - i
  {
    var k := DotFrom(s, i);
    if k < |s| {
      var rest := SplitFrom(s, k + 1);
      assert SplitFrom(s, i) == [s[i..k]] + rest;
      JoinDotsCons(s[i..k], rest);
      JoinSplitFrom(s, k + 1);
      AroundPoint(s, i, k);
    }
  }

  /** Joining the parts of a split gives back the text. */
  lemma JoinSplit(s: seq<char>)
    ensures JoinDots(SplitDots(s)) == s
  {
    JoinSplitFrom(s, 0);
  }

  /** Separators put into the part before the first point, the other
      parts joined back unchanged. */
  function AddSeparators(s: seq<char>): seq<char> {
    var parts := SplitDots(s);
    JoinDots([Separate(parts[0])] + parts[1..])
  }

  /** Only the text before the first point gets separators; the point and
      everything after it are left unchanged. */
  lemma AddSeparatorsToIntegerPart(s: seq<char>)
    ensures AddSeparators(s) == Separate(s[..FirstDot(s)]) + s[FirstDot(s)..]
  {
    var k := FirstDot(s);
    if k < |s| {
      var rest := SplitFrom(s, k + 1);
      assert SplitFrom(s, 0) == [s[0..k]] + rest;
      assert s[0..k] == s[..k];
      assert SplitDots(s)[1..] == rest;
      JoinDotsCons(Separate(s[..k]), rest);
      JoinSplitFrom(s, k + 1);
      AroundPoint(s, k, k);
    } else {
      assert SplitFrom(s, 0) == [s[0..]] && s[0..] == s[..k];
      assert [Separate(s[..k])] + SplitDots(s)[1..] == [Separate(s[..k])];
      assert s[k..] == [];
    }
  }

  /** The number text as the source writes it: the trailing zeros of the
      fixed-point text are removed by the regular expression alone. */
  function FormatNumberAsWritten(num: real, fixed: seq<char>, exponential: seq<char>): seq<char> {
    if num == 0.0 then "0"
    else if Abs(num) < Micro then exponential
    else AddSeparators(TrimZeros(fixed))
  }

  /** The number text with the trim applied to the fraction only. */
  function FormatNumber(num: real, fixed: seq<char>, exponential: seq<char>): seq<char> {
    if num == 0.0 then "0"
    else if Abs(num) < Micro then exponential
    else AddSeparators(TrimFraction(fixed))
  }

  /** Zero is written "0", a nonzero magnitude below one millionth in
      exponential text, anything else from the fixed-point text; the
      integer digits of fixed-point text are kept, grouped in threes, and
      the fraction loses its trailing zeros (and its point when nothing is
      left). On such text the source's trim gives the same. */
  lemma {:induction false} FormatFixedText(num: real, negative: bool, integer: seq<char>, fraction: seq<char>, exponential: seq<char>)
    requires Abs(num) >= Micro
    requires AllDigits(integer) && |integer| >= 1
    requires AllDigits(fraction) && |fraction| >= 1
    ensures FormatNumber(num, FixedText(negative, integer, fraction), exponential)
         == Sign(negative) + Group(integer) + FractionTail(fraction)
    ensures FormatNumberAsWritten(num, FixedText(negative, integer, fraction), exponential)
         == FormatNumber(num, FixedText(negative, integer, fraction), exponential)
  {
    var s := FixedText(negative, integer, fraction);
    TrimFractionOnFixedText(negative, integer, fraction);
    TrimFixedText(negative, integer, fraction);
    var t := Sign(negative) + integer + FractionTail(fraction);
    assert TrimFraction(s) == t;
    FirstDotAfterInteger(negative, integer, FractionTail(fraction));
    AddSeparatorsToIntegerPart(t);
    var n := |Sign(negative)| + |integer|;
    assert t[..n] == Sign(negative) + integer;
    assert t[n..] == FractionTail(fraction);
    SeparateSigned(negative, integer);
  }

  /** Zero is "0" and one ten-millionth is written in exponential text. */
  lemma FormatSmallExamples(fixed: seq<char>, exponential: seq<char>)
    ensures FormatNumber(0.0, fixed, exponential) == "0"
    ensures FormatNumber(0.0000001, fixed, exponential) == exponential
  {
  }

  lemma FractionTailOfHalf()
    ensures FractionTail("500000") == ".5"
  {
    assert KeptLength("500000", 6) == 1;
    assert "500000"[..1] == "5";
  }

  lemma GroupOfSevenDigits()
    ensures Group("1234567") == "1,234,567"
  {
    assert "1234567"[..4] == "1234";
    assert "1234"[..1] == "1";
    assert "1234567"[4..] == "567";
    assert "1234"[1..] == "234";
  }

  lemma ExampleIsFixedText()
    ensures "1234567.500000" == FixedText(false, "1234567", "500000")
    ensures AllDigits("1234567") && AllDigits("500000")
  {
  }

  lemma ExampleLayout(exponential: seq<char>)
    ensures FormatNumber(1234567.5, "1234567.500000", exponential)
         == Sign(false) + Group("1234567") + FractionTail("500000")
  {
    ExampleIsFixedText();
    FormatFixedText(1234567.5, false, "1234567", "500000", exponential);
  }

  lemma GroupedExampleText()
    ensures Sign(false) + Group("1234567") + FractionTail("500000") == "1,234,567.5"
  {
    FractionTailOfHalf();
    GroupOfSevenDigits();
  }

  /** 1234567.5, whose fixed-point text is "1234567.500000", is written
      "1,234,567.5". */
  lemma FormatGroupedExample(exponential: seq<char>)
    ensures FormatNumber(1234567.5, "1234567.500000", exponential) == "1,234,567.5"
  {
    ExampleLayout(exponential);
    GroupedExampleText();
  }

  /** Text with no point and no trailing zero problem: the separators
      leave text without three digits in a row unchanged. */
  lemma {:induction false} SeparateShortRuns(s: seq<char>)
    requires forall i :: 0 <= i <= |s| ==> DigitRun(s, i) < 3
    ensures Separate(s) == s
  {
    SeparateUpToNoCommas(s, |s|);
  }

  lemma TrimOfLargeText()
    ensures TrimZeros("1e+30") == "1e+3"
  {
    assert KeptLength("1e+30", 5) == 4;
    assert "1e+30"[..4] == "1e+3";
  }

  /** Text without a point and without a run of three digits gets no
      separators. */
  lemma AddNoSeparators(s: seq<char>)
    requires forall j :: 0 <= j < |s| ==> s[j] != '.'
    requires forall i :: 0 <= i <= |s| ==> DigitRun(s, i) < 3
    ensures AddSeparators(s) == s
  {
    FirstDotPast(s, []);
    assert s + [] == s;
    SeparateShortRuns(s);
    AddSeparatorsToIntegerPart(s);
  }

  lemma LargeTextsKeepTheirSeparators()
    ensures AddSeparators("1e+3") == "1e+3"
    ensures AddSeparators("1e+30") == "1e+30"
  {
    forall i | 0 <= i <= 4 ensures DigitRun("1e+3", i) < 3 {
    }
    forall i | 0 <= i <= 5 ensures DigitRun("1e+30", i) < 3 {
    }
    AddNoSeparators("1e+3");
    AddNoSeparators("1e+30");
  }

  /** For magnitudes of 10^21 and more the fixed-point text of the runtime
      is exponential text such as "1e+30"; the source's trim then removes
      the last zero of the exponent, so 10^30 is shown as "1e+3", while
      the trim restricted to the fraction shows "1e+30". */
  lemma LargeNumberLosesExponentZero(exponential: seq<char>)
    ensures TrimZeros("1e+30") == "1e+3" && FirstDot("1e+30") == 5
    ensures FormatNumberAsWritten(1000000000000000000000000000000.0, "1e+30", exponential) == "1e+3"
    ensures FormatNumber(1000000000000000000000000000000.0, "1e+30", exponential) == "1e+30"
  {
    TrimOfLargeText();
    FirstDotPast("1e+30", []);
    assert "1e+30" + [] == "1e+30";
    assert !FractionIsDigits("1e+30");
    LargeTextsKeepTheirSeparators();
  }

  /** 10^30 entered in square feet is an area source, so the square-feet
      slot is shown and holds 10^30: the source writes it "1e+3", the
      corrected formatting "1e+30". */
  lemma LargeAreaIsShown(exponential: seq<char>)
    ensures !Hidden(SqFeet, SqFeet)
    ensures Convert(Some(1000000000000000000000000000000.0), SqFeet, SqFeet) == Number(1000000000000000000000000000000.0)
    ensures FormatNumberAsWritten(1000000000000000000000000000000.0, "1e+30", exponential) == "1e+3"
    ensures Render(Convert(Some(1000000000000000000000000000000.0), SqFeet, SqFeet), "1e+30", exponential) == "1e+30"
  {
    LargeNumberLosesExponentZero(exponential);
  }

  /** The text of a result slot: the dash, "NaN", or the number text. */
  function Render(shown: Shown, fixed: seq<char>, exponential: seq<char>): seq<char> {
    match shown
    case Dash => "-"
    case NotANumber => "NaN"
    case Number(x) => FormatNumber(x, fixed, exponential)
  }

  /** With no value every slot reads "-". */
  lemma NoValueRendersDash(source: Unit, target: Unit, fixed: seq<char>, exponential: seq<char>)
    ensures Render(Convert(None, source, target), fixed, exponential) == "-"
  {
  }
}
