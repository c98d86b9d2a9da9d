/** Removal of trailing zeros from the fixed-point text of a number: the
    replacement of the regular expression `\.?0+$` by nothing, and the
    corrected form that only touches the fraction. */
module Trim {
  import opened Digits

  predicate AllZeros(s: seq<char>) {
    forall k :: 0 <= k < |s| ==> s[k] == '0'
  }

  /** The length of `s[..n]` without its trailing run of '0' characters. */
  function KeptLength(s: seq<char>, n: nat): (m: nat)
    requires n <= |s|
    ensures m <= n
    ensures forall k :: m <= k < n ==> s[k] == '0'
    ensures m == 0 || s[m - 1] != '0'
    decreases n
  {
    if n > 0 && s[n - 1] == '0' then KeptLength(s, n - 1) else n
  }

  /** The regular expression `\.?0+$` matches `s` from position `p` on: the
      rest of `s` is one or more zeros, possibly after one point. */
  predicate MatchesAt(s: seq<char>, p: int) {
    0 <= p < |s| && (AllZeros(s[p..]) || (s[p] == '.' && p + 1 < |s| && AllZeros(s[p + 1..])))
  }

  /** Replacing the match of `\.?0+$` by nothing: the trailing zeros go,
      and with them the point just before them. */
  function TrimZeros(s: seq<char>): seq<char> {
    var m := KeptLength(s, |s|);
    if m < |s| && m > 0 && s[m - 1] == '.' then s[..m - 1] else s[..m]
  }

  /** TrimZeros cuts `s` at the leftmost position where the regular
      expression matches, and leaves `s` whole when it matches nowhere. */
  lemma TrimZerosIsLeftmostMatch(s: seq<char>)
    ensures |TrimZeros(s)| <= |s| && TrimZeros(s) == s[..|TrimZeros(s)|]
    ensures forall q :: 0 <= q < |TrimZeros(s)| ==> !MatchesAt(s, q)
    ensures |TrimZeros(s)| < |s| ==> MatchesAt(s, |TrimZeros(s)|)
  {
    var m := KeptLength(s, |s|);
    var r := TrimZeros(s);
    if |r| < |s| {
      if |r| == m {
        assert AllZeros(s[m..]);
      } else {
        assert AllZeros(s[m..]) && s[m..] == s[|r| + 1..];
      }
    }
  }

  /** Stripping zeros stops at a last character that is not '0'. */
  lemma {:induction false} KeptLengthAfter(a: seq<char>, b: seq<char>, n: nat)
    requires a != [] && a[|a| - 1] != '0'
    requires n <= |b|
    ensures KeptLength(a + b, |a| + n) == |a| + KeptLength(b, n)
    decreases n
  {
    if n > 0 {
      assert (a + b)[|a| + n - 1] == b[n - 1];
      if b[n - 1] == '0' {
        KeptLengthAfter(a, b, n - 1);
      }
    } else {
      assert (a + b)[|a| - 1] == a[|a| - 1];
    }
  }

  /** The fraction after trimming: the point and the fraction digits up to
      the last nonzero one, or nothing when every fraction digit is '0'. */
  function FractionTail(fraction: seq<char>): seq<char> {
    var m := KeptLength(fraction, |fraction|);
    if m == 0 then [] else "." + fraction[..m]
  }

  /** Text ending in a point and a digit fraction loses the trailing
      zeros of the fraction, and the point when no digit is left. */
  lemma TrimAfterPoint(p: seq<char>, fraction: seq<char>)
    requires AllDigits(fraction) && |fraction| >= 1
    ensures TrimZeros(p + "." + fraction) == p + FractionTail(fraction)
  {
    var a := p + ".";
    var s := a + fraction;
    KeptLengthAfter(a, fraction, |fraction|);
    var m := KeptLength(fraction, |fraction|);
    assert KeptLength(s, |s|) == |a| + m;
    if m == 0 {
      assert s[|a| - 1] == '.';
      assert s[..|a| - 1] == p;
    } else {
      assert s[|a| + m - 1] == fraction[m - 1];
      assert s[..|a| + m] == p + ("." + fraction[..m]);
    }
  }

  /** On fixed-point text the trim keeps the sign, the integer digits and
      the fraction up to its last nonzero digit. */
  lemma TrimFixedText(negative: bool, integer: seq<char>, fraction: seq<char>)
    requires AllDigits(fraction) && |fraction| >= 1
    ensures TrimZeros(FixedText(negative, integer, fraction)) == Sign(negative) + integer + FractionTail(fraction)
  {
    TrimAfterPoint(Sign(negative) + integer, fraction);
  }

  /** `r` is `s` with only fraction zeros, and possibly the point at index
      `n`, cut from its end: the first `n` characters are kept, and `r`
      ends neither in the point nor, past index `n`, in a '0'. */
  predicate RemovesOnlyFractionZeros(s: seq<char>, r: seq<char>, n: nat) {
    n <= |r| <= |s| && r == s[..|r|] && 0 < |r|
    && r[|r| - 1] != '.' && (n < |r| ==> r[|r| - 1] != '0')
    && forall k :: |r| <= k < |s| && k != n ==> s[k] == '0'
  }

  /** What the trim removes from text ending in a point and a digit
      fraction: fraction zeros and the point, nothing before the point. */
  lemma TrimAfterPointRemoves(p: seq<char>, fraction: seq<char>)
    requires p != [] && p[|p| - 1] != '.'
    requires AllDigits(fraction) && |fraction| >= 1
    ensures RemovesOnlyFractionZeros(p + "." + fraction, TrimZeros(p + "." + fraction), |p|)
  {
    var s := p + "." + fraction;
    var n := |p|;
    TrimAfterPoint(p, fraction);
    var m := KeptLength(fraction, |fraction|);
    var r := TrimZeros(s);
    if m == 0 {
      assert r == p == s[..n];
    } else {
      assert r == p + "." + fraction[..m] == s[..n + 1 + m];
      assert r[|r| - 1] == fraction[m - 1];
    }
    forall k | |r| <= k < |s| && k != n ensures s[k] == '0' {
      assert s[k] == fraction[k - n - 1];
    }
  }

  /** The trim removes the trailing zeros of the fraction, and the point
      when no fraction digit is left, and nothing else: the sign and the
      integer digits stay, and the result ends neither in the point nor in
      a fraction zero. */
  lemma TrimFixedTextRemovesOnlyFractionZeros(negative: bool, integer: seq<char>, fraction: seq<char>)
    requires AllDigits(integer) && |integer| >= 1
    requires AllDigits(fraction) && |fraction| >= 1
    ensures RemovesOnlyFractionZeros(FixedText(negative, integer, fraction),
                                     TrimZeros(FixedText(negative, integer, fraction)),
                                     |Sign(negative)| + |integer|)
  {
    var p := Sign(negative) + integer;
    assert p[|p| - 1] == integer[|integer| - 1];
    TrimAfterPointRemoves(p, fraction);
  }

  /** The fixed-point text of a number has nothing but digits after its
      point. */
  predicate FractionIsDigits(s: seq<char>) {
    FirstDot(s) < |s| && AllDigits(s[FirstDot(s) + 1..])
  }

  /** The trim as intended: trailing zeros are removed only from a
      fraction made of digits; any other text is left as it is. */
  function TrimFraction(s: seq<char>): (r: seq<char>)
    ensures |r| <= |s| && r == s[..|r|]
    ensures |r| >= FirstDot(s)
    ensures FractionIsDigits(s) ==> r == TrimZeros(s)
    ensures !FractionIsDigits(s) ==> r == s
  {
    if FractionIsDigits(s) then TrimZeros(s) else s
  }

  /** On fixed-point text the intended trim and the regular expression
      agree. */
  lemma TrimFractionOnFixedText(negative: bool, integer: seq<char>, fraction: seq<char>)
    requires AllDigits(integer) && AllDigits(fraction)
    ensures TrimFraction(FixedText(negative, integer, fraction)) == TrimZeros(FixedText(negative, integer, fraction))
  {
    var s := FixedText(negative, integer, fraction);
    FirstDotOfFixedText(negative, integer, fraction);
    assert s[FirstDot(s) + 1..] == fraction;
  }
}
