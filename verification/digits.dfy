/** Characters and the shape of the fixed-point text that formatting
    starts from: an optional minus sign, the integer digits, a point and
    the fraction digits. */
module Digits {

  predicate IsDigit(c: char) {
    '0' <= c <= '9'
  }

  predicate AllDigits(s: seq<char>) {
    forall k :: 0 <= k < |s| ==> IsDigit(s[k])
  }

  /** A word character in the sense of regular expressions: a letter, a
      digit or the underscore. */
  predicate IsWordChar(c: char) {
    IsDigit(c) || ('a' <= c <= 'z') || ('A' <= c <= 'Z') || c == '_'
  }

  function Sign(negative: bool): seq<char> {
    if negative then "-" else ""
  }

  /** Fixed-point text: sign, integer digits, point, fraction digits. */
  function FixedText(negative: bool, integer: seq<char>, fraction: seq<char>): seq<char> {
    Sign(negative) + integer + "." + fraction
  }

  /** The index of the first point of `s` at or after index `i`, or |s|
      when there is none. */
  function DotFrom(s: seq<char>, i: nat): (k: nat)
    requires i <= |s|
    ensures i <= k <= |s|
    ensures k < |s| ==> s[k] == '.'
    decreases |s| - i
  {
    if i == |s| || s[i] == '.' then i else DotFrom(s, i + 1)
  }

  /** The index of the first point of `s`, or |s| when there is none. */
  function FirstDot(s: seq<char>): (k: nat)
    ensures k <= |s|
    ensures k < |s| ==> s[k] == '.'
  {
    DotFrom(s, 0)
  }

  /** No point lies between `i` and the point DotFrom finds. */
  lemma {:induction false} DotFromIsFirst(s: seq<char>, i: nat)
    requires i <= |s|
    ensures forall j :: i <= j < DotFrom(s, i) ==> s[j] != '.'
    decreases |s| - i
  {
    if i < |s| && s[i] != '.' {
      DotFromIsFirst(s, i + 1);
    }
  }

  /** DotFrom finds the index `n` when no point lies between `i` and `n`
      and `n` is the end or a point. */
  lemma {:induction false} DotFromAt(s: seq<char>, i: nat, n: nat)
    requires i <= n <= |s|
    requires forall j :: i <= j < n ==> s[j] != '.'
    requires n == |s| || s[n] == '.'
    ensures DotFrom(s, i) == n
    decreases n - i
  {
    if i < n {
      DotFromAt(s, i + 1, n);
    }
  }

  /** No point comes before the first point. */
  lemma FirstDotIsFirst(s: seq<char>)
    ensures forall j :: 0 <= j < FirstDot(s) ==> s[j] != '.'
  {
    DotFromIsFirst(s, 0);
  }

  /** The first point of `p + rest`, when `p` has none and `rest` is empty
      or starts with a point, is the one right after `p`. */
  lemma FirstDotPast(p: seq<char>, rest: seq<char>)
    requires forall j :: 0 <= j < |p| ==> p[j] != '.'
    requires rest == [] || rest[0] == '.'
    ensures FirstDot(p + rest) == |p|
  {
    var s := p + rest;
    forall j | 0 <= j < |p| ensures s[j] != '.' {
      assert s[j] == p[j];
    }
    assert |p| < |s| ==> s[|p|] == rest[0];
    DotFromAt(s, 0, |p|);
  }

  /** After a sign and integer digits, the first point is the one that
      starts the rest, if any. */
  lemma FirstDotAfterInteger(negative: bool, integer: seq<char>, rest: seq<char>)
    requires AllDigits(integer)
    requires rest == [] || rest[0] == '.'
    ensures FirstDot(Sign(negative) + integer + rest) == |Sign(negative)| + |integer|
  {
    var p := Sign(negative) + integer;
    forall j | 0 <= j < |p| ensures p[j] != '.' {
      if j >= |Sign(negative)| {
        assert p[j] == integer[j - |Sign(negative)|];
      }
    }
    FirstDotPast(p, rest);
  }

  /** The point of fixed-point text is its first point. */
  lemma FirstDotOfFixedText(negative: bool, integer: seq<char>, fraction: seq<char>)
    requires AllDigits(integer)
    ensures FirstDot(FixedText(negative, integer, fraction)) == |Sign(negative)| + |integer|
  {
    assert FixedText(negative, integer, fraction) == Sign(negative) + integer + ("." + fraction);
    FirstDotAfterInteger(negative, integer, "." + fraction);
  }
}
