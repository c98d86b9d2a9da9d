/** Thousands separators: the replacement of every match of the regular
    expression `\B(?=(\d{3})+(?!\d))` by a comma, and the grouping of a
    digit string into threes from the right that it amounts to. */
module Separators {
  import opened Digits

  /** The number of consecutive digits of `s` from position `i` on. */
  function DigitRun(s: seq<char>, i: nat): (n: nat)
    requires i <= |s|
    ensures i + n <= |s|
    decreases |s| - i
  {
    if i < |s| && IsDigit(s[i]) then 1 + DigitRun(s, i + 1) else 0
  }

  /** `n` digits are one or more whole groups of three: the `(\d{3})+` of
      the regular expression. */
  predicate WholeGroups(n: nat)
    decreases n
  {
    n == 3 || (n > 3 && WholeGroups(n - 3))
  }

  /** One or more whole groups of three are a positive multiple of three. */
  lemma {:induction false} WholeGroupsIsMultipleOfThree(n: nat)
    ensures WholeGroups(n) <==> n > 0 && n % 3 == 0
    decreases n
  {
    if n > 3 {
      WholeGroupsIsMultipleOfThree(n - 3);
    }
  }

  /** The regular expression matches (with zero width) before position
      `i`: `i` is not a word boundary, and the digits from `i` on form one
      or more whole groups of three followed by a non-digit or the end. */
  predicate CommaAt(s: seq<char>, i: nat)
    requires i <= |s|
  {
    0 < i < |s| && IsWordChar(s[i - 1]) && WholeGroups(DigitRun(s, i))
  }

  /** The first `n` characters of `s`, each preceded by a comma where the
      regular expression matches. */
  function SeparateUpTo(s: seq<char>, n: nat): seq<char>
    requires n <= |s|
  {
    if n == 0 then []
    else SeparateUpTo(s, n - 1) + (if CommaAt(s, n - 1) then [','] else []) + [s[n - 1]]
  }

  /** Every match of the regular expression replaced by a comma. */
  function Separate(s: seq<char>): seq<char> {
    SeparateUpTo(s, |s|)
  }

  /** A digit string in groups of three from the right. */
  function Group(d: seq<char>): seq<char>
    decreases |d|
  {
    if |d| <= 3 then d else Group(d[..|d| - 3]) + "," + d[|d| - 3..]
  }

  lemma {:induction false} DigitRunToEnd(s: seq<char>, i: nat)
    requires i <= |s|
    requires forall k :: i <= k < |s| ==> IsDigit(s[k])
    ensures DigitRun(s, i) == |s| - i
    decreases |s| - i
  {
    if i < |s| {
      DigitRunToEnd(s, i + 1);
    }
  }

  lemma {:induction false} SeparateUpToNoCommas(s: seq<char>, n: nat)
    requires n <= |s|
    requires forall i :: 0 <= i < n ==> !CommaAt(s, i)
    ensures SeparateUpTo(s, n) == s[..n]
  {
    if n > 0 {
      SeparateUpToNoCommas(s, n - 1);
      assert s[..n] == s[..n - 1] + [s[n - 1]];
    }
  }

  lemma {:induction false} SeparateUpToSamePrefix(s: seq<char>, s': seq<char>, n: nat)
    requires n <= |s| && n <= |s'|
    requires forall i :: 0 <= i < n ==> s[i] == s'[i] && CommaAt(s, i) == CommaAt(s', i)
    ensures SeparateUpTo(s, n) == SeparateUpTo(s', n)
  {
    if n > 0 {
      SeparateUpToSamePrefix(s, s', n - 1);
    }
  }

  /** In a digit string a comma goes before every inner position with a
      multiple of three digits after it. */
  lemma CommaAtInDigits(d: seq<char>, i: nat)
    requires AllDigits(d) && i <= |d|
    ensures CommaAt(d, i) <==> 0 < i < |d| && WholeGroups(|d| - i)
  {
    DigitRunToEnd(d, i);
  }

  /** Separating a digit string up to three digits before its end puts a
      comma before the next digit. */
  lemma CommaBeforeLastThree(d: seq<char>)
    requires AllDigits(d) && |d| > 3
    ensures SeparateUpTo(d, |d| - 2) == SeparateUpTo(d, |d| - 3) + [',', d[|d| - 3]]
  {
    CommaAtInDigits(d, |d| - 3);
  }

  /** The last two digits of a digit string get no comma before them. */
  lemma NoCommaInLastTwo(d: seq<char>, i: nat)
    requires AllDigits(d) && |d| - 1 <= i <= |d| && 1 < i
    ensures SeparateUpTo(d, i) == SeparateUpTo(d, i - 1) + [d[i - 1]]
  {
    CommaAtInDigits(d, i - 1);
  }

  /** The last three digits of a digit string of more than three digits
      get a comma before them and no other. */
  lemma SeparateLastDigits(d: seq<char>)
    requires AllDigits(d) && |d| > 3
    ensures Separate(d) == SeparateUpTo(d, |d| - 3) + "," + d[|d| - 3..]
  {
    var n := |d|;
    CommaBeforeLastThree(d);
    NoCommaInLastTwo(d, n - 1);
    NoCommaInLastTwo(d, n);
    assert d[n - 3..] == [d[n - 3], d[n - 2], d[n - 1]];
  }

  /** Separating a digit string of more than three digits: the first part
      separated, a comma, and the last three digits. */
  lemma SeparateLastThree(d: seq<char>)
    requires AllDigits(d) && |d| > 3
    ensures Separate(d) == Separate(d[..|d| - 3]) + "," + d[|d| - 3..]
  {
    var n := |d|;
    var d' := d[..n - 3];
    forall i | 0 <= i < n - 3 ensures d[i] == d'[i] && CommaAt(d, i) == CommaAt(d', i) {
      CommaAtInDigits(d, i);
      CommaAtInDigits(d', i);
    }
    SeparateUpToSamePrefix(d, d', n - 3);
    SeparateLastDigits(d);
  }

  /** On a digit string the regular expression puts a comma before every
      position that has a positive multiple of three digits after it,
      which is grouping in threes from the right. */
  lemma {:induction false} SeparateDigits(d: seq<char>)
    requires AllDigits(d)
    ensures Separate(d) == Group(d)
    decreases |d|
  {
    if |d| <= 3 {
      forall i | 0 <= i < |d| ensures !CommaAt(d, i) {
        CommaAtInDigits(d, i);
      }
      SeparateUpToNoCommas(d, |d|);
      assert d[..|d|] == d;
    } else {
      SeparateLastThree(d);
      SeparateDigits(d[..|d| - 3]);
    }
  }

  /** Behind a minus sign a digit keeps its comma: the minus sign is not a
      word character, so no comma goes right after it. */
  lemma CommaAtAfterMinus(d: seq<char>, n: nat)
    requires AllDigits(d) && 1 <= n <= |d|
    ensures ("-" + d)[n] == d[n - 1]
    ensures CommaAt("-" + d, n) == CommaAt(d, n - 1)
  {
    var s := "-" + d;
    DigitRunToEnd(s, n);
    DigitRunToEnd(d, n - 1);
    if n == 1 {
      assert !IsWordChar(s[0]);
    } else {
      assert s[n - 1] == d[n - 2];
    }
  }

  lemma {:induction false} SeparateAfterMinus(d: seq<char>, n: nat)
    requires AllDigits(d) && n <= |d|
    ensures SeparateUpTo("-" + d, n + 1) == "-" + SeparateUpTo(d, n)
  {
    var s := "-" + d;
    if n == 0 {
      assert !CommaAt(s, 0);
    } else {
      SeparateAfterMinus(d, n - 1);
      CommaAtAfterMinus(d, n);
      var c: seq<char> := if CommaAt(d, n - 1) then [','] else [];
      assert SeparateUpTo(s, n + 1) == SeparateUpTo(s, n) + c + [d[n - 1]];
      assert SeparateUpTo(d, n) == SeparateUpTo(d, n - 1) + c + [d[n - 1]];
    }
  }

  /** A minus sign in front is kept and does not take part in the
      grouping. */
  lemma SeparateSigned(negative: bool, d: seq<char>)
    requires AllDigits(d)
    ensures Separate(Sign(negative) + d) == Sign(negative) + Group(d)
  {
    SeparateDigits(d);
    if negative {
      SeparateAfterMinus(d, |d|);
    } else {
      assert Sign(negative) + d == d;
    }
  }

  /** `s` with its commas deleted. */
  function RemoveCommas(s: seq<char>): seq<char> {
    if s == [] then []
    else RemoveCommas(s[..|s| - 1]) + (if s[|s| - 1] == ',' then [] else [s[|s| - 1]])
  }

  lemma {:induction false} RemoveCommasAppend(a: seq<char>, b: seq<char>)
    ensures RemoveCommas(a + b) == RemoveCommas(a) + RemoveCommas(b)
    decreases |b|
  {
    if b == [] {
      assert a + b == a;
    } else {
      assert (a + b)[..|a + b| - 1] == a + b[..|b| - 1];
      RemoveCommasAppend(a, b[..|b| - 1]);
    }
  }

  lemma {:induction false} RemoveCommasOfDigits(d: seq<char>)
    requires AllDigits(d)
    ensures RemoveCommas(d) == d
    decreases |d|
  {
    if d != [] {
      RemoveCommasOfDigits(d[..|d| - 1]);
      assert d == d[..|d| - 1] + [d[|d| - 1]];
    }
  }

  /** Deleting the commas gives back the digits. */
  lemma {:induction false} GroupRemoveCommas(d: seq<char>)
    requires AllDigits(d)
    ensures RemoveCommas(Group(d)) == d
    decreases |d|
  {
    if |d| <= 3 {
      RemoveCommasOfDigits(d);
    } else {
      var d', tail := d[..|d| - 3], d[|d| - 3..];
      var g := Group(d');
      assert Group(d) == (g + ",") + tail;
      GroupRemoveCommas(d');
      RemoveCommasAppend(g + ",", tail);
      RemoveCommasAppend(g, ",");
      RemoveCommasOfDigits(tail);
      assert RemoveCommas(",") == [] by {
        assert ","[..0] == [];
      }
      assert RemoveCommas(Group(d)) == d' + tail;
      assert d == d' + tail;
    }
  }

  /** The layout of a grouped digit string: counting from the right,
      every fourth character is a comma and all others are digits, and the
      length is not a multiple of four, so the string does not start with
      a comma. */
  predicate Layout(r: seq<char>) {
    |r| % 4 != 0
    && forall k :: 0 <= k < |r| ==> (r[k] == ',' <==> k % 4 == |r| % 4) && (r[k] != ',' ==> IsDigit(r[k]))
  }

  lemma LayoutExtend(r: seq<char>, t: seq<char>)
    requires Layout(r) && |t| == 3 && AllDigits(t)
    ensures Layout(r + [','] + t)
  {
    var r2 := r + [','] + t;
    forall k | 0 <= k < |r2| ensures (r2[k] == ',' <==> k % 4 == |r2| % 4) && (r2[k] != ',' ==> IsDigit(r2[k])) {
      if k < |r| {
        assert r2[k] == r[k];
      } else if k > |r| {
        assert r2[k] == t[k - |r| - 1];
      }
    }
  }

  /** Grouping a nonempty digit string gives the layout above, with one
      comma for every full group of three after the first group. */
  lemma {:induction false} GroupLayout(d: seq<char>)
    requires AllDigits(d) && |d| >= 1
    ensures |Group(d)| == |d| + (|d| - 1) / 3
    ensures Layout(Group(d))
    decreases |d|
  {
    if |d| > 3 {
      var d' := d[..|d| - 3];
      GroupLayout(d');
      LayoutExtend(Group(d'), d[|d| - 3..]);
      assert Group(d) == Group(d') + [','] + d[|d| - 3..];
    }
  }

  /** Commas stand only between two digits. */
  lemma CommasBetweenDigits(d: seq<char>)
    requires AllDigits(d) && |d| >= 1
    ensures forall k :: 0 <= k < |Group(d)| && Group(d)[k] == ',' ==>
      0 < k < |Group(d)| - 1 && IsDigit(Group(d)[k - 1]) && IsDigit(Group(d)[k + 1])
  {
    GroupLayout(d);
    var r := Group(d);
    forall k | 0 <= k < |r| && r[k] == ','
      ensures 0 < k < |r| - 1 && IsDigit(r[k - 1]) && IsDigit(r[k + 1])
    {
      assert k % 4 == |r| % 4;
      assert (k + 1) % 4 != |r| % 4;
    }
  }

  /** The first group has one to three digits and is followed by the end
      or a comma. */
  lemma GroupFirstGroup(d: seq<char>)
    requires AllDigits(d) && |d| >= 1
    ensures var r, m := Group(d), |Group(d)| % 4;
      1 <= m <= 3 && AllDigits(r[..m]) && (m < |r| ==> r[m] == ',')
  {
    GroupLayout(d);
    var r, m := Group(d), |Group(d)| % 4;
    assert m % 4 == m;
    forall k | 0 <= k < m ensures IsDigit(r[..m][k]) {
      assert r[..m][k] == r[k] && k % 4 == k;
    }
  }

  /** Every comma is followed by exactly three digits and then the end or
      another comma. */
  lemma GroupCommaFollowers(d: seq<char>)
    requires AllDigits(d) && |d| >= 1
    ensures var r := Group(d);
      forall k :: 0 <= k < |r| && r[k] == ',' ==>
        k + 3 < |r| && IsDigit(r[k + 1]) && IsDigit(r[k + 2]) && IsDigit(r[k + 3])
        && (k + 4 == |r| || r[k + 4] == ',')
  {
    GroupLayout(d);
    var r := Group(d);
    forall k | 0 <= k < |r| && r[k] == ','
      ensures k + 3 < |r| && IsDigit(r[k + 1]) && IsDigit(r[k + 2]) && IsDigit(r[k + 3])
      ensures k + 4 == |r| || r[k + 4] == ','
    {
      assert k % 4 == |r| % 4;
    }
  }
}
