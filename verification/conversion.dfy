/** The conversion of an entered value from a source unit to every unit,
    through the base unit square feet. A length source is read as the side
    of a square: its value in feet is squared. A length target is read the
    same way back: the square root of the base value, in that unit. */
module Conversion {
  import opened Units

  datatype Option<T> = None | Some(value: T)

  /** What a result slot holds before it is written as text: the dash for
      "no value", a number, or the not-a-number value that a square root
      of a negative base value yields. */
  datatype Shown = Dash | Number(x: real) | NotANumber

  function Square(y: real): real {
    y * y
  }

  function Abs(x: real): (r: real)
    ensures r >= 0.0 && (r == x || r == -x)
  {
    if x < 0.0 then -x else x
  }

  /** Whether `x` has a non-negative square root. Over the reals this holds
      for every `x >= 0`; the verifier can establish it only where a root
      is at hand (a square, say), so statements about irrational roots are
      made under `HasRoot`. */
  ghost predicate HasRoot(x: real) {
    exists y: real :: 0.0 <= y && Square(y) == x
  }

  /** The non-negative square root: the true root of every `x >= 0`, and 0
      for a negative `x`, which the conversion never passes to it (a
      negative base in a length slot is not-a-number before any root is
      taken). */
  ghost function Sqrt(x: real): (r: real)
    ensures 0.0 <= r
    ensures HasRoot(x) ==> r * r == x
  {
    if HasRoot(x) then
      var y :| 0.0 <= y && Square(y) == x; y
    else
      0.0
  }

  /** Squaring is strictly increasing on the non-negative numbers. */
  lemma SquareIncreasing(a: real, b: real)
    requires 0.0 <= a < b
    ensures a * a < b * b
  {
    var d := b - a;
    assert b * b == a * a + d * (a + b);
    assert d * (a + b) > 0.0;
  }

  /** Two non-negative numbers with the same square are equal. */
  lemma RootUnique(y: real, z: real)
    requires 0.0 <= y && 0.0 <= z && y * y == z * z
    ensures y == z
  {
    if y < z {
      SquareIncreasing(y, z);
    } else if z < y {
      SquareIncreasing(z, y);
    }
  }

  /** The square root undoes squaring, up to the sign. */
  lemma SqrtOfSquare(w: real)
    ensures Sqrt(Square(w)) == Abs(w)
  {
    assert 0.0 <= Abs(w) && Square(Abs(w)) == Square(w);
    assert HasRoot(Square(w));
    RootUnique(Sqrt(Square(w)), Abs(w));
  }

  /** The base value (square feet) of an entered value; `None` stands for
      input that is empty, null or not a number. */
  function ToSquareFeet(value: Option<real>, u: Unit): (b: Option<real>)
    ensures b.None? <==> value.None?
    ensures b.Some? && IsLinear(u) ==> b.value >= 0.0
    ensures b.Some? && !IsLinear(u) ==> b.value / Factor(u) == value.value
  {
    if value.None? then None
    else if IsLinear(u) then Some(Square(value.value * Factor(u)))
    else Some(value.value * Factor(u))
  }

  /** The value of a base amount in the target unit. A length target takes
      the square root first; a negative base value gives not-a-number. */
  ghost function FromSquareFeet(b: Option<real>, t: Unit): (s: Shown)
    ensures s == Dash <==> b.None?
    ensures s == NotANumber <==> b.Some? && IsLinear(t) && b.value < 0.0
    ensures s.Number? && !IsLinear(t) ==> s.x * Factor(t) == b.value
    ensures s.Number? && IsLinear(t) ==> 0.0 <= s.x && (HasRoot(b.value) ==> Square(s.x * Factor(t)) == b.value)
  {
    if b.None? then Dash
    else if IsLinear(t) then
      if b.value < 0.0 then NotANumber else Number(Sqrt(b.value) / Factor(t))
    else Number(b.value / Factor(t))
  }

  /** The content of the slot of `target` for an entered value. */
  ghost function Convert(value: Option<real>, source: Unit, target: Unit): (s: Shown)
    ensures s == Dash <==> value.None?
    ensures s == NotANumber <==> value.Some? && !IsLinear(source) && IsLinear(target) && value.value < 0.0
  {
    var b := ToSquareFeet(value, source);
    assert b.Some? && !IsLinear(source) ==> (b.value < 0.0 <==> value.value < 0.0) by {
      if b.Some? && !IsLinear(source) {
        var f := Factor(source);
        assert b.value == value.value * f;
        if value.value < 0.0 {
          assert value.value * f < 0.0;
        } else {
          assert value.value * f >= 0.0;
        }
      }
    }
    FromSquareFeet(b, target)
  }

  /** Invalid input fills every slot with the dash. */
  lemma NoValueGivesDashEverywhere(source: Unit, target: Unit)
    ensures Convert(None, source, target) == Dash
    ensures forall b: Option<real> :: FromSquareFeet(b, target) == Dash <==> b == None
  {
  }

  /** Area to area: multiply by the source factor, divide by the target
      factor; converting to the same area unit gives the value back. */
  lemma AreaToArea(v: real, u: Unit, t: Unit)
    requires !IsLinear(u) && !IsLinear(t)
    ensures Convert(Some(v), u, t) == Number(v * Factor(u) / Factor(t))
    ensures u == t ==> Convert(Some(v), u, t) == Number(v)
  {
  }

  /** Length to length: the value is squared and the root taken, so the
      sign is lost; converting to the same length unit gives |v|. */
  lemma {:induction false} LinearToLinear(v: real, u: Unit, t: Unit)
    requires IsLinear(u) && IsLinear(t)
    ensures Convert(Some(v), u, t) == Number(Abs(v) * Factor(u) / Factor(t))
    ensures u == t ==> Convert(Some(v), u, t) == Number(Abs(v))
  {
    SqrtOfSquare(v * Factor(u));
    assert Abs(v * Factor(u)) == Abs(v) * Factor(u);
  }

  /** Length to area: the square of the side in feet, in the area unit. */
  lemma LinearToArea(v: real, u: Unit, t: Unit)
    requires IsLinear(u) && !IsLinear(t)
    ensures Convert(Some(v), u, t) == Number(Square(v * Factor(u)) / Factor(t))
    ensures Convert(Some(v), u, t).x >= 0.0
  {
  }

  /** Area to length: the side of a square of that area, or not-a-number
      for a negative area. */
  lemma AreaToLinear(v: real, u: Unit, t: Unit)
    requires !IsLinear(u) && IsLinear(t)
    ensures v < 0.0 <==> Convert(Some(v), u, t) == NotANumber
    ensures 0.0 <= v ==> Convert(Some(v), u, t) == Number(Sqrt(v * Factor(u)) / Factor(t))
  {
  }

  /** One foot and one yard are one and nine square feet; twelve inches are
      one square foot; one acre is a hundred cents. */
  lemma FixedExamples()
    ensures ToSquareFeet(Some(1.0), Feet) == Some(1.0)
    ensures ToSquareFeet(Some(1.0), Yard) == Some(9.0)
    ensures Convert(Some(1.0), Feet, SqFeet) == Number(1.0)
    ensures Convert(Some(1.0), Yard, SqFeet) == Number(9.0)
    ensures Convert(Some(12.0), Inch, SqFeet) == Number(1.0)
    ensures Convert(Some(1.0), Acre, Cent) == Number(100.0)
  {
  }

  /** One result slot as the page shows it. */
  datatype Slot = Slot(unit: Unit, shown: Shown, hidden: bool)

  /** All result slots for an entered value and a source unit, in slot
      order. */
  ghost function UpdateResults(value: Option<real>, source: Unit): (slots: seq<Slot>)
    ensures |slots| == |Slots|
    ensures forall i :: 0 <= i < |slots| ==> slots[i].unit == Slots[i]
  {
    seq(|Slots|, i requires 0 <= i < |Slots| =>
      Slot(Slots[i], Convert(value, source, Slots[i]), Hidden(source, Slots[i])))
  }

  /** With no value every slot shows the dash. */
  lemma NoValueAllSlotsDash(source: Unit)
    ensures forall s :: s in UpdateResults(None, source) ==> s.shown == Dash
  {
  }

  /** With a value every visible slot shows a number: not-a-number only
      arises for a negative area read into a length slot, and length slots
      are hidden for an area source. */
  lemma VisibleSlotsShowNumbers(v: real, source: Unit)
    ensures forall s :: s in UpdateResults(Some(v), source) && !s.hidden ==> s.shown.Number?
  {
  }

  /** The slots left visible are exactly the visible units of the source. */
  lemma UpdateResultsVisibility(value: Option<real>, source: Unit)
    ensures forall u :: u in VisibleSlots(source) <==>
      exists s :: s in UpdateResults(value, source) && s.unit == u && !s.hidden
  {
    var slots := UpdateResults(value, source);
    forall u ensures u in VisibleSlots(source) <==> exists s :: s in slots && s.unit == u && !s.hidden {
      if u in VisibleSlots(source) {
        var i :| 0 <= i < |Slots| && Slots[i] == u;
        assert slots[i] in slots;
      }
      if exists s :: s in slots && s.unit == u && !s.hidden {
        var s :| s in slots && s.unit == u && !s.hidden;
        var i :| 0 <= i < |slots| && slots[i] == s;
        assert Slots[i] == u;
      }
    }
  }
}
