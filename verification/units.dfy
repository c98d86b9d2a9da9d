/** The fixed set of units the converter knows, the factor of each unit to
    its base unit (feet for a length, square feet for an area), the order
    in which the result slots are filled, and the rule that decides which
    result slots are hidden for a given source unit. */
module Units {

  /** The ten units of the converter; the unit names of script.js become
      constructors, so every unit has a factor and no lookup can miss. */
  datatype Unit = Inch | Feet | Yard | SqFeet | SqYard | Ankanam | Cent | Gunta | Acre | Hectare

  /** Factor to the base unit: feet for inch, feet and yard; square feet
      for the seven area units. The values are the exact decimals of the
      table. */
  function Factor(u: Unit): (f: real)
    ensures f > 0.0
  {
    match u
    case Inch => 1.0 / 12.0
    case Feet => 1.0
    case Yard => 3.0
    case SqFeet => 1.0
    case SqYard => 9.0
    case Ankanam => 72.0
    case Cent => 435.6
    case Gunta => 1089.0
    case Acre => 43560.0
    case Hectare => 107639.1
  }

  /** A length unit, as opposed to an area unit. */
  predicate IsLinear(u: Unit) {
    u == Inch || u == Feet || u == Yard
  }

  /** The result slots, in the order in which they are filled. */
  const Slots: seq<Unit> := [Inch, Feet, SqFeet, Yard, SqYard, Gunta, Cent, Ankanam, Acre, Hectare]

  /** The length units among the slots, and the area units among them. */
  function LinearSlots(): (s: set<Unit>)
    ensures s == {Inch, Feet, Yard}
    ensures |s| == 3
  {
    var s := set u | u in Slots && IsLinear(u);
    assert s == {Inch, Feet, Yard} by {
      forall u ensures u in s <==> u in {Inch, Feet, Yard} {
        UnitHasSlot(u);
      }
    }
    s
  }

  function AreaSlots(): (s: set<Unit>)
    ensures s == {SqFeet, SqYard, Ankanam, Cent, Gunta, Acre, Hectare}
  {
    var s := set u | u in Slots && !IsLinear(u);
    assert s == {SqFeet, SqYard, Ankanam, Cent, Gunta, Acre, Hectare} by {
      forall u ensures u in s <==> u in {SqFeet, SqYard, Ankanam, Cent, Gunta, Acre, Hectare} {
        UnitHasSlot(u);
      }
    }
    s
  }

  /** Every unit has a slot. */
  lemma UnitHasSlot(u: Unit)
    ensures u in Slots
  {
    match u
    case Inch => assert Slots[0] == u;
    case Feet => assert Slots[1] == u;
    case SqFeet => assert Slots[2] == u;
    case Yard => assert Slots[3] == u;
    case SqYard => assert Slots[4] == u;
    case Gunta => assert Slots[5] == u;
    case Cent => assert Slots[6] == u;
    case Ankanam => assert Slots[7] == u;
    case Acre => assert Slots[8] == u;
    case Hectare => assert Slots[9] == u;
  }

  /** Every unit has exactly one slot, so the factor table is total over
      the units that are displayed. */
  lemma SlotsListEveryUnitOnce()
    ensures |Slots| == 10
    ensures forall u: Unit :: u in Slots && Factor(u) > 0.0
    ensures forall i, j :: 0 <= i < j < |Slots| ==> Slots[i] != Slots[j]
  {
    forall u: Unit ensures u in Slots && Factor(u) > 0.0 {
      UnitHasSlot(u);
    }
  }

  /** The slot of `target` is hidden when the source is a length and the
      target is square feet or square yard, or when the source is an area
      and the target is a length. */
  predicate Hidden(source: Unit, target: Unit) {
    (IsLinear(source) && (target == SqFeet || target == SqYard)) || (!IsLinear(source) && IsLinear(target))
  }

  /** The slots that stay visible for a given source unit. */
  function VisibleSlots(source: Unit): set<Unit> {
    set t | t in Slots && !Hidden(source, t)
  }

  /** An area source shows exactly the seven area slots. */
  lemma AreaSourceShowsAreaSlots(source: Unit)
    requires !IsLinear(source)
    ensures VisibleSlots(source) == AreaSlots()
  {
    forall t ensures t in VisibleSlots(source) <==> t in AreaSlots() {
      UnitHasSlot(t);
    }
  }

  /** A length source shows the three length slots and gunta, cent,
      ankanam, acre and hectare: every slot but square feet and square
      yard. */
  lemma LinearSourceShowsAllButSqFeetSqYard(source: Unit)
    requires IsLinear(source)
    ensures VisibleSlots(source) == LinearSlots() + {Gunta, Cent, Ankanam, Acre, Hectare}
  {
    var want := {Inch, Feet, Yard, Gunta, Cent, Ankanam, Acre, Hectare};
    forall t ensures t in VisibleSlots(source) <==> t in want {
      UnitHasSlot(t);
    }
    assert VisibleSlots(source) == want;
  }
}
