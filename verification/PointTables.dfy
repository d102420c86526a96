/** The mask tables of the point squeeze, entry by entry, and the closed forms they follow. */
module PointTables {
  import opened SwarLanes
  import opened PointSqueeze

  // ------------------------------------------------------------------------------------------------
  // As the program has them
  // ------------------------------------------------------------------------------------------------

  const LOCATION_MASKS_U16: seq<nat> := [0xFF00, 0x00FF]

  const LOCATION_VALUES_U16: seq<nat> := [0x2E00, 0x002E]

  const DECIMAL_MASKS_U16: seq<nat> := [0x0000, 0x00FF]

  const LOCATION_MASKS_U32: seq<nat> := [0xFF00_0000, 0x00FF_0000, 0x0000_FF00, 0x0000_00FF]

  const LOCATION_VALUES_U32: seq<nat> := [0x2E00_0000, 0x002E_0000, 0x0000_2E00, 0x0000_002E]

  const DECIMAL_MASKS_U32: seq<nat> := [0x0000_0000, 0x0000_00FF, 0x0000_FFFF, 0x00FF_FFFF]

  const LOCATION_MASKS_U64: seq<nat> := [
    0xFF00_0000_0000_0000, 0x00FF_0000_0000_0000, 0x0000_FF00_0000_0000, 0x0000_00FF_0000_0000,
    0x0000_0000_FF00_0000, 0x0000_0000_00FF_0000, 0x0000_0000_0000_FF00, 0x0000_0000_0000_00FF
  ]

  const LOCATION_VALUES_U64: seq<nat> := [
    0x2E00_0000_0000_0000, 0x002E_0000_0000_0000, 0x0000_2E00_0000_0000, 0x0000_002E_0000_0000,
    0x0000_0000_2E00_0000, 0x0000_0000_002E_0000, 0x0000_0000_0000_2E00, 0x0000_0000_0000_002E
  ]

  const DECIMAL_MASKS_U64: seq<nat> := [
    0x0000_0000_0000_0000, 0x0000_0000_0000_00FF, 0x0000_0000_0000_FFFF, 0x0000_0000_00FF_FFFF,
    0x0000_0000_FFFF_FFFF, 0x0000_00FF_FFFF_FFFF, 0x0000_FFFF_FFFF_FFFF, 0x00FF_FFFF_FFFF_FFFF
  ]

  const LOCATION_MASKS_U128: seq<nat> := [
    0xFF00_0000_0000_0000_0000_0000_0000_0000, 0x00FF_0000_0000_0000_0000_0000_0000_0000,
    0x0000_FF00_0000_0000_0000_0000_0000_0000, 0x0000_00FF_0000_0000_0000_0000_0000_0000,
    0x0000_0000_FF00_0000_0000_0000_0000_0000, 0x0000_0000_00FF_0000_0000_0000_0000_0000,
    0x0000_0000_0000_FF00_0000_0000_0000_0000, 0x0000_0000_0000_00FF_0000_0000_0000_0000,
    0x0000_0000_0000_0000_FF00_0000_0000_0000, 0x0000_0000_0000_0000_00FF_0000_0000_0000,
    0x0000_0000_0000_0000_0000_FF00_0000_0000, 0x0000_0000_0000_0000_0000_00FF_0000_0000,
    0x0000_0000_0000_0000_0000_0000_FF00_0000, 0x0000_0000_0000_0000_0000_0000_00FF_0000,
    0x0000_0000_0000_0000_0000_0000_0000_FF00, 0x0000_0000_0000_0000_0000_0000_0000_00FF
  ]

  const LOCATION_VALUES_U128: seq<nat> := [
    0x2E00_0000_0000_0000_0000_0000_0000_0000, 0x002E_0000_0000_0000_0000_0000_0000_0000,
    0x0000_2E00_0000_0000_0000_0000_0000_0000, 0x0000_002E_0000_0000_0000_0000_0000_0000,
    0x0000_0000_2E00_0000_0000_0000_0000_0000, 0x0000_0000_002E_0000_0000_0000_0000_0000,
    0x0000_0000_0000_2E00_0000_0000_0000_0000, 0x0000_0000_0000_002E_0000_0000_0000_0000,
    0x0000_0000_0000_0000_2E00_0000_0000_0000, 0x0000_0000_0000_0000_002E_0000_0000_0000,
    0x0000_0000_0000_0000_0000_2E00_0000_0000, 0x0000_0000_0000_0000_0000_002E_0000_0000,
    0x0000_0000_0000_0000_0000_0000_2E00_0000, 0x0000_0000_0000_0000_0000_0000_002E_0000,
    0x0000_0000_0000_0000_0000_0000_0000_2E00, 0x0000_0000_0000_0000_0000_0000_0000_002E
  ]

  const DECIMAL_MASKS_U128: seq<nat> := [
    0x0000_0000_0000_0000_0000_0000_0000_0000, 0x0000_0000_0000_0000_0000_0000_0000_00FF,
    0x0000_0000_0000_0000_0000_0000_0000_FFFF, 0x0000_0000_0000_0000_0000_0000_00FF_FFFF,
    0x0000_0000_0000_0000_0000_0000_FFFF_FFFF, 0x0000_0000_0000_0000_0000_00FF_FFFF_FFFF,
    0x0000_0000_0000_0000_0000_FFFF_FFFF_FFFF, 0x0000_0000_0000_0000_00FF_FFFF_FFFF_FFFF,
    0x0000_0000_0000_0000_FFFF_FFFF_FFFF_FFFF, 0x0000_0000_0000_00FF_FFFF_FFFF_FFFF_FFFF,
    0x0000_0000_0000_FFFF_FFFF_FFFF_FFFF_FFFF, 0x0000_0000_00FF_FFFF_FFFF_FFFF_FFFF_FFFF,
    0x0000_0000_FFFF_FFFF_FFFF_FFFF_FFFF_FFFF, 0x0000_00FF_FFFF_FFFF_FFFF_FFFF_FFFF_FFFF,
    0x0000_FFFF_FFFF_FFFF_FFFF_FFFF_FFFF_FFFF, 0x00FF_FFFF_FFFF_FFFF_FFFF_FFFF_FFFF_FFFF
  ]

  // ------------------------------------------------------------------------------------------------
  // As the squeeze uses them
  // ------------------------------------------------------------------------------------------------

  /** Every entry is the one after it, one byte up, and the last is `unit`. */
  predicate Descends(table: seq<nat>, unit: nat) {
    table != [] && table[|table| - 1] == unit && forall i :: 0 <= i < |table| - 1 ==> table[i] == 0x100 * table[i + 1]
  }

  /** Every entry is the one before it with one more full byte, and the first is empty. */
  predicate Fills(table: seq<nat>) {
    table != [] && table[0] == 0 && forall i :: 0 < i < |table| ==> table[i] == 0x100 * table[i - 1] + 0xFF
  }

  lemma {:induction false} DescendsTo(table: seq<nat>, unit: nat, i: nat)
    requires Descends(table, unit) && i < |table|
    ensures table[i] == unit * Pow256(|table| - 1 - i)
    decreases |table| - i
  {
    if i < |table| - 1 {
      DescendsTo(table, unit, i + 1);
      OneByteUp(unit, |table| - 2 - i);
    }
  }

  lemma OneByteUp(unit: nat, k: nat)
    ensures 0x100 * (unit * Pow256(k)) == unit * Pow256(k + 1)
  {
  }

  lemma {:induction false} FillsTo(table: seq<nat>, i: nat)
    requires Fills(table) && i < |table|
    ensures table[i] == Pow256(i) - 1
  {
    if i > 0 {
      FillsTo(table, i - 1);
    }
  }

  /** Three tables of one width. */
  predicate Tables(masks: seq<nat>, values: seq<nat>, decimals: seq<nat>, n: nat) {
    |masks| == |values| == |decimals| == n && Descends(masks, 0xFF) && Descends(values, 0x2E) && Fills(decimals)
  }

  lemma TwoLanes()
    ensures Tables(LOCATION_MASKS_U16, LOCATION_VALUES_U16, DECIMAL_MASKS_U16, 2)
  {
  }

  lemma FourLanes()
    ensures Tables(LOCATION_MASKS_U32, LOCATION_VALUES_U32, DECIMAL_MASKS_U32, 4)
  {
  }

  lemma EightLanes()
    ensures Tables(LOCATION_MASKS_U64, LOCATION_VALUES_U64, DECIMAL_MASKS_U64, 8)
  {
  }

  lemma SixteenLanes()
    ensures Tables(LOCATION_MASKS_U128, LOCATION_VALUES_U128, DECIMAL_MASKS_U128, 16)
  {
  }

  predicate ClosedForms(masks: seq<nat>, values: seq<nat>, decimals: seq<nat>, n: nat) {
    |masks| == |values| == |decimals| == n &&
    forall i :: 0 <= i < n ==>
      masks[i] == PointLocationMask(n, i) && values[i] == PointLocationValue(n, i) && decimals[i] == DecimalMask(i)
  }

  lemma FollowClosedForms(masks: seq<nat>, values: seq<nat>, decimals: seq<nat>, n: nat)
    requires Tables(masks, values, decimals, n)
    ensures ClosedForms(masks, values, decimals, n)
  {
    forall i | 0 <= i < n
      ensures masks[i] == PointLocationMask(n, i) && values[i] == PointLocationValue(n, i) &&
                decimals[i] == DecimalMask(i)
    {
      DescendsTo(masks, 0xFF, i);
      DescendsTo(values, 0x2E, i);
      FillsTo(decimals, i);
    }
  }

  /** Every entry of all twelve tables is its closed form. */
  lemma TablesAreClosedForms()
    ensures ClosedForms(LOCATION_MASKS_U16, LOCATION_VALUES_U16, DECIMAL_MASKS_U16, 2)
    ensures ClosedForms(LOCATION_MASKS_U32, LOCATION_VALUES_U32, DECIMAL_MASKS_U32, 4)
    ensures ClosedForms(LOCATION_MASKS_U64, LOCATION_VALUES_U64, DECIMAL_MASKS_U64, 8)
    ensures ClosedForms(LOCATION_MASKS_U128, LOCATION_VALUES_U128, DECIMAL_MASKS_U128, 16)
  {
    TwoLanes();
    FourLanes();
    EightLanes();
    SixteenLanes();
    FollowClosedForms(LOCATION_MASKS_U16, LOCATION_VALUES_U16, DECIMAL_MASKS_U16, 2);
    FollowClosedForms(LOCATION_MASKS_U32, LOCATION_VALUES_U32, DECIMAL_MASKS_U32, 4);
    FollowClosedForms(LOCATION_MASKS_U64, LOCATION_VALUES_U64, DECIMAL_MASKS_U64, 8);
    FollowClosedForms(LOCATION_MASKS_U128, LOCATION_VALUES_U128, DECIMAL_MASKS_U128, 16);
  }
}
