/** The fixed order in which the 13 input slots of a form item are written
    to the text format (`outputOrder`), and its inverse. */
module FieldOrder {

  /** The number of input slots of a form item, `outputOrder.length`. */
  const FieldCount: nat := 13

  /** Output position `k` holds the value of slot `OutputOrder[k]`. */
  const OutputOrder: seq<int> := [1, 2, 6, 9, 10, 11, 12, 13, 3, 8, 5, 7, 4]

  /** The slot numbers of a form item's inputs. */
  predicate IsSlot(slot: int) {
    1 <= slot <= FieldCount
  }

  /** The first index of `x` in `s`, or `|s|` when there is none. */
  function IndexOf(s: seq<int>, x: int): (r: nat)
    ensures r <= |s|
    ensures r < |s| ==> s[r] == x
    ensures forall j :: 0 <= j < r ==> s[j] != x
  {
    if s == [] then 0
    else if s[0] == x then 0
    else 1 + IndexOf(s[1..], x)
  }

  /** The output position at which slot `slot` is written: the inverse of
      `OutputOrder`. */
  function PositionOf(slot: int): (k: nat)
    requires IsSlot(slot)
    ensures k < FieldCount && OutputOrder[k] == slot
  {
    assert slot in OutputOrder by {
      assert 1 <= slot <= 13;
      assert OutputOrder[0] == 1 && OutputOrder[1] == 2 && OutputOrder[8] == 3
          && OutputOrder[12] == 4 && OutputOrder[10] == 5 && OutputOrder[2] == 6
          && OutputOrder[11] == 7 && OutputOrder[9] == 8 && OutputOrder[3] == 9
          && OutputOrder[4] == 10 && OutputOrder[5] == 11 && OutputOrder[6] == 12
          && OutputOrder[7] == 13;
    }
    IndexOf(OutputOrder, slot)
  }

  /** No entry appears twice. */
  predicate Distinct(s: seq<int>) {
    forall i, j :: 0 <= i < j < |s| ==> s[i] != s[j]
  }

  lemma OutputOrderDistinct()
    ensures Distinct(OutputOrder)
  {
    var s := OutputOrder;
    // inv[slot] is the position of slot in s; inv[0] is unused
    var inv := [0, 0, 1, 8, 12, 10, 2, 11, 9, 3, 4, 5, 6, 7];
    forall k | 0 <= k < 13 ensures 1 <= s[k] <= 13 && inv[s[k]] == k {
      if k == 0 { assert s[k] == 1; }
      else if k == 1 { assert s[k] == 2; }
      else if k == 2 { assert s[k] == 6; }
      else if k == 3 { assert s[k] == 9; }
      else if k == 4 { assert s[k] == 10; }
      else if k == 5 { assert s[k] == 11; }
      else if k == 6 { assert s[k] == 12; }
      else if k == 7 { assert s[k] == 13; }
      else if k == 8 { assert s[k] == 3; }
      else if k == 9 { assert s[k] == 8; }
      else if k == 10 { assert s[k] == 5; }
      else if k == 11 { assert s[k] == 7; }
      else { assert s[k] == 4; }
    }
  }

  /** `OutputOrder` is a permutation of the slots 1..13: it has 13 entries,
      every entry is a slot, no slot appears twice and every slot appears. */
  lemma OutputOrderIsPermutation()
    ensures |OutputOrder| == FieldCount
    ensures forall k :: 0 <= k < FieldCount ==> IsSlot(OutputOrder[k])
    ensures Distinct(OutputOrder)
    ensures forall slot :: IsSlot(slot) ==> slot in OutputOrder
  {
    OutputOrderDistinct();
    forall slot | IsSlot(slot) ensures slot in OutputOrder {
      var k := PositionOf(slot);
    }
  }

  /** Reading position `k` back through the inverse gives `k`, and
      `OutputOrder` of the position of a slot is that slot. */
  lemma PositionOfInverse(k: int)
    requires 0 <= k < FieldCount
    ensures IsSlot(OutputOrder[k]) && PositionOf(OutputOrder[k]) == k
  {
    OutputOrderIsPermutation();
    var p := PositionOf(OutputOrder[k]);
    assert OutputOrder[p] == OutputOrder[k];
  }
}
