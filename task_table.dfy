/** Row selection in the tasks table: a master "select all" checkbox and
    click-to-toggle rows. */
module TaskTable {
  import opened Js

  /** What a row click landed on. */
  datatype ClickTarget = Checkbox | ActionButton | OtherContent

  /** Every checkbox in the table body set to the master's value. */
  function AllSetTo(n: nat, master: bool): (boxes: seq<bool>)
    ensures |boxes| == n
  {
    seq(n, _ => master)
  }

  /** The checkbox states after a click on a row whose first checkbox is
      `box` (`None` for a row without one). */
  function AfterRowClick(boxes: seq<bool>, box: Option<nat>, target: ClickTarget): (r: seq<bool>)
    requires box.Some? ==> box.value < |boxes|
    ensures |r| == |boxes|
  {
    if target == OtherContent && box.Some? then boxes[box.value := !boxes[box.value]] else boxes
  }

  /** A row click flips that row's checkbox exactly when the click was not on
      the checkbox itself or inside an action button and the row has one; no
      other checkbox changes. */
  lemma RowClickEffect(boxes: seq<bool>, box: Option<nat>, target: ClickTarget)
    requires box.Some? ==> box.value < |boxes|
    ensures forall i :: 0 <= i < |boxes| ==>
      AfterRowClick(boxes, box, target)[i]
        == (if box == Some(i) && target == OtherContent then !boxes[i] else boxes[i])
  {
  }

  /** Two clicks on the same spot of a row cancel out. */
  lemma RowClickTwiceRestores(boxes: seq<bool>, box: Option<nat>, target: ClickTarget)
    requires box.Some? ==> box.value < |boxes|
    ensures AfterRowClick(AfterRowClick(boxes, box, target), box, target) == boxes
  {
  }

  /** Checking the master box, then clicking a row, leaves exactly that row
      unchecked. */
  lemma SelectAllThenRowClick(n: nat, k: nat)
    requires k < n
    ensures forall i :: 0 <= i < n ==> AfterRowClick(AllSetTo(n, true), Some(k), OtherContent)[i] == (i != k)
  {
  }

  /** The master checkbox's `change` handler. */
  method SelectAll(boxes: array<bool>, master: bool)
    modifies boxes
    ensures boxes[..] == AllSetTo(boxes.Length, master)
  {
    for i := 0 to boxes.Length
      invariant forall j :: 0 <= j < i ==> boxes[j] == master
    {
      boxes[i] := master;
    }
  }

  /** A row's `click` handler. */
  method RowClick(boxes: array<bool>, box: Option<nat>, target: ClickTarget)
    requires box.Some? ==> box.value < boxes.Length
    modifies boxes
    ensures boxes[..] == AfterRowClick(old(boxes[..]), box, target)
  {
    if target != Checkbox && target != ActionButton {
      if box.Some? {
        boxes[box.value] := !boxes[box.value];
      }
    }
  }
}
