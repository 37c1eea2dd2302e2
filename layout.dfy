/**
 * The stateful widgets of the layout: the extract-selection text field,
 * which stores the parse of its text into its own fields, and the file-path
 * column, whose entries delete themselves and reorder each other by drag
 * and drop. Only the state the handlers update is modelled; styling, event
 * objects and `update()` repaints are not.
 */
module Layout {
  import opened PageSelection
  import opened Lists

  /** The background colour the text field shows; `Default` until the first check. */
  datatype Color = Default | White | Red

  /** The text field holding the extract selection. */
  class ExtractPageTextField {
    var value: string
    var numPages: seq<int>
    var valid: bool
    var bgcolor: Color

    /** A fresh field: empty text, no pages, flagged valid, default colour. */
    constructor ()
      ensures value == "" && numPages == [] && valid && bgcolor == Default
    {
      value := "";
      numPages := [];
      valid := true;
      bgcolor := Default;
    }

    /**
     * `on_check_extract_num`: parse the current text into the page list and
     * the flag, and paint the field red exactly when the text is invalid.
     */
    method OnCheckExtractNum()
      requires AsciiInput(value)
      modifies this
      ensures value == old(value)
      ensures Parsed(numPages, valid) == Selection(value)
      ensures bgcolor == (if valid then White else Red)
    {
      var color := White;
      numPages, valid := CheckCommaSeparatedNum(value);
      if !valid {
        color := Red;
      }
      bgcolor := color;
    }
  }

  /** The column of file-path entries; its order is the order the jobs use. */
  class PathColumn {
    var controls: seq<DelButtonText>

    constructor ()
      ensures controls == []
    {
      controls := [];
    }

    /** Every entry appears once and belongs to this column. */
    predicate Valid()
      reads this
    {
      && Distinct(controls)
      && forall k | 0 <= k < |controls| :: controls[k].parentControl == this
    }
  }

  /** Swapping two entries of a column's list keeps every entry belonging to that column. */
  lemma SwapKeepsOwner(column: PathColumn, s: seq<DelButtonText>, i: nat, j: nat)
    requires i < |s| && j < |s|
    requires forall k | 0 <= k < |s| :: s[k].parentControl == column
    ensures var r := s[i := s[j]][j := s[i]];
      forall k | 0 <= k < |r| :: r[k].parentControl == column
  {
    var r := s[i := s[j]][j := s[i]];
    forall k | 0 <= k < |r| ensures r[k].parentControl == column {
      var k' := if k == j then i else if k == i then j else k;
      assert r[k] == s[k'];
    }
  }

  /** One entry of the column: a delete button beside the path it shows. */
  class DelButtonText {
    const parentControl: PathColumn
    const value: string

    constructor (parentControl: PathColumn, value: string)
      ensures this.parentControl == parentControl && this.value == value
    {
      this.parentControl := parentControl;
      this.value := value;
    }

    /**
     * `on_delete`: the entry takes itself out of its column. `list.remove`
     * raises when the entry is no longer there, which leaves the column as it
     * was; `ok` reports which of the two happened.
     */
    method OnDelete() returns (ok: bool)
      modifies parentControl
      ensures ok <==> this in old(parentControl.controls)
      ensures ok ==> parentControl.controls == RemoveFirst(old(parentControl.controls), this)
      ensures !ok ==> parentControl.controls == old(parentControl.controls)
      ensures old(parentControl.Valid()) ==> parentControl.Valid()
      ensures old(parentControl.Valid()) ==> forall c :: c in parentControl.controls <==> c in old(parentControl.controls) && c != this
    {
      var controls := parentControl.controls;
      if this !in controls {
        return false;
      }
      parentControl.controls := RemoveFirst(controls, this);
      ok := true;
      if Distinct(controls) {
        RemoveFirstFacts(controls, this);
      }
    }

    /**
     * `on_accept`: `dragItem` was dropped on `dropItem`. Both positions are
     * looked up first, then two insert/pop pairs put each item where the other
     * was. `list.index` raises when either item is missing, before anything
     * changes; `ok` reports which of the two happened.
     */
    method OnAccept(dropItem: DelButtonText, dragItem: DelButtonText) returns (ok: bool)
      modifies parentControl
      ensures ok <==> dropItem in old(parentControl.controls) && dragItem in old(parentControl.controls)
      ensures ok ==> var s := old(parentControl.controls);
        var i, j := IndexOf(s, dropItem), IndexOf(s, dragItem);
        parentControl.controls == s[i := dragItem][j := dropItem]
      ensures !ok ==> parentControl.controls == old(parentControl.controls)
      ensures |parentControl.controls| == |old(parentControl.controls)|
      ensures multiset(parentControl.controls) == multiset(old(parentControl.controls))
      ensures dropItem == dragItem ==> parentControl.controls == old(parentControl.controls)
      ensures old(parentControl.Valid()) ==> parentControl.Valid()
    {
      var controls := parentControl.controls;
      if dropItem !in controls || dragItem !in controls {
        return false;
      }
      var dropIdx := IndexOf(controls, dropItem);
      var dragIdx := IndexOf(controls, dragItem);
      var reordered := Insert(controls, dropIdx, dragItem);
      reordered := Pop(reordered, dropIdx + 1);
      reordered := Insert(reordered, dragIdx, dropItem);
      reordered := Pop(reordered, dragIdx + 1);
      ReorderSwaps(controls, dropIdx, dragIdx);
      SwapFacts(controls, dropIdx, dragIdx);
      if parentControl.Valid() {
        SwapKeepsDistinct(controls, dropIdx, dragIdx);
        SwapKeepsOwner(parentControl, controls, dropIdx, dragIdx);
      }
      parentControl.controls := reordered;
      ok := true;
    }
  }
}
