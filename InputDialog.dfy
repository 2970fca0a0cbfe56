/**
 * The submit logic of `components/ui/input-dialog.tsx`: a text field whose
 * trimmed contents are handed to `onSubmit` when they are not blank, after
 * which the field is cleared and the dialog asks to be closed.
 */
module InputDialog {

  import opened Text

  /**
   * The dialog's field, whether the parent keeps it open, and the values
   * the parent has received through `onSubmit`, oldest first.
   */
  datatype DialogState = DialogState(value: string, isOpen: bool, submitted: seq<string>)

  /** `disabled={!value.trim()}` on the Add button. */
  predicate SubmitDisabled(value: string) {
    Blank(value)
  }

  /** `handleSubmit`: a blank field does nothing; otherwise submit the trimmed text, clear, close. */
  function SubmitStep(d: DialogState): (r: DialogState)
    ensures Blank(d.value) ==> r == d
    ensures !Blank(d.value) ==> r.value == [] && !r.isOpen && r.submitted == d.submitted + [Trim(d.value)]
  {
    if !Blank(d.value) then DialogState("", false, d.submitted + [Trim(d.value)]) else d
  }

  /** The Add button is disabled exactly when submitting would do nothing. */
  lemma DisabledExactlyWhenNoOp(d: DialogState)
    ensures SubmitDisabled(d.value) <==> SubmitStep(d) == d
  {
    if !Blank(d.value) {
      assert |SubmitStep(d).submitted| == |d.submitted| + 1;
    }
  }

  /** What is submitted is never blank and has no surrounding white space. */
  lemma SubmittedValueIsTrimmed(d: DialogState)
    requires !Blank(d.value)
    ensures var v := SubmitStep(d).submitted[|d.submitted|]; v != [] && Trim(v) == v
  {
    TrimIdempotent(d.value);
  }

  /** The component's field together with the parent state its callbacks change. */
  class InputDialog {
    var value: string
    var isOpen: bool
    var submitted: seq<string>

    function State(): DialogState
      reads this
    {
      DialogState(value, isOpen, submitted)
    }

    constructor (open: bool)
      ensures State() == DialogState("", open, [])
    {
      value, isOpen, submitted := "", open, [];
    }

    /** The field's `onChange`: the value becomes the typed text. */
    method HandleChange(text: string)
      modifies this`value
      ensures State() == old(State()).(value := text)
    {
      value := text;
    }

    method HandleSubmit()
      modifies this
      ensures State() == SubmitStep(old(State()))
    {
      var trimmed := Trim(value);
      if trimmed != [] {
        submitted := submitted + [trimmed];
        value := "";
        isOpen := false;
      }
    }
  }
}
