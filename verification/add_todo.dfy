/** The add form (components/AddTodo.tsx): one text field, whose content is
    handed, trimmed, to the `onAdd` callback when the form is submitted. */
module AddTodo {
  import opened JsString

  datatype Option<T> = None | Some(value: T)

  /** The form's state. `text` is the controlled input's value; `added` is
      the ghost history of the arguments passed to `onAdd`, oldest first. */
  class Form {
    var text: string
    ghost var added: seq<string>

    /** `useState("")`: the field starts empty and nothing has been added. */
    constructor ()
      ensures text == "" && added == []
    {
      text := "";
      added := [];
    }

    /** The input's `onChange`: the field takes the typed value, nothing else changes. */
    method OnChange(value: string)
      modifies this
      ensures text == value
      ensures added == old(added)
    {
      text := value;
    }

    /** `handleSubmit`: a blank field is ignored; otherwise the trimmed text
        is passed to `onAdd` (returned here as `sent` and logged in `added`)
        exactly once, and the field is cleared. */
    method HandleSubmit() returns (sent: Option<string>)
      modifies this
      ensures Blank(old(text)) ==> sent == None && text == old(text) && added == old(added)
      ensures !Blank(old(text)) ==>
        sent == Some(Trim(old(text))) && text == "" && added == old(added) + [sent.value]
      ensures sent.Some? ==>
        sent.value != "" && !IsWhitespace(sent.value[0]) && !IsWhitespace(sent.value[|sent.value| - 1]) &&
        Trim(sent.value) == sent.value
    {
      var trimmed := Trim(text);
      TrimEmptyIffBlank(text);
      if trimmed != "" {
        TrimIdempotent(text);
        sent := Some(trimmed);
        added := added + [trimmed];
        text := "";
      } else {
        sent := None;
      }
    }
  }
}
