/** One prompt card (`PromptSection`): its local editing state, the submit guard
    that forwards a refinement instruction, and what the card shows. */
module PromptSection {
  import opened Results
  import opened Text
  import opened Emphasis

  /** The card's local state: whether the edit form is open, and its input value. */
  datatype Editor = Editor(isEditing: bool, editValue: string)

  const Closed: Editor := Editor(false, "")

  /** `handleSubmit`: the instruction handed to `onEdit`, if any, and the new state.
      A blank value changes nothing and forwards nothing; otherwise the value is
      forwarded as typed, untrimmed, and the form closes with its input cleared. */
  function Submit(ed: Editor): (r: (Editor, Option<string>))
    ensures r.1.Some? <==> !AllSpace(ed.editValue)
    ensures r.1.Some? ==> r.1.value == ed.editValue && r.0 == Closed
    ensures r.1.None? ==> r.0 == ed
  {
    if !Blank(ed.editValue) then (Closed, Some(ed.editValue)) else (ed, None)
  }

  /** The pencil button flips the form open or closed and keeps the input. */
  function Toggle(ed: Editor): (r: Editor)
    ensures r.isEditing != ed.isEditing && r.editValue == ed.editValue
  {
    ed.(isEditing := !ed.isEditing)
  }

  /** Cancel closes the form and keeps the input. */
  function Cancel(ed: Editor): (r: Editor)
    ensures !r.isEditing && r.editValue == ed.editValue
  {
    ed.(isEditing := false)
  }

  /** Typing replaces the input value. */
  function Change(ed: Editor, value: string): (r: Editor)
    ensures r.isEditing == ed.isEditing && r.editValue == value
  {
    ed.(editValue := value)
  }

  /** A second submit right after a forwarded one forwards nothing: one
      instruction is sent per typed value. */
  lemma SubmitOnce(ed: Editor)
    ensures Submit(ed).1.Some? ==> Submit(Submit(ed).0).1.None? && Submit(Submit(ed).0).0 == Closed
  {
  }

  /** Toggling twice restores the state. */
  lemma ToggleTwice(ed: Editor)
    ensures Toggle(Toggle(ed)) == ed
  {
  }

  /** What the card body shows: the form, the placeholder for empty content, or
      the segments of the content. */
  datatype View = Form(value: string) | Placeholder | Segments(segments: seq<Segment>)

  function Show(ed: Editor, content: string): (v: View)
    ensures v.Form? <==> ed.isEditing
    ensures v.Placeholder? <==> !ed.isEditing && content == ""
  {
    if ed.isEditing then Form(ed.editValue)
    else if content == "" then Placeholder
    else Segments(ClassifyAll(Split(content)))
  }

  /** A card that is not editing shows exactly what the highlighted text shows for
      the same content: the placeholder stands where the highlighted text renders
      nothing. */
  lemma ShowAgreesWithRender(ed: Editor, content: string)
    requires !ed.isEditing
    ensures Show(ed, content).Placeholder? <==> Render(content).None?
    ensures Show(ed, content).Segments? ==> Render(content) == Some(Show(ed, content).segments)
  {
  }
}
