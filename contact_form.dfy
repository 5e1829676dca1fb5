/**
 * The contact form's submit handler (js/main.js, section 7): clear the
 * previous error marks and messages, check every required field in document
 * order, mark each failing field and append one message under it, and show
 * the success panel when nothing failed.
 */
module FormValidation {
  import opened Text
  import opened Email

  const RequiredMessage: string := "Este campo es obligatorio"
  const EmailMessage: string := "Ingresa un correo electrónico válido"

  /** What the handler reads of a form control: its current value, its type
      attribute and whether it carries the required attribute. */
  datatype Control = Control(value: string, kind: string, required: bool)

  /** A form control and whether it has the form-field--error class. */
  datatype Field = Field(control: Control, marked: bool)

  /** A span.form-error appended under the field with index field. */
  datatype ErrorNote = ErrorNote(field: nat, message: string)

  datatype Option<T> = None | Some(value: T)

  /** What the handler asks of one field: nothing unless it is required; a
      required field must be non-blank once trimmed, and a required email
      field's trimmed value must be a valid address. */
  ghost predicate Acceptable(c: Control) {
    c.required ==> Trim(c.value) != [] && (c.kind == "email" ==> IsValidEmail(Trim(c.value)))
  }

  /** The message the handler shows under the control c, if any. */
  function ErrorFor(c: Control): Option<string> {
    if !c.required then None
    else if Trim(c.value) == [] then Some(RequiredMessage)
    else if c.kind == "email" && !IsValidEmail(Trim(c.value)) then Some(EmailMessage)
    else None
  }

  /** A field gets a message exactly when it is not acceptable; a blank
      required field gets the "required" message and is not also checked as
      an address, and only a non-blank email field gets the address message. */
  lemma ErrorForSpec(c: Control)
    ensures ErrorFor(c).None? <==> Acceptable(c)
    ensures ErrorFor(c) == Some(RequiredMessage) <==> c.required && Trim(c.value) == []
    ensures ErrorFor(c) == Some(EmailMessage) <==>
      c.required && Trim(c.value) != [] && c.kind == "email" && !IsValidEmail(Trim(c.value))
  {
    assert RequiredMessage != EmailMessage by {
      assert RequiredMessage[0] != EmailMessage[0];
    }
  }

  /** Whether the form as a whole passes. */
  ghost predicate AllAcceptable(fields: seq<Field>) {
    forall i :: 0 <= i < |fields| ==> Acceptable(fields[i].control)
  }

  /** The notes name fields below n, each an earlier one than the next. */
  ghost predicate Ordered(notes: seq<ErrorNote>, n: nat) {
    && (forall j :: 0 <= j < |notes| ==> notes[j].field < n)
    && (forall j, k :: 0 <= j < k < |notes| ==> notes[j].field < notes[k].field)
  }

  /** Each note names a field of fields and carries that field's message. */
  ghost predicate CarryMessages(fields: seq<Field>, notes: seq<ErrorNote>) {
    forall j :: 0 <= j < |notes| ==>
      notes[j].field < |fields| && ErrorFor(fields[notes[j].field].control) == Some(notes[j].message)
  }

  /** The notes after a submit of fields: one per failing field, in field
      order, each carrying that field's message. */
  ghost predicate NotesFor(fields: seq<Field>, notes: seq<ErrorNote>) {
    && Ordered(notes, |fields|)
    && CarryMessages(fields, notes)
    && (forall i :: 0 <= i < |fields| && !Acceptable(fields[i].control) ==>
          exists j :: 0 <= j < |notes| && notes[j].field == i)
  }

  /** The field list after a submit of fields: unchanged but for the error
      class, which is on exactly the failing fields. */
  ghost predicate MarkedFor(fields: seq<Field>, after: seq<Field>) {
    && |after| == |fields|
    && forall i :: 0 <= i < |fields| ==> after[i] == fields[i].(marked := !Acceptable(fields[i].control))
  }

  /** The notes a submit leaves for fields, built one field at a time in
      document order, as the handler's loop appends them. */
  function ExpectedNotes(fields: seq<Field>): seq<ErrorNote> {
    if fields == [] then []
    else
      var i := |fields| - 1;
      ExpectedNotes(fields[..i]) + NoteFor(i, fields[i])
  }

  /** The note, if any, that the field with index i gets. */
  function NoteFor(i: nat, f: Field): seq<ErrorNote> {
    if ErrorFor(f.control).Some? then [ErrorNote(i, ErrorFor(f.control).value)] else []
  }

  /** Each note built field by field names an earlier field than the next
      one, and a field of the list. */
  lemma {:induction false} ExpectedNotesOrdered(fields: seq<Field>)
    ensures Ordered(ExpectedNotes(fields), |fields|)
  {
    if fields != [] {
      var i := |fields| - 1;
      ExpectedNotesOrdered(fields[..i]);
      var prev := ExpectedNotes(fields[..i]);
      assert ExpectedNotes(fields) == prev + NoteFor(i, fields[i]);
    }
  }

  /** Each note built field by field carries its field's message. */
  lemma {:induction false} ExpectedNotesMessages(fields: seq<Field>)
    ensures CarryMessages(fields, ExpectedNotes(fields))
  {
    if fields != [] {
      var i := |fields| - 1;
      var init := fields[..i];
      ExpectedNotesMessages(init);
      var prev := ExpectedNotes(init);
      var notes := ExpectedNotes(fields);
      assert notes == prev + NoteFor(i, fields[i]);
      forall j | 0 <= j < |notes|
        ensures notes[j].field < |fields| && ErrorFor(fields[notes[j].field].control) == Some(notes[j].message)
      {
        if j < |prev| {
          assert notes[j] == prev[j];
          assert init[prev[j].field] == fields[prev[j].field];
        }
      }
    }
  }

  /** Every failing field has a note among those built field by field. */
  lemma {:induction false} ExpectedNotesCover(fields: seq<Field>, k: nat)
    requires k < |fields| && ErrorFor(fields[k].control).Some?
    ensures exists j :: 0 <= j < |ExpectedNotes(fields)| && ExpectedNotes(fields)[j].field == k
  {
    var i := |fields| - 1;
    var init := fields[..i];
    var prev := ExpectedNotes(init);
    var notes := ExpectedNotes(fields);
    assert notes == prev + NoteFor(i, fields[i]);
    if k < i {
      assert init[k] == fields[k];
      ExpectedNotesCover(init, k);
      var j :| 0 <= j < |prev| && prev[j].field == k;
      assert notes[j] == prev[j];
    } else {
      assert notes[|notes| - 1].field == k;
    }
  }

  /** The notes built field by field are the notes NotesFor describes. */
  lemma ExpectedNotesSpec(fields: seq<Field>)
    ensures NotesFor(fields, ExpectedNotes(fields))
  {
    ExpectedNotesOrdered(fields);
    ExpectedNotesMessages(fields);
    forall k | 0 <= k < |fields| && !Acceptable(fields[k].control)
      ensures exists j :: 0 <= j < |ExpectedNotes(fields)| && ExpectedNotes(fields)[j].field == k
    {
      ErrorForSpec(fields[k].control);
      ExpectedNotesCover(fields, k);
    }
  }

  /** The submit leaves no message exactly when every field passes. */
  lemma NoNotesIffAcceptable(fields: seq<Field>)
    ensures ExpectedNotes(fields) == [] <==> AllAcceptable(fields)
  {
    ExpectedNotesSpec(fields);
    if !AllAcceptable(fields) {
      var k :| 0 <= k < |fields| && !Acceptable(fields[k].control);
    } else if ExpectedNotes(fields) != [] {
      var n := ExpectedNotes(fields)[0];
      ErrorForSpec(fields[n.field].control);
    }
  }

  /** The fields after the check loop, built one field at a time: each
      keeps its value, type and required attribute, and carries the error
      class exactly when its check fails. */
  function Checked(fields: seq<Field>): (r: seq<Field>)
    ensures |r| == |fields|
  {
    if fields == [] then []
    else
      var i := |fields| - 1;
      Checked(fields[..i]) + [fields[i].(marked := ErrorFor(fields[i].control).Some?)]
  }

  /** The fields built one at a time carry the error class exactly on the
      unacceptable ones. */
  lemma {:induction false} CheckedSpec(fields: seq<Field>)
    ensures MarkedFor(fields, Checked(fields))
  {
    if fields != [] {
      var i := |fields| - 1;
      CheckedSpec(fields[..i]);
      ErrorForSpec(fields[i].control);
      forall k | 0 <= k < i ensures Checked(fields)[k] == fields[k].(marked := !Acceptable(fields[k].control)) {
        assert fields[..i][k] == fields[k];
      }
    }
  }

  /** One more field checked: the prefix grows by that field, marked when
      its check fails, and the notes by that field's note. */
  lemma CheckStep(start: seq<Field>, i: nat)
    requires i < |start|
    ensures (Checked(start[..i]) + start[i..])[i := start[i].(marked := ErrorFor(start[i].control).Some?)]
            == Checked(start[..i + 1]) + start[i + 1..]
    ensures ExpectedNotes(start[..i + 1]) == ExpectedNotes(start[..i]) + NoteFor(i, start[i])
  {
    assert start[..i + 1][..i] == start[..i];
  }

  /** The checks read only the controls: fields that differ only in their
      error classes are checked alike. */
  lemma {:induction false} SameControls(a: seq<Field>, b: seq<Field>)
    requires |a| == |b|
    requires forall k :: 0 <= k < |a| ==> a[k].control == b[k].control
    ensures Checked(a) == Checked(b) && ExpectedNotes(a) == ExpectedNotes(b)
  {
    if a != [] {
      var i := |a| - 1;
      SameControls(a[..i], b[..i]);
    }
  }

  /** NotesFor pins the notes down: no field gets two messages, and a field
      that passes gets none. */
  lemma NotesForExact(fields: seq<Field>, notes: seq<ErrorNote>, i: nat)
    requires NotesFor(fields, notes)
    requires i < |fields|
    ensures |set j | 0 <= j < |notes| && notes[j].field == i| == if Acceptable(fields[i].control) then 0 else 1
  {
    var js := set j | 0 <= j < |notes| && notes[j].field == i;
    if Acceptable(fields[i].control) {
      ErrorForSpec(fields[i].control);
      assert js == {};
    } else {
      var j0 :| 0 <= j0 < |notes| && notes[j0].field == i;
      assert js == {j0};
    }
  }

  class ContactForm {
    var fields: seq<Field>
    var notes: seq<ErrorNote>
    var successShown: bool

    constructor (fields: seq<Field>)
      ensures this.fields == fields && notes == [] && !successShown
    {
      this.fields := fields;
      notes := [];
      successShown := false;
    }

    /** showFieldError: mark field i and append a message under it. */
    method ShowFieldError(i: nat, message: string)
      requires i < |fields|
      modifies this
      ensures fields == old(fields)[i := old(fields)[i].(marked := true)]
      ensures notes == old(notes) + [ErrorNote(i, message)]
      ensures successShown == old(successShown)
    {
      fields := fields[i := fields[i].(marked := true)];
      notes := notes + [ErrorNote(i, message)];
    }

    /** showFormSuccess: the form's content is replaced by the success
      panel, so no control and no message is left in it. */
    method ShowFormSuccess()
      modifies this
      ensures successShown && fields == [] && notes == []
    {
      fields, notes, successShown := [], [], true;
    }

    /** The first two loops of the submit handler: remove every message and
        every error class. */
    method ClearErrors()
      modifies this
      ensures notes == [] && successShown == old(successShown)
      ensures |fields| == |old(fields)|
      ensures forall k :: 0 <= k < |fields| ==> fields[k] == old(fields)[k].(marked := false)
    {
      notes := [];
      var i := 0;
      while i < |fields|
        invariant 0 <= i <= |fields| == |old(fields)|
        invariant forall k :: 0 <= k < i ==> fields[k] == old(fields)[k].(marked := false)
        invariant forall k :: i <= k < |fields| ==> fields[k] == old(fields)[k]
        invariant notes == [] && successShown == old(successShown)
      {
        fields := fields[i := fields[i].(marked := false)];
        i := i + 1;
      }
    }

    /** The per-field step of the validation loop: a blank required field
        gets the "required" message and nothing more; a non-blank email field
        that is not an address gets the address message. ok is false exactly
        when the step clears the handler's flag. */
    method CheckField(i: nat) returns (ok: bool)
      requires i < |fields|
      modifies this
      ensures ok <==> ErrorFor(old(fields)[i].control).None?
      ensures fields == old(fields)[i := old(fields)[i].(marked := old(fields)[i].marked || !ok)]
      ensures notes == old(notes) + NoteFor(i, old(fields)[i])
      ensures successShown == old(successShown)
    {
      ok := true;
      var control := fields[i].control;
      if control.required {
        var value := Trim(control.value);
        if value == [] {
          ok := false;
          ShowFieldError(i, RequiredMessage);
          return;
        }
        if control.kind == "email" && !IsValidEmail(value) {
          ok := false;
          ShowFieldError(i, EmailMessage);
        }
      }
      if ok {
        assert fields == old(fields)[i := old(fields)[i].(marked := old(fields)[i].marked || !ok)];
      }
    }

    /** One iteration of the validation loop, stated against start, the
        fields as they were before the loop: the first i fields are checked,
        and checking field i extends that prefix by one. */
    method CheckNext(ghost start: seq<Field>, i: nat) returns (ok: bool)
      requires i < |start| == |fields| && !start[i].marked
      requires fields == Checked(start[..i]) + start[i..] && notes == ExpectedNotes(start[..i])
      modifies this
      ensures fields == Checked(start[..i + 1]) + start[i + 1..] && notes == ExpectedNotes(start[..i + 1])
      ensures |old(notes)| <= |notes| && (ok <==> |notes| == |old(notes)|)
      ensures successShown == old(successShown)
    {
      CheckStep(start, i);
      assert fields[i] == start[i];
      ok := CheckField(i);
      assert ok <==> NoteFor(i, start[i]) == [];
    }

    /** The validation loop, run on fields whose error classes and messages
        were just cleared: every field is checked in order, and the flag ends
        true exactly when no check appended a message. */
    method CheckFields() returns (isValid: bool)
      requires notes == [] && forall k :: 0 <= k < |fields| ==> !fields[k].marked
      modifies this
      ensures fields == Checked(old(fields)) && notes == ExpectedNotes(old(fields))
      ensures isValid <==> notes == []
      ensures successShown == old(successShown)
    {
      ghost var start := fields;
      isValid := true;
      var i := 0;
      while i < |fields|
        invariant 0 <= i <= |fields| == |start|
        invariant fields == Checked(start[..i]) + start[i..]
        invariant notes == ExpectedNotes(start[..i])
        invariant isValid <==> |notes| == 0
        invariant successShown == old(successShown)
      {
        var ok := CheckNext(start, i);
        isValid := isValid && ok;
        i := i + 1;
      }
      assert start[..i] == start;
    }

    /** The submit handler. isValid is the handler's flag after its loop. */
    method Submit() returns (isValid: bool)
      modifies this
      ensures isValid <==> AllAcceptable(old(fields))
      ensures isValid ==> successShown && fields == [] && notes == []
      ensures !isValid ==> successShown == old(successShown)
      ensures !isValid ==> fields == Checked(old(fields)) && MarkedFor(old(fields), fields)
      ensures !isValid ==> notes == ExpectedNotes(old(fields)) && NotesFor(old(fields), notes)
    {
      ghost var original := fields;
      ClearErrors();
      SameControls(original, fields);
      isValid := CheckFields();
      ExpectedNotesSpec(original);
      NoNotesIffAcceptable(original);
      CheckedSpec(original);
      if isValid {
        ShowFormSuccess();
      }
    }
  }
}
