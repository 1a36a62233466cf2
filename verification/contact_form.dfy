/** The contact form: its fields, the error-message elements beside them,
    how a verdict is shown (validateField), how typing hides it
    (clearError), and the submit handler that validates every required
    field and either submits or moves the focus to the first reported
    error. */
module ContactForm {
  import opened Wrappers
  import opened Strings
  import opened Validator
  import opened EmailPattern

  /** An error element belongs to the field whose id it extends. */
  const ErrorSuffix := "-error"

  /** One form control: its id, its `required` attribute, its `type`,
      its current value and the value form.reset() restores. */
  datatype Field = Field(
    id: string,
    required: bool,
    inputType: string,
    value: string,
    defaultValue: string)

  /** How a control displays its last verdict: the aria-invalid attribute
      (None while absent) and membership of the "error" class. */
  datatype Mark = Mark(ariaInvalid: Option<bool>, errorClass: bool)

  /** A control the page has never marked. */
  const Unmarked := Mark(None, false)

  /** The form's submit button; `text` is its textContent. */
  datatype Button = Button(text: string, disabled: bool)

  /** The form as the page script sees it: its controls and the ids of its
      elements of class "error-message", each in document order; the
      textContent written into error elements, keyed by their index (an
      element without an entry is empty); the marks set on controls, keyed
      by the control's index (a control without an entry is unmarked); and
      the submit button. */
  datatype Form = Form(
    fields: seq<Field>,
    errorIds: seq<string>,
    errorTexts: map<nat, string>,
    marks: map<nat, Mark>,
    button: Button)

  /** The textContent of error element e. */
  function TextOf(form: Form, e: nat): string {
    if e in form.errorTexts then form.errorTexts[e] else ""
  }

  /** The mark control i displays. */
  function MarkOf(form: Form, i: nat): Mark {
    if i in form.marks then form.marks[i] else Unmarked
  }

  /** The mark a verdict sets: aria-invalid is its negation and the error
      class is present exactly when it fails. */
  function MarkFor(v: Verdict): Mark {
    Mark(Some(!v.isValid), !v.isValid)
  }

  /** The verdict of validateField for a field as it stands. */
  function VerdictOf(f: Field): Verdict {
    Validate(f.required, f.inputType, f.value)
  }

  /** getElementById(id) among the error elements. */
  function FindError(errorIds: seq<string>, id: string): (r: Option<nat>)
    ensures r.Some? ==> r.value < |errorIds| && errorIds[r.value] == id
  {
    FindFirstSpec(errorIds, (e: string) => e == id);
    FindFirst(errorIds, (e: string) => e == id)
  }

  /** getElementById(id) among the form's controls. An element whose id
      attribute is missing or empty has no ID, so the empty id finds
      nothing; any other id finds the first control carrying it. */
  function FindField(fields: seq<Field>, id: string): (r: Option<nat>)
    ensures id == "" ==> r.None?
    ensures r.Some? ==>
              && r.value < |fields| && fields[r.value].id == id
              && forall k :: 0 <= k < r.value ==> fields[k].id != id
    ensures r.None? && id != "" ==> forall k :: 0 <= k < |fields| ==> fields[k].id != id
  {
    if id == "" then None
    else
      FindFirstSpec(fields, (f: Field) => f.id == id);
      FindFirst(fields, (f: Field) => f.id == id)
  }

  /** Nothing a user typed or the markup declared differs between a and b:
      only error texts and marks may. */
  predicate SameInputs(a: Form, b: Form) {
    a.fields == b.fields && a.errorIds == b.errorIds && a.button == b.button
  }

  /** Reflects a verdict on field i: when its error element exists, that
      element shows the message, aria-invalid becomes the negated verdict
      and the error class follows it; without an error element nothing at
      all changes. */
  function ShowVerdict(form: Form, i: nat, v: Verdict): (r: Form)
    requires i < |form.fields|
    ensures SameInputs(form, r)
  {
    match FindError(form.errorIds, form.fields[i].id + ErrorSuffix)
    case None => form
    case Some(e) =>
      form.(errorTexts := form.errorTexts[e := v.message], marks := form.marks[i := MarkFor(v)])
  }

  /** What showing a verdict changes: when field i's error element exists,
      that element shows the message and field i's mark reflects the
      verdict, and no other error element or mark changes; without an
      error element nothing at all changes. */
  lemma ShowVerdictEffect(form: Form, i: nat, v: Verdict)
    requires i < |form.fields|
    ensures var e := FindError(form.errorIds, form.fields[i].id + ErrorSuffix);
            e.None? ==> ShowVerdict(form, i, v) == form
    ensures var e := FindError(form.errorIds, form.fields[i].id + ErrorSuffix);
            var r := ShowVerdict(form, i, v);
            e.Some? ==>
              && TextOf(r, e.value) == v.message
              && MarkOf(r, i) == MarkFor(v)
              && (forall k: nat :: k != e.value ==> TextOf(r, k) == TextOf(form, k))
              && (forall k: nat :: k != i ==> MarkOf(r, k) == MarkOf(form, k))
  {
  }

  /** validateField: decides the field and shows the verdict; returns the
      updated form and whether the field passed. */
  function ValidateField(form: Form, i: nat): (r: (Form, bool))
    requires i < |form.fields|
    ensures r.1 <==> VerdictOf(form.fields[i]).isValid
    ensures r.0 == ShowVerdict(form, i, VerdictOf(form.fields[i]))
  {
    var v := VerdictOf(form.fields[i]);
    (ShowVerdict(form, i, v), v.isValid)
  }

  /** What validateField reports and what it shows agree: with an error
      element, the returned flag is true exactly when that element is left
      empty, aria-invalid is the flag's negation and the error class is
      present exactly when the flag is false, and nothing else changes;
      without one nothing changes. The flag is the verdict of the rules. */
  lemma ValidateFieldShows(form: Form, i: nat)
    requires i < |form.fields|
    ensures var f := form.fields[i];
            ValidateField(form, i).1 <==>
              && !(f.required && AllWs(f.value))
              && (f.inputType == "email" && f.value != [] ==> MatchesEmailRegex(f.value))
    ensures FindError(form.errorIds, form.fields[i].id + ErrorSuffix).None? ==> ValidateField(form, i).0 == form
    ensures var e := FindError(form.errorIds, form.fields[i].id + ErrorSuffix);
            var r, ok := ValidateField(form, i).0, ValidateField(form, i).1;
            e.Some? ==>
              && (ok <==> TextOf(r, e.value) == "")
              && MarkOf(r, i) == Mark(Some(!ok), !ok)
              && (forall k: nat :: k != e.value ==> TextOf(r, k) == TextOf(form, k))
              && (forall k: nat :: k != i ==> MarkOf(r, k) == MarkOf(form, k))
  {
    var f := form.fields[i];
    ValidIff(f.required, f.inputType, f.value);
    ShowVerdictEffect(form, i, VerdictOf(f));
  }

  /** clearError: once the value is non-blank, the shown error is hidden
      exactly as a passing verdict would hide it, without deciding the
      field again; a blank value or a missing error element changes
      nothing. */
  function ClearError(form: Form, i: nat): (r: Form)
    requires i < |form.fields|
    ensures SameInputs(form, r)
    ensures FindError(form.errorIds, form.fields[i].id + ErrorSuffix).None? || AllWs(form.fields[i].value) ==>
              r == form
    ensures FindError(form.errorIds, form.fields[i].id + ErrorSuffix).Some? && !AllWs(form.fields[i].value) ==>
              var e := FindError(form.errorIds, form.fields[i].id + ErrorSuffix).value;
              && TextOf(r, e) == ""
              && MarkOf(r, i) == MarkFor(Verdict(true, ""))
              && (forall k: nat :: k != e ==> TextOf(r, k) == TextOf(form, k))
              && (forall k: nat :: k != i ==> MarkOf(r, k) == MarkOf(form, k))
  {
    BlankIffAllWs(form.fields[i].value);
    match FindError(form.errorIds, form.fields[i].id + ErrorSuffix)
    case Some(_) =>
      if IsBlank(form.fields[i].value) then form else ShowVerdict(form, i, Verdict(true, ""))
    case None => form
  }

  /** clearError does not decide the field: a malformed e-mail address is
      left showing no error at all. */
  lemma ClearErrorHidesInvalidEmail(form: Form, i: nat)
    requires i < |form.fields|
    requires FindError(form.errorIds, form.fields[i].id + ErrorSuffix).Some?
    requires form.fields[i].inputType == "email" && form.fields[i].value == "x"
    ensures var r := ClearError(form, i);
            && !VerdictOf(r.fields[i]).isValid
            && TextOf(r, FindError(form.errorIds, form.fields[i].id + ErrorSuffix).value) == ""
  {
    assert !IsWs(form.fields[i].value[0]);
  }

  /** Every required field passes. */
  predicate AllRequiredValid(form: Form) {
    forall k :: 0 <= k < |form.fields| && form.fields[k].required ==> VerdictOf(form.fields[k]).isValid
  }

  /** The running conjunction `isValid` of the submit handler after the
      first k controls. */
  predicate ValidUpTo(form: Form, k: nat)
    requires k <= |form.fields|
  {
    k == 0 || (ValidUpTo(form, k - 1) && (form.fields[k - 1].required ==> VerdictOf(form.fields[k - 1]).isValid))
  }

  /** The running conjunction over the first k controls holds exactly when
      every required one among them passes. */
  lemma {:induction false} ValidUpToIff(form: Form, k: nat)
    requires k <= |form.fields|
    ensures ValidUpTo(form, k) <==>
              forall j :: 0 <= j < k && form.fields[j].required ==> VerdictOf(form.fields[j]).isValid
  {
    if k > 0 {
      ValidUpToIff(form, k - 1);
    }
  }

  /** The forEach of the submit handler over the first k controls: each
      required one is validated in document order, none is skipped. */
  function ValidateUpTo(form: Form, k: nat): (r: Form)
    requires k <= |form.fields|
    ensures SameInputs(form, r)
  {
    if k == 0 then form
    else
      var prev := ValidateUpTo(form, k - 1);
      if form.fields[k - 1].required then ValidateField(prev, k - 1).0 else prev
  }

  /** The validation pass of one submit. */
  function ValidateRequired(form: Form): (r: Form)
    ensures SameInputs(form, r)
  {
    ValidateUpTo(form, |form.fields|)
  }

  /** The textContents of the error elements in document order. */
  function Texts(form: Form): (ts: seq<string>)
    ensures |ts| == |form.errorIds|
    ensures forall k :: 0 <= k < |ts| ==> ts[k] == TextOf(form, k)
  {
    seq(|form.errorIds|, k requires 0 <= k => TextOf(form, k))
  }

  /** `form.querySelector(".error-message:not(:empty)")`, its id stripped of
      the first "-error", then getElementById: the control that receives
      the focus after a rejected submit, if any. A focused control has a
      non-empty id, and that id is what remains of the id of the first
      error element showing text once "-error" is cut from it; with no
      error element showing text, nothing is focused. Conversely, the
      first control carrying that stripped id, when there is one, is the
      one focused. */
  function FocusTarget(form: Form): (r: Option<nat>)
    ensures r.Some? ==> r.value < |form.fields| && form.fields[r.value].id != ""
    ensures forall j :: && 0 <= j < |form.errorIds| && TextOf(form, j) != ""
                        && (forall k :: 0 <= k < j ==> TextOf(form, k) == "") ==>
              r == FindField(form.fields, ReplaceFirst(form.errorIds[j], ErrorSuffix, ""))
    ensures r.Some? ==>
              exists j :: && 0 <= j < |form.errorIds| && TextOf(form, j) != ""
                          && (forall k :: 0 <= k < j ==> TextOf(form, k) == "")
                          && ReplaceFirst(form.errorIds[j], ErrorSuffix, "") == form.fields[r.value].id
    ensures (forall j :: 0 <= j < |form.errorIds| ==> TextOf(form, j) == "") ==> r.None?
  {
    FindFirstSpec(Texts(form), (t: string) => t != []);
    match FindFirst(Texts(form), (t: string) => t != [])
    case None => None
    case Some(j) => FindField(form.fields, ReplaceFirst(form.errorIds[j], ErrorSuffix, ""))
  }

  /** A control carrying the stripped id of the first error element
      showing text is found: the focus goes to the first control carrying
      that id. */
  lemma FocusTargetFindsControl(form: Form, j: nat, c: nat)
    requires j < |form.errorIds| && TextOf(form, j) != ""
    requires forall k :: 0 <= k < j ==> TextOf(form, k) == ""
    requires c < |form.fields| && form.fields[c].id != ""
    requires form.fields[c].id == ReplaceFirst(form.errorIds[j], ErrorSuffix, "")
    ensures FocusTarget(form).Some?
    ensures FocusTarget(form).value <= c
    ensures form.fields[FocusTarget(form).value].id == form.fields[c].id
    ensures forall k :: 0 <= k < FocusTarget(form).value ==> form.fields[k].id != form.fields[c].id
  {
    var id := ReplaceFirst(form.errorIds[j], ErrorSuffix, "");
    assert FocusTarget(form) == FindField(form.fields, id);
  }

  /** The submit handler's decision: validates every required field (no
      short-circuit), ANDs the verdicts, and reports whether to submit or,
      on rejection, which control to focus. */
  method HandleSubmit(form: Form) returns (r: Form, allValid: bool, focus: Option<nat>)
    ensures r == ValidateRequired(form)
    ensures allValid <==> AllRequiredValid(form)
    ensures allValid ==> focus.None?
    ensures !allValid ==> focus == FocusTarget(r)
  {
    r := form;
    allValid := true;
    var k := 0;
    while k < |form.fields|
      invariant k <= |form.fields|
      invariant r == ValidateUpTo(form, k)
      invariant allValid == ValidUpTo(form, k)
    {
      if form.fields[k].required {
        var validated := ValidateField(r, k);
        r := validated.0;
        if !validated.1 {
          allValid := false;
        }
      }
      k := k + 1;
    }
    ValidUpToIff(form, k);
    focus := if allValid then None else FocusTarget(r);
  }

  /** The page markup the focus rule relies on: one error element per
      control, in the same order, named by the control's id plus "-error";
      control ids are non-empty, distinct, and do not themselves contain
      "-error"; and
      the error elements of optional controls, which are never validated,
      are empty. */
  predicate WellFormed(form: Form) {
    && |form.errorIds| == |form.fields|
    && (forall k :: 0 <= k < |form.fields| ==> form.errorIds[k] == form.fields[k].id + ErrorSuffix)
    && (forall k :: 0 <= k < |form.fields| ==>
          form.fields[k].id != "" && !Contains(form.fields[k].id, ErrorSuffix))
    && (forall j, k :: 0 <= j < k < |form.fields| ==> form.fields[j].id != form.fields[k].id)
    && (forall k :: 0 <= k < |form.fields| && !form.fields[k].required ==> TextOf(form, k) == [])
  }

  /** The index of the first required field that fails. */
  function FirstInvalid(form: Form): Option<nat> {
    FindFirst(form.fields, (f: Field) => f.required && !VerdictOf(f).isValid)
  }

  lemma AppendCancels(a: string, b: string, s: string)
    requires a + s == b + s
    ensures a == b
  {
    assert a == (a + s)[..|a|];
    assert b == (b + s)[..|b|];
  }

  /** In a well-formed form, field i's error element is the i-th. */
  lemma ErrorOfField(form: Form, i: nat)
    requires WellFormed(form) && i < |form.fields|
    ensures FindError(form.errorIds, form.fields[i].id + ErrorSuffix) == Some(i)
  {
    var id := form.fields[i].id + ErrorSuffix;
    FindFirstSpec(form.errorIds, (e: string) => e == id);
    var r := FindError(form.errorIds, id);
    if r != Some(i) {
      var j := r.value;
      AppendCancels(form.fields[j].id, form.fields[i].id, ErrorSuffix);
      assert false;
    }
  }

  /** Every control's error element is the one at the control's own index. */
  predicate ErrorsAligned(form: Form) {
    forall k :: 0 <= k < |form.fields| ==> FindError(form.errorIds, form.fields[k].id + ErrorSuffix) == Some(k)
  }

  lemma WellFormedAligned(form: Form)
    requires WellFormed(form)
    ensures ErrorsAligned(form)
  {
    forall k | 0 <= k < |form.fields| {
      ErrorOfField(form, k);
    }
  }

  /** In a well-formed form, the control named by field i's id is field i. */
  lemma FieldOfId(form: Form, i: nat)
    requires WellFormed(form) && i < |form.fields|
    ensures FindField(form.fields, form.fields[i].id) == Some(i)
  {
    FindFirstSpec(form.fields, (f: Field) => f.id == form.fields[i].id);
  }

  /** Validating the k-th control touches only its own error element and
      its own mark. */
  lemma ValidateStepEffect(form: Form, k: nat, i: nat)
    requires k < |form.fields|
    requires FindError(form.errorIds, form.fields[k].id + ErrorSuffix) == Some(k)
    ensures var prev, r := ValidateUpTo(form, k), ValidateUpTo(form, k + 1);
            && TextOf(r, i) ==
                 (if i == k && form.fields[k].required then VerdictOf(form.fields[k]).message
                  else TextOf(prev, i))
            && MarkOf(r, i) ==
                 (if i == k && form.fields[k].required then MarkFor(VerdictOf(form.fields[k]))
                  else MarkOf(prev, i))
  {
    var f := form.fields[k];
    if f.required {
      ShowVerdictEffect(ValidateUpTo(form, k), k, VerdictOf(f));
    }
  }

  /** After validating the first k controls of a well-formed form, error
      element i shows the verdict of control i and the control carries the
      verdict's mark when it is required and among them; otherwise both
      are as before. */
  lemma {:induction false} ValidateUpToShows(form: Form, k: nat, i: nat)
    requires ErrorsAligned(form) && k <= |form.fields|
    ensures TextOf(ValidateUpTo(form, k), i) ==
              if i < k && form.fields[i].required then VerdictOf(form.fields[i]).message
              else TextOf(form, i)
    ensures MarkOf(ValidateUpTo(form, k), i) ==
              if i < k && form.fields[i].required then MarkFor(VerdictOf(form.fields[i]))
              else MarkOf(form, i)
  {
    if k > 0 {
      ValidateUpToShows(form, k - 1, i);
      ValidateStepEffect(form, k - 1, i);
    }
  }

  /** After the validation pass of a submit, every required control's
      error element shows that control's verdict and the control carries
      the verdict's mark; optional controls and their error elements keep
      what they had. */
  lemma SubmitShowsVerdicts(form: Form)
    requires WellFormed(form)
    ensures var r := ValidateRequired(form);
            forall i :: 0 <= i < |form.fields| && form.fields[i].required ==>
              && TextOf(r, i) == VerdictOf(form.fields[i]).message
              && MarkOf(r, i) == MarkFor(VerdictOf(form.fields[i]))
    ensures var r := ValidateRequired(form);
            forall i :: 0 <= i < |form.fields| && !form.fields[i].required ==>
              TextOf(r, i) == TextOf(form, i) && MarkOf(r, i) == MarkOf(form, i)
  {
    WellFormedAligned(form);
    forall i | 0 <= i < |form.fields| {
      ValidateUpToShows(form, |form.fields|, i);
    }
  }

  /** A rejected submit focuses the first required field that fails, in
      document order, whatever the other fields hold. */
  lemma FocusOnFirstInvalid(form: Form)
    requires WellFormed(form)
    ensures FocusTarget(ValidateRequired(form)) == FirstInvalid(form)
  {
    var r := ValidateRequired(form);
    var texts := Texts(r);
    WellFormedAligned(form);
    forall k | 0 <= k < |texts|
      ensures texts[k] != [] <==> form.fields[k].required && !VerdictOf(form.fields[k]).isValid
    {
      ValidateUpToShows(form, |form.fields|, k);
    }
    FindFirstAgrees(texts, (t: string) => t != [],
                    form.fields, (f: Field) => f.required && !VerdictOf(f).isValid);
    match FirstInvalid(form)
    case None =>
    case Some(j) =>
      RemoveAppendedSuffix(form.fields[j].id, ErrorSuffix);
      FieldOfId(form, j);
  }

  /** A rejected submit always has a field to focus in a well-formed form,
      and that field fails. */
  lemma RejectedSubmitFocuses(form: Form)
    requires WellFormed(form) && !AllRequiredValid(form)
    ensures FocusTarget(ValidateRequired(form)).Some?
    ensures !VerdictOf(form.fields[FocusTarget(ValidateRequired(form)).value]).isValid
  {
    FocusOnFirstInvalid(form);
    FindFirstSpec(form.fields, (f: Field) => f.required && !VerdictOf(f).isValid);
    var k :| 0 <= k < |form.fields| && form.fields[k].required && !VerdictOf(form.fields[k]).isValid;
  }
}
