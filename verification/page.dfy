/** The contact page as a state machine over the events its script
    listens to: submit, blur and input on the required controls, the
    2000 ms timer of submitForm, and the removal timers of notifications.
    The submit button goes idle -> busy ("Sending...", disabled) -> idle
    (original label, enabled, form reset). */
module Page {
  import opened Wrappers
  import opened Strings
  import opened Validator
  import opened ContactForm
  import opened Notifications

  /** The label of the submit button while a submission is in flight. */
  const BusyText := "Sending..."

  /** The notification shown when a submission completes. */
  const SuccessMessage :=
    "Thank you for your message! This is a demo form for the portfolio. In a real website, this would send your message."

  /** The notification type of SuccessMessage. */
  const SuccessKind := "success"

  /** The start of the notification a click on a mailto link shows. */
  const CopiedPrefix := "Email address copied: "

  /** The notification type of the copied-address notification. */
  const CopiedKind := "info"

  /** The page: the contact form; the notifications; the button label
      saved by a submission whose 2000 ms timer is pending (None when no
      submission is in flight); and the control that last received the
      focus from a rejected submit. */
  datatype State = State(form: Form, board: Board, inFlight: Option<string>, focused: Option<nat>)

  /** What the page script reacts to. `Blur` and `Input` name a control by
      its index; `Input` carries the control's new value. */
  datatype Event =
    | Submit
    | Blur(field: nat)
    | Input(field: nat, value: string)
    | SubmitTimer
    | NotificationTimer(id: nat)
    | MailtoClick(linkText: string)

  /** What every reachable page satisfies, whatever its markup: the
      notification slot holds at most one notification, the button is
      disabled exactly while a submission is in flight, and while one is
      in flight the button is labelled BusyText. */
  predicate ButtonAndSlot(s: State) {
    && Notifications.Inv(s.board)
    && (s.inFlight.Some? <==> s.form.button.disabled)
    && (s.inFlight.Some? ==> s.form.button.text == BusyText)
  }

  /** ButtonAndSlot on a page whose markup is well formed. */
  predicate Consistent(s: State) {
    ButtonAndSlot(s) && WellFormed(s.form)
  }

  /** A freshly loaded page with well-formed markup and an enabled button
      is consistent. */
  lemma InitialConsistent(form: Form)
    requires WellFormed(form) && !form.button.disabled
    ensures Consistent(State(form, EmptyBoard, None, None))
  {
    EmptyBoardInv();
  }

  /** form.reset(): every control gets its default value back; error
      texts, marks and the button are not form values and stay. */
  function Reset(form: Form): (r: Form)
    ensures |r.fields| == |form.fields|
    ensures forall k :: 0 <= k < |r.fields| ==>
              r.fields[k].value == form.fields[k].defaultValue
              && r.fields[k] == form.fields[k].(value := r.fields[k].value)
    ensures r.errorIds == form.errorIds && r.errorTexts == form.errorTexts
    ensures r.marks == form.marks && r.button == form.button
  {
    form.(fields := seq(|form.fields|, k requires 0 <= k < |form.fields| =>
                                          form.fields[k].(value := form.fields[k].defaultValue)))
  }

  /** Resetting twice is resetting once. */
  lemma ResetIdempotent(form: Form)
    ensures Reset(Reset(form)) == Reset(form)
  {
    var once := Reset(form);
    assert Reset(once).fields == once.fields;
  }

  /** The user changes control i's value; nothing else changes. */
  function SetValue(form: Form, i: nat, value: string): (r: Form)
    requires i < |form.fields|
    ensures |r.fields| == |form.fields| && r.fields[i].value == value
    ensures r.fields[i] == form.fields[i].(value := value)
    ensures forall k :: 0 <= k < |r.fields| && k != i ==> r.fields[k] == form.fields[k]
    ensures r.errorIds == form.errorIds && r.errorTexts == form.errorTexts
    ensures r.marks == form.marks && r.button == form.button
  {
    form.(fields := form.fields[i := form.fields[i].(value := value)])
  }

  /** A reset forgets whatever was typed: typing into a control and then
      resetting is the same as resetting. */
  lemma ResetForgetsTyping(form: Form, i: nat, value: string)
    requires i < |form.fields|
    ensures Reset(SetValue(form, i, value)) == Reset(form)
  {
    assert Reset(SetValue(form, i, value)).fields == Reset(form).fields;
  }

  /** submitForm up to its timer: the button shows BusyText and is
      disabled, and its previous label is saved for the timer. */
  function StartSubmission(s: State): (r: State)
    ensures r.form.button == Button(BusyText, true)
    ensures r.inFlight == Some(s.form.button.text)
    ensures r.form.fields == s.form.fields && r.form.errorIds == s.form.errorIds
    ensures r.form.errorTexts == s.form.errorTexts && r.form.marks == s.form.marks
    ensures r.board == s.board && r.focused == s.focused
  {
    s.(form := s.form.(button := Button(BusyText, true)), inFlight := Some(s.form.button.text))
  }

  /** The submit listener. A disabled submit button dispatches no submit
      event, so nothing happens. Otherwise every required control is
      validated and the verdicts are shown; values and notifications do
      not change; the button ends up disabled exactly when every required
      control passes, and then shows BusyText with the old label saved;
      when one fails the button is left as it was and the control behind
      the first non-empty error element, if there is one, receives the
      focus. The button and slot discipline is kept. */
  function OnSubmit(s: State): (r: State)
    ensures s.form.button.disabled ==> r == s
    ensures !s.form.button.disabled ==>
              && r.board == s.board
              && r.form.fields == s.form.fields && r.form.errorIds == s.form.errorIds
              && (r.form.button.disabled <==> AllRequiredValid(s.form))
    ensures !s.form.button.disabled ==>
              var v := ValidateRequired(s.form);
              r.form.errorTexts == v.errorTexts && r.form.marks == v.marks
    ensures !s.form.button.disabled && AllRequiredValid(s.form) ==>
              && r.inFlight == Some(s.form.button.text)
              && r.form.button.text == BusyText
              && r.focused == s.focused
    ensures !s.form.button.disabled && !AllRequiredValid(s.form) ==>
              && r.inFlight == s.inFlight
              && r.form.button == s.form.button
              && (FocusTarget(ValidateRequired(s.form)).Some? ==> r.focused == FocusTarget(ValidateRequired(s.form)))
              && (FocusTarget(ValidateRequired(s.form)).None? ==> r.focused == s.focused)
    ensures ButtonAndSlot(s) ==> ButtonAndSlot(r)
  {
    if s.form.button.disabled then s
    else
      var validated := ValidateRequired(s.form);
      if AllRequiredValid(s.form) then StartSubmission(s.(form := validated))
      else
        var focused := match FocusTarget(validated) case Some(j) => Some(j) case None => s.focused;
        s.(form := validated, focused := focused)
  }

  /** The blur listener, attached to required controls only: it validates
      the control and shows the verdict. A blur anywhere else does
      nothing. */
  function OnBlur(s: State, i: nat): (r: State)
    ensures SameInputs(s.form, r.form)
    ensures r.board == s.board && r.inFlight == s.inFlight && r.focused == s.focused
    ensures i >= |s.form.fields| || !s.form.fields[i].required ==> r == s
    ensures i < |s.form.fields| && s.form.fields[i].required ==>
              var f := s.form.fields[i];
              var e := FindError(s.form.errorIds, f.id + ErrorSuffix);
              && (e.None? ==> r.form == s.form)
              && (e.Some? ==>
                    && TextOf(r.form, e.value) == VerdictOf(f).message
                    && MarkOf(r.form, i) == MarkFor(VerdictOf(f))
                    && (forall k: nat :: k != e.value ==> TextOf(r.form, k) == TextOf(s.form, k))
                    && (forall k: nat :: k != i ==> MarkOf(r.form, k) == MarkOf(s.form, k)))
  {
    if i < |s.form.fields| && s.form.fields[i].required then
      ShowVerdictEffect(s.form, i, VerdictOf(s.form.fields[i]));
      s.(form := ValidateField(s.form, i).0)
    else s
  }

  /** The user types into control i: the value changes, and on a required
      control (the only ones with an input listener) clearError runs on
      the new value. */
  function OnInput(s: State, i: nat, value: string): (r: State)
    ensures r.board == s.board && r.inFlight == s.inFlight && r.focused == s.focused
    ensures r.form.errorIds == s.form.errorIds && r.form.button == s.form.button
    ensures i >= |s.form.fields| ==> r == s
    ensures i < |s.form.fields| ==> r.form.fields == SetValue(s.form, i, value).fields
    ensures i < |s.form.fields| && !s.form.fields[i].required ==> r.form == SetValue(s.form, i, value)
    ensures i < |s.form.fields| && s.form.fields[i].required ==>
              var e := FindError(s.form.errorIds, s.form.fields[i].id + ErrorSuffix);
              && (e.None? || AllWs(value) ==>
                    r.form.errorTexts == s.form.errorTexts && r.form.marks == s.form.marks)
              && (e.Some? && !AllWs(value) ==>
                    && TextOf(r.form, e.value) == ""
                    && MarkOf(r.form, i) == Mark(Some(false), false)
                    && (forall k: nat :: k != e.value ==> TextOf(r.form, k) == TextOf(s.form, k))
                    && (forall k: nat :: k != i ==> MarkOf(r.form, k) == MarkOf(s.form, k)))
  {
    if i >= |s.form.fields| then s
    else
      var typed := SetValue(s.form, i, value);
      s.(form := if s.form.fields[i].required then ClearError(typed, i) else typed)
  }

  /** The 2000 ms timer of submitForm. Without a submission in flight there
      is no such timer. Otherwise no submission is in flight afterwards; the
      button is enabled and shows the label saved when the submission
      started; every control holds its default value and nothing else
      about the controls, error elements or marks changes; the success
      notification's removal timer is pending, and on a board keeping the
      slot discipline the discipline is kept and the success notification
      is the only one attached. */
  function OnSubmitTimer(s: State): (r: State)
    ensures s.inFlight.None? ==> r == s
    ensures s.inFlight.Some? ==>
              && r.inFlight.None? && r.focused == s.focused
              && r.form.button == Button(s.inFlight.value, false)
              && |r.form.fields| == |s.form.fields|
              && (forall k :: 0 <= k < |r.form.fields| ==>
                    r.form.fields[k] == s.form.fields[k].(value := s.form.fields[k].defaultValue))
              && r.form.errorIds == s.form.errorIds
              && r.form.errorTexts == s.form.errorTexts && r.form.marks == s.form.marks
    ensures s.inFlight.Some? ==>
              r.board.pending == s.board.pending + {s.board.nextId} && r.board.nextId > s.board.nextId
    ensures s.inFlight.Some? && Notifications.Inv(s.board) ==>
              && Notifications.Inv(r.board)
              && r.board.attached == [Notification(s.board.nextId, SuccessMessage, SuccessKind)]
    ensures ButtonAndSlot(s) ==> ButtonAndSlot(r)
  {
    match s.inFlight
    case None => s
    case Some(saved) =>
      State(Reset(s.form).(button := Button(saved, false)), Show(s.board, SuccessMessage, SuccessKind),
            None, s.focused)
  }

  /** A click on a mailto link: the link's text, trimmed, is announced
      as copied. The form, the submission and the focus are untouched; on
      a board keeping the slot discipline the announcement is then the
      only notification attached, and its removal timer is pending. */
  function OnMailtoClick(s: State, text: string): (r: State)
    ensures r.form == s.form && r.inFlight == s.inFlight && r.focused == s.focused
    ensures s.board.nextId in r.board.pending && r.board.nextId > s.board.nextId
    ensures Inv(s.board) ==>
              && Inv(r.board)
              && r.board.attached == [Notification(s.board.nextId, CopiedPrefix + Trim(text), CopiedKind)]
    ensures Inv(s.board) ==>
              var n := r.board.attached[0].message;
              && |n| >= |CopiedPrefix| && n[..|CopiedPrefix|] == CopiedPrefix
              && (n[|CopiedPrefix|..] == [] || (!IsWs(n[|CopiedPrefix|]) && !IsWs(n[|n| - 1])))
  {
    var t := Trim(text);
    TrimSpec(text);
    assert (CopiedPrefix + t)[|CopiedPrefix|..] == t;
    s.(board := Show(s.board, CopiedPrefix + t, CopiedKind))
  }

  /** One event. */
  function Step(s: State, e: Event): State {
    match e
    case Submit => OnSubmit(s)
    case Blur(i) => OnBlur(s, i)
    case Input(i, value) => OnInput(s, i, value)
    case SubmitTimer => OnSubmitTimer(s)
    case NotificationTimer(id) => s.(board := Expire(s.board, id))
    case MailtoClick(text) => OnMailtoClick(s, text)
  }

  /** Starting a submission and then letting its timer fire gives the
      button back: enabled, with the label it had before the submit. The
      busy state in between keeps the button and slot discipline. */
  lemma TimerRestoresButton(s: State)
    requires ButtonAndSlot(s) && s.inFlight.None?
    ensures ButtonAndSlot(StartSubmission(s))
    ensures OnSubmitTimer(StartSubmission(s)).form.button == s.form.button
    ensures OnSubmitTimer(StartSubmission(s)).inFlight.None?
  {
  }

  /** Showing a verdict on a required control of a well-formed form keeps
      it well formed: only that control's own error element changes. */
  lemma ShowVerdictKeepsWellFormed(form: Form, i: nat, v: Verdict)
    requires WellFormed(form) && i < |form.fields| && form.fields[i].required
    ensures WellFormed(ShowVerdict(form, i, v))
  {
    ErrorOfField(form, i);
    ShowVerdictEffect(form, i, v);
  }

  /** Changing a value keeps the markup well formed. */
  lemma SetValueKeepsWellFormed(form: Form, i: nat, value: string)
    requires WellFormed(form) && i < |form.fields|
    ensures WellFormed(SetValue(form, i, value))
  {
    var r := SetValue(form, i, value);
    assert forall k :: 0 <= k < |r.fields| ==> r.fields[k].id == form.fields[k].id
                                               && r.fields[k].required == form.fields[k].required;
  }

  /** The button is not part of the markup WellFormed constrains. */
  lemma WellFormedIgnoresButton(form: Form, button: Button)
    requires WellFormed(form)
    ensures WellFormed(form.(button := button))
  {
  }

  /** Resetting keeps the markup well formed. */
  lemma ResetKeepsWellFormed(form: Form)
    requires WellFormed(form)
    ensures WellFormed(Reset(form))
  {
    var r := Reset(form);
    assert forall k :: 0 <= k < |r.fields| ==> r.fields[k].id == form.fields[k].id
                                               && r.fields[k].required == form.fields[k].required;
  }

  /** Every event keeps the button and slot discipline, on any markup. */
  lemma StepKeepsButtonAndSlot(s: State, e: Event)
    requires ButtonAndSlot(s)
    ensures ButtonAndSlot(Step(s, e))
  {
    match e
    case Submit =>
    case Blur(i) =>
    case Input(i, value) =>
    case SubmitTimer =>
    case NotificationTimer(id) => ExpireKeepsSlot(s.board, id);
    case MailtoClick(text) =>
  }

  lemma OnSubmitKeepsWellFormed(s: State)
    requires WellFormed(s.form)
    ensures WellFormed(OnSubmit(s).form)
  {
    if !s.form.button.disabled {
      SubmitShowsVerdicts(s.form);
    }
  }

  lemma OnBlurKeepsWellFormed(s: State, i: nat)
    requires WellFormed(s.form)
    ensures WellFormed(OnBlur(s, i).form)
  {
    if i < |s.form.fields| && s.form.fields[i].required {
      ShowVerdictKeepsWellFormed(s.form, i, VerdictOf(s.form.fields[i]));
    }
  }

  lemma OnInputKeepsWellFormed(s: State, i: nat, value: string)
    requires WellFormed(s.form)
    ensures WellFormed(OnInput(s, i, value).form)
  {
    if i < |s.form.fields| {
      var typed := SetValue(s.form, i, value);
      SetValueKeepsWellFormed(s.form, i, value);
      if s.form.fields[i].required {
        BlankIffAllWs(value);
        if !AllWs(value) {
          ShowVerdictKeepsWellFormed(typed, i, Verdict(true, ""));
        }
      }
    }
  }

  lemma OnSubmitTimerKeepsWellFormed(s: State)
    requires WellFormed(s.form)
    ensures WellFormed(OnSubmitTimer(s).form)
  {
    if s.inFlight.Some? {
      var button := Button(s.inFlight.value, false);
      ResetKeepsWellFormed(s.form);
      WellFormedIgnoresButton(Reset(s.form), button);
      assert OnSubmitTimer(s).form == Reset(s.form).(button := button);
    }
  }

  /** Every event keeps well-formed markup well formed. */
  lemma StepKeepsWellFormed(s: State, e: Event)
    requires WellFormed(s.form)
    ensures WellFormed(Step(s, e).form)
  {
    match e
    case Submit => OnSubmitKeepsWellFormed(s);
    case Blur(i) => OnBlurKeepsWellFormed(s, i);
    case Input(i, value) => OnInputKeepsWellFormed(s, i, value);
    case SubmitTimer => OnSubmitTimerKeepsWellFormed(s);
    case NotificationTimer(id) =>
    case MailtoClick(text) =>
  }

  /** Every event keeps the page consistent. */
  lemma StepKeepsConsistent(s: State, e: Event)
    requires Consistent(s)
    ensures Consistent(Step(s, e))
  {
    StepKeepsButtonAndSlot(s, e);
    StepKeepsWellFormed(s, e);
  }

  /** While a submission is in flight the button is disabled, so a second
      submit changes nothing. */
  lemma BusyIgnoresSubmit(s: State)
    requires ButtonAndSlot(s) && s.inFlight.Some?
    ensures Step(s, Submit) == s
  {
  }

  /** An idle page starts a submission exactly when every required control
      passes. */
  lemma SubmitsIffAllValid(s: State)
    requires ButtonAndSlot(s) && s.inFlight.None?
    ensures Step(s, Submit).inFlight.Some? <==> AllRequiredValid(s.form)
  {
  }

  /** A rejected submit on well-formed markup starts nothing, leaves the
      button as it was, and focuses the first required control that
      fails. */
  lemma RejectedSubmitFocusesFirstInvalid(s: State)
    requires WellFormed(s.form) && !s.form.button.disabled && !AllRequiredValid(s.form)
    ensures var r := Step(s, Submit);
            && r.inFlight == s.inFlight && r.form.button == s.form.button
            && r.focused.Some? && r.focused == FirstInvalid(s.form)
            && !VerdictOf(s.form.fields[r.focused.value]).isValid
  {
    FocusOnFirstInvalid(s.form);
    RejectedSubmitFocuses(s.form);
  }

  /** The round trip of an accepted submit: after the submit the button is
      busy; after its timer the button has its original label and is
      enabled again, every control holds its default value, the error
      elements show what validation left there, and exactly one
      notification is attached: the success message. */
  lemma SubmitRoundTrip(s: State)
    requires ButtonAndSlot(s) && s.inFlight.None? && AllRequiredValid(s.form)
    ensures var busy := Step(s, Submit);
            busy.form.button == Button(BusyText, true) && busy.inFlight.Some?
    ensures var done := Step(Step(s, Submit), SubmitTimer);
            && done.inFlight.None?
            && done.form.button == s.form.button
            && |done.form.fields| == |s.form.fields|
            && (forall k :: 0 <= k < |done.form.fields| ==> done.form.fields[k].value == s.form.fields[k].defaultValue)
            && done.form.errorTexts == ValidateRequired(s.form).errorTexts
            && done.board.attached == [Notification(s.board.nextId, SuccessMessage, SuccessKind)]
  {
  }

  /** After an accepted submit on well-formed markup every required
      control's error element is empty and the control is marked valid. */
  lemma AcceptedSubmitShowsNoErrors(s: State)
    requires WellFormed(s.form) && !s.form.button.disabled && AllRequiredValid(s.form)
    ensures var r := Step(s, Submit);
            forall i :: 0 <= i < |s.form.fields| && s.form.fields[i].required ==>
              TextOf(r.form, i) == "" && MarkOf(r.form, i) == Mark(Some(false), false)
  {
    SubmitShowsVerdicts(s.form);
    forall i | 0 <= i < |s.form.fields| && s.form.fields[i].required
      ensures VerdictOf(s.form.fields[i]).message == ""
    {
      ValidIff(s.form.fields[i].required, s.form.fields[i].inputType, s.form.fields[i].value);
    }
  }

  /** Leaving a required control of well-formed markup shows its verdict
      in its own error element and mark, and no other error element
      changes. */
  lemma BlurShowsVerdict(s: State, i: nat)
    requires WellFormed(s.form) && i < |s.form.fields| && s.form.fields[i].required
    ensures var r := Step(s, Blur(i));
            && TextOf(r.form, i) == VerdictOf(s.form.fields[i]).message
            && MarkOf(r.form, i) == MarkFor(VerdictOf(s.form.fields[i]))
            && (forall k: nat :: k != i ==> TextOf(r.form, k) == TextOf(s.form, k))
  {
    ErrorOfField(s.form, i);
    ShowVerdictEffect(s.form, i, VerdictOf(s.form.fields[i]));
  }

  /** Typing a non-blank value into a required control of well-formed
      markup hides its error and marks it valid without deciding it;
      typing a blank value leaves the error as it was. */
  lemma InputHidesError(s: State, i: nat, value: string)
    requires WellFormed(s.form) && i < |s.form.fields| && s.form.fields[i].required
    ensures var r := Step(s, Input(i, value));
            && r.form.fields[i].value == value
            && (!AllWs(value) ==> TextOf(r.form, i) == "" && MarkOf(r.form, i) == Mark(Some(false), false))
            && (AllWs(value) ==> TextOf(r.form, i) == TextOf(s.form, i) && MarkOf(r.form, i) == MarkOf(s.form, i))
  {
    ErrorOfField(s.form, i);
    ErrorOfField(SetValue(s.form, i, value), i) by {
      SetValueKeepsWellFormed(s.form, i, value);
    }
  }
}
