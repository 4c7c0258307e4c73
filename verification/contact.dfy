/**
 * The contact page: a controlled form of six fields, the browser's
 * required-field check, and the simulated submission that waits, thanks the
 * user and resets the form.
 */
module Contact {
  import opened Wrappers

  datatype Form = Form(name: string, email: string, phone: string, subject: string,
                       message: string, inquiryType: string)

  /** The form fields, one per `name` attribute of the form's controls. */
  datatype Field = Name | Email | Phone | Subject | Message | InquiryType

  /** The values offered by the inquiry-type select, in display order. */
  const InquiryTypes: seq<string> := ["general", "booking", "pricing", "partnership", "support", "feedback"]

  /** The form at page load and after every completed submission. */
  const InitialForm := Form("", "", "", "", "", "general")

  /** The acknowledgement shown when a submission completes. */
  const ThankYou := "Thank you for your message! We'll get back to you within 24 hours."

  /** The current value of one field. */
  function Get(form: Form, f: Field): string
  {
    match f
    case Name => form.name
    case Email => form.email
    case Phone => form.phone
    case Subject => form.subject
    case Message => form.message
    case InquiryType => form.inquiryType
  }

  /** `handleInputChange`: `{ ...prev, [name]: value }`. */
  function HandleInputChange(form: Form, f: Field, value: string): (r: Form)
    ensures Get(r, f) == value
    ensures forall g :: g != f ==> Get(r, g) == Get(form, g)
  {
    match f
    case Name => form.(name := value)
    case Email => form.(email := value)
    case Phone => form.(phone := value)
    case Subject => form.(subject := value)
    case Message => form.(message := value)
    case InquiryType => form.(inquiryType := value)
  }

  /** The fields whose control carries the `required` attribute. */
  predicate Required(f: Field)
  {
    match f
    case Name => true
    case Email => true
    case Phone => false
    case Subject => true
    case Message => true
    case InquiryType => false
  }

  /** The browser lets the form submit: no required control is empty. */
  predicate PassesRequired(form: Form)
  {
    form.name != "" && form.email != "" && form.subject != "" && form.message != ""
  }

  /** The required check is exactly "every field marked required is non-empty". */
  lemma PassesRequiredMeansRequiredFilled(form: Form)
    ensures PassesRequired(form) <==> forall f :: Required(f) ==> Get(form, f) != ""
  {
    if !PassesRequired(form) {
      if form.name == "" { assert Required(Name) && Get(form, Name) == ""; }
      else if form.email == "" { assert Required(Email) && Get(form, Email) == ""; }
      else if form.subject == "" { assert Required(Subject) && Get(form, Subject) == ""; }
      else { assert Required(Message) && Get(form, Message) == ""; }
    }
  }

  /**
   * The initial form has every text field empty and the first inquiry type
   * selected, so it cannot be submitted until the required fields are filled.
   */
  lemma InitialFormShape()
    ensures forall f :: f != InquiryType ==> Get(InitialForm, f) == ""
    ensures Get(InitialForm, InquiryType) == InquiryTypes[0] == "general"
    ensures !PassesRequired(InitialForm)
    ensures !Initial.submitting && Initial.form == InitialForm
  {
  }

  /** Phone and inquiry type never block a submission. */
  lemma OptionalFieldsNeverBlock(form: Form, value: string)
    ensures PassesRequired(HandleInputChange(form, Phone, value)) == PassesRequired(form)
    ensures PassesRequired(HandleInputChange(form, InquiryType, value)) == PassesRequired(form)
  {
  }

  /** The page: the form and the `isSubmitting` flag. */
  datatype State = State(form: Form, submitting: bool)

  const Initial := State(InitialForm, false)

  /** The submit button's `disabled` attribute. */
  predicate SubmitDisabled(s: State)
  {
    s.submitting
  }

  /** The submit button's text. */
  function SubmitLabel(s: State): string
  {
    if s.submitting then "Sending..." else "Send Message"
  }

  /** The button reads "Sending..." exactly while it is disabled. */
  lemma SendingIffDisabled(s: State)
    ensures SubmitLabel(s) == "Sending..." <==> SubmitDisabled(s)
  {
  }

  /** First half of `handleSubmit`: mark the form as submitting and start the delay. */
  function BeginSubmit(s: State): (r: State)
    ensures r.submitting && r.form == s.form
  {
    s.(submitting := true)
  }

  /** The object `handleSubmit` passes to `setFormData` once the delay has elapsed. */
  const ResetForm := Form("", "", "", "", "", "general")

  /** Second half of `handleSubmit`, when the delay has elapsed: thank, reset, go idle. */
  function FinishSubmit(s: State): (r: (State, string))
    ensures r.0 == Initial && r.1 == ThankYou
  {
    (State(ResetForm, false), ThankYou)
  }

  /** The reset object is the page-load form, inquiry type "general" included. */
  lemma ResetIsInitialForm()
    ensures ResetForm == InitialForm
    ensures forall f :: f != InquiryType ==> Get(ResetForm, f) == ""
    ensures Get(ResetForm, InquiryType) == "general"
  {
  }

  /** What can happen on the page. */
  datatype Event =
    | Input(field: Field, value: string) // a control's change event
    | Submit                             // a submit of the form (button or Enter)
    | DelayElapsed                       // the simulated delay's timer fires

  /**
   * One event: the new state and the alert it raises, if any. A submit is
   * refused while submitting (the button is disabled) or while a required
   * field is empty; the timer only fires while a submission is pending; the
   * select only offers its listed values.
   */
  function Step(s: State, e: Event): (r: (State, Option<string>))
    ensures e.Input? && (e.field != InquiryType || e.value in InquiryTypes)
            ==> r == (State(HandleInputChange(s.form, e.field, e.value), s.submitting), None)
    ensures e.Input? && e.field == InquiryType && e.value !in InquiryTypes ==> r == (s, None)
    ensures e.Submit? ==> r.1 == None && r.0.form == s.form
    ensures e.Submit? ==> (r.0.submitting <==> s.submitting || PassesRequired(s.form))
    ensures e.DelayElapsed? && s.submitting ==> r == (Initial, Some(ThankYou))
    ensures e.DelayElapsed? && !s.submitting ==> r == (s, None)
  {
    match e
    case Input(f, value) =>
      if f == InquiryType && value !in InquiryTypes then (s, None)
      else (s.(form := HandleInputChange(s.form, f, value)), None)
    case Submit =>
      if s.submitting || !PassesRequired(s.form) then (s, None)
      else (BeginSubmit(s), None)
    case DelayElapsed =>
      if s.submitting then
        var (next, text) := FinishSubmit(s);
        (next, Some(text))
      else (s, None)
  }

  /** The state after a sequence of events, and every alert raised on the way. */
  function Run(s: State, events: seq<Event>): (State, seq<string>)
    decreases |events|
  {
    if |events| == 0 then (s, [])
    else
      var (next, alert) := Step(s, events[0]);
      var (last, alerts) := Run(next, events[1..]);
      (last, (if alert.Some? then [alert.value] else []) + alerts)
  }

  /** A filled-in idle form, submitted and left to finish, is back to the initial state with thanks. */
  lemma SubmitRoundTrip(s: State)
    requires !s.submitting && PassesRequired(s.form)
    ensures Step(s, Submit).0.submitting
    ensures Step(Step(s, Submit).0, DelayElapsed) == (Initial, Some(ThankYou))
    ensures Step(Step(s, Submit).0, DelayElapsed).0.form.inquiryType == "general"
  {
  }

  /**
   * A pending submission always ends in success: whatever edits and repeated
   * submits come first, the first timer event thanks the user and resets.
   */
  lemma {:induction false} PendingSubmitSucceeds(s: State, edits: seq<Event>)
    requires s.submitting
    requires forall k :: 0 <= k < |edits| ==> !edits[k].DelayElapsed?
    ensures Run(s, edits).0.submitting
    ensures Run(s, edits).1 == []
    ensures Run(Run(s, edits).0, [DelayElapsed]) == (Initial, [ThankYou])
    decreases |edits|
  {
    if |edits| > 0 {
      PendingSubmitSucceeds(Step(s, edits[0]).0, edits[1..]);
    }
    TimerFinishes(Run(s, edits).0);
  }

  /** The timer event alone, on a pending submission, thanks and resets. */
  lemma TimerFinishes(s: State)
    requires s.submitting
    ensures Run(s, [DelayElapsed]) == (Initial, [ThankYou])
  {
    assert [DelayElapsed][1..] == [];
    assert [ThankYou] + [] == [ThankYou];
  }

  /** What every reachable state satisfies: the inquiry type is one the select offers. */
  predicate WellFormed(s: State)
  {
    s.form.inquiryType in InquiryTypes
  }

  /** Every sequence of events from the initial state keeps the inquiry type an offered value. */
  lemma {:induction false} RunKeepsInquiryType(s: State, events: seq<Event>)
    requires WellFormed(s)
    ensures WellFormed(Run(s, events).0)
    decreases |events|
  {
    if |events| > 0 {
      RunKeepsInquiryType(Step(s, events[0]).0, events[1..]);
    }
  }
}
