/**
 * The booking page: four independently set selection fields, the step
 * indicator and reveal flags derived from them, and the confirm action with
 * its any-field-empty guard.
 */
module Booking {
  import opened Wrappers
  import opened Text
  import opened Catalogue

  /** The page's selection state; the empty string is "not chosen yet". */
  datatype Selection = Selection(space: string, date: string, time: string, duration: string)

  /** All four fields start empty when the page loads. */
  const Initial := Selection("", "", "", "")

  const TimeSlots: seq<string> := [
    "9:00 AM", "10:00 AM", "11:00 AM", "12:00 PM",
    "1:00 PM", "2:00 PM", "3:00 PM", "4:00 PM", "5:00 PM"
  ]

  const DurationOptions: seq<string> := ["1 hour", "2 hours", "4 hours", "8 hours", "Full day"]

  /** The validation message shown when a detail is missing. */
  const MissingDetails := "Please fill in all booking details."

  /** The guard shared by the confirm action and the confirm button: some field is empty. */
  predicate Incomplete(b: Selection)
  {
    b.space == "" || b.date == "" || b.time == "" || b.duration == ""
  }

  /** The date/time/duration card is rendered. */
  predicate ShowsDateTimeStep(b: Selection)
  {
    b.space != ""
  }

  /** Step 2 of the indicator ("Select Date & Time") is drawn active. */
  predicate StepTwoActive(b: Selection)
  {
    b.space != ""
  }

  /** Step 3 of the indicator ("Confirm") is drawn active. */
  predicate StepThreeActive(b: Selection)
  {
    b.date != "" && b.time != ""
  }

  /** The booking summary, and the confirm button inside it, are rendered. */
  predicate ShowsSummary(b: Selection)
  {
    b.space != ""
  }

  /** The confirm button's `disabled` attribute. */
  predicate ConfirmDisabled(b: Selection)
  {
    b.space == "" || b.date == "" || b.time == "" || b.duration == ""
  }

  /** The alert text of a successful booking. */
  function ConfirmationText(title: string, date: string, time: string, duration: string): string
  {
    "Booking confirmed!\n\nSpace: " + title + "\nDate: " + date + "\nTime: " + time
    + "\nDuration: " + duration + "\n\nA confirmation email will be sent shortly."
  }

  /** The two alerts `handleBooking` can raise. */
  datatype Alert = Rejected(text: string) | Confirmed(text: string)

  /**
   * `handleBooking`: a validation alert when a field is empty, otherwise a
   * confirmation naming the looked-up title, the date, the time and the duration.
   */
  function HandleBooking(b: Selection): (r: Alert)
    ensures r.Rejected? <==> Incomplete(b)
    ensures r.Rejected? ==> r.text == MissingDetails
    ensures r.Confirmed? ==> "Booking confirmed!" <= r.text
  {
    if Incomplete(b) then Rejected(MissingDetails)
    else Confirmed(ConfirmationText(TitleText(Find(Spaces, b.space)), b.date, b.time, b.duration))
  }

  /** A text assembled from four values between five fixed pieces mentions each value. */
  lemma AssembledTextMentions(p0: string, x1: string, p1: string, x2: string, p2: string,
                              x3: string, p3: string, x4: string, p4: string)
    ensures Occurs(p0 + x1 + p1 + x2 + p2 + x3 + p3 + x4 + p4, x1)
    ensures Occurs(p0 + x1 + p1 + x2 + p2 + x3 + p3 + x4 + p4, x2)
    ensures Occurs(p0 + x1 + p1 + x2 + p2 + x3 + p3 + x4 + p4, x3)
    ensures Occurs(p0 + x1 + p1 + x2 + p2 + x3 + p3 + x4 + p4, x4)
  {
    var s := p0 + x1 + p1 + x2 + p2 + x3 + p3 + x4 + p4;
    var i1 := |p0|;
    var i2 := i1 + |x1| + |p1|;
    var i3 := i2 + |x2| + |p2|;
    var i4 := i3 + |x3| + |p3|;
    assert s[i1..i1 + |x1|] == x1;
    assert OccursAt(s, x1, i1);
    assert s[i2..i2 + |x2|] == x2;
    assert OccursAt(s, x2, i2);
    assert s[i3..i3 + |x3|] == x3;
    assert OccursAt(s, x3, i3);
    assert s[i4..i4 + |x4|] == x4;
    assert OccursAt(s, x4, i4);
  }

  /** A confirmation text mentions the title, the date, the time and the duration it was built from. */
  lemma ConfirmationTextMentions(title: string, date: string, time: string, duration: string)
    ensures Occurs(ConfirmationText(title, date, time, duration), title)
    ensures Occurs(ConfirmationText(title, date, time, duration), date)
    ensures Occurs(ConfirmationText(title, date, time, duration), time)
    ensures Occurs(ConfirmationText(title, date, time, duration), duration)
  {
    AssembledTextMentions("Booking confirmed!\n\nSpace: ", title, "\nDate: ", date, "\nTime: ", time,
                          "\nDuration: ", duration, "\n\nA confirmation email will be sent shortly.");
  }

  /** A confirmation mentions the title of the chosen space, the date, the time and the duration. */
  lemma ConfirmationMentionsSelection(b: Selection)
    requires !Incomplete(b)
    ensures HandleBooking(b).Confirmed?
    ensures Occurs(HandleBooking(b).text, TitleText(Find(Spaces, b.space)))
    ensures Occurs(HandleBooking(b).text, b.date)
    ensures Occurs(HandleBooking(b).text, b.time)
    ensures Occurs(HandleBooking(b).text, b.duration)
  {
    ConfirmationTextMentions(TitleText(Find(Spaces, b.space)), b.date, b.time, b.duration);
  }

  /** What the user can do on the page. */
  datatype Event =
    | ChooseSpace(id: string)      // click on a space card
    | PickDate(date: string)       // the date input's new value, possibly cleared
    | PickTime(slot: string)       // click on a time-slot button
    | PickDuration(option: string) // click on a duration button
    | ConfirmClick                 // click on "Confirm Booking"

  /** The control the event comes from is on screen and enabled. */
  predicate Available(b: Selection, e: Event)
  {
    match e
    case ChooseSpace(id) => HasId(Spaces, id)
    case PickDate(_) => ShowsDateTimeStep(b)
    case PickTime(slot) => ShowsDateTimeStep(b) && slot in TimeSlots
    case PickDuration(option) => ShowsDateTimeStep(b) && option in DurationOptions
    case ConfirmClick => ShowsSummary(b) && !ConfirmDisabled(b)
  }

  /**
   * One user event: the new selection and the alert it raises, if any. An event
   * from a control that is not rendered or is disabled does nothing.
   */
  function Step(b: Selection, e: Event): (r: (Selection, Option<Alert>))
    ensures !Available(b, e) ==> r == (b, None)
    ensures e.ConfirmClick? ==> r.0 == b
    ensures r.1.Some? <==> Available(b, e) && e.ConfirmClick?
    ensures Available(b, e) && e.ConfirmClick? ==> r.1 == Some(HandleBooking(b))
  {
    if !Available(b, e) then (b, None)
    else
      match e
      case ChooseSpace(id) => (b.(space := id), None)
      case PickDate(date) => (b.(date := date), None)
      case PickTime(slot) => (b.(time := slot), None)
      case PickDuration(option) => (b.(duration := option), None)
      case ConfirmClick => (b, Some(HandleBooking(b)))
  }

  /** The selection after a sequence of events, and every alert raised on the way. */
  function Run(b: Selection, events: seq<Event>): (Selection, seq<Alert>)
    decreases |events|
  {
    if |events| == 0 then (b, [])
    else
      var (next, alert) := Step(b, events[0]);
      var (last, alerts) := Run(next, events[1..]);
      (last, (if alert.Some? then [alert.value] else []) + alerts)
  }

  /**
   * What every reachable selection satisfies: each field holds empty or a value
   * its control offers, and nothing past the space is set before the space.
   */
  predicate WellFormed(b: Selection)
  {
    && (b.space == "" || HasId(Spaces, b.space))
    && (b.time == "" || b.time in TimeSlots)
    && (b.duration == "" || b.duration in DurationOptions)
    && (b.space == "" ==> b.date == "" && b.time == "" && b.duration == "")
  }

  /** On page load nothing is chosen, only the space cards are shown, and confirm is disabled. */
  lemma InitialSelectionEmpty()
    ensures WellFormed(Initial)
    ensures Incomplete(Initial) && ConfirmDisabled(Initial)
    ensures !ShowsDateTimeStep(Initial) && !ShowsSummary(Initial)
    ensures !StepTwoActive(Initial) && !StepThreeActive(Initial)
  {
  }

  /** Picking a value overwrites exactly the field of its control and nothing else. */
  lemma PickOverwritesOneField(b: Selection, e: Event)
    requires Available(b, e) && !e.ConfirmClick?
    ensures e.ChooseSpace? ==> Step(b, e).0 == Selection(e.id, b.date, b.time, b.duration)
    ensures e.PickDate? ==> Step(b, e).0 == Selection(b.space, e.date, b.time, b.duration)
    ensures e.PickTime? ==> Step(b, e).0 == Selection(b.space, b.date, e.slot, b.duration)
    ensures e.PickDuration? ==> Step(b, e).0 == Selection(b.space, b.date, b.time, e.option)
  {
  }

  /** Every event keeps the selection well formed. */
  lemma StepPreservesWellFormed(b: Selection, e: Event)
    requires WellFormed(b)
    ensures WellFormed(Step(b, e).0)
  {
  }

  /** Every selection reachable from the initial one is well formed. */
  lemma {:induction false} RunPreservesWellFormed(b: Selection, events: seq<Event>)
    requires WellFormed(b)
    ensures WellFormed(Run(b, events).0)
    decreases |events|
  {
    if |events| > 0 {
      StepPreservesWellFormed(b, events[0]);
      RunPreservesWellFormed(Step(b, events[0]).0, events[1..]);
    }
  }

  /** In a well-formed selection with a space chosen, the by-id lookup finds the catalogue entry. */
  lemma LookupAlwaysFinds(b: Selection)
    requires WellFormed(b) && b.space != ""
    ensures Find(Spaces, b.space).Some?
    ensures Find(Spaces, b.space).value.id == b.space
    ensures TitleText(Find(Spaces, b.space)) != "undefined"
  {
  }

  /** The confirm button is disabled exactly when the confirm action would reject. */
  lemma DisabledIffRejected(b: Selection)
    ensures ConfirmDisabled(b) <==> HandleBooking(b).Rejected?
  {
  }

  /** In a reachable selection the indicator never shows step 3 without step 2. */
  lemma StepThreeNeedsStepTwo(b: Selection)
    requires WellFormed(b)
    ensures StepThreeActive(b) ==> StepTwoActive(b)
    ensures !ConfirmDisabled(b) ==> StepTwoActive(b) && StepThreeActive(b)
  {
  }

  /**
   * Driven through the page, confirm never raises the validation alert: the
   * button is disabled under the same condition the action rejects on.
   */
  lemma {:induction false} RunNeverRejects(b: Selection, events: seq<Event>)
    ensures forall k :: 0 <= k < |Run(b, events).1| ==> Run(b, events).1[k].Confirmed?
    decreases |events|
  {
    if |events| > 0 {
      RunNeverRejects(Step(b, events[0]).0, events[1..]);
    }
  }
}
