# Office-space site: page logic in Dafny

This project models the small amount of computed behaviour in a client-side
marketing site for a flexible-office business. It covers five pieces, each
written as pure functions or as step functions over immutable records:

- **Office-space filter** (`office_filter.dfy`). The category buttons and the
  `filteredSpaces` list. "all" shows the whole catalogue. "private",
  "meeting" and "coworking" keep the spaces whose id contains the token. Any
  other token keeps every space.
- **Booking selection** (`booking.dfy`). Four string fields, each set by its
  own control. The step-indicator and reveal flags derive from them. The
  confirm action rejects when any field is empty. Otherwise it builds a
  confirmation from the catalogue title found by id, plus the date, time and
  duration. The confirm button is disabled under the same condition.
- **Contact form** (`contact.dfy`). Six fields. An input change overwrites one
  named field. Submission is split into two steps: `BeginSubmit` sets the
  submitting flag, and `FinishSubmit` runs when the simulated delay ends. It
  thanks the user, resets the form to its initial value (inquiry type back to
  "general") and clears the flag.
- **Reveal-once controller** (`reveal.dfy`). The home page's
  `AnimatedElement`. The state is visible / observing / connected. The events
  are batches of intersection entries and unmount. The callback destructures
  `([entry])`, so only the first entry of a batch is read. The class and style derive from the
  `className` and `delay` props. The about page declares a line-for-line copy
  of the same component; `about_reveal.dfy` writes that copy out independently,
  in an equivalent but differently phrased form, and proves it equal to this one.
- **Mobile menu** (`mobile_menu.dfy`). The home page's `isMenuOpen` toggle.

Shared pieces:
- `catalogue.dfy`: the three catalogue spaces (id and title) and the by-id
  `find`.
- `text.dfy`: JavaScript's `includes`, proved equal to "some position holds
  the substring".
- `wrappers.dfy`: `Option`, standing in for `undefined`.

In every step function, an event from a control that is not rendered, or is
disabled, does nothing. Examples are a time-slot click before a space is
chosen, or a second submit while one is pending.

Two behaviours of the code are worth stating directly:
- An unrecognised filter token keeps every space. The filter predicate falls
  through to `return true` (OfficeSpacesPage.tsx:76; `FilterUnknownKeepsAll`).
- The contact reset puts the inquiry type back to "general", not to empty
  (ContactPage.tsx:35-42; `ResetIsInitialForm`, `SubmitRoundTrip`).

JavaScript truthiness is modelled explicitly. An empty `delay` gives no
transition-delay style. An empty `className` adds nothing after the fixed
`animate-reveal ` prefix. A failed `find` renders its title as the text
`undefined`. `LookupAlwaysFinds` shows that this cannot happen through the
page.

## Model

| member | source | states |
|---|---|---|
| Text.Includes | src/components/pages/OfficeSpacesPage.tsx:73-75 | `includes`: true when the token is a prefix of the id or of some suffix of it, false once the id is exhausted |
| Text.IncludesIffOccurs | src/components/pages/OfficeSpacesPage.tsx:73-75 | `id.includes(token)` holds exactly when some position of the id holds the token (both directions) |
| Catalogue.TitleText | src/components/pages/BookingPage.tsx:67 | `${selectedOffice?.title}`: the entry's title when found, the text `undefined` on a miss |
| Catalogue.Find | src/components/pages/BookingPage.tsx:66 | `find` by id returns nothing iff no entry has the id, otherwise the first entry carrying that id |
| Catalogue.SpacesHaveDistinctIds | src/components/pages/BookingPage.tsx:23-51 | the catalogue ids are distinct and looking up any catalogue id returns that very entry |
| OfficeFilter.Keeps | src/components/pages/OfficeSpacesPage.tsx:72-76 | the filter predicate: "private", "meeting" and "coworking" keep a space iff its id includes the token; any other token keeps it |
| OfficeFilter.FilterBy | src/components/pages/OfficeSpacesPage.tsx:72-77 | the filtered list is a subsequence of the input, no longer, holds only kept spaces, and holds every kept space |
| OfficeFilter.FilterByCounts | src/components/pages/OfficeSpacesPage.tsx:72-77 | every kept space appears in the result exactly as often as in the input, and every other space not at all |
| OfficeFilter.Filtered | src/components/pages/OfficeSpacesPage.tsx:70-71 | "all" returns the catalogue unchanged; every result is an order-preserving subsequence no longer than the catalogue |
| OfficeFilter.SubsequenceReflexive | src/components/pages/OfficeSpacesPage.tsx:70-71 | the unfiltered catalogue counts as a subsequence of itself |
| OfficeFilter.FilterCategory | src/components/pages/OfficeSpacesPage.tsx:72-75 | for "private", "meeting" and "coworking", every returned id contains the token and every space whose id contains it is returned |
| OfficeFilter.FilterUnknownKeepsAll | src/components/pages/OfficeSpacesPage.tsx:76 | any other token keeps every space in order, because the predicate falls through to true |
| OfficeFilter.FilterByThree | src/components/pages/OfficeSpacesPage.tsx:72 | filtering a three-space list decides each space independently and keeps their order |
| OfficeFilter.FilterCataloguePrivate | src/components/pages/OfficeSpacesPage.tsx:24-77 | against the catalogue, "private" yields exactly the private office |
| OfficeFilter.FilterCatalogueMeeting | src/components/pages/OfficeSpacesPage.tsx:24-77 | against the catalogue, "meeting" yields exactly the meeting room |
| OfficeFilter.FilterCatalogueCoworking | src/components/pages/OfficeSpacesPage.tsx:24-77 | against the catalogue, "coworking" yields exactly the coworking space |
| OfficeFilter.Click | src/components/pages/OfficeSpacesPage.tsx:122 | clicking a filter button makes its id the selection; no other click changes it |
| OfficeFilter.ClicksSelectFilterIds | src/components/pages/OfficeSpacesPage.tsx:22 | starting from "all", any sequence of clicks leaves the selection on one of the button ids |
| OfficeFilter.HighlightCountOfDistinct | src/components/pages/OfficeSpacesPage.tsx:63-68 | with distinct button ids, the number of highlighted buttons is 1 if the selection is a button id and 0 otherwise |
| OfficeFilter.ExactlyOneHighlighted | src/components/pages/OfficeSpacesPage.tsx:123-127 | whatever has been clicked, exactly one filter button is highlighted |
| Booking.InitialSelectionEmpty | src/components/pages/BookingPage.tsx:18-21 | on load all four fields are empty, confirm is disabled, and neither later step nor the summary is shown |
| Booking.Incomplete | src/components/pages/BookingPage.tsx:61 | the confirm action's guard: some of space, date, time and duration is empty |
| Booking.ShowsDateTimeStep | src/components/pages/BookingPage.tsx:162 | the date, time and duration card is rendered exactly once a space is chosen |
| Booking.StepTwoActive | src/components/pages/BookingPage.tsx:97 | indicator step 2 is drawn active exactly once a space is chosen |
| Booking.StepThreeActive | src/components/pages/BookingPage.tsx:102 | indicator step 3 is drawn active exactly when both a date and a time are set |
| Booking.ShowsSummary | src/components/pages/BookingPage.tsx:231 | the summary, and the confirm button in it, are rendered exactly once a space is chosen |
| Booking.ConfirmDisabled | src/components/pages/BookingPage.tsx:266 | the confirm button is disabled exactly when some of space, date, time and duration is empty |
| Booking.ConfirmationText | src/components/pages/BookingPage.tsx:67 | the confirmation template: "Booking confirmed!", then the title, date, time and duration on their own labelled lines, then the email note |
| Booking.Available | src/components/pages/BookingPage.tsx:119-266 | a card click only for a catalogue id; date, time and duration only once a space is chosen, time and duration only for offered values; confirm only when the summary is shown and the button is enabled |
| Booking.HandleBooking | src/components/pages/BookingPage.tsx:60-68 | rejected iff some field is empty, with the validation message; otherwise a confirmation |
| Booking.ConfirmationTextMentions | src/components/pages/BookingPage.tsx:67 | the confirmation text contains the title, date, time and duration it was built from |
| Booking.ConfirmationMentionsSelection | src/components/pages/BookingPage.tsx:66-67 | a complete selection is confirmed with a text naming the looked-up title, the date, the time and the duration |
| Booking.Step | src/components/pages/BookingPage.tsx:60-266 | confirm never changes the selection on either path; an alert is raised only by an enabled confirm click, and it is exactly `handleBooking`'s alert; unavailable controls do nothing |
| Booking.PickOverwritesOneField | src/components/pages/BookingPage.tsx:127-207 | choosing a space, date, time or duration overwrites that field and leaves the other three unchanged |
| Booking.StepPreservesWellFormed | src/components/pages/BookingPage.tsx:119-221 | each event keeps every field empty or one of its control's values, with nothing set before a space |
| Booking.RunPreservesWellFormed | src/components/pages/BookingPage.tsx:119-221 | every selection reachable through the page is well formed |
| Booking.LookupAlwaysFinds | src/components/pages/BookingPage.tsx:66 | in a reachable selection with a space chosen, the lookup finds the entry, so the title is never `undefined` |
| Booking.DisabledIffRejected | src/components/pages/BookingPage.tsx:266 | the confirm button is disabled exactly when the confirm action would reject |
| Booking.StepThreeNeedsStepTwo | src/components/pages/BookingPage.tsx:97-102 | in a reachable selection step 3 is never active without step 2, and an enabled confirm has both active |
| Booking.RunNeverRejects | src/components/pages/BookingPage.tsx:261-266 | from any selection, driven through the page, every alert confirm raises is a confirmation, never the validation message |
| Contact.HandleInputChange | src/components/pages/ContactPage.tsx:19-25 | an input change sets the named field to the new value and leaves every other field unchanged |
| Contact.InitialFormShape | src/components/pages/ContactPage.tsx:8-17 | the initial form has the five text fields empty, inquiry type "general", is not submitting, and cannot pass the required check |
| Contact.Required | src/components/pages/ContactPage.tsx:180-257 | name, email, subject and message carry `required`; phone and inquiry type do not |
| Contact.PassesRequired | src/components/pages/ContactPage.tsx:180-257 | the browser lets the form submit iff name, email, subject and message are all non-empty |
| Contact.PassesRequiredMeansRequiredFilled | src/components/pages/ContactPage.tsx:175-262 | the browser's required check passes iff every field marked required (name, email, subject, message) is non-empty |
| Contact.OptionalFieldsNeverBlock | src/components/pages/ContactPage.tsx:206-230 | editing phone or inquiry type never changes whether the form may submit |
| Contact.SubmitDisabled | src/components/pages/ContactPage.tsx:266 | the submit button is disabled exactly while a submission is pending |
| Contact.SubmitLabel | src/components/pages/ContactPage.tsx:269-273 | the button reads "Sending..." while submitting and "Send Message" otherwise |
| Contact.SendingIffDisabled | src/components/pages/ContactPage.tsx:266-270 | the button reads "Sending..." exactly while it is disabled |
| Contact.BeginSubmit | src/components/pages/ContactPage.tsx:28-29 | starting a submission sets the submitting flag and keeps the form |
| Contact.FinishSubmit | src/components/pages/ContactPage.tsx:34-43 | finishing a submission always thanks the user, sets the form to the reset object, which is the page-load state, and clears the flag |
| Contact.ResetIsInitialForm | src/components/pages/ContactPage.tsx:35-42 | the object written on reset equals the page-load form: five empty text fields and inquiry type "general" |
| Contact.Step | src/components/pages/ContactPage.tsx:27-44 | edits overwrite one field; a submit is accepted iff idle and the required check passes; the timer completes a pending submit and is ignored otherwise |
| Contact.SubmitRoundTrip | src/components/pages/ContactPage.tsx:27-44 | a filled idle form, submitted and left to finish, returns to the initial state, inquiry type "general" included |
| Contact.PendingSubmitSucceeds | src/components/pages/ContactPage.tsx:27-44 | a pending submission has no failure branch: edits and repeated submits keep it pending silently, and the timer then thanks and resets |
| Contact.TimerFinishes | src/components/pages/ContactPage.tsx:32-43 | the timer event alone on a pending submission raises the thanks and returns to the initial state |
| Contact.RunKeepsInquiryType | src/components/pages/ContactPage.tsx:219-229 | through any sequence of events the inquiry type stays one of the values the select offers |
| Reveal.OnEntry | src/components/pages/HomePage.tsx:50-54 | the callback body: an intersecting entry makes the element visible and unobserves it; a non-intersecting one changes nothing |
| Reveal.Step | src/components/pages/HomePage.tsx:50-58 | a batch reaches the callback only while observed and connected, and only its first entry is read; unmount disconnects and ends observation, keeping visibility |
| Reveal.Fires | src/components/pages/HomePage.tsx:50-53 | the callback reaches its reveal branch: a batch arrives while the element is observed by a connected observer, and its first entry is intersecting |
| Reveal.NonIntersectingIgnored | src/components/pages/HomePage.tsx:50-51 | a batch whose first entry is not intersecting changes nothing, whatever entries follow |
| Reveal.OnlyFirstEntryRead | src/components/pages/HomePage.tsx:50 | batches that agree on their first entry have the same effect, since the callback destructures `([entry])` |
| Reveal.IntersectingReveals | src/components/pages/HomePage.tsx:51-53 | a batch led by an intersecting entry while observed reaches the reveal branch, sets visible and stops observing |
| Reveal.UnmountDisconnects | src/components/pages/HomePage.tsx:58 | unmount disconnects and ends observation whether or not the element was revealed |
| Reveal.StepKeepsConsistent | src/components/pages/HomePage.tsx:50-58 | each event keeps a visible element unobserved and an observed element connected |
| Reveal.VisibleStaysVisible | src/components/pages/HomePage.tsx:52-53 | once visible, no sequence of events hides the element |
| Reveal.UnobservedStaysUnobserved | src/components/pages/HomePage.tsx:53 | after unobserve nothing restarts observation, changes visibility or reveals again |
| Reveal.RevealsAtMostOnceFrom | src/components/pages/HomePage.tsx:50-55 | from a consistent state, the element turns from hidden to visible at most once, and not at all once unobserved |
| Reveal.FiresAtMostOnceFrom | src/components/pages/HomePage.tsx:51-53 | along any run the callback reaches its reveal branch at most once, and never once unobserved, because firing unobserves |
| Reveal.RevealsAtMostOnce | src/components/pages/HomePage.tsx:46-59 | a mounted instance turns from hidden to visible at most once in its life |
| Reveal.FiresAtMostOnce | src/components/pages/HomePage.tsx:46-59 | a mounted instance's callback runs its reveal branch at most once, however often the element enters the view |
| Reveal.TransitionDelay | src/components/pages/HomePage.tsx:61 | the delay style is present iff a non-empty delay is given, and then carries that delay |
| Reveal.ClassName | src/components/pages/HomePage.tsx:63 | the class is `animate-reveal ` followed by the given class name or nothing |
| Reveal.ClassNameInjective | src/components/pages/HomePage.tsx:63 | equal class attributes come from equal class names |
| AboutReveal.CopyOnEntry | src/components/pages/AboutPage.tsx:35-40 | the about page's callback body: an intersecting entry reveals and unobserves, otherwise nothing changes |
| AboutReveal.CopyStep | src/components/pages/AboutPage.tsx:35-43 | the about page's instance: a batch acts through its first entry only while observed and connected; unmount disconnects |
| AboutReveal.CopyTransitionDelay | src/components/pages/AboutPage.tsx:46 | the about page's style: the delay when it is given and non-empty, otherwise no style |
| AboutReveal.CopyClassName | src/components/pages/AboutPage.tsx:48 | the about page's class: `animate-reveal ` followed by the class name when given and non-empty, otherwise nothing |
| AboutReveal.CopyStepMatches | src/components/pages/AboutPage.tsx:35-43 | the about page's element reacts to every event exactly as the home page's does |
| AboutReveal.CopyRenderingMatches | src/components/pages/AboutPage.tsx:46-48 | the about page's element renders the same style and class as the home page's |
| AboutReveal.CopyRunMatches | src/components/pages/AboutPage.tsx:31-44 | over any event sequence the about page's element ends in the home page's state |
| AboutReveal.CopyNonIntersectingIgnored | src/components/pages/AboutPage.tsx:35-36 | in the about page's copy a batch whose first entry is not intersecting changes nothing |
| AboutReveal.CopyFireCountMatches | src/components/pages/AboutPage.tsx:35-39 | along any run the copy's callback fires exactly as often as the home page's |
| AboutReveal.CopyFiresAtMostOnce | src/components/pages/AboutPage.tsx:36-38 | the copy's callback runs its reveal branch at most once per instance |
| AboutReveal.CopyRevealsOnce | src/components/pages/AboutPage.tsx:36-38 | in the copy the first intersecting entry reveals and unobserves, after which the callback never fires again and the element stays visible |
| AboutReveal.CopyUnmountDisconnects | src/components/pages/AboutPage.tsx:43 | in the copy unmount always disconnects |
| AboutReveal.CopyStyleAndClass | src/components/pages/AboutPage.tsx:46-48 | in the copy the delay style is present iff a non-empty delay is given, and the class starts with `animate-reveal ` |
| MobileMenu.Step | src/components/pages/HomePage.tsx:214-253 | the menu button flips `isMenuOpen`; any mobile nav link sets it to closed |
| MobileMenu.ButtonTwiceRestores | src/components/pages/HomePage.tsx:214 | the menu button flips the menu, and two clicks restore it |
| MobileMenu.NavLinkCloses | src/components/pages/HomePage.tsx:228-253 | every mobile nav link closes the menu |
| MobileMenu.OpenIffOddToggles | src/components/pages/HomePage.tsx:69-253 | starting closed, the menu is open iff an odd number of button clicks followed the last nav-link click |

## Left out

- Rendering: JSX, Tailwind classes, keyframes and `<style>` blocks. Only the boolean predicates that decide what is shown or enabled are modelled.
- The IntersectionObserver API and its `threshold: 0.1` geometry. Each entry is abstracted to its `isIntersecting` flag, and a batch to the sequence of those flags. An empty batch would make the callback fail on an undefined entry; the model leaves the state unchanged for it. React's effect lifecycle is reduced to the `Mounted` state and an `Unmount` event. The `if (!element) return` guard is not modelled, because the ref of a rendered `div` is always set when the effect runs.
- The one-second `setTimeout` in the contact submission. It is the `DelayElapsed` event; no real time is modelled.
- `alert` side effects. Alerts are returned as values.
- The booking page's minimum date (`new Date().toISOString()`) and its `toLocaleDateString` display. Both depend on the clock and locale, and the confirm guard does not enforce them. The date input may emit any string, including a cleared "".
- The browser's syntax check for the `type="email"` field. The required check is modelled as non-emptiness only.
- Field names outside the six declared ones in `handleInputChange`. Every control on the form carries one of the six names, so the event carries a `Field`.
- Router navigation, image loading, and the logic-free contact form on the home page.
- The home page's `selectedOffice` state. It is declared but never set or read.
- The office-spaces page's `handleBooking` alert ("Redirecting to booking for: ..."). It formats a string and has no state or guard.
- Static copy: descriptions, features, amenities, FAQs, team, stats and pricing plans. Only catalogue ids and titles take part in any logic.
- Price strings. The booking page lists US dollars and the other pages list pounds. No price is ever computed.
