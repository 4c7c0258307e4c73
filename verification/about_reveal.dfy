/**
 * The about page declares its own `AnimatedElement`, a line-for-line copy of the
 * home page's. This module writes the copy out independently, in an equivalent
 * but differently phrased form, and proves it is the same machine as `Reveal`,
 * so every property of the home page's element carries over.
 */
module AboutReveal {
  import opened Wrappers
  import Reveal

  /** The about page's observer callback. */
  function CopyOnEntry(s: Reveal.State, isIntersecting: bool): Reveal.State
  {
    if !isIntersecting then s
    else Reveal.State(true, false, s.connected)
  }

  /** One event reaching the about page's instance. */
  function CopyStep(s: Reveal.State, e: Reveal.Event): Reveal.State
  {
    match e
    case Notify(entries) =>
      if !(s.observing && s.connected) || |entries| == 0 then s else CopyOnEntry(s, entries[0])
    case Unmount => Reveal.State(s.visible, false, false)
  }

  /** The about page's instance after a sequence of events. */
  function CopyRun(s: Reveal.State, events: seq<Reveal.Event>): Reveal.State
    decreases |events|
  {
    if |events| == 0 then s else CopyRun(CopyStep(s, events[0]), events[1..])
  }

  /** How many events along a run reach the about page callback's reveal branch. */
  function CopyFireCount(s: Reveal.State, events: seq<Reveal.Event>): nat
    decreases |events|
  {
    if |events| == 0 then 0
    else
      var e := events[0];
      (if e.Notify? && s.observing && s.connected && |e.entries| > 0 && e.entries[0] then 1 else 0)
      + CopyFireCount(CopyStep(s, e), events[1..])
  }

  /** The about page's inline style. */
  function CopyTransitionDelay(delay: Option<string>): Option<string>
  {
    if delay.Some? && delay.value != "" then delay else None
  }

  /** The about page's class attribute. */
  function CopyClassName(className: Option<string>): string
  {
    "animate-reveal " + (if className.Some? && className.value != "" then className.value else "")
  }

  /** The copy reacts to every event exactly as the home page's element does. */
  lemma CopyStepMatches(s: Reveal.State, e: Reveal.Event)
    ensures CopyStep(s, e) == Reveal.Step(s, e)
  {
  }

  /** The copy renders the same style and class as the home page's element. */
  lemma CopyRenderingMatches(delay: Option<string>, className: Option<string>)
    ensures CopyTransitionDelay(delay) == Reveal.TransitionDelay(delay)
    ensures CopyClassName(className) == Reveal.ClassName(className)
  {
  }

  /** Over any sequence of events the copy ends where the home page's element ends. */
  lemma {:induction false} CopyRunMatches(s: Reveal.State, events: seq<Reveal.Event>)
    ensures CopyRun(s, events) == Reveal.Run(s, events)
    decreases |events|
  {
    if |events| > 0 {
      CopyStepMatches(s, events[0]);
      CopyRunMatches(CopyStep(s, events[0]), events[1..]);
    }
  }

  /** Along any run the copy's callback fires exactly as often as the home page's. */
  lemma {:induction false} CopyFireCountMatches(s: Reveal.State, events: seq<Reveal.Event>)
    ensures CopyFireCount(s, events) == Reveal.FireCount(s, events)
    decreases |events|
  {
    if |events| > 0 {
      CopyStepMatches(s, events[0]);
      CopyFireCountMatches(CopyStep(s, events[0]), events[1..]);
    }
  }

  /** In the copy, a batch whose first entry is not intersecting changes nothing. */
  lemma CopyNonIntersectingIgnored(s: Reveal.State, rest: seq<bool>)
    ensures CopyStep(s, Reveal.Notify([false] + rest)) == s
  {
    CopyStepMatches(s, Reveal.Notify([false] + rest));
    Reveal.NonIntersectingIgnored(s, rest);
  }

  /**
   * In the copy, the first intersecting entry reveals and unobserves, and from
   * then on the callback never fires again and the element stays visible.
   */
  lemma CopyRevealsOnce(events: seq<Reveal.Event>)
    ensures CopyStep(Reveal.Mounted, Reveal.Notify([true])).visible
    ensures !CopyStep(Reveal.Mounted, Reveal.Notify([true])).observing
    ensures CopyFireCount(CopyStep(Reveal.Mounted, Reveal.Notify([true])), events) == 0
    ensures CopyRun(CopyStep(Reveal.Mounted, Reveal.Notify([true])), events).visible
  {
    var revealed := CopyStep(Reveal.Mounted, Reveal.Notify([true]));
    CopyStepMatches(Reveal.Mounted, Reveal.Notify([true]));
    Reveal.UnobservedStaysUnobserved(revealed, events);
    CopyRunMatches(revealed, events);
    CopyFireCountMatches(revealed, events);
  }

  /** The copy's callback reveals an instance at most once over its whole life. */
  lemma CopyFiresAtMostOnce(events: seq<Reveal.Event>)
    ensures CopyFireCount(Reveal.Mounted, events) <= 1
  {
    CopyFireCountMatches(Reveal.Mounted, events);
    Reveal.FiresAtMostOnce(events);
  }

  /** In the copy, unmount always disconnects, revealed or not. */
  lemma CopyUnmountDisconnects(s: Reveal.State)
    ensures !CopyStep(s, Reveal.Unmount).connected
    ensures !CopyStep(s, Reveal.Unmount).observing
  {
    CopyStepMatches(s, Reveal.Unmount);
    Reveal.UnmountDisconnects(s);
  }

  /** In the copy, the delay style is present iff a non-empty delay is given, and the class starts with the reveal class. */
  lemma CopyStyleAndClass(delay: Option<string>, className: Option<string>)
    ensures CopyTransitionDelay(delay).Some? <==> delay.Some? && delay.value != ""
    ensures Reveal.RevealPrefix <= CopyClassName(className)
  {
    CopyRenderingMatches(delay, className);
  }
}
