/**
 * The scroll-reveal wrapper of the home page (`AnimatedElement`): an element
 * that becomes visible the first time it intersects the viewport. It stays
 * visible because nothing ever removes the class, and the reveal fires only
 * once because the callback unobserves the element at that first hit.
 */
module Reveal {
  import opened Wrappers

  /**
   * One rendered instance: whether the `is-visible` class has been added,
   * whether the observer still watches the element, and whether the observer
   * is still connected.
   */
  datatype State = State(visible: bool, observing: bool, connected: bool)

  /** The instance after its mount effect has called `observer.observe(element)`. */
  const Mounted := State(false, true, true)

  /**
   * What reaches the instance: one batch of intersection entries, given by
   * their `isIntersecting` flags, or the effect's cleanup on unmount.
   */
  datatype Event = Notify(entries: seq<bool>) | Unmount

  /** The observer's callback: an intersecting entry reveals the element and unobserves it. */
  function OnEntry(s: State, isIntersecting: bool): State
  {
    if isIntersecting then s.(visible := true, observing := false) else s
  }

  /**
   * Whether the callback reaches its reveal branch: a batch is delivered while
   * the element is observed by a connected observer, and the callback, which
   * destructures `([entry])`, finds its first entry intersecting.
   */
  predicate Fires(s: State, e: Event)
  {
    e.Notify? && s.observing && s.connected && |e.entries| > 0 && e.entries[0]
  }

  /**
   * One event. Batches only reach the callback while the element is observed
   * by a connected observer, and the callback reads only the batch's first
   * entry; an empty batch makes the destructured entry undefined, so the
   * callback fails before changing anything. Unmount disconnects, which also
   * ends observation.
   */
  function Step(s: State, e: Event): State
  {
    match e
    case Notify(entries) =>
      if s.observing && s.connected && |entries| > 0 then OnEntry(s, entries[0]) else s
    case Unmount => s.(observing := false, connected := false)
  }

  /** The state after a sequence of events. */
  function Run(s: State, events: seq<Event>): State
    decreases |events|
  {
    if |events| == 0 then s else Run(Step(s, events[0]), events[1..])
  }

  /** How many events along the run reach the callback's reveal branch. */
  function FireCount(s: State, events: seq<Event>): nat
    decreases |events|
  {
    if |events| == 0 then 0
    else (if Fires(s, events[0]) then 1 else 0) + FireCount(Step(s, events[0]), events[1..])
  }

  /** How many events along the run turn the element from hidden to visible. */
  function Reveals(s: State, events: seq<Event>): nat
    decreases |events|
  {
    if |events| == 0 then 0
    else
      var next := Step(s, events[0]);
      (if !s.visible && next.visible then 1 else 0) + Reveals(next, events[1..])
  }

  /** What every reachable state satisfies: a visible element is no longer observed. */
  predicate Consistent(s: State)
  {
    (s.visible ==> !s.observing) && (s.observing ==> s.connected)
  }

  /** A batch whose first entry is not intersecting changes nothing, whatever follows it. */
  lemma NonIntersectingIgnored(s: State, rest: seq<bool>)
    ensures Step(s, Notify([false] + rest)) == s
  {
  }

  /** Only the first entry of a batch matters: batches that agree on it have the same effect. */
  lemma OnlyFirstEntryRead(s: State, a: seq<bool>, b: seq<bool>)
    requires |a| > 0 && |b| > 0 && a[0] == b[0]
    ensures Step(s, Notify(a)) == Step(s, Notify(b))
  {
  }

  /** A batch led by an intersecting entry, while observed, reveals the element and stops observation. */
  lemma IntersectingReveals(s: State, rest: seq<bool>)
    requires s.observing && s.connected
    ensures Fires(s, Notify([true] + rest))
    ensures Step(s, Notify([true] + rest)).visible
    ensures !Step(s, Notify([true] + rest)).observing
    ensures Step(s, Notify([true] + rest)).connected
  {
  }

  /**
   * The reveal branch runs at most once along any run, and not at all once the
   * element is unobserved: firing unobserves, and nothing observes again.
   */
  lemma {:induction false} FiresAtMostOnceFrom(s: State, events: seq<Event>)
    ensures FireCount(s, events) <= (if s.observing then 1 else 0)
    decreases |events|
  {
    if |events| > 0 {
      FiresAtMostOnceFrom(Step(s, events[0]), events[1..]);
    }
  }

  /** An instance's callback reveals it at most once over its whole life. */
  lemma FiresAtMostOnce(events: seq<Event>)
    ensures FireCount(Mounted, events) <= 1
  {
    FiresAtMostOnceFrom(Mounted, events);
  }

  /** Unmount disconnects whether or not the element was revealed, and keeps its visibility. */
  lemma UnmountDisconnects(s: State)
    ensures !Step(s, Unmount).connected && !Step(s, Unmount).observing
    ensures Step(s, Unmount).visible == s.visible
  {
  }

  /** Every event keeps the state consistent. */
  lemma StepKeepsConsistent(s: State, e: Event)
    requires Consistent(s)
    ensures Consistent(Step(s, e))
  {
  }

  /** Visibility is monotone: once revealed, no sequence of events hides the element again. */
  lemma {:induction false} VisibleStaysVisible(s: State, events: seq<Event>)
    requires s.visible
    ensures Run(s, events).visible
    decreases |events|
  {
    if |events| > 0 {
      VisibleStaysVisible(Step(s, events[0]), events[1..]);
    }
  }

  /** Once observation has stopped, nothing restarts it and nothing reveals the element. */
  lemma {:induction false} UnobservedStaysUnobserved(s: State, events: seq<Event>)
    requires !s.observing
    ensures !Run(s, events).observing
    ensures Run(s, events).visible == s.visible
    ensures Reveals(s, events) == 0
    ensures FireCount(s, events) == 0
    decreases |events|
  {
    if |events| > 0 {
      UnobservedStaysUnobserved(Step(s, events[0]), events[1..]);
    }
  }

  /** From a consistent state, a run reveals the element at most once, and only if still observed. */
  lemma {:induction false} RevealsAtMostOnceFrom(s: State, events: seq<Event>)
    requires Consistent(s)
    ensures Reveals(s, events) <= (if s.observing then 1 else 0)
    decreases |events|
  {
    if |events| > 0 {
      var next := Step(s, events[0]);
      StepKeepsConsistent(s, events[0]);
      RevealsAtMostOnceFrom(next, events[1..]);
      if !s.visible && next.visible {
        assert !next.observing;
      }
    }
  }

  /** An instance is revealed at most once over its whole life, however often it enters the view. */
  lemma RevealsAtMostOnce(events: seq<Event>)
    ensures Reveals(Mounted, events) <= 1
  {
    RevealsAtMostOnceFrom(Mounted, events);
  }

  /** The inline style: `delay ? { transitionDelay: delay } : {}`, where "" counts as absent. */
  function TransitionDelay(delay: Option<string>): (r: Option<string>)
    ensures r.Some? <==> delay.Some? && delay.value != ""
    ensures r.Some? ==> r == delay
  {
    match delay
    case Some(d) => if d != "" then Some(d) else None
    case None => None
  }

  /** The fixed class every instance carries, with its separating space. */
  const RevealPrefix := "animate-reveal "

  /** The class attribute: `animate-reveal ${className || ''}`. */
  function ClassName(className: Option<string>): (r: string)
    ensures RevealPrefix <= r
    ensures r[|RevealPrefix|..] == if className.Some? then className.value else ""
  {
    RevealPrefix + (match className case Some(c) => c case None => "")
  }

  /** The class attribute determines the caller's class name: distinct names give distinct classes. */
  lemma ClassNameInjective(a: Option<string>, b: Option<string>)
    requires ClassName(a) == ClassName(b)
    ensures (if a.Some? then a.value else "") == (if b.Some? then b.value else "")
  {
    assert ClassName(a)[|RevealPrefix|..] == ClassName(b)[|RevealPrefix|..];
  }
}
