/** The React chat feature: `ChatController` owns the four-state animation
    machine, the body scroll-lock class and the backdrop overlay;
    `ChatPanelContainer` turns the state into a class list and moves focus
    into the input when the panel has opened.

    React's rendering is modelled as one `Step` per browser or user event:
    the handler computes the next state, and the effect keyed on
    `animationState` runs afterwards only when that state actually changed
    (React skips an effect whose dependency list is unchanged). */
module ChatController {
  import opened Wrappers
  import opened Strings

  datatype AnimState = Idle | Opening | Open | Closing

  /** The overlay's transition class: `""`, `is-entering` or `is-exiting`. */
  datatype OverlayClass = NoOverlayClass | Entering | Exiting

  function OverlayClassName(c: OverlayClass): string {
    match c
    case NoOverlayClass => ""
    case Entering => "is-entering"
    case Exiting => "is-exiting"
  }

  datatype Controller = Controller(
    anim: AnimState,
    overlayVisible: bool,
    overlayClass: OverlayClass,
    bodyChatOpen: bool    // whether `document.body` carries `is-chat-open`
  )

  /** What can reach the controller. A panel `animationend` carries the
      event's `animationName`, `None` when the native event has none. */
  datatype Event =
    | OpenChat                                  // `openChat` from the context
    | CloseChat                                 // the panel's close button
    | PanelAnimationEnd(name: Option<string>)   // bubbled to the container
    | OverlayAnimationEnd                       // the overlay's own animation

  const OpenPillPrefix: string := "open-pill"
  const ClosePillPrefix: string := "close-pill"

  predicate LocksBody(a: AnimState) {
    a == Opening || a == Open
  }

  /** `handleAnimationEnd`: a missing name reads as `""`; the name is
      matched on its prefix and no state guard is applied. */
  function AnimationEndTarget(a: AnimState, name: Option<string>): (r: AnimState)
    ensures StartsWith(name.GetOr(""), OpenPillPrefix) ==> r == Open
    ensures !StartsWith(name.GetOr(""), OpenPillPrefix) && StartsWith(name.GetOr(""), ClosePillPrefix) ==> r == Idle
    ensures !StartsWith(name.GetOr(""), OpenPillPrefix) && !StartsWith(name.GetOr(""), ClosePillPrefix) ==> r == a
  {
    var n := name.GetOr("");
    if StartsWith(n, OpenPillPrefix) then Open
    else if StartsWith(n, ClosePillPrefix) then Idle
    else a
  }

  /** The effect on `animationState`: toggle the body class, show the
      overlay with `is-entering` while opening or open, switch it to
      `is-exiting` while closing, and leave it alone when idle. */
  function StateEffect(c: Controller): (r: Controller)
    ensures r.anim == c.anim && r.bodyChatOpen == LocksBody(c.anim)
    ensures LocksBody(c.anim) ==> r.overlayVisible && r.overlayClass == Entering
    ensures c.anim == Closing ==> r.overlayVisible == c.overlayVisible && r.overlayClass == Exiting
    ensures c.anim == Idle ==> r.overlayVisible == c.overlayVisible && r.overlayClass == c.overlayClass
  {
    var c' := c.(bodyChatOpen := LocksBody(c.anim));
    if LocksBody(c.anim) then c'.(overlayVisible := true, overlayClass := Entering)
    else if c.anim == Closing then c'.(overlayClass := Exiting)
    else c'
  }

  /** The controller after mounting: the initial `useState` values, then the
      effect's first run. */
  function Mount(): (r: Controller)
    ensures r.anim == Idle && !r.overlayVisible && OverlayClassName(r.overlayClass) == ""
    ensures !r.bodyChatOpen
  {
    StateEffect(Controller(Idle, false, NoOverlayClass, false))
  }

  /** The handlers, before any effect runs. They only set state: the body
      class is never touched here, and only the overlay's own animation end
      changes the overlay, by unmounting it, which leaves the state alone. */
  function Handle(c: Controller, e: Event): (r: Controller)
    ensures r.bodyChatOpen == c.bodyChatOpen
    ensures e != OverlayAnimationEnd ==> r.overlayVisible == c.overlayVisible && r.overlayClass == c.overlayClass
    ensures e == OverlayAnimationEnd ==> r.anim == c.anim && r.overlayClass == c.overlayClass
    ensures r.overlayVisible ==> c.overlayVisible
  {
    match e
    case OpenChat => if c.anim == Idle then c.(anim := Opening) else c
    case CloseChat => if c.anim == Open then c.(anim := Closing) else c
    case PanelAnimationEnd(name) => c.(anim := AnimationEndTarget(c.anim, name))
    case OverlayAnimationEnd =>
      if c.overlayClass == Exiting then c.(overlayVisible := false) else c
  }

  /** One event followed by a re-render: the effect runs only when the
      animation state changed. */
  function Step(c: Controller, e: Event): (r: Controller)
    ensures r.anim == Handle(c, e).anim
    ensures r.anim != c.anim ==> r.bodyChatOpen == LocksBody(r.anim)
    ensures r.anim == c.anim ==> r.bodyChatOpen == c.bodyChatOpen
  {
    var next := Handle(c, e);
    if next.anim != c.anim then StateEffect(next) else next
  }

  function Run(c: Controller, events: seq<Event>): Controller
    decreases |events|
  {
    if |events| == 0 then c else Run(Step(c, events[0]), events[1..])
  }

  // ------------------------------------------------------------ guards

  /** `openChat` acts only from `idle`, where it starts the opening
      animation, locks the body and shows the entering overlay; in every
      other state nothing at all changes. */
  lemma OpenOnlyFromIdle(c: Controller)
    ensures c.anim == Idle ==>
              Step(c, OpenChat) == Controller(Opening, true, Entering, true)
    ensures c.anim != Idle ==> Step(c, OpenChat) == c
  {
  }

  /** A close request acts only from `open`: it starts the closing animation,
      drops the body lock and switches the overlay to `is-exiting` while
      keeping it mounted; in every other state nothing changes. */
  lemma CloseOnlyFromOpen(c: Controller)
    ensures c.anim == Open ==>
              Step(c, CloseChat) == Controller(Closing, c.overlayVisible, Exiting, false)
    ensures c.anim != Open ==> Step(c, CloseChat) == c
  {
  }

  /** The panel's `animationend` has no state guard: an `open-pill*` name
      opens and a `close-pill*` name idles from any state, while any other
      name (the wrapper's bubbled `fade-in`/`fade-out`) or none at all leaves
      the controller unchanged. */
  lemma AnimationEndByPrefix(c: Controller, name: Option<string>)
    ensures StartsWith(name.GetOr(""), OpenPillPrefix) ==>
              Step(c, PanelAnimationEnd(name)).anim == Open
    ensures !StartsWith(name.GetOr(""), OpenPillPrefix) && StartsWith(name.GetOr(""), ClosePillPrefix) ==>
              Step(c, PanelAnimationEnd(name)).anim == Idle
    ensures !StartsWith(name.GetOr(""), OpenPillPrefix) && !StartsWith(name.GetOr(""), ClosePillPrefix) ==>
              Step(c, PanelAnimationEnd(name)) == c
  {
  }

  /** The overlay disappears only through its own `animationend`, and only
      while its class is `is-exiting`. */
  lemma OverlayUnmountsOnlyOnItsExit(c: Controller, e: Event)
    requires c.overlayVisible && !Step(c, e).overlayVisible
    ensures e == OverlayAnimationEnd && c.overlayClass == Exiting
  {
  }

  // -------------------------------------------------------- invariants

  /** What holds after every sequence of events since mounting: the body is
      locked exactly while opening or open, the overlay is shown entering in
      those states, and it is exiting whenever the panel closes. */
  predicate Consistent(c: Controller) {
    && c.bodyChatOpen == LocksBody(c.anim)
    && (LocksBody(c.anim) ==> c.overlayVisible && c.overlayClass == Entering)
    && (c.anim == Closing ==> c.overlayClass == Exiting)
  }

  lemma StepKeepsConsistent(c: Controller, e: Event)
    requires Consistent(c)
    ensures Consistent(Step(c, e))
  {
  }

  /** The body has `is-chat-open` if and only if the state is `opening` or
      `open`, after every event sequence that starts at mount. */
  lemma {:induction false} RunKeepsConsistent(c: Controller, events: seq<Event>)
    requires Consistent(c)
    ensures Consistent(Run(c, events))
    ensures Run(c, events).bodyChatOpen <==> LocksBody(Run(c, events).anim)
    decreases |events|
  {
    if |events| > 0 {
      StepKeepsConsistent(c, events[0]);
      RunKeepsConsistent(Step(c, events[0]), events[1..]);
    }
  }

  lemma MountIsConsistent()
    ensures Consistent(Mount())
  {
  }

  /** The full cycle (open, `open-pill-desktop`, close, `close-pill-mobile`,
      then the overlay's exit) returns the animation state, the body class
      and the overlay's visibility to their values at mount. */
  lemma CycleRestoresFlags()
    ensures var events := [OpenChat, PanelAnimationEnd(Some("open-pill-desktop")), CloseChat,
                           PanelAnimationEnd(Some("close-pill-mobile")), OverlayAnimationEnd];
            var c := Run(Mount(), events);
            c.anim == Mount().anim && c.bodyChatOpen == Mount().bodyChatOpen
            && c.overlayVisible == Mount().overlayVisible
  {
    var m := Mount();
    var c1 := Step(m, OpenChat);
    assert c1 == Controller(Opening, true, Entering, true);
    StartsWithConcat(OpenPillPrefix, "-desktop");
    assert OpenPillPrefix + "-desktop" == "open-pill-desktop";
    var c2 := Step(c1, PanelAnimationEnd(Some("open-pill-desktop")));
    assert c2 == Controller(Open, true, Entering, true);
    var c3 := Step(c2, CloseChat);
    assert c3 == Controller(Closing, true, Exiting, false);
    assert "close-pill-mobile"[0] != OpenPillPrefix[0];
    StartsWithConcat(ClosePillPrefix, "-mobile");
    assert ClosePillPrefix + "-mobile" == "close-pill-mobile";
    var c4 := Step(c3, PanelAnimationEnd(Some("close-pill-mobile")));
    assert c4 == Controller(Idle, true, Exiting, false);
    var c5 := Step(c4, OverlayAnimationEnd);
    assert c5 == Controller(Idle, false, Exiting, false);
  }

  /** Because the `close-pill*` end is not guarded by state, one arriving
      while the panel is still opening idles the panel but leaves the overlay
      mounted with `is-entering`, a class its exit handler ignores. */
  lemma UnguardedCloseEndStrandsOverlay()
    ensures var c := Step(Step(Mount(), OpenChat), PanelAnimationEnd(Some("close-pill")));
            c.anim == Idle && c.overlayVisible && c.overlayClass == Entering
            && Step(c, OverlayAnimationEnd) == c
  {
    StartsWithConcat(ClosePillPrefix, "");
    assert ClosePillPrefix + "" == "close-pill";
    assert "close-pill"[0] != OpenPillPrefix[0];
  }

  // ------------------------------------------------ ChatPanelContainer

  const BaseClasses: string :=
    "fixed bottom-4 md:bottom-[30px] w-[95vw] h-[50px] rounded-[16px] shadow-lg m-auto left-0 right-0 z-50 select-none p-px overflow-hidden bg-transparent"

  /** The class each visible state adds to the container. */
  function StateClass(a: AnimState): string
    requires a != Idle
  {
    match a
    case Opening => "is-opening"
    case Closing => "is-closing"
    case Open => "is-open"
  }

  /** The inverse of `StateClass`: which state a container class reveals. */
  function StateOfClass(cls: string): Option<AnimState> {
    if cls == "is-opening" then Some(Opening)
    else if cls == "is-closing" then Some(Closing)
    else if cls == "is-open" then Some(Open)
    else None
  }

  /** The container's class-list entries after `filter(Boolean)`: nothing is
      rendered while idle, and otherwise the base classes come first followed
      by exactly one state class, the one that names the current state. */
  function ContainerClasses(a: AnimState): (r: Option<seq<string>>)
    ensures r.None? <==> a == Idle
    ensures r.Some? ==> |r.value| == 2 && r.value[0] == BaseClasses
                        && StateOfClass(r.value[1]) == Some(a)
  {
    if a == Idle then None else Some([BaseClasses, StateClass(a)])
  }

  /** `classNames.join(' ')`. */
  function ContainerClassName(a: AnimState): Option<string> {
    match ContainerClasses(a)
    case None => None
    case Some(list) => Some(Join(list, ' '))
  }

  /** The class string always starts with the base classes and ends with the
      state's own class, separated by one space. */
  lemma ContainerClassNameShape(a: AnimState)
    requires a != Idle
    ensures ContainerClassName(a) == Some(BaseClasses + " " + StateClass(a))
  {
    var list := [BaseClasses, StateClass(a)];
    assert list[1..] == [StateClass(a)];
  }

  /** The three state classes are distinct, so the class names the state. */
  lemma StateClassRoundTrip(a: AnimState)
    requires a != Idle
    ensures StateOfClass(StateClass(a)) == Some(a)
  {
  }

  /** The focus effect runs when `animationState` changes and focuses the
      input only when the new state is `open`. */
  function FocusRequested(prev: AnimState, next: AnimState): bool {
    prev != next && next == Open
  }

  /** Focus is requested by exactly one kind of step: an `open-pill*`
      animation end arriving while the panel is not yet open. Opening,
      closing and the overlay never focus, and a repeated `open-pill*` end
      while already open does not focus again. */
  lemma FocusOnlyOnOpenPillEnd(c: Controller, e: Event)
    ensures FocusRequested(c.anim, Step(c, e).anim) <==>
              && c.anim != Open && e.PanelAnimationEnd?
              && StartsWith(e.name.GetOr(""), OpenPillPrefix)
  {
  }
}
