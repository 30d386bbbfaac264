/** The vanilla-script chat panel (`initChatPanel`): the same four-state
    machine as the React controller, but driving DOM class sets directly.
    The DOM is modelled as the class sets of the panel, the body and the
    overlay, the panel's `display` style, and a count of focus calls. */
module ChatScript {
  import opened Wrappers
  import opened Strings
  import ChatController

  type AnimState = ChatController.AnimState

  datatype Display = DisplayUnset | DisplayBlock | DisplayNone

  datatype Dom = Dom(
    anim: AnimState,              // the module-level `chatAnimationState`
    panelClasses: set<string>,
    panelDisplay: Display,
    bodyClasses: set<string>,
    overlayClasses: set<string>,
    inputFocusCalls: nat
  )

  /** Which of the five required elements the page provides. */
  datatype Elements = Elements(trigger: bool, panel: bool, closeButton: bool, input: bool, overlay: bool)

  /** Events reach the handlers only once they are installed. The panel's
      `animationend` always carries a string name. */
  datatype Event = TriggerClick | CloseClick | PanelAnimationEnd(name: string)

  const IsOpening := "is-opening"
  const IsOpen := "is-open"
  const IsClosing := "is-closing"
  const ChatOpenClass := "is-chat-open"
  const IsEntering := "is-entering"
  const IsExiting := "is-exiting"

  /** `initChatPanel`: with any required element missing it logs a warning
      and installs no handler, so the page is left exactly as it was. */
  function Init(found: Elements, page: Dom): (r: Option<Dom>)
    ensures r.Some? <==> found.trigger && found.panel && found.closeButton && found.input && found.overlay
    ensures r.Some? ==> r.value == page
  {
    if found.trigger && found.panel && found.closeButton && found.input && found.overlay
    then Some(page) else None
  }

  /** `openChat`: from `idle` only, and it never focuses the input. */
  function OpenChat(d: Dom): (r: Dom)
    ensures r == d || d.anim == ChatController.Idle
    ensures r.inputFocusCalls == d.inputFocusCalls
  {
    if d.anim == ChatController.Idle then
      d.(anim := ChatController.Opening,
         panelDisplay := DisplayBlock,
         panelClasses := d.panelClasses + {IsOpening},
         bodyClasses := d.bodyClasses + {ChatOpenClass},
         overlayClasses := d.overlayClasses + {IsEntering} - {IsExiting})
    else d
  }

  /** `closeChat`: from `open` only; it neither unlocks the body nor
      changes the panel's display, and never focuses. */
  function CloseChat(d: Dom): (r: Dom)
    ensures r == d || d.anim == ChatController.Open
    ensures r.bodyClasses == d.bodyClasses && r.panelDisplay == d.panelDisplay
    ensures r.inputFocusCalls == d.inputFocusCalls
  {
    if d.anim == ChatController.Open then
      d.(anim := ChatController.Closing,
         panelClasses := d.panelClasses + {IsClosing} - {IsOpen},
         overlayClasses := d.overlayClasses + {IsExiting} - {IsEntering})
    else d
  }

  /** The panel's `animationend` listener, matched on name prefix with no
      state guard. It never touches the overlay: nothing in the script
      removes `is-exiting` or hides the overlay again. */
  function AnimationEnd(d: Dom, name: string): (r: Dom)
    ensures r.overlayClasses == d.overlayClasses
    ensures r.inputFocusCalls == d.inputFocusCalls + (if StartsWith(name, ChatController.OpenPillPrefix) then 1 else 0)
  {
    if StartsWith(name, ChatController.OpenPillPrefix) then
      d.(anim := ChatController.Open,
         panelClasses := d.panelClasses - {IsOpening} + {IsOpen},
         inputFocusCalls := d.inputFocusCalls + 1)
    else if StartsWith(name, ChatController.ClosePillPrefix) then
      d.(anim := ChatController.Idle,
         panelClasses := d.panelClasses - {IsClosing},
         panelDisplay := DisplayNone,
         bodyClasses := d.bodyClasses - {ChatOpenClass})
    else d
  }

  /** One event: the input is focused exactly on an `open-pill*` end,
      whatever the state. */
  function Step(d: Dom, e: Event): (r: Dom)
    ensures r.inputFocusCalls == d.inputFocusCalls + 1 <==>
              e.PanelAnimationEnd? && StartsWith(e.name, ChatController.OpenPillPrefix)
    ensures r.inputFocusCalls <= d.inputFocusCalls + 1
  {
    match e
    case TriggerClick => OpenChat(d)
    case CloseClick => CloseChat(d)
    case PanelAnimationEnd(name) => AnimationEnd(d, name)
  }

  function Run(d: Dom, events: seq<Event>): Dom
    decreases |events|
  {
    if |events| == 0 then d else Run(Step(d, events[0]), events[1..])
  }

  // ---------------------------------------------------------- handlers

  /** Open acts only from `idle`: it shows the panel, adds `is-opening` and
      locks the body; after it the overlay holds exactly one of the two
      transition classes, `is-entering`. Elsewhere it changes nothing. */
  lemma OpenChatEffect(d: Dom)
    ensures d.anim != ChatController.Idle ==> OpenChat(d) == d
    ensures d.anim == ChatController.Idle ==>
              var d' := OpenChat(d);
              && d'.anim == ChatController.Opening && d'.panelDisplay == DisplayBlock
              && IsOpening in d'.panelClasses && ChatOpenClass in d'.bodyClasses
              && IsEntering in d'.overlayClasses && IsExiting !in d'.overlayClasses
  {
  }

  /** Close acts only from `open`: it adds `is-closing`, removes `is-open`
      and leaves the overlay exiting; the body lock is not touched. */
  lemma CloseChatEffect(d: Dom)
    ensures d.anim != ChatController.Open ==> CloseChat(d) == d
    ensures d.anim == ChatController.Open ==>
              var d' := CloseChat(d);
              && d'.anim == ChatController.Closing
              && IsClosing in d'.panelClasses && IsOpen !in d'.panelClasses
              && IsExiting in d'.overlayClasses && IsEntering !in d'.overlayClasses
              && d'.bodyClasses == d.bodyClasses
  {
  }

  /** The `open-pill*` end opens, swaps `is-opening` for `is-open` and
      focuses the input once; the `close-pill*` end idles, drops
      `is-closing`, hides the panel and only now unlocks the body. */
  lemma AnimationEndEffect(d: Dom, name: string)
    ensures StartsWith(name, ChatController.OpenPillPrefix) ==>
              var d' := AnimationEnd(d, name);
              && d'.anim == ChatController.Open && IsOpen in d'.panelClasses && IsOpening !in d'.panelClasses
              && d'.inputFocusCalls == d.inputFocusCalls + 1
    ensures !StartsWith(name, ChatController.OpenPillPrefix) && StartsWith(name, ChatController.ClosePillPrefix) ==>
              var d' := AnimationEnd(d, name);
              && d'.anim == ChatController.Idle && IsClosing !in d'.panelClasses
              && d'.panelDisplay == DisplayNone && ChatOpenClass !in d'.bodyClasses
    ensures !StartsWith(name, ChatController.OpenPillPrefix) && !StartsWith(name, ChatController.ClosePillPrefix) ==>
              AnimationEnd(d, name) == d
  {
  }

  // ---------------------------------------------------- the normal cycle

  /** An event the browser sends along the normal cycle: each animation end
      arrives while its own animation is running. */
  predicate Expected(d: Dom, e: Event) {
    match e
    case PanelAnimationEnd(name) =>
      && (StartsWith(name, ChatController.OpenPillPrefix) ==> d.anim == ChatController.Opening)
      && ((!StartsWith(name, ChatController.OpenPillPrefix) && StartsWith(name, ChatController.ClosePillPrefix))
          ==> d.anim == ChatController.Closing)
    case _ => true
  }

  predicate AllExpected(d: Dom, events: seq<Event>)
    decreases |events|
  {
    |events| == 0 || (Expected(d, events[0]) && AllExpected(Step(d, events[0]), events[1..]))
  }

  /** The state classes the panel carries. */
  function StateClasses(d: Dom): set<string> {
    d.panelClasses * {IsOpening, IsOpen, IsClosing}
  }

  /** The panel carries the one state class of its state (none when idle),
      and the body is locked in every state except `idle`: the lock lasts
      through the whole closing animation. */
  predicate CycleInvariant(d: Dom) {
    && (d.anim == ChatController.Idle ==> StateClasses(d) == {})
    && (d.anim == ChatController.Opening ==> StateClasses(d) == {IsOpening})
    && (d.anim == ChatController.Open ==> StateClasses(d) == {IsOpen})
    && (d.anim == ChatController.Closing ==> StateClasses(d) == {IsClosing})
    && (ChatOpenClass in d.bodyClasses <==> d.anim != ChatController.Idle)
  }

  lemma StepKeepsCycleInvariant(d: Dom, e: Event)
    requires CycleInvariant(d) && Expected(d, e)
    ensures CycleInvariant(Step(d, e))
  {
    var d' := Step(d, e);
    assert StateClasses(d') == d'.panelClasses * {IsOpening, IsOpen, IsClosing};
  }

  /** Along the normal open/close cycle the panel holds at most one of
      `is-opening`/`is-open`/`is-closing`, and `is-chat-open` stays on the
      body from the open click until the close animation ends. */
  lemma {:induction false} RunKeepsCycleInvariant(d: Dom, events: seq<Event>)
    requires CycleInvariant(d) && AllExpected(d, events)
    ensures CycleInvariant(Run(d, events))
    ensures |StateClasses(Run(d, events))| <= 1
    decreases |events|
  {
    if |events| > 0 {
      StepKeepsCycleInvariant(d, events[0]);
      RunKeepsCycleInvariant(Step(d, events[0]), events[1..]);
    } else {
      var s := StateClasses(d);
      assert s == {} || s == {IsOpening} || s == {IsOpen} || s == {IsClosing};
    }
  }

  /** Off the normal cycle the guarantee is lost: an `open-pill*` end while
      closing leaves both `is-closing` and `is-open` on the panel. */
  lemma UnexpectedOpenEndDoublesClasses(d: Dom)
    requires d.anim == ChatController.Closing && IsClosing in d.panelClasses
    ensures {IsClosing, IsOpen} <= StateClasses(AnimationEnd(d, "open-pill"))
  {
    StartsWithConcat(ChatController.OpenPillPrefix, "");
    assert ChatController.OpenPillPrefix + "" == "open-pill";
  }

  /** The two implementations differ while closing: after open, the open
      animation's end and close, the React controller has already unlocked
      the body, while this script keeps `is-chat-open` until the close
      animation ends. */
  lemma LockDiffersFromReactWhileClosing(page: Dom)
    requires page.anim == ChatController.Idle
    ensures var events := [TriggerClick, PanelAnimationEnd("open-pill"), CloseClick];
            var d := Run(page, events);
            var c := ChatController.Run(ChatController.Mount(),
                       [ChatController.OpenChat, ChatController.PanelAnimationEnd(Some("open-pill")),
                        ChatController.CloseChat]);
            && d.anim == ChatController.Closing && c.anim == ChatController.Closing
            && ChatOpenClass in d.bodyClasses && !c.bodyChatOpen
  {
    StartsWithConcat(ChatController.OpenPillPrefix, "");
    assert ChatController.OpenPillPrefix + "" == "open-pill";
    var d1 := Step(page, TriggerClick);
    var d2 := Step(d1, PanelAnimationEnd("open-pill"));
    assert d2.anim == ChatController.Open && ChatOpenClass in d2.bodyClasses;
    var c1 := ChatController.Step(ChatController.Mount(), ChatController.OpenChat);
    var c2 := ChatController.Step(c1, ChatController.PanelAnimationEnd(Some("open-pill")));
    assert c2.anim == ChatController.Open;
  }

  /** The two implementations also differ on focus: an `open-pill*` end
      that arrives while the panel is already open focuses the input again
      in this script, while the React container requests no focus because
      its state does not change. */
  lemma RepeatedOpenEndFocusesOnlyHere(d: Dom, c: ChatController.Controller, name: string)
    requires d.anim == ChatController.Open && c.anim == ChatController.Open
    requires StartsWith(name, ChatController.OpenPillPrefix)
    ensures Step(d, PanelAnimationEnd(name)).inputFocusCalls == d.inputFocusCalls + 1
    ensures !ChatController.FocusRequested(c.anim, ChatController.Step(c, ChatController.PanelAnimationEnd(Some(name))).anim)
  {
  }
}
