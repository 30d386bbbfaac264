/** The vanilla-script navigation (`initNavigation`): the hamburger toggle
    of the mobile menu with its `aria-expanded` mirror, the mobile buttons
    that close the menu, and the intersection callback that marks the
    desktop button of the section in view as `active`. */
module NavScript {
  import opened Wrappers
  import SectionTracking

  /** What the page provides: the section ids (`""` for a section without
      an id), the `data-section` of each desktop button (`None` when the
      attribute is missing), the number of mobile buttons, and whether the
      hamburger button and the mobile menu exist. */
  datatype Page = Page(
    sectionIds: seq<string>,
    navButtons: seq<Option<string>>,
    mobileButtons: nat,
    hasHamburger: bool,
    hasMobileMenu: bool)

  /** The mutable part: the menu's open class, the hamburger's
      `aria-expanded` attribute and each desktop button's `active` class. */
  datatype NavDom = NavDom(menuOpen: bool, ariaExpanded: string, active: seq<bool>)

  predicate Complete(p: Page) {
    |p.sectionIds| > 0 && |p.navButtons| > 0 && p.mobileButtons > 0 && p.hasHamburger && p.hasMobileMenu
  }

  /** With anything missing the script warns and installs nothing; the
      page's initial state is then left as it is. */
  function Init(p: Page, initial: NavDom): (r: Option<NavDom>)
    ensures r.Some? <==> Complete(p)
    ensures r.Some? ==> r.value == initial
  {
    if Complete(p) then Some(initial) else None
  }

  /** `setAttribute('aria-expanded', flag)` stringifies the flag. */
  function AriaValue(b: bool): string {
    if b then "true" else "false"
  }

  /** The hamburger click: the open class flips and the attribute reports
      the new state. */
  function ToggleMenu(d: NavDom): (r: NavDom)
    ensures r.menuOpen == !d.menuOpen
    ensures r.ariaExpanded == AriaValue(r.menuOpen)
    ensures r.active == d.active
  {
    d.(menuOpen := !d.menuOpen, ariaExpanded := AriaValue(!d.menuOpen))
  }

  lemma ToggleTwiceRestoresMenu(d: NavDom)
    requires d.ariaExpanded == AriaValue(d.menuOpen)
    ensures ToggleMenu(ToggleMenu(d)) == d
  {
  }

  /** A mobile button click: the menu is closed whatever its state. */
  function MobileClick(d: NavDom): (r: NavDom)
    ensures !r.menuOpen && r.ariaExpanded == "false"
    ensures r.active == d.active
  {
    d.(menuOpen := false, ariaExpanded := "false")
  }

  /** The mobile menu's attribute mirrors its class after any sequence of
      hamburger and mobile clicks. */
  lemma {:induction false} AriaMirrorsMenu(d: NavDom, toggles: seq<bool>)
    requires d.ariaExpanded == AriaValue(d.menuOpen)
    ensures var r := MenuRun(d, toggles); r.ariaExpanded == AriaValue(r.menuOpen) && r.active == d.active
    decreases |toggles|
  {
    if |toggles| > 0 {
      AriaMirrorsMenu(if toggles[0] then ToggleMenu(d) else MobileClick(d), toggles[1..]);
    }
  }

  /** Menu clicks in order: `true` is a hamburger click, `false` a mobile
      button click. */
  function MenuRun(d: NavDom, toggles: seq<bool>): (r: NavDom)
    ensures r.active == d.active
    ensures |toggles| > 0 && !toggles[|toggles| - 1] ==> !r.menuOpen && r.ariaExpanded == "false"
    decreases |toggles|
  {
    if |toggles| == 0 then d
    else MenuRun(if toggles[0] then ToggleMenu(d) else MobileClick(d), toggles[1..])
  }

  /** The `active` flags after one intersecting section: exactly the
      buttons whose `data-section` equals the section's id. */
  function Highlight(buttons: seq<Option<string>>, id: string): (r: seq<bool>)
    ensures |r| == |buttons|
    ensures forall i :: 0 <= i < |r| ==> (r[i] <==> buttons[i] == Some(id))
  {
    if |buttons| == 0 then [] else [buttons[0] == Some(id)] + Highlight(buttons[1..], id)
  }

  /** The observer callback over one batch. */
  function ApplyBatch(active: seq<bool>, buttons: seq<Option<string>>, entries: seq<SectionTracking.Entry>)
    : (r: seq<bool>)
    ensures |active| == |buttons| ==> |r| == |buttons|
    ensures r == active
            || exists i :: 0 <= i < |entries| && entries[i].isIntersecting && r == Highlight(buttons, entries[i].targetId)
    decreases |entries|
  {
    if |entries| == 0 then active
    else
      var r := ApplyBatch(if entries[0].isIntersecting then Highlight(buttons, entries[0].targetId) else active,
                          buttons, entries[1..]);
      assert forall i :: 0 <= i < |entries| - 1 ==> entries[1..][i] == entries[i + 1];
      r
  }

  lemma {:induction false} ApplyBatchSnoc(active: seq<bool>, buttons: seq<Option<string>>,
                                          init: seq<SectionTracking.Entry>, e: SectionTracking.Entry)
    ensures ApplyBatch(active, buttons, init + [e]) ==
              if e.isIntersecting then Highlight(buttons, e.targetId) else ApplyBatch(active, buttons, init)
    decreases |init|
  {
    if |init| == 0 {
      assert init + [e] == [e];
      assert ApplyBatch(if e.isIntersecting then Highlight(buttons, e.targetId) else active, buttons, [])
          == (if e.isIntersecting then Highlight(buttons, e.targetId) else active);
    } else {
      assert (init + [e])[0] == init[0];
      assert (init + [e])[1..] == init[1..] + [e];
      ApplyBatchSnoc(if init[0].isIntersecting then Highlight(buttons, init[0].targetId) else active,
                     buttons, init[1..], e);
    }
  }

  /** After a batch, the desktop buttons marked `active` are exactly those
      naming the last intersecting section; a batch with no intersecting
      entry changes no button. */
  lemma {:induction false} BatchHighlightsLastIntersecting(active: seq<bool>, buttons: seq<Option<string>>,
                                                           entries: seq<SectionTracking.Entry>)
    ensures match SectionTracking.LastIntersecting(entries)
            case None => ApplyBatch(active, buttons, entries) == active
            case Some(id) => ApplyBatch(active, buttons, entries) == Highlight(buttons, id)
    decreases |entries|
  {
    if |entries| > 0 {
      var init := entries[..|entries| - 1];
      assert init + [entries[|entries| - 1]] == entries;
      ApplyBatchSnoc(active, buttons, init, entries[|entries| - 1]);
      BatchHighlightsLastIntersecting(active, buttons, init);
    }
  }

  /** Once some section has intersected, at most the buttons of one id are
      active. */
  lemma HighlightNamesOneSection(buttons: seq<Option<string>>, id: string, i: nat, j: nat)
    requires i < |buttons| && j < |buttons|
    requires Highlight(buttons, id)[i] && Highlight(buttons, id)[j]
    ensures buttons[i] == buttons[j]
  {
  }

  /** The sections handed to the observer: exactly those with an id. */
  function ObservedSections(ids: seq<string>): (r: seq<string>)
    ensures forall x :: x in r <==> x in ids && x != ""
    ensures |r| <= |ids|
  {
    if |ids| == 0 then []
    else (if ids[0] != "" then [ids[0]] else []) + ObservedSections(ids[1..])
  }
}
