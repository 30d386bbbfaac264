/** Active-section tracking. Two mechanisms are modelled: the section-ref
    registry with an intersection observer (`useIntersectionObserver`, and
    the same callback inside the navigation provider), and the scroll spy
    (`useScrollSpy`), which picks the last section whose top is at or above
    the scroll position. Elements are opaque identities, offsets and the
    scroll position are integers supplied by the page, and animation frames
    are explicit events. */
module SectionTracking {
  import opened Wrappers

  type Element = nat

  // ------------------------------------------------------ the registry

  type Registry = map<string, Element>

  /** `registerRef(name, el)`: a non-null element is stored under `name`,
      replacing any previous one; `null` is ignored and never deletes. */
  function RegisterRef(reg: Registry, name: string, el: Option<Element>): (r: Registry)
    ensures el.Some? ==> name in r && r[name] == el.value
    ensures el.None? ==> r == reg
    ensures r.Keys == reg.Keys + (if el.Some? then {name} else {})
    ensures forall other :: other != name && other in reg ==> r[other] == reg[other]
  {
    match el
    case Some(e) => reg[name := e]
    case None => reg
  }

  // ---------------------------------------------- the intersection fold

  datatype Entry = Entry(targetId: string, isIntersecting: bool)

  /** The observer callback: `forEach` entry, an intersecting one sets the
      active section to its target's id. */
  function ApplyBatch(active: string, entries: seq<Entry>): (r: string)
    ensures r == active || exists i :: 0 <= i < |entries| && entries[i].isIntersecting && entries[i].targetId == r
    decreases |entries|
  {
    if |entries| == 0 then active
    else
      var r := ApplyBatch(if entries[0].isIntersecting then entries[0].targetId else active, entries[1..]);
      assert forall i :: 0 <= i < |entries| - 1 ==> entries[1..][i] == entries[i + 1];
      r
  }

  /** Reference: the id of the last intersecting entry of the batch. */
  function LastIntersecting(entries: seq<Entry>): (r: Option<string>)
    ensures r.None? <==> forall i :: 0 <= i < |entries| ==> !entries[i].isIntersecting
    ensures r.Some? ==> exists i :: 0 <= i < |entries| && entries[i].isIntersecting && entries[i].targetId == r.value
    decreases |entries|
  {
    if |entries| == 0 then None
    else
      var last := entries[|entries| - 1];
      if last.isIntersecting then Some(last.targetId)
      else
        var r := LastIntersecting(entries[..|entries| - 1]);
        assert forall i :: 0 <= i < |entries| - 1 ==> entries[..|entries| - 1][i] == entries[i];
        r
  }

  lemma {:induction false} ApplyBatchSnoc(active: string, init: seq<Entry>, e: Entry)
    ensures ApplyBatch(active, init + [e]) ==
              if e.isIntersecting then e.targetId else ApplyBatch(active, init)
    decreases |init|
  {
    if |init| == 0 {
      assert init + [e] == [e];
      assert ApplyBatch(if e.isIntersecting then e.targetId else active, []) ==
               (if e.isIntersecting then e.targetId else active);
    } else {
      assert (init + [e])[0] == init[0];
      assert (init + [e])[1..] == init[1..] + [e];
      ApplyBatchSnoc(if init[0].isIntersecting then init[0].targetId else active, init[1..], e);
    }
  }

  /** After a batch the active section is the id of the last intersecting
      entry; a batch with no intersecting entry leaves it unchanged. */
  lemma {:induction false} ApplyBatchIsLastIntersecting(active: string, entries: seq<Entry>)
    ensures ApplyBatch(active, entries) == LastIntersecting(entries).GetOr(active)
    decreases |entries|
  {
    if |entries| > 0 {
      var init := entries[..|entries| - 1];
      assert init + [entries[|entries| - 1]] == entries;
      ApplyBatchSnoc(active, init, entries[|entries| - 1]);
      ApplyBatchIsLastIntersecting(active, init);
    }
  }

  /** Non-intersecting entries never matter: dropping them changes nothing. */
  lemma {:induction false} NonIntersectingIgnored(active: string, a: seq<Entry>, id: string, b: seq<Entry>)
    ensures ApplyBatch(active, a + [Entry(id, false)] + b) == ApplyBatch(active, a + b)
    decreases |a|
  {
    if |a| == 0 {
      assert a + [Entry(id, false)] + b == [Entry(id, false)] + b;
      assert ([Entry(id, false)] + b)[1..] == b;
      assert a + b == b;
    } else {
      var next := if a[0].isIntersecting then a[0].targetId else active;
      assert (a + [Entry(id, false)] + b)[0] == a[0];
      assert (a + [Entry(id, false)] + b)[1..] == a[1..] + [Entry(id, false)] + b;
      assert (a + b)[0] == a[0];
      assert (a + b)[1..] == a[1..] + b;
      NonIntersectingIgnored(next, a[1..], id, b);
    }
  }

  // ------------------------------------------- observer setup and cleanup

  /** The hook's registry, the elements the observer watches, and the
      snapshot the effect took when it ran. */
  datatype Hook = Hook(registry: Registry, observed: set<Element>, snapshot: set<Element>)

  /** The mount effect: every element registered so far is observed, and
      that set is kept for the cleanup. */
  function Mount(h: Hook): (r: Hook)
    ensures r.observed == h.observed + h.registry.Values && r.snapshot == h.registry.Values
    ensures r.registry == h.registry
  {
    h.(observed := h.observed + h.registry.Values, snapshot := h.registry.Values)
  }

  /** A ref callback during rendering: the registry grows, and what is
      observed is untouched until an effect runs. */
  function Register(h: Hook, name: string, el: Option<Element>): (r: Hook)
    ensures r.observed == h.observed && r.snapshot == h.snapshot
    ensures h.registry.Keys <= r.registry.Keys
  {
    h.(registry := RegisterRef(h.registry, name, el))
  }

  function RegisterAll(h: Hook, regs: seq<(string, Option<Element>)>): (r: Hook)
    ensures r.observed == h.observed && r.snapshot == h.snapshot
    decreases |regs|
  {
    if |regs| == 0 then h else RegisterAll(Register(h, regs[0].0, regs[0].1), regs[1..])
  }

  /** The cleanup: exactly the snapshot is unobserved. */
  function Unmount(h: Hook): (r: Hook)
    ensures r.observed == h.observed - h.snapshot
  {
    h.(observed := h.observed - h.snapshot)
  }

  /** Elements registered after the effect ran are never observed, and the
      cleanup releases everything that the effect observed. */
  lemma ObserveSnapshotOnly(reg: Registry, regs: seq<(string, Option<Element>)>)
    ensures var h := RegisterAll(Mount(Hook(reg, {}, {})), regs);
            h.observed == reg.Values && Unmount(h).observed == {}
  {
  }

  // ------------------------------------------------------- scroll spy

  /** A section qualifies when its element exists and its top is at or
      above the scroll position. */
  predicate Qualifies(section: string, offsetTop: map<string, int>, position: int) {
    section in offsetTop && offsetTop[section] <= position
  }

  /** The index of the last qualifying section. */
  function LastQualifying(sections: seq<string>, offsetTop: map<string, int>, position: int): (r: Option<nat>)
    ensures r.Some? ==> r.value < |sections| && Qualifies(sections[r.value], offsetTop, position)
    ensures r.Some? ==> forall j :: r.value < j < |sections| ==> !Qualifies(sections[j], offsetTop, position)
    ensures r.None? ==> forall j :: 0 <= j < |sections| ==> !Qualifies(sections[j], offsetTop, position)
    decreases |sections|
  {
    if |sections| == 0 then None
    else if Qualifies(sections[|sections| - 1], offsetTop, position) then Some(|sections| - 1)
    else
      var init := sections[..|sections| - 1];
      assert forall j :: 0 <= j < |init| ==> init[j] == sections[j];
      LastQualifying(init, offsetTop, position)
  }

  /** What the spy selects: the last qualifying section, else the first
      listed one (`undefined` for an empty list). */
  function SpyChoice(sections: seq<string>, offsetTop: map<string, int>, position: int): Option<string> {
    match LastQualifying(sections, offsetTop, position)
    case Some(i) => Some(sections[i])
    case None => if |sections| > 0 then Some(sections[0]) else None
  }

  /** The frame callback's loop over the sections. */
  method ScrollSpy(sections: seq<string>, offsetTop: map<string, int>, position: int)
    returns (current: Option<string>)
    ensures current == SpyChoice(sections, offsetTop, position)
  {
    current := if |sections| > 0 then Some(sections[0]) else None;
    var k := 0;
    while k < |sections|
      invariant 0 <= k <= |sections|
      invariant current == match LastQualifying(sections[..k], offsetTop, position)
                           case Some(i) => Some(sections[i])
                           case None => if |sections| > 0 then Some(sections[0]) else None
    {
      assert sections[..k + 1][..k] == sections[..k];
      if Qualifies(sections[k], offsetTop, position) {
        current := Some(sections[k]);
      }
      k := k + 1;
    }
    assert sections[..k] == sections;
  }

  /** For a non-empty list the spy always names a listed section. */
  lemma SpyChoiceListed(sections: seq<string>, offsetTop: map<string, int>, position: int)
    requires |sections| > 0
    ensures SpyChoice(sections, offsetTop, position).Some?
    ensures SpyChoice(sections, offsetTop, position).value in sections
  {
  }

  /** Sections without an element never win. */
  lemma SpySkipsMissing(sections: seq<string>, offsetTop: map<string, int>, position: int)
    ensures var r := LastQualifying(sections, offsetTop, position);
            r.Some? ==> sections[r.value] in offsetTop
  {
  }

  /** Scrolling further down never selects an earlier-listed section: the
      qualifying set only grows. */
  lemma SpyMonotone(sections: seq<string>, offsetTop: map<string, int>, p1: int, p2: int)
    requires p1 <= p2
    ensures LastQualifying(sections, offsetTop, p1).Some? ==>
              && LastQualifying(sections, offsetTop, p2).Some?
              && LastQualifying(sections, offsetTop, p2).value >= LastQualifying(sections, offsetTop, p1).value
  {
    var r1 := LastQualifying(sections, offsetTop, p1);
    if r1.Some? {
      assert Qualifies(sections[r1.value], offsetTop, p2);
    }
  }

  // -------------------------------------------------- frame scheduling

  /** The `ticking` flag and the number of animation frames requested but
      not yet run. */
  datatype Ticker = Ticker(ticking: bool, pendingFrames: nat)

  datatype TickEvent = ScrollEvent | FrameRuns

  /** A scroll requests a frame only when none is pending; a frame, when
      one is pending, runs the update and clears the flag. */
  function Tick(t: Ticker, e: TickEvent): (r: Ticker)
    ensures TickerOk(t) ==> TickerOk(r)
    ensures e == ScrollEvent ==> r.ticking && r.pendingFrames >= t.pendingFrames
    ensures e == FrameRuns && TickerOk(t) ==> !r.ticking && r.pendingFrames == 0
  {
    match e
    case ScrollEvent => if !t.ticking then Ticker(true, t.pendingFrames + 1) else t
    case FrameRuns => if t.pendingFrames > 0 then Ticker(false, t.pendingFrames - 1) else t
  }

  function TickAll(t: Ticker, events: seq<TickEvent>): Ticker
    decreases |events|
  {
    if |events| == 0 then t else TickAll(Tick(t, events[0]), events[1..])
  }

  /** At most one frame is pending, exactly while `ticking` is set. */
  predicate TickerOk(t: Ticker) {
    t.pendingFrames <= 1 && (t.ticking <==> t.pendingFrames == 1)
  }

  lemma {:induction false} AtMostOneFramePending(t: Ticker, events: seq<TickEvent>)
    requires TickerOk(t)
    ensures TickerOk(TickAll(t, events))
    decreases |events|
  {
    if |events| > 0 {
      AtMostOneFramePending(Tick(t, events[0]), events[1..]);
    }
  }
}
