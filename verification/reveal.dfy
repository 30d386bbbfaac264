/** Reveal-on-scroll latches. `useScrollAnimation` keeps a duplicate-free
    list of elements and marks intersecting ones `is-visible`; `useInView`
    is a one-shot boolean; the vanilla `scroll-animations` script reveals
    content once, mirrors each timeline item's intersection flag, and shows
    the footer at the bottom of the page. Observers are modelled by the
    entry batches they deliver; elements are opaque identities. */
module Reveal {
  import opened Wrappers

  type Element = nat

  datatype Entry = Entry(target: Element, isIntersecting: bool)

  // ------------------------------------------------ useScrollAnimation

  predicate Distinct(list: seq<Element>) {
    forall i, j :: 0 <= i < j < |list| ==> list[i] != list[j]
  }

  /** `register(el)`: a non-null element not yet listed is appended; `null`
      and an element already listed change nothing. */
  function Register(list: seq<Element>, el: Option<Element>): (r: seq<Element>)
    ensures el.Some? && el.value !in list ==> r == list + [el.value]
    ensures el.None? || el.value in list ==> r == list
  {
    if el.Some? && el.value !in list then list + [el.value] else list
  }

  /** Every element handed to `register` ends up listed, and nothing else
      is added. */
  function RegisterAll(list: seq<Element>, els: seq<Option<Element>>): (r: seq<Element>)
    ensures list <= r
    ensures forall i :: 0 <= i < |els| && els[i].Some? ==> els[i].value in r
    ensures forall e :: e in r ==> e in list || Some(e) in els
    decreases |els|
  {
    if |els| == 0 then list
    else
      var next := Register(list, els[0]);
      var r := RegisterAll(next, els[1..]);
      assert forall i :: 1 <= i < |els| ==> els[1..][i - 1] == els[i];
      assert forall e :: e in next ==> e in list || e == els[0].value;
      assert els[0].Some? ==> els[0].value in next;
      assert els[0].Some? ==> els[0].value in r by {
        if els[0].Some? { PrefixKeeps(next, r, els[0].value); }
      }
      assert forall x :: x in els[1..] ==> x in els;
      r
  }

  /** What a list holds, a list extending it holds too. */
  lemma PrefixKeeps(a: seq<Element>, b: seq<Element>, x: Element)
    requires a <= b && x in a
    ensures x in b
  {
    var j :| 0 <= j < |a| && a[j] == x;
    assert b[j] == x;
  }

  /** The list never holds an element twice, and registering keeps every
      element already listed, in place. */
  lemma {:induction false} RegisterAllDistinct(list: seq<Element>, els: seq<Option<Element>>)
    requires Distinct(list)
    ensures Distinct(RegisterAll(list, els))
    ensures list <= RegisterAll(list, els)
    decreases |els|
  {
    if |els| > 0 {
      var next := Register(list, els[0]);
      assert Distinct(next) by {
        if els[0].Some? && els[0].value !in list {
          forall i, j | 0 <= i < j < |next| ensures next[i] != next[j] {
            if j == |list| {
              assert next[i] == list[i];
            }
          }
        }
      }
      RegisterAllDistinct(next, els[1..]);
    }
  }

  /** The observer callback: intersecting targets gain `is-visible`; the
      hook never removes it. */
  function MarkVisible(visible: set<Element>, entries: seq<Entry>): (r: set<Element>)
    ensures visible <= r
    ensures forall e :: e in r ==> e in visible || exists i :: 0 <= i < |entries| && entries[i].target == e && entries[i].isIntersecting
    ensures forall i :: 0 <= i < |entries| && entries[i].isIntersecting ==> entries[i].target in r
    decreases |entries|
  {
    if |entries| == 0 then visible
    else
      var r := MarkVisible(if entries[0].isIntersecting then visible + {entries[0].target} else visible, entries[1..]);
      assert forall i :: 1 <= i < |entries| ==> entries[1..][i - 1] == entries[i];
      r
  }

  /** The hook's list and the elements its observer watches. */
  datatype ScrollAnimation = ScrollAnimation(list: seq<Element>, observed: set<Element>)

  function ListElements(list: seq<Element>): (r: set<Element>)
    ensures forall e :: e in r <==> e in list
  {
    set e | e in list
  }

  /** The mount effect observes the elements listed at that moment; the
      cleanup holds the same array, so it unobserves every element listed by
      then, including those registered after the mount. */
  function MountAnimation(h: ScrollAnimation): (r: ScrollAnimation)
    ensures r.list == h.list && h.observed <= r.observed
    ensures forall e :: e in h.list ==> e in r.observed
    ensures forall e :: e in r.observed ==> e in h.observed || e in h.list
  {
    h.(observed := h.observed + ListElements(h.list))
  }

  function UnmountAnimation(h: ScrollAnimation): (r: ScrollAnimation)
    ensures r.list == h.list && r.observed <= h.observed
    ensures forall e :: e in h.list ==> e !in r.observed
    ensures forall e :: e in h.observed && e !in h.list ==> e in r.observed
  {
    h.(observed := h.observed - ListElements(h.list))
  }

  lemma MountObservesListedOnly(list: seq<Element>, later: seq<Option<Element>>)
    requires Distinct(list)
    ensures var h := MountAnimation(ScrollAnimation(list, {}));
            var h' := h.(list := RegisterAll(h.list, later));
            && h'.observed == ListElements(list)
            && UnmountAnimation(h').observed == {}
  {
    RegisterAllDistinct(list, later);
    var all := RegisterAll(list, later);
    forall e | e in list ensures e in all {
      var i :| 0 <= i < |list| && list[i] == e;
      assert all[i] == e;
    }
  }

  // ----------------------------------------------------------- useInView

  /** The hook's flag, the node its ref received, and whether the observer
      watches that node. */
  datatype InView = InView(isIntersecting: bool, node: Option<Element>, observing: bool)

  function InitialInView(): (r: InView)
    ensures !r.isIntersecting && r.node.None? && !r.observing
  {
    InView(false, None, false)
  }

  /** The ref callback, followed by the effect: with no node nothing is
      observed, otherwise the new node is. */
  function SetNode(v: InView, n: Option<Element>): (r: InView)
    ensures r.observing <==> n.Some?
    ensures r.isIntersecting == v.isIntersecting && r.node == n
  {
    InView(v.isIntersecting, n, n.Some?)
  }

  /** The observer callback destructures the first entry of the batch and
      looks at nothing else; an intersecting first entry sets the flag and
      stops observing. Batches are never empty. */
  function InViewBatch(v: InView, batch: seq<bool>): (r: InView)
    requires |batch| > 0
    ensures batch[0] ==> r.isIntersecting && !r.observing
    ensures !batch[0] ==> r == v
    ensures v.isIntersecting ==> r.isIntersecting
    ensures r.node == v.node
  {
    if batch[0] then v.(isIntersecting := true, observing := false) else v
  }

  datatype InViewEvent = RefSet(n: Option<Element>) | Batch(flags: seq<bool>)

  function InViewRun(v: InView, events: seq<InViewEvent>): InView
    decreases |events|
  {
    if |events| == 0 then v
    else
      var next := match events[0]
        case RefSet(n) => SetNode(v, n)
        case Batch(flags) => if |flags| > 0 then InViewBatch(v, flags) else v;
      InViewRun(next, events[1..])
  }

  /** Once in view, always in view: nothing sets the flag back. */
  lemma {:induction false} InViewLatches(v: InView, events: seq<InViewEvent>)
    requires v.isIntersecting
    ensures InViewRun(v, events).isIntersecting
    decreases |events|
  {
    if |events| > 0 {
      var next := match events[0]
        case RefSet(n) => SetNode(v, n)
        case Batch(flags) => if |flags| > 0 then InViewBatch(v, flags) else v;
      InViewLatches(next, events[1..]);
    }
  }

  /** Only the first entry counts: an intersecting entry later in the
      batch is not seen. */
  lemma OnlyFirstEntryCounts(v: InView, rest: seq<bool>)
    ensures InViewBatch(v, [false] + rest) == v
  {
  }

  /** A caller option's `rootMargin`: not given, given as `undefined`, or a
      value. */
  datatype Field = Absent | Undefined | Value(text: string)

  /** `{ rootMargin: "200px", ...options }`: the default holds unless the
      caller's options carry the key; `None` is `undefined`, which the
      observer reads as its own default. */
  function EffectiveRootMargin(options: Option<Field>): (r: Option<string>)
    ensures options.None? || options == Some(Absent) ==> r == Some("200px")
    ensures options == Some(Undefined) ==> r.None?
    ensures options.Some? && options.value.Value? ==> r == Some(options.value.text)
  {
    match options
    case None => Some("200px")
    case Some(Absent) => Some("200px")
    case Some(Undefined) => None
    case Some(Value(t)) => Some(t)
  }

  // ------------------------------------------------ scroll-animations.js

  /** The content observer's state: revealed elements and those still
      watched. */
  datatype Content = Content(visible: set<Element>, observed: set<Element>)

  /** The content callback: an intersecting entry of a watched element
      reveals it and stops watching it; other entries are ignored. */
  function ContentBatch(c: Content, entries: seq<Entry>): (r: Content)
    ensures c.visible <= r.visible && r.observed <= c.observed
    ensures forall i :: 0 <= i < |entries| && entries[i].isIntersecting && entries[i].target in c.observed
              ==> entries[i].target in r.visible
    decreases |entries|
  {
    if |entries| == 0 then c
    else
      var e := entries[0];
      var next := if e.isIntersecting && e.target in c.observed
                  then Content(c.visible + {e.target}, c.observed - {e.target}) else c;
      ContentBatch(next, entries[1..])
  }

  /** A revealed element is never watched again, so it is revealed at most
      once; revealing is never undone; elements are only revealed out of
      the watched set. */
  predicate ContentOk(c: Content) {
    c.visible * c.observed == {}
  }

  lemma {:induction false} ContentRevealsOnce(c: Content, entries: seq<Entry>)
    requires ContentOk(c)
    ensures var r := ContentBatch(c, entries);
            && ContentOk(r)
            && c.visible <= r.visible
            && r.observed <= c.observed
            && r.visible - c.visible == c.observed - r.observed
    decreases |entries|
  {
    if |entries| > 0 {
      var e := entries[0];
      var next := if e.isIntersecting && e.target in c.observed
                  then Content(c.visible + {e.target}, c.observed - {e.target}) else c;
      ContentRevealsOnce(next, entries[1..]);
      var r := ContentBatch(next, entries[1..]);
      assert r == ContentBatch(c, entries);
      if e.isIntersecting && e.target in c.observed {
        assert e.target !in c.visible;
        assert r.visible - c.visible == (r.visible - next.visible) + {e.target};
        assert c.observed - r.observed == (next.observed - r.observed) + {e.target};
      }
    }
  }

  /** A timeline entry: the `.timeline-item` ancestor of the observed icon,
      if any. */
  datatype IconEntry = IconEntry(item: Option<Element>, isIntersecting: bool)

  /** The timeline callback: the ancestor item's active class follows the
      entry's flag, on and off; entries without an ancestor are ignored. */
  function TimelineBatch(active: set<Element>, entries: seq<IconEntry>): (r: set<Element>)
    ensures forall x :: (x in r) != (x in active) ==> Some(x) in ItemsOf(entries)
    decreases |entries|
  {
    if |entries| == 0 then active
    else
      var e := entries[0];
      var next := match e.item
        case None => active
        case Some(it) => if e.isIntersecting then active + {it} else active - {it};
      assert ItemsOf(entries) == [e.item] + ItemsOf(entries[1..]);
      TimelineBatch(next, entries[1..])
  }

  /** The items the entries of a batch belong to, in order. */
  function ItemsOf(entries: seq<IconEntry>): (r: seq<Option<Element>>)
    ensures |r| == |entries|
    ensures forall i :: 0 <= i < |entries| ==> r[i] == entries[i].item
  {
    seq(|entries|, i requires 0 <= i < |entries| => entries[i].item)
  }

  /** Reference: the flag of the last entry for `item` in the batch. */
  function LastFlag(entries: seq<IconEntry>, item: Element): Option<bool>
    decreases |entries|
  {
    if |entries| == 0 then None
    else if entries[|entries| - 1].item == Some(item) then Some(entries[|entries| - 1].isIntersecting)
    else LastFlag(entries[..|entries| - 1], item)
  }

  lemma {:induction false} TimelineBatchSnoc(active: set<Element>, init: seq<IconEntry>, e: IconEntry)
    ensures TimelineBatch(active, init + [e]) ==
              match e.item
              case None => TimelineBatch(active, init)
              case Some(it) =>
                if e.isIntersecting then TimelineBatch(active, init) + {it} else TimelineBatch(active, init) - {it}
    decreases |init|
  {
    if |init| == 0 {
      assert init + [e] == [e];
    } else {
      assert (init + [e])[0] == init[0];
      assert (init + [e])[1..] == init[1..] + [e];
      var next := match init[0].item
        case None => active
        case Some(it) => if init[0].isIntersecting then active + {it} else active - {it};
      TimelineBatchSnoc(next, init[1..], e);
    }
  }

  /** Each item ends active iff the last entry for it intersected; an item
      with no entry in the batch keeps its class. */
  lemma {:induction false} TimelineMirrorsLastFlag(active: set<Element>, entries: seq<IconEntry>, item: Element)
    ensures match LastFlag(entries, item)
            case None => (item in TimelineBatch(active, entries) <==> item in active)
            case Some(flag) => (item in TimelineBatch(active, entries) <==> flag)
    decreases |entries|
  {
    if |entries| > 0 {
      var init := entries[..|entries| - 1];
      assert init + [entries[|entries| - 1]] == entries;
      TimelineBatchSnoc(active, init, entries[|entries| - 1]);
      TimelineMirrorsLastFlag(active, init, item);
    }
  }

  const FooterVisibilityOffset := 5

  /** The footer is shown iff the viewport's bottom edge is within the
      offset of the document's end. */
  function FooterVisible(innerHeight: int, scrollY: int, scrollHeight: int): (r: bool)
    ensures r <==> scrollY >= scrollHeight - FooterVisibilityOffset - innerHeight
  {
    innerHeight + scrollY >= scrollHeight - FooterVisibilityOffset
  }

  /** Scrolling further down never hides the footer. */
  lemma FooterMonotone(innerHeight: int, y1: int, y2: int, scrollHeight: int)
    requires y1 <= y2 && FooterVisible(innerHeight, y1, scrollHeight)
    ensures FooterVisible(innerHeight, y2, scrollHeight)
  {
  }
}
