/** `ImageWithFallback`: an image that turns into a placeholder when its
    source is missing at mount or fails to load. The error flag is state
    initialised once, so later prop changes never clear it. */
module ImageFallback {
  import opened Wrappers

  /** The props that matter: the source (`None` when not passed), the
      alternative text, the placeholder text (`None` when not passed) and
      whether `<source>` children were given. */
  datatype Props = Props(src: Option<string>, alt: string, fallbackText: Option<string>, hasChildren: bool)

  /** What the component renders. */
  datatype Rendered = Placeholder(text: string) | Picture(src: string, alt: string) | Img(src: string, alt: string)

  /** JavaScript truthiness of the source. */
  predicate HasSource(src: Option<string>) {
    src.Some? && src.value != ""
  }

  /** The placeholder text: `Image` only when none was passed; an empty
      one is kept. */
  function FallbackText(p: Props): (r: string)
    ensures p.fallbackText.None? ==> r == "Image"
    ensures p.fallbackText.Some? ==> r == p.fallbackText.value
  {
    p.fallbackText.GetOr("Image")
  }

  /** The initial error flag: set exactly when there is no source. */
  function MountError(p: Props): (hasError: bool)
    ensures hasError <==> !HasSource(p.src)
  {
    !HasSource(p.src)
  }

  function Render(hasError: bool, p: Props): (r: Rendered)
    ensures r.Placeholder? <==> hasError
    ensures r.Placeholder? ==> r.text == FallbackText(p)
    ensures r.Picture? <==> !hasError && p.hasChildren
    ensures !r.Placeholder? ==> r.src == p.src.GetOr("") && r.alt == p.alt
  {
    if hasError then Placeholder(FallbackText(p))
    else if p.hasChildren then Picture(p.src.GetOr(""), p.alt)
    else Img(p.src.GetOr(""), p.alt)
  }

  /** A missing source never reaches the browser as an `<img>`. */
  lemma MissingSourceShowsPlaceholder(p: Props)
    requires !HasSource(p.src)
    ensures Render(MountError(p), p) == Placeholder(FallbackText(p))
  {
  }

  /** Events after mounting: the `<img>` reports a load error, or the
      parent re-renders with new props. */
  datatype Event = LoadError | NewProps(props: Props)

  /** The error flag and the current props after one event. */
  function Step(hasError: bool, p: Props, e: Event): (r: (bool, Props))
    ensures e.LoadError? ==> r == (true, p)
    ensures e.NewProps? ==> r == (hasError, e.props)
  {
    match e
    case LoadError => (true, p)
    case NewProps(q) => (hasError, q)
  }

  function Run(hasError: bool, p: Props, events: seq<Event>): (bool, Props)
    decreases |events|
  {
    if |events| == 0 then (hasError, p)
    else
      var (h, q) := Step(hasError, p, events[0]);
      Run(h, q, events[1..])
  }

  /** Once set, the error flag stays set: whatever the later props, the
      placeholder is shown with their text. */
  lemma {:induction false} ErrorLatches(p: Props, events: seq<Event>)
    ensures Run(true, p, events).0
    ensures var (h, q) := Run(true, p, events); Render(h, q) == Placeholder(FallbackText(q))
    decreases |events|
  {
    if |events| > 0 {
      var (h, q) := Step(true, p, events[0]);
      ErrorLatches(q, events[1..]);
    }
  }

  /** Without a load error the image shows the latest source. */
  lemma {:induction false} NoErrorFollowsProps(p: Props, events: seq<Event>)
    requires HasSource(p.src)
    requires forall i :: 0 <= i < |events| ==> events[i].NewProps?
    ensures var (h, q) := Run(MountError(p), p, events);
            !h && q == (if |events| == 0 then p else events[|events| - 1].props)
    decreases |events|
  {
    if |events| > 0 {
      var q := events[0].props;
      assert Step(false, p, events[0]) == (false, q);
      RunWithoutErrors(q, events[1..]);
    }
  }

  lemma {:induction false} RunWithoutErrors(p: Props, events: seq<Event>)
    requires forall i :: 0 <= i < |events| ==> events[i].NewProps?
    ensures Run(false, p, events) == (false, if |events| == 0 then p else events[|events| - 1].props)
    decreases |events|
  {
    if |events| > 0 {
      assert Step(false, p, events[0]) == (false, events[0].props);
      RunWithoutErrors(events[0].props, events[1..]);
    }
  }

  /** A source supplied after a mount without one is never shown. */
  lemma LateSourceIgnored(p: Props, q: Props)
    requires !HasSource(p.src) && HasSource(q.src)
    ensures var (h, r) := Run(MountError(p), p, [NewProps(q)]); Render(h, r).Placeholder?
  {
    ErrorLatches(p, [NewProps(q)]);
  }
}
