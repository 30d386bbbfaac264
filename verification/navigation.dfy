/** Page navigation, as written twice with the same logic: in the
    `NavigationProvider` context and in the `src/app/App.tsx` component.
    The state is the current page, the selected post slug, a pending scroll
    target, the loaded post slugs and the loading flag. Scrolling is an
    effect returned next to the new state; `registered` is the set of
    section names with an element in the section-ref registry. */
module Navigation {
  import opened Wrappers
  import SectionTracking

  datatype Page = Portfolio | Blog | BlogPost

  /** The values of `SECTIONS`, in declaration order. */
  const Sections: seq<string> := ["hero", "about", "experience", "projects", "testimonials"]

  /** `[...Object.values(SECTIONS), "contact"]`. */
  predicate IsSection(destination: string) {
    destination in Sections || destination == "contact"
  }

  datatype NavState = NavState(
    page: Page,
    postSlug: Option<string>,
    target: Option<string>,     // `navigationTarget`
    posts: seq<string>,         // the `slug` of each loaded post, in order
    loading: bool,
    activeSection: string)

  datatype Effect =
    | NoEffect
    | ScrollIntoView(section: string)          // immediate smooth scroll to a section
    | ScrollToTop                              // `window.scrollTo({ top: 0 })`
    | DeferredScrollIntoView(section: string)  // the 100 ms timeout, then a section scroll

  datatype Outcome = Outcome(state: NavState, effect: Effect)

  /** The provider's initial state: the portfolio page, nothing selected or
      pending, no posts yet and loading. */
  function Initial(): (s: NavState)
    ensures s.page == Portfolio && s.postSlug.None? && s.target.None?
    ensures s.posts == [] && s.loading && s.activeSection == ""
  {
    NavState(Portfolio, None, None, [], true, "")
  }

  /** `handleNavigate(destination)`. Navigation never touches the posts,
      the loading flag or the active section; it selects only a loaded
      post; it sets a pending target only together with the switch to the
      portfolio; an immediate scroll goes to a registered section and
      changes no state; and it never defers a scroll itself. */
  function Navigate(s: NavState, destination: string, registered: set<string>): (r: Outcome)
    ensures r.state.posts == s.posts && r.state.loading == s.loading && r.state.activeSection == s.activeSection
    ensures r.state.postSlug != s.postSlug ==> r.state.postSlug.None? || r.state.postSlug.value in s.posts
    ensures r.state.page == BlogPost && s.page != BlogPost ==>
              r.state.postSlug.Some? && r.state.postSlug.value in s.posts
    ensures r.state.target != s.target ==> r.state.target == Some(destination) && r.state.page == Portfolio
    ensures r.effect.ScrollIntoView? ==> r.state == s && r.effect.section in registered
    ensures !r.effect.DeferredScrollIntoView?
  {
    if IsSection(destination) then
      if s.page != Portfolio then Outcome(s.(page := Portfolio, target := Some(destination)), NoEffect)
      else Outcome(s, if destination in registered then ScrollIntoView(destination) else NoEffect)
    else if destination == "blog" then
      if s.page != Blog then Outcome(s.(page := Blog, postSlug := None), ScrollToTop)
      else Outcome(s, NoEffect)
    else if destination == "portfolio" then
      if s.page != Portfolio then Outcome(s.(page := Portfolio, postSlug := None), ScrollToTop)
      else Outcome(s, NoEffect)
    else if destination in s.posts then
      Outcome(s.(page := BlogPost, postSlug := Some(destination)), ScrollToTop)
    else Outcome(s, NoEffect)
  }

  /** A section destination from another page switches to the portfolio and
      defers the scroll to a pending target, keeping the post slug; on the
      portfolio it changes no state and scrolls only to a registered
      section. */
  lemma SectionDestination(s: NavState, d: string, registered: set<string>)
    requires IsSection(d)
    ensures s.page != Portfolio ==>
              Navigate(s, d, registered) == Outcome(s.(page := Portfolio, target := Some(d)), NoEffect)
    ensures s.page == Portfolio ==>
              && Navigate(s, d, registered).state == s
              && (Navigate(s, d, registered).effect == ScrollIntoView(d) <==> d in registered)
              && (Navigate(s, d, registered).effect == NoEffect <==> d !in registered)
  {
  }

  /** `"blog"` and `"portfolio"` switch page, clear the slug and scroll to
      the top unless already on that page, where nothing happens. */
  lemma PageDestination(s: NavState, d: string, registered: set<string>)
    requires d == "blog" || d == "portfolio"
    ensures var p := if d == "blog" then Blog else Portfolio;
            && (s.page != p ==> Navigate(s, d, registered) == Outcome(s.(page := p, postSlug := None), ScrollToTop))
            && (s.page == p ==> Navigate(s, d, registered) == Outcome(s, NoEffect))
  {
    assert !IsSection("blog") && !IsSection("portfolio");
  }

  /** Every other destination is a post slug: it opens that post iff a
      loaded post has it, and an unknown slug changes nothing. */
  lemma SlugDestination(s: NavState, d: string, registered: set<string>)
    requires !IsSection(d) && d != "blog" && d != "portfolio"
    ensures d in s.posts ==>
              Navigate(s, d, registered) == Outcome(s.(page := BlogPost, postSlug := Some(d)), ScrollToTop)
    ensures d !in s.posts ==> Navigate(s, d, registered) == Outcome(s, NoEffect)
  {
  }

  /** Section names, `"blog"` and `"portfolio"` never open a post, even
      when a loaded post carries that slug. */
  lemma ReservedNamesNeverOpenPosts(s: NavState, d: string, registered: set<string>)
    requires IsSection(d) || d == "blog" || d == "portfolio"
    ensures Navigate(s, d, registered).state.page != BlogPost || s.page == BlogPost
    ensures Navigate(s, d, registered).state.postSlug == s.postSlug
            || Navigate(s, d, registered).state.postSlug.None?
  {
  }

  /** Navigating twice to the same place leaves the state where navigating
      once did. */
  lemma NavigateIdempotent(s: NavState, d: string, registered: set<string>)
    ensures var once := Navigate(s, d, registered).state;
            Navigate(once, d, registered).state == once
  {
  }

  /** The follow-up effect: on the portfolio with a (truthy) pending target,
      the target is cleared whether or not its section is registered, and a
      deferred scroll is scheduled only for a registered one. */
  function ConsumeTarget(s: NavState, registered: set<string>): (r: Outcome)
    ensures s.page == Portfolio && s.target.Some? && s.target.value != "" ==>
              && r.state == s.(target := None)
              && (r.effect == DeferredScrollIntoView(s.target.value) <==> s.target.value in registered)
              && (r.effect == NoEffect <==> s.target.value !in registered)
    ensures !(s.page == Portfolio && s.target.Some? && s.target.value != "") ==> r == Outcome(s, NoEffect)
  {
    if s.page == Portfolio && s.target.Some? && s.target.value != "" then
      var t := s.target.value;
      Outcome(s.(target := None), if t in registered then DeferredScrollIntoView(t) else NoEffect)
    else Outcome(s, NoEffect)
  }

  /** No target is left pending once effects have run: a target is only
      ever set together with the switch to the portfolio. */
  predicate Settled(s: NavState) {
    s.target.None?
  }

  /** One navigation and the re-render after it: the follow-up effect runs
      when the page or the pending target changed. The effect of the
      navigation itself comes first, that of the follow-up second. */
  function Dispatch(s: NavState, d: string, registered: set<string>): (r: (Outcome, Effect))
    ensures Settled(s) ==> Settled(r.0.state)
    ensures r.0.effect == Navigate(s, d, registered).effect
    ensures r.0.state.page == Navigate(s, d, registered).state.page
    ensures r.1 != NoEffect ==> r.1.DeferredScrollIntoView? && r.1.section in registered
  {
    var o := Navigate(s, d, registered);
    if o.state.page != s.page || o.state.target != s.target then
      var f := ConsumeTarget(o.state, registered);
      (Outcome(f.state, o.effect), f.effect)
    else (o, NoEffect)
  }

  /** The pending target is consumed in the render that sets it: settled
      states stay settled, and a section reached from another page is
      scrolled to exactly when it is registered. */
  lemma DispatchSettles(s: NavState, d: string, registered: set<string>)
    requires Settled(s)
    ensures Settled(Dispatch(s, d, registered).0.state)
    ensures IsSection(d) && s.page != Portfolio ==>
              && Dispatch(s, d, registered).0.state == s.(page := Portfolio)
              && (Dispatch(s, d, registered).1 == DeferredScrollIntoView(d) <==> d in registered)
  {
    assert IsSection(d) ==> d != "" by {
      assert d in Sections ==> d == Sections[0] || d == Sections[1] || d == Sections[2]
                               || d == Sections[3] || d == Sections[4];
    }
  }

  /** The post list fetch has finished: loading ends on success and on
      failure, and a failure leaves the post list as it was. */
  function FetchDone(s: NavState, result: Option<seq<string>>): (r: NavState)
    ensures !r.loading
    ensures result.Some? ==> r.posts == result.value
    ensures result.None? ==> r.posts == s.posts
    ensures r.page == s.page && r.postSlug == s.postSlug && r.target == s.target
  {
    match result
    case Some(posts) => s.(posts := posts, loading := false)
    case None => s.(loading := false)
  }

  lemma FailedFetchLeavesNoPosts()
    ensures FetchDone(Initial(), None).posts == [] && !FetchDone(Initial(), None).loading
  {
  }

  /** The first index holding `slug`, as `find` scans. */
  function FindPost(posts: seq<string>, slug: string): (r: Option<nat>)
    ensures r.Some? ==> r.value < |posts| && posts[r.value] == slug && slug !in posts[..r.value]
    ensures r.None? ==> slug !in posts
  {
    if |posts| == 0 then None
    else if posts[0] == slug then Some(0)
    else match FindPost(posts[1..], slug)
      case None => None
      case Some(i) => assert posts[..i + 1] == [posts[0]] + posts[1..][..i]; Some(i + 1)
  }

  datatype View = PortfolioView | BlogListView | PostView(index: nat)

  /** `renderPage`: a `blogPost` page whose slug is missing or names no
      loaded post falls back to the blog list. */
  function RenderPage(s: NavState): (v: View)
    ensures s.page == Portfolio <==> v == PortfolioView
    ensures v.PostView? <==> s.page == BlogPost && s.postSlug.Some? && s.postSlug.value in s.posts
    ensures v.PostView? ==> v.index < |s.posts| && s.posts[v.index] == s.postSlug.value
                            && s.postSlug.value !in s.posts[..v.index]
  {
    match s.page
    case Portfolio => PortfolioView
    case Blog => BlogListView
    case BlogPost =>
      match s.postSlug
      case None => BlogListView
      case Some(slug) =>
        match FindPost(s.posts, slug)
        case Some(i) => PostView(i)
        case None => BlogListView
  }

  /** Opening a loaded post renders that post. */
  lemma OpenedPostRenders(s: NavState, d: string, registered: set<string>)
    requires !IsSection(d) && d != "blog" && d != "portfolio" && d in s.posts
    ensures RenderPage(Navigate(s, d, registered).state).PostView?
  {
  }

  /** The provider's own observer callback: the active section becomes the
      id of the last intersecting entry of the batch, and nothing else in
      the state changes. */
  function ObserveBatch(s: NavState, entries: seq<SectionTracking.Entry>): (r: NavState)
    ensures r == s.(activeSection := r.activeSection)
    ensures r.activeSection == SectionTracking.LastIntersecting(entries).GetOr(s.activeSection)
  {
    SectionTracking.ApplyBatchIsLastIntersecting(s.activeSection, entries);
    s.(activeSection := SectionTracking.ApplyBatch(s.activeSection, entries))
  }

  /** The value a consumer obtains from the context. */
  datatype Context = Context(state: NavState)

  const NoProviderMessage := "useNavigation must be used within a NavigationProvider"

  /** `useNavigation`: the provider's value, or the error thrown outside a
      provider. */
  function UseNavigation(provided: Option<Context>): (r: Result<Context, string>)
    ensures provided.None? <==> r == Err(NoProviderMessage)
    ensures provided.Some? ==> r == Ok(provided.value)
  {
    match provided
    case None => Err(NoProviderMessage)
    case Some(c) => Ok(c)
  }
}
