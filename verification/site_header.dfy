/** The site header: which navigation links are shown and which is
    active, what a click on one does, how a `/#section` location scrolls,
    and when the header switches to its solid style. Router locations are
    plain `(pathname, hash)` pairs. */
module SiteHeader {
  import opened Wrappers
  import opened Strings

  datatype NavLink = SectionLink(id: string, text: string) | PageLink(to: string, text: string)

  const PortfolioNavLinks: seq<NavLink> :=
    [SectionLink("about", "About"), SectionLink("experience", "Experience"), SectionLink("projects", "Work")]

  const BlogLink: NavLink := PageLink("/blog", "Blog")

  /** `isActive` of `UniversalNavLink`. */
  function IsActive(link: NavLink, pathname: string, activeSection: string): (r: bool)
    ensures link.SectionLink? ==> (r <==> pathname == "/" && activeSection == link.id)
    ensures link.PageLink? && link.to == "/blog" ==> (r <==> StartsWith(pathname, "/blog"))
    ensures link.PageLink? && link.to != "/blog" ==> (r <==> link.to != "" && pathname == link.to)
  {
    match link
    case SectionLink(id, _) => activeSection == id && pathname == "/"
    case PageLink(to, _) =>
      if to == "/blog" then StartsWith(pathname, "/blog")
      else if to != "" then pathname == to
      else false
  }

  /** The Blog link counts as active on any path that merely begins with
      `/blog`. */
  lemma BlogLinkActiveOnPrefix(rest: string, activeSection: string)
    ensures IsActive(BlogLink, "/blog" + rest, activeSection)
  {
    StartsWithConcat("/blog", rest);
  }

  /** `navLinks` followed by the Blog link. */
  function NavLinks(pathname: string): (r: seq<NavLink>)
    ensures pathname == "/" ==> r == PortfolioNavLinks + [BlogLink]
    ensures pathname != "/" ==> r == [PageLink("/", "Portfolio"), BlogLink]
    ensures |r| >= 2 && r[|r| - 1] == BlogLink
  {
    (if pathname == "/" then PortfolioNavLinks else [PageLink("/", "Portfolio")]) + [BlogLink]
  }

  /** Section links are offered exactly on the portfolio path. */
  lemma SectionLinksOnlyOnPortfolio(pathname: string, i: nat)
    requires i < |NavLinks(pathname)|
    ensures NavLinks(pathname)[i].SectionLink? <==> pathname == "/" && i < 3
  {
  }

  datatype HeaderState = HeaderState(isScrolled: bool, isMenuOpen: bool)

  datatype ClickEffect = NoClickEffect | ScrollToSection(id: string) | NavigateTo(url: string)

  /** `handleNavClick(sectionId)`: the menu always closes; a section click
      scrolls to a registered section on `/` and otherwise navigates to
      `/#id`. A page link passes no id, so the handler does nothing more. */
  function HandleNavClick(h: HeaderState, pathname: string, sectionId: Option<string>, registered: set<string>)
    : (r: (HeaderState, ClickEffect))
    ensures !r.0.isMenuOpen && r.0.isScrolled == h.isScrolled
    ensures (sectionId.None? || sectionId.value == "") ==> r.1 == NoClickEffect
    ensures sectionId.Some? && sectionId.value != "" && pathname != "/" ==>
              r.1 == NavigateTo("/#" + sectionId.value)
    ensures sectionId.Some? && sectionId.value != "" && pathname == "/" ==>
              (r.1 == ScrollToSection(sectionId.value) <==> sectionId.value in registered)
              && (r.1 == NoClickEffect <==> sectionId.value !in registered)
  {
    var closed := h.(isMenuOpen := false);
    match sectionId
    case None => (closed, NoClickEffect)
    case Some(id) =>
      if id == "" then (closed, NoClickEffect)
      else if pathname == "/" then (closed, if id in registered then ScrollToSection(id) else NoClickEffect)
      else (closed, NavigateTo("/#" + id))
  }

  /** The click a rendered link makes: a section link passes its id. */
  function LinkClick(link: NavLink): Option<string> {
    if link.SectionLink? then Some(link.id) else None
  }

  /** On the portfolio, clicking one of the rendered section links scrolls
      to its section exactly when that section is registered, and never
      leaves the page. */
  lemma SectionLinkClickScrolls(h: HeaderState, i: nat, registered: set<string>)
    requires i < 3
    ensures var link := NavLinks("/")[i];
            var r := HandleNavClick(h, "/", LinkClick(link), registered);
            && link.SectionLink?
            && (r.1 == ScrollToSection(link.id) <==> link.id in registered)
            && !r.1.NavigateTo?
  {
    var link := NavLinks("/")[i];
    assert link == PortfolioNavLinks[i];
    assert link.id != "";
  }

  /** A page link's click only closes the menu. */
  lemma PageLinkClickOnlyCloses(h: HeaderState, pathname: string, link: NavLink, registered: set<string>)
    requires link.PageLink?
    ensures HandleNavClick(h, pathname, LinkClick(link), registered) == (h.(isMenuOpen := false), NoClickEffect)
  {
  }

  /** A router location, split as `parsePath` splits a path: the hash is
      everything from the first `#`. */
  function ParseLocation(url: string): (loc: (string, string))
    ensures loc.0 + loc.1 == url
    ensures loc.1 == "" || loc.1[0] == '#'
    ensures '#' !in loc.0
  {
    match IndexOfChar(url, '#')
    case None => (url, "")
    case Some(i) => assert url[..i] + url[i..] == url; (url[..i], url[i..])
  }

  /** The location effect: on `/` with a hash, the section id is the hash
      without its first character. */
  function HashSection(pathname: string, hash: string): (r: Option<string>)
    ensures r.Some? <==> pathname == "/" && hash != ""
    ensures r.Some? ==> [hash[0]] + r.value == hash
  {
    if pathname == "/" && hash != "" then
      assert [hash[0]] + hash[1..] == hash;
      Some(hash[1..])
    else None
  }

  /** A section click off the portfolio reaches the same section through
      the hash, whatever characters the id holds. */
  lemma NavigateToHashRoundTrip(h: HeaderState, pathname: string, id: string, registered: set<string>)
    requires pathname != "/" && id != ""
    ensures var url := HandleNavClick(h, pathname, Some(id), registered).1.url;
            var loc := ParseLocation(url);
            HashSection(loc.0, loc.1) == Some(id)
  {
    var url := "/#" + id;
    assert url[1] == '#' && url[0] != '#';
    assert url[..1] == "/";
    var i := IndexOfChar(url, '#').value;
    assert i <= 1;
    assert i == 1;
    assert url[1..][1..] == id;
  }

  /** `handleScroll`. */
  function OnScroll(h: HeaderState, scrollY: int): (r: HeaderState)
    ensures r.isScrolled <==> scrollY > 50
    ensures r.isMenuOpen == h.isMenuOpen
  {
    h.(isScrolled := scrollY > 50)
  }

  /** The menu button. */
  function ToggleMenu(h: HeaderState): (r: HeaderState)
    ensures r.isMenuOpen == !h.isMenuOpen && r.isScrolled == h.isScrolled
  {
    h.(isMenuOpen := !h.isMenuOpen)
  }

  lemma ToggleMenuInvolution(h: HeaderState)
    ensures ToggleMenu(ToggleMenu(h)) == h
  {
  }

  predicate SolidStyle(h: HeaderState) {
    h.isScrolled || h.isMenuOpen
  }

  /** After a scroll to `scrollY`, the header is solid iff the page is
      more than 50 pixels down or the menu is open. */
  lemma SolidAfterScroll(h: HeaderState, scrollY: int)
    ensures SolidStyle(OnScroll(h, scrollY)) <==> scrollY > 50 || h.isMenuOpen
  {
  }
}
