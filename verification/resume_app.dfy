/** The résumé page (the root `App.tsx`): the dark-mode theme and its
    persisted string, the frame update that picks the active section and
    the scrolled flag, and the project drawer whose opening and closing are
    split into an immediate and a deferred step. Storage is a parameter
    (the saved string or its absence) and timers are explicit events. */
module ResumeApp {
  import opened Wrappers
  import SectionTracking

  // ---------------------------------------------------------- theme

  /** JSON's white space: space, tab, line feed and carriage return. */
  predicate JsonSpace(c: char) {
    c == ' ' || c == '\t' || c == '\n' || c == '\r'
  }

  predicate AllJsonSpace(s: string) {
    forall i :: 0 <= i < |s| ==> JsonSpace(s[i])
  }

  /** The text with its leading JSON white space removed. */
  function DropLeadingSpace(s: string): (r: string)
    ensures |r| <= |s| && r == s[|s| - |r|..]
    ensures AllJsonSpace(s[..|s| - |r|])
    ensures r == "" || !JsonSpace(r[0])
    decreases |s|
  {
    if |s| > 0 && JsonSpace(s[0]) then
      var r := DropLeadingSpace(s[1..]);
      assert s[..|s| - |r|] == [s[0]] + s[1..][..|s| - 1 - |r|];
      r
    else s
  }

  /** The text with its trailing JSON white space removed. */
  function DropTrailingSpace(s: string): (r: string)
    ensures |r| <= |s| && r == s[..|r|]
    ensures AllJsonSpace(s[|r|..])
    ensures r == "" || !JsonSpace(r[|r| - 1])
    decreases |s|
  {
    if |s| > 0 && JsonSpace(s[|s| - 1]) then
      var r := DropTrailingSpace(s[..|s| - 1]);
      assert s[|r|..] == s[..|s| - 1][|r|..] + [s[|s| - 1]];
      r
    else s
  }

  /** What `JSON.parse` reads a literal from: the text between the white
      space it skips at either end. */
  function JsonLiteral(s: string): string {
    DropTrailingSpace(DropLeadingSpace(s))
  }

  /** The initial `isDark`: no saved value, or an empty one, means dark;
      otherwise the text goes through `JSON.parse`, which yields a boolean
      exactly when, around JSON white space, it is the literal `true` or
      `false`. Every other saved text makes `JSON.parse` throw or yield a
      non-boolean, which is not modelled and is reported as an error. */
  function InitialTheme(saved: Option<string>): (r: Result<bool, string>)
    ensures (saved.None? || saved == Some("")) ==> r == Ok(true)
    ensures saved.Some? && saved.value != "" ==>
              && (r == Ok(true) <==> JsonLiteral(saved.value) == "true")
              && (r == Ok(false) <==> JsonLiteral(saved.value) == "false")
    ensures r.Err? <==> saved.Some? && saved.value != ""
                        && JsonLiteral(saved.value) != "true" && JsonLiteral(saved.value) != "false"
  {
    match saved
    case None => Ok(true)
    case Some(text) =>
      if text == "" then Ok(true)
      else
        var literal := JsonLiteral(text);
        if literal == "true" then Ok(true)
        else if literal == "false" then Ok(false)
        else Err("saved theme is not a boolean")
  }

  /** The stored strings are their own literals. */
  lemma LiteralOfBoolean(isDark: bool)
    ensures JsonLiteral(if isDark then "true" else "false") == if isDark then "true" else "false"
    ensures InitialTheme(Some(if isDark then "true" else "false")) == Ok(isDark)
  {
    var w := if isDark then "true" else "false";
    LiteralOfPadded("", w, "");
    assert "" + w + "" == w;
  }

  /** Around a word that neither starts nor ends with white space, `JSON.parse`
      skips exactly the white space on either side. */
  lemma LiteralOfPadded(pre: string, w: string, post: string)
    requires AllJsonSpace(pre) && AllJsonSpace(post)
    requires |w| > 0 && !JsonSpace(w[0]) && !JsonSpace(w[|w| - 1])
    ensures JsonLiteral(pre + w + post) == w
  {
    assert pre + w + post == pre + (w + post);
    DropLeadingOfPadded(pre, w + post);
    DropTrailingOfPadded(w, post);
  }

  /** Leading white space is skipped up to the first other character. */
  lemma {:induction false} DropLeadingOfPadded(pre: string, w: string)
    requires AllJsonSpace(pre) && |w| > 0 && !JsonSpace(w[0])
    ensures DropLeadingSpace(pre + w) == w
    decreases |pre|
  {
    if |pre| > 0 {
      assert (pre + w)[1..] == pre[1..] + w;
      DropLeadingOfPadded(pre[1..], w);
    } else {
      assert pre + w == w;
    }
  }

  /** Trailing white space is dropped back to the last other character. */
  lemma {:induction false} DropTrailingOfPadded(w: string, post: string)
    requires AllJsonSpace(post) && |w| > 0 && !JsonSpace(w[|w| - 1])
    ensures DropTrailingSpace(w + post) == w
    decreases |post|
  {
    if |post| > 0 {
      var n := |post| - 1;
      assert (w + post)[..|w + post| - 1] == w + post[..n];
      DropTrailingOfPadded(w, post[..n]);
    } else {
      assert w + post == w;
    }
  }

  /** A saved boolean surrounded by JSON white space, as `" true"` or
      `"false\n"`, is read as that boolean. */
  lemma PaddedBooleanParses(pre: string, post: string, isDark: bool)
    requires AllJsonSpace(pre) && AllJsonSpace(post)
    ensures InitialTheme(Some(pre + PersistTheme(isDark).0 + post)) == Ok(isDark)
  {
    var w := PersistTheme(isDark).0;
    assert w == if isDark then "true" else "false";
    LiteralOfPadded(pre, w, post);
  }

  /** The theme effect: the string written to storage, and whether the root
      element carries `dark`. */
  function PersistTheme(isDark: bool): (r: (string, bool))
    ensures r.1 == isDark
    ensures r.0 == "true" || r.0 == "false"
  {
    (if isDark then "true" else "false", isDark)
  }

  /** Reading back what was written restores the same mode. */
  lemma ThemeRoundTrip(isDark: bool)
    ensures InitialTheme(Some(PersistTheme(isDark).0)) == Ok(isDark)
  {
    assert PersistTheme(isDark).0 == if isDark then "true" else "false";
    LiteralOfBoolean(isDark);
  }

  /** `toggleTheme`: an involution that always changes the stored string. */
  function ToggleTheme(isDark: bool): (r: bool)
    ensures r != isDark
  {
    !isDark
  }

  lemma ToggleThemeInvolution(isDark: bool)
    ensures ToggleTheme(ToggleTheme(isDark)) == isDark
    ensures PersistTheme(ToggleTheme(isDark)).0 != PersistTheme(isDark).0
  {
  }

  // ------------------------------------------------------ frame update

  const SpySections: seq<string> := ["experience", "projects", "expertise"]

  datatype ScrollView = ScrollView(activeSection: string, isScrolled: bool)

  /** The animation-frame update: the last of the three sections whose top
      is at or above `position` (the scroll offset plus 30% of the viewport
      height), defaulting to `experience`, and the scrolled flag. */
  function FrameUpdate(offsetTop: map<string, int>, position: int, scrollY: int): (r: ScrollView)
    ensures r.activeSection in SpySections
    ensures r.isScrolled <==> scrollY > 50
    ensures (forall i :: 0 <= i < |SpySections| ==> !SectionTracking.Qualifies(SpySections[i], offsetTop, position))
            ==> r.activeSection == "experience"
    ensures SectionTracking.Qualifies("expertise", offsetTop, position) ==> r.activeSection == "expertise"
    ensures (SectionTracking.Qualifies("projects", offsetTop, position)
             && !SectionTracking.Qualifies("expertise", offsetTop, position))
            ==> r.activeSection == "projects"
    ensures (SectionTracking.Qualifies("experience", offsetTop, position)
             && !SectionTracking.Qualifies("projects", offsetTop, position)
             && !SectionTracking.Qualifies("expertise", offsetTop, position))
            ==> r.activeSection == "experience"
  {
    SectionTracking.SpyChoiceListed(SpySections, offsetTop, position);
    ScrollView(SectionTracking.SpyChoice(SpySections, offsetTop, position).value, scrollY > 50)
  }

  // ------------------------------------------------------------ drawer

  type Project = nat

  /** The deferred steps scheduled by the handlers. */
  datatype Timer = SetOpen | ClearProject

  datatype Drawer = Drawer(selected: Option<Project>, isOpen: bool, timers: seq<Timer>, overflow: string)

  datatype DrawerEvent = OpenDrawer(project: Project) | CloseDrawer | TimerFires(index: nat)

  /** The scroll-lock effect's value for a given `isDrawerOpen`. */
  function OverflowFor(isOpen: bool): string {
    if isOpen then "hidden" else "unset"
  }

  /** Setting `isDrawerOpen`; the lock effect re-runs only when it changes. */
  function SetIsOpen(d: Drawer, isOpen: bool): (r: Drawer)
    ensures r.isOpen == isOpen && r.selected == d.selected && r.timers == d.timers
    ensures d.isOpen != isOpen ==> r.overflow == OverflowFor(isOpen)
    ensures d.isOpen == isOpen ==> r.overflow == d.overflow
  {
    if d.isOpen == isOpen then d else d.(isOpen := isOpen, overflow := OverflowFor(isOpen))
  }

  /** After mounting: no project, closed, and the lock effect has set
      `unset`. */
  function MountDrawer(): (r: Drawer)
    ensures r.selected.None? && !r.isOpen && r.timers == [] && r.overflow == "unset"
  {
    Drawer(None, false, [], OverflowFor(false))
  }

  /** `openDrawer` sets the project now and opens later; `closeDrawer`
      closes now and drops the project later. A timer that fires leaves
      the queue. */
  function DrawerStep(d: Drawer, e: DrawerEvent): (r: Drawer)
    ensures e.OpenDrawer? ==> r.selected == Some(e.project) && r.isOpen == d.isOpen && r.timers == d.timers + [SetOpen]
    ensures e.CloseDrawer? ==> !r.isOpen && r.selected == d.selected && r.timers == d.timers + [ClearProject]
    ensures e.TimerFires? && e.index < |d.timers| ==> r.timers == d.timers[..e.index] + d.timers[e.index + 1..]
    ensures e.TimerFires? && e.index < |d.timers| && d.timers[e.index] == SetOpen ==>
              r.isOpen && r.selected == d.selected
    ensures e.TimerFires? && e.index < |d.timers| && d.timers[e.index] == ClearProject ==>
              r.selected.None? && r.isOpen == d.isOpen
    ensures e.TimerFires? && e.index >= |d.timers| ==> r == d
    ensures r.isOpen && !d.isOpen ==> e.TimerFires? && d.timers[e.index] == SetOpen
  {
    match e
    case OpenDrawer(p) => d.(selected := Some(p), timers := d.timers + [SetOpen])
    case CloseDrawer => SetIsOpen(d, false).(timers := d.timers + [ClearProject])
    case TimerFires(i) =>
      if i < |d.timers| then
        var rest := d.timers[..i] + d.timers[i + 1..];
        match d.timers[i]
        case SetOpen => SetIsOpen(d, true).(timers := rest)
        case ClearProject => d.(selected := None, timers := rest)
      else d
  }

  function DrawerRun(d: Drawer, events: seq<DrawerEvent>): Drawer
    decreases |events|
  {
    if |events| == 0 then d else DrawerRun(DrawerStep(d, events[0]), events[1..])
  }

  lemma {:induction false} DrawerRunAppend(d: Drawer, events: seq<DrawerEvent>, e: DrawerEvent)
    ensures DrawerRun(d, events + [e]) == DrawerStep(DrawerRun(d, events), e)
    decreases |events|
  {
    if |events| == 0 {
      assert events + [e] == [e];
      assert DrawerRun(DrawerStep(d, e), []) == DrawerStep(d, e);
    } else {
      assert (events + [e])[0] == events[0];
      assert (events + [e])[1..] == events[1..] + [e];
      DrawerRunAppend(DrawerStep(d, events[0]), events[1..], e);
    }
  }

  /** The body's overflow is `hidden` exactly while the drawer is open. */
  predicate LockMatches(d: Drawer) {
    d.overflow == OverflowFor(d.isOpen)
  }

  lemma {:induction false} LockMatchesAlways(d: Drawer, events: seq<DrawerEvent>)
    requires LockMatches(d)
    ensures LockMatches(DrawerRun(d, events))
    decreases |events|
  {
    if |events| > 0 {
      DrawerRunStepKeepsLock(d, events[0]);
      LockMatchesAlways(DrawerStep(d, events[0]), events[1..]);
    }
  }

  lemma DrawerRunStepKeepsLock(d: Drawer, e: DrawerEvent)
    requires LockMatches(d)
    ensures LockMatches(DrawerStep(d, e))
  {
  }

  /** Unmounting runs the cleanup, which always leaves `unset`. */
  function UnmountDrawer(d: Drawer): (r: Drawer)
    ensures r.overflow == "unset"
  {
    d.(overflow := "unset")
  }

  /** Opening shows the project before the drawer opens; closing hides the
      drawer before the project is dropped. */
  lemma DrawerTwoPhase(p: Project)
    ensures var shown := DrawerRun(MountDrawer(), [OpenDrawer(p)]);
            shown.selected == Some(p) && !shown.isOpen
    ensures var shown := DrawerRun(MountDrawer(), [OpenDrawer(p), TimerFires(0)]);
            shown.selected == Some(p) && shown.isOpen && shown.overflow == "hidden"
    ensures var closing := DrawerRun(MountDrawer(), [OpenDrawer(p), TimerFires(0), CloseDrawer]);
            closing.selected == Some(p) && !closing.isOpen && closing.overflow == "unset"
    ensures var closed := DrawerRun(MountDrawer(), [OpenDrawer(p), TimerFires(0), CloseDrawer, TimerFires(0)]);
            closed.selected.None? && !closed.isOpen && closed.timers == []
  {
    var d1 := DrawerStep(MountDrawer(), OpenDrawer(p));
    var d2 := DrawerStep(d1, TimerFires(0));
    var d3 := DrawerStep(d2, CloseDrawer);
    var d4 := DrawerStep(d3, TimerFires(0));
    assert d1.timers == [SetOpen];
    assert d2.timers == [];
    assert d3.timers == [ClearProject];
    DrawerRunAppend(MountDrawer(), [], OpenDrawer(p));
    DrawerRunAppend(MountDrawer(), [OpenDrawer(p)], TimerFires(0));
    DrawerRunAppend(MountDrawer(), [OpenDrawer(p), TimerFires(0)], CloseDrawer);
    DrawerRunAppend(MountDrawer(), [OpenDrawer(p), TimerFires(0), CloseDrawer], TimerFires(0));
    assert [OpenDrawer(p), TimerFires(0), CloseDrawer] + [TimerFires(0)]
        == [OpenDrawer(p), TimerFires(0), CloseDrawer, TimerFires(0)];
  }

  /** A close before the opening timer has fired does not win: the deferred
      open still runs, leaving the drawer open, the body locked and, once the
      clearing timer fires too, no project selected. */
  lemma CloseBeforeOpenTimerReopens(p: Project)
    ensures var d := DrawerRun(MountDrawer(), [OpenDrawer(p), CloseDrawer, TimerFires(0), TimerFires(0)]);
            d.isOpen && d.overflow == "hidden" && d.selected.None?
  {
    var d1 := DrawerStep(MountDrawer(), OpenDrawer(p));
    var d2 := DrawerStep(d1, CloseDrawer);
    assert d2.timers == [SetOpen, ClearProject];
    var d3 := DrawerStep(d2, TimerFires(0));
    assert d3.timers == [ClearProject];
    var d4 := DrawerStep(d3, TimerFires(0));
    assert d4.isOpen && d4.selected.None?;
    DrawerRunAppend(MountDrawer(), [], OpenDrawer(p));
    DrawerRunAppend(MountDrawer(), [OpenDrawer(p)], CloseDrawer);
    DrawerRunAppend(MountDrawer(), [OpenDrawer(p), CloseDrawer], TimerFires(0));
    DrawerRunAppend(MountDrawer(), [OpenDrawer(p), CloseDrawer, TimerFires(0)], TimerFires(0));
    assert [OpenDrawer(p), CloseDrawer] + [TimerFires(0)] == [OpenDrawer(p), CloseDrawer, TimerFires(0)];
    assert [OpenDrawer(p), CloseDrawer, TimerFires(0)] + [TimerFires(0)]
        == [OpenDrawer(p), CloseDrawer, TimerFires(0), TimerFires(0)];
  }
}
