# Portfolio site: the decision logic, modelled in Dafny

This project models the small decision procedures inside a personal
portfolio site: a React single-page application, a résumé page and a set of
vanilla-script modules for a static version, plus one serverless handler.
Each procedure is written as an enumerated state with a pure step function,
or as a string function. Scroll coordinates, the network, timers and
`localStorage` become parameters or events. Nothing else is needed: no
floating point, I/O or concurrency.

The modules follow the site's components:

- `Wrappers` holds `Option` and `Result`, standing for `null`/`undefined` and thrown errors.
- `Strings` holds the JavaScript built-ins the site relies on: `trim` and the
  `\s` class over one whitespace predicate (sections 12.2 White Space and 12.3
  Line Terminators of ECMA-262), `startsWith`, `indexOf`, `replace` with a
  string pattern, `split`, decimal `toString` and `padStart`.
- `FrontMatter` is `parseMarkdown`. It does not parse YAML. It runs the
  regular expression `/---\s*([\s\S]*?)\s*---/` once; the match is modelled
  constructively (`FindMatch`) and also as the regex engine's priority order
  over all candidate matches (`IsMatch`, `Preferred`), and the two are proved
  equal. It then reads `key: value` lines, with the `tags: [..]` special case.
  A line whose key is `__proto__` adds nothing, because assigning a string to
  that key of a plain object leaves the object unchanged.
- `Blog` is `getBlogPosts`: slug derivation, field override, dropping failed
  loads, and a stable newest-first sort.
- `Navigation` is `handleNavigate` and its follow-up effect, written twice in
  the source with the same logic: `NavigationContext.tsx` and `src/app/App.tsx`.
- `SectionTracking` covers the section-ref registry, the intersection batch
  fold and scroll-spy.
- `SiteHeader` covers link activity, link selection, click handling and hash parsing.
- `ResumeApp` is the résumé page's theme, scroll state and drawer.
- `NavScript` is the vanilla navigation menu.
- `Reveal` covers the reveal-on-scroll latches: `useScrollAnimation`,
  `useInView` and `scroll-animations.js`.
- `Carousel` covers both testimonial carousels.
- `Contact` covers the contact form and the `send-email` handler.
- `ProjectCard` covers both project cards.
- `ImageFallback` is the image with a placeholder.
- `ChatController` and `ChatScript` are the chat panel's animation state
  machine, in its React and vanilla versions.

Where the site implements the same behaviour twice, the model proves where
the two versions agree and exhibits an input where they differ. Examples:

- The chat lock is released at `closing` in React but at the end of the close
  animation in the script.
- The carousel index wraps modularly in one version and clamps to the opposite
  end in the other.
- The project cards differ on the demo link `#`.

## Model

| member | source | states |
|---|---|---|
| Strings.TrimStart | src/shared/lib/utils/parseMarkdown.ts:31 | the leading part of `trim`: what it drops is all white space, and what it keeps is a suffix that does not start with white space |
| Strings.TrimEnd | src/shared/lib/utils/parseMarkdown.ts:31 | the trailing part of `trim`: what it drops is all white space, and what it keeps is a prefix that does not end with white space |
| Strings.Trim | src/shared/lib/utils/parseMarkdown.ts:31 | `trim` leaves no white space at either end and never lengthens a string |
| Strings.TrimOfPadded | src/shared/lib/utils/parseMarkdown.ts:31 | reference characterisation: a string with no white space at its ends comes back unchanged whatever white space surrounds it |
| Strings.TrimDecomposes | src/shared/lib/utils/parseMarkdown.ts:31 | the input is exactly the white space `trim` dropped in front, the result, and the white space it dropped behind |
| Strings.TrimIdempotent | src/shared/lib/utils/parseMarkdown.ts:42 | trimming twice is trimming once |
| Strings.IndexOfFrom | src/shared/lib/utils/parseMarkdown.ts:35 | `indexOf` from a position returns the first occurrence at or after it, and none when there is none |
| Strings.IndexOf | src/shared/lib/utils/parseMarkdown.ts:35 | `indexOf` returns an occurrence with none before it, and `-1` (`None`) only when the pattern never occurs |
| Strings.IndexOfChar | src/shared/lib/utils/parseMarkdown.ts:35-36 | the one-character `indexOf`: the first position holding the character, or none when the string lacks it |
| Strings.ReplaceFirst | src/shared/lib/data/blog.ts:43 | `replace` with a string pattern rewrites only the first occurrence and keeps everything around it; without an occurrence the string is unchanged |
| Strings.ReplaceFirstAt | src/shared/lib/data/blog.ts:43 | reference characterisation: in `a + pat + b` with no earlier `pat`, the result is `a + rep + b`, so later occurrences survive |
| Strings.Split | src/shared/lib/utils/parseMarkdown.ts:34 | `split` on one character never returns an empty list and no piece holds the separator |
| Strings.JoinSplit | src/shared/lib/utils/parseMarkdown.ts:34 | joining the pieces of a split with the separator gives the input back, so no character is lost |
| Strings.SplitJoin | src/shared/lib/utils/parseMarkdown.ts:34 | the other round trip: splitting a join of separator-free pieces gives the pieces |
| Strings.NatToString | components/ProjectCard.tsx:14 | the base-ten numeral of `n`: all digits, one digit exactly below ten, and no leading zero |
| Strings.ParseNatToString | components/ProjectCard.tsx:14 | the numeral reads back as the number |
| Strings.ParseLeadingZero | components/ProjectCard.tsx:14 | a padding zero does not change the number a numeral denotes |
| Strings.PadStart | components/ProjectCard.tsx:14 | `padStart` puts fill characters in front up to the width and leaves a string at least that wide unchanged |
| FrontMatter.WsRun | src/shared/lib/utils/parseMarkdown.ts:23 | a greedy `\s*` takes a run of white space and stops only at a non-white-space character or the end |
| FrontMatter.WsRunExact | src/shared/lib/utils/parseMarkdown.ts:23 | any white-space run followed by a non-white-space character is the greedy run |
| FrontMatter.RunAtMostWsRun | src/shared/lib/utils/parseMarkdown.ts:23 | no white-space run is longer than the greedy one |
| FrontMatter.CloseFrom | src/shared/lib/utils/parseMarkdown.ts:23 | the lazy `[\s\S]*?` stops at the first position where white space and a closing `---` follow, and finds none only when there is no such position |
| FrontMatter.FoundIsMatch | src/shared/lib/utils/parseMarkdown.ts:23-24 | whatever `exec` returns is a genuine match of `---\s*([\s\S]*?)\s*---` |
| FrontMatter.FoundWithin | src/shared/lib/utils/parseMarkdown.ts:23-31 | the match `exec` returns lies inside the text, so the slice after it is defined |
| FrontMatter.MatchWithin | src/shared/lib/utils/parseMarkdown.ts:23 | every match of the pattern, found or not, ends within the text |
| FrontMatter.MatchOfRuns | src/shared/lib/utils/parseMarkdown.ts:23 | the first fence, its greedy run, a capture ending where the pattern may close and the run after it form a match |
| FrontMatter.FindMatchOfParts | src/shared/lib/utils/parseMarkdown.ts:23-24 | `exec` starts at the first fence, takes the greedy run after it, the capture up to the first place the pattern can close, and the greedy run after that |
| FrontMatter.NoCloseNearEnd | src/shared/lib/utils/parseMarkdown.ts:23 | fewer than three characters from the end, the pattern cannot close at any later position |
| FrontMatter.ClosingFenceBeyondFirstRun | src/shared/lib/utils/parseMarkdown.ts:23 | the closing fence of any match lies past the first fence's white-space run, and the capture may end there |
| FrontMatter.FirstFenceNotAfter | src/shared/lib/utils/parseMarkdown.ts:23-24 | every match starts at or after the first `---` of the text |
| FrontMatter.MatchFoundWhenPossible | src/shared/lib/utils/parseMarkdown.ts:24-28 | `exec` returns `null` only when no match exists |
| FrontMatter.FoundShape | src/shared/lib/utils/parseMarkdown.ts:23-24 | the match found starts at the first fence, takes the whole white-space runs and the shortest capture that can close |
| FrontMatter.MatchCloses | src/shared/lib/utils/parseMarkdown.ts:23 | in any match the second run is the whole white-space run after the capture |
| FrontMatter.FoundIsPreferred | src/shared/lib/utils/parseMarkdown.ts:23-24 | the match found is preferred, in the engine's backtracking order, to every match of the text |
| FrontMatter.FindMatchIsExec | src/shared/lib/utils/parseMarkdown.ts:23-28 | reference definition of `exec`: no result exactly when nothing matches, otherwise the most preferred of all matches |
| FrontMatter.MatchStartsAtFirstFence | src/shared/lib/utils/parseMarkdown.ts:23-24 | the pattern is not anchored: the match starts at the first `---` wherever it is |
| FrontMatter.TrimAll | src/shared/lib/utils/parseMarkdown.ts:42 | each tag is its piece trimmed, in order |
| FrontMatter.ConvertValue | src/shared/lib/utils/parseMarkdown.ts:41-45 | only `tags` with a value in brackets becomes a list, of the trimmed comma-separated pieces of its inside; every other value is kept as text |
| FrontMatter.ParseLine | src/shared/lib/utils/parseMarkdown.ts:35-36 | a line yields an entry exactly when it holds a colon |
| FrontMatter.ApplyLine | src/shared/lib/utils/parseMarkdown.ts:35-46 | a line with a colon adds or replaces its key and keeps every other entry; a line without one, or one whose key is `__proto__`, leaves the object as it was |
| FrontMatter.FoldLines | src/shared/lib/utils/parseMarkdown.ts:32-47 | folding the lines only ever adds keys, and never adds `__proto__` |
| FrontMatter.FoldLinesSnoc | src/shared/lib/utils/parseMarkdown.ts:34-47 | `forEach` writes the lines in order: one more line is applied to the object the earlier lines built |
| FrontMatter.ParseMarkdown | src/shared/lib/utils/parseMarkdown.ts:22-50 | without a match the front matter is empty and the content is the raw text; the front matter never holds `__proto__` |
| FrontMatter.ParseWith | src/shared/lib/utils/parseMarkdown.ts:26-49 | with no match, an empty front matter and the raw text; with one, a content with no white space at either end and no longer than what follows the match |
| FrontMatter.ContentAfter | src/shared/lib/utils/parseMarkdown.ts:31 | the content after the match is trimmed at both ends and no longer than the rest of the text |
| FrontMatter.NoMatchKeepsRaw | src/shared/lib/utils/parseMarkdown.ts:26-28 | without a match the front matter is empty and the content is the raw text, untrimmed |
| FrontMatter.ContentOfMatch | src/shared/lib/utils/parseMarkdown.ts:31 | the content is the raw text with its first `match[0].length` characters cut, trimmed |
| FrontMatter.ContentAfterLeadingFence | src/shared/lib/utils/parseMarkdown.ts:31 | with the fence at index 0 the content is the trimmed text after the closing fence |
| FrontMatter.ContentSliceIgnoresMatchIndex | src/shared/lib/utils/parseMarkdown.ts:31 | with a character before the fence the slice falls short and keeps part of the closing fence: `x---a---body` gives `-body` |
| FrontMatter.ExampleMatch | src/shared/lib/utils/parseMarkdown.ts:23-24 | the match in `x---a---body` is the fence at 1 with a one-character capture |
| FrontMatter.LineSplitsAtFirstColon | src/shared/lib/utils/parseMarkdown.ts:35-38 | the key is the trimmed text before the first colon and the value is the trimmed rest, later colons included |
| FrontMatter.EmptyTagListHasOneEmptyTag | src/shared/lib/utils/parseMarkdown.ts:41-42 | `tags: []` gives a list holding one empty tag |
| FrontMatter.OnlyTagsBecomeLists | src/shared/lib/utils/parseMarkdown.ts:41 | a bracketed value under any other key stays a string |
| FrontMatter.FoldLinesLastWins | src/shared/lib/utils/parseMarkdown.ts:34-47 | writing the lines in turn leaves under each key other than `__proto__` the entry of the last line defining it, and keeps earlier entries no line defines; `__proto__` lines change nothing, as a plain object ignores a string assigned to that key |
| FrontMatter.FrontMatterLastWins | src/shared/lib/utils/parseMarkdown.ts:30-49 | a key other than `__proto__` is in the front matter exactly when a captured line defines it, a repeated key keeps its last value, and `__proto__` is never a key |
| Blog.Slug | src/shared/lib/data/blog.ts:43 | the slug is the name itself when it has no `.md`, and otherwise the name with exactly the three characters of its first `.md` cut out |
| Blog.SlugDropsFirstMd | src/shared/lib/data/blog.ts:43 | only the first `.md` is removed; a later one stays in the slug |
| Blog.AssemblePost | src/shared/lib/data/blog.ts:42-43 | the post holds the front-matter keys plus `content` and `slug`, and those two override front-matter keys of the same name |
| Blog.LoadPost | src/shared/lib/data/blog.ts:34-47 | a file yields a post exactly when it was fetched and read, and then it is the parsed text assembled with its slug |
| Blog.LoadAll | src/shared/lib/data/blog.ts:32-49 | one result per filename, in the order of the filenames |
| Blog.LoadedSomewhere | src/shared/lib/data/blog.ts:32-49 | a post is among the loaded results exactly when some file was fetched and loads to it |
| Blog.Successes | src/shared/lib/data/blog.ts:53 | the filter never adds entries |
| Blog.SuccessesCount | src/shared/lib/data/blog.ts:53 | the filter keeps every loaded post as often as it was loaded and drops exactly the failures |
| Blog.Insert | src/shared/lib/data/blog.ts:57 | inserting adds the one post and loses none |
| Blog.InsertSorted | src/shared/lib/data/blog.ts:57 | inserting into a newest-first list keeps it newest first |
| Blog.SortByDateDesc | src/shared/lib/data/blog.ts:57 | the sort is a permutation of its input |
| Blog.SortSorted | src/shared/lib/data/blog.ts:57 | the sort puts newer dates first |
| Blog.InsertStable | src/shared/lib/data/blog.ts:57 | inserting behind every post at least as new puts the new post after the others of its date |
| Blog.SortStable | src/shared/lib/data/blog.ts:57 | the sort is stable: posts with equal dates keep their load order |
| Blog.GetBlogPostsSpec | src/shared/lib/data/blog.ts:31-58 | the result holds each loaded post as often as it was loaded, newest first, equal dates in load order, and is no longer than the list of files |
| Blog.GetBlogPosts | src/shared/lib/data/blog.ts:31-58 | at most one post per file, sorted newest first |
| Blog.FailuresDropOnlyThemselves | src/shared/lib/data/blog.ts:44-53 | one failing file does not stop the others: a post is in the result exactly when some file loaded to it |
| Navigation.Initial | src/app/contexts/NavigationContext.tsx:30-38 | the provider starts on the portfolio with nothing selected or pending, no posts, loading, and no active section |
| Navigation.SectionDestination | src/app/contexts/NavigationContext.tsx:63-73 | a section name from another page switches to the portfolio and leaves the scroll pending; on the portfolio it scrolls exactly when the section is registered and changes no state |
| Navigation.PageDestination | src/app/contexts/NavigationContext.tsx:74-85 | `blog` and `portfolio` switch page, clear the selected post and scroll to the top, unless already on that page, where nothing happens |
| Navigation.SlugDestination | src/app/contexts/NavigationContext.tsx:86-93 | any other destination opens the post with that slug when one is loaded, and changes nothing otherwise |
| Navigation.ReservedNamesNeverOpenPosts | src/app/App.tsx:91-117 | section names, `blog` and `portfolio` never open a post, even when a loaded post has that slug |
| Navigation.NavigateIdempotent | src/app/App.tsx:90-127 | navigating twice to the same destination leaves the state where navigating once did |
| Navigation.Navigate | src/app/App.tsx:90-127 | navigation never touches the posts, the loading flag or the active section; a selected slug is only ever cleared or set to a loaded post; a post page is entered only with a loaded slug; a target is left pending only as this destination on the portfolio; an immediate scroll changes no state and goes to a registered section; no delayed scroll is scheduled here |
| Navigation.Dispatch | src/app/App.tsx:129-141 | dispatch leaves no target pending when none was; it keeps the page and the immediate effect of the navigation, and the only extra effect is a delayed scroll to a registered section |
| Navigation.ConsumeTarget | src/app/contexts/NavigationContext.tsx:97-108 | on the portfolio a pending target is always cleared, and a delayed scroll is scheduled exactly when its section is registered; otherwise nothing happens |
| Navigation.DispatchSettles | src/app/App.tsx:129-141 | the pending target is consumed in the render that sets it, so none is left pending, and a section reached from another page is scrolled to exactly when it is registered |
| Navigation.FetchDone | src/app/contexts/NavigationContext.tsx:47-59 | loading ends whether the fetch succeeds or fails; success replaces the posts and failure keeps them |
| Navigation.FailedFetchLeavesNoPosts | src/app/App.tsx:76-88 | a failed first fetch leaves no posts and loading finished |
| Navigation.FindPost | src/app/App.tsx:174 | `find` returns the first post with the slug, and nothing only when no post has it |
| Navigation.RenderPage | src/app/App.tsx:143-188 | the portfolio page renders the portfolio; a post is rendered exactly when the page is `blogPost` and a loaded post has the selected slug, which is the first such post; every other case falls back to the blog list |
| Navigation.OpenedPostRenders | src/app/App.tsx:118-126 | opening a loaded post makes the page render that post |
| Navigation.ObserveBatch | src/app/contexts/NavigationContext.tsx:111-121 | the provider's observer sets the active section to the id of the last intersecting entry of a batch and changes nothing else |
| Navigation.UseNavigation | src/app/contexts/NavigationContext.tsx:159-165 | the hook fails with the provider message exactly when there is no provider, and otherwise returns its value |
| SectionTracking.RegisterRef | src/shared/lib/hooks/useIntersectionObserver.tsx:38-42 | a non-null element is stored under its name, replacing the old one, and every other entry is kept; `null` changes nothing and never deletes |
| SectionTracking.Register | src/shared/lib/hooks/useIntersectionObserver.tsx:38-42 | registering changes neither what is observed nor the effect's snapshot, and never removes a name |
| SectionTracking.LastIntersecting | src/shared/lib/hooks/useIntersectionObserver.tsx:46-52 | reference definition: the id of an intersecting entry of the batch, and none exactly when no entry intersects |
| SectionTracking.ApplyBatch | src/shared/lib/hooks/useIntersectionObserver.tsx:46-52 | after a batch the active section is the old one or the id of an intersecting entry of the batch |
| SectionTracking.ApplyBatchSnoc | src/shared/lib/hooks/useIntersectionObserver.tsx:47-51 | the last entry of a batch overrides the rest exactly when it intersects |
| SectionTracking.ApplyBatchIsLastIntersecting | src/shared/lib/hooks/useIntersectionObserver.tsx:46-52 | after a batch the active section is the id of the last intersecting entry, and a batch with none leaves it unchanged |
| SectionTracking.NonIntersectingIgnored | src/shared/lib/hooks/useIntersectionObserver.tsx:48 | removing a non-intersecting entry from a batch never changes the result |
| SectionTracking.Mount | src/shared/lib/hooks/useIntersectionObserver.tsx:56-64 | the effect observes every element registered so far and remembers exactly that set |
| SectionTracking.RegisterAll | src/shared/lib/hooks/useIntersectionObserver.tsx:38-42 | registering elements never changes what is observed |
| SectionTracking.Unmount | src/shared/lib/hooks/useIntersectionObserver.tsx:66-70 | the cleanup stops observing exactly the remembered set |
| SectionTracking.ObserveSnapshotOnly | src/shared/lib/hooks/useIntersectionObserver.tsx:56-70 | elements registered after the effect ran are never observed, and the cleanup releases everything the effect observed |
| SectionTracking.LastQualifying | hooks/useScrollSpy.ts:22-28 | reference definition: the last listed section whose element exists with its top at or above the position, and none exactly when no section qualifies |
| SectionTracking.ScrollSpy | hooks/useScrollSpy.ts:20-29 | the loop picks the last qualifying section, or the first listed one when none qualifies |
| SectionTracking.SpyChoiceListed | hooks/useScrollSpy.ts:22-28 | for a non-empty list the spy always names a listed section |
| SectionTracking.SpySkipsMissing | hooks/useScrollSpy.ts:24-25 | a section without an element is never chosen for its position |
| SectionTracking.SpyMonotone | hooks/useScrollSpy.ts:25 | scrolling further down never selects an earlier-listed section |
| SectionTracking.AtMostOneFramePending | hooks/useScrollSpy.ts:15-35 | the `ticking` flag keeps at most one animation frame pending, and it is set exactly while one is |
| SectionTracking.Tick | hooks/useScrollSpy.ts:15-35 | each scroll or frame keeps at most one frame pending with `ticking` set exactly while one is; a scroll leaves `ticking` set and drops no pending frame, and a frame clears both |
| SiteHeader.IsActive | src/widgets/SiteHeader.tsx:27-37 | a section link is active exactly on `/` when it names the active section; the Blog link exactly on paths starting with `/blog`; another page link exactly on its own path, and never when its target is empty |
| SiteHeader.BlogLinkActiveOnPrefix | src/widgets/SiteHeader.tsx:28 | the Blog link is active on every path that begins with `/blog`, such as `/blogroll` |
| SiteHeader.NavLinks | src/widgets/SiteHeader.tsx:111-131 | on `/` the three section links and Blog are offered; elsewhere only Portfolio and Blog; Blog always comes last |
| SiteHeader.SectionLinksOnlyOnPortfolio | src/widgets/SiteHeader.tsx:111-114 | a section link is offered exactly on `/`, in the first three places |
| SiteHeader.HandleNavClick | src/widgets/SiteHeader.tsx:97-109 | a click always closes the menu; a non-empty section id scrolls on `/` exactly when the section is registered and elsewhere navigates to `/#id`; without an id nothing else happens |
| SiteHeader.PageLinkClickOnlyCloses | src/widgets/SiteHeader.tsx:55-59 | a page link's click only closes the menu |
| SiteHeader.SectionLinkClickScrolls | src/widgets/SiteHeader.tsx:97-109 | a click on one of the three section links offered on `/` scrolls to its section exactly when the section is registered and never navigates away |
| SiteHeader.ParseLocation | src/widgets/SiteHeader.tsx:106 | a location splits into a path without `#` and a hash that is empty or starts with `#`, and the two together are the URL |
| SiteHeader.HashSection | src/widgets/SiteHeader.tsx:88-89 | a section is looked up exactly on `/` with a non-empty hash, and its id is the hash without the `#` |
| SiteHeader.NavigateToHashRoundTrip | src/widgets/SiteHeader.tsx:88-106 | a section click off the portfolio navigates to a location whose hash names the same section, whatever the id holds |
| SiteHeader.OnScroll | src/widgets/SiteHeader.tsx:77-79 | the header counts as scrolled exactly when the page is more than 50 pixels down, and the menu is untouched |
| SiteHeader.ToggleMenu | src/widgets/SiteHeader.tsx:180 | the menu button flips the menu and nothing else |
| SiteHeader.ToggleMenuInvolution | src/widgets/SiteHeader.tsx:180 | two presses of the menu button restore the header |
| SiteHeader.SolidAfterScroll | src/widgets/SiteHeader.tsx:139-143 | after a scroll the header is solid exactly when the page is more than 50 pixels down or the menu is open |
| ResumeApp.InitialTheme | App.tsx:22-28 | no saved theme or an empty one means dark; otherwise the mode is light or dark exactly when the text, stripped of JSON white space at its ends, is `false` or `true`, and every other saved text is an error |
| ResumeApp.DropLeadingSpace | App.tsx:25 | what `JSON.parse` skips in front is all JSON white space, and what it keeps is a suffix that does not start with white space |
| ResumeApp.DropTrailingSpace | App.tsx:25 | what `JSON.parse` skips behind is all JSON white space, and what it keeps is a prefix that does not end with white space |
| ResumeApp.DropLeadingOfPadded | App.tsx:25 | leading white space is skipped exactly up to the first other character |
| ResumeApp.DropTrailingOfPadded | App.tsx:25 | trailing white space is dropped exactly back to the last other character |
| ResumeApp.LiteralOfPadded | App.tsx:25 | around a word that neither starts nor ends with white space, the literal read is the word itself |
| ResumeApp.LiteralOfBoolean | App.tsx:22-28 | the stored strings `"true"` and `"false"` are read back as dark and light |
| ResumeApp.PaddedBooleanParses | App.tsx:22-28 | a stored boolean surrounded by JSON white space, as `" true"` or `"false\n"`, is read as that mode |
| ResumeApp.PersistTheme | App.tsx:31-39 | the theme effect puts `dark` on the root exactly in dark mode and always stores `"true"` or `"false"` |
| ResumeApp.ThemeRoundTrip | App.tsx:22-39 | reading back the stored string restores the same mode |
| ResumeApp.ToggleTheme | App.tsx:126 | the toggle always changes the mode |
| ResumeApp.ToggleThemeInvolution | App.tsx:126 | toggling twice restores the mode, and each toggle changes the stored string |
| ResumeApp.FrameUpdate | App.tsx:82-104 | the frame update always names one of the three sections: `expertise` whenever it qualifies, otherwise `projects` whenever it qualifies, otherwise `experience`; the scrolled flag is set exactly when the page is more than 50 pixels down |
| ResumeApp.SetIsOpen | App.tsx:19 | changing `isDrawerOpen` re-runs the lock effect; setting the same value leaves the lock alone |
| ResumeApp.DrawerStep | App.tsx:55-67 | opening selects the project at once and queues a timer that opens the drawer; closing hides the drawer at once and queues a timer that drops the project; a firing timer leaves the queue and does its one job (the open timer opens without touching the selection, the clear timer drops the project without touching `isOpen`); an unknown timer changes nothing; the drawer only opens through its open timer |
| ResumeApp.MountDrawer | App.tsx:18-19 | after mounting no project is selected, the drawer is closed and the body is unlocked |
| ResumeApp.DrawerRunAppend | App.tsx:55-67 | a sequence of drawer events runs one event after another |
| ResumeApp.DrawerRunStepKeepsLock | App.tsx:42-52 | every handler and timer keeps the body's overflow in step with the drawer |
| ResumeApp.LockMatchesAlways | App.tsx:42-52 | whatever the events, the body's overflow is `hidden` exactly while the drawer is open |
| ResumeApp.UnmountDrawer | App.tsx:49-51 | unmounting always unlocks the body |
| ResumeApp.DrawerTwoPhase | App.tsx:55-67 | opening shows the project before the drawer opens; closing hides the drawer before the project is dropped |
| ResumeApp.CloseBeforeOpenTimerReopens | App.tsx:55-67 | a close before the opening timer fires does not win: the drawer ends open and locked with no project selected |
| NavScript.Init | src/scripts/modules/navigation.js:31-34 | handlers are installed exactly when sections, desktop buttons, mobile buttons, the hamburger and the menu all exist; otherwise the page is left as it was |
| NavScript.ToggleMenu | src/scripts/modules/navigation.js:45-48 | the hamburger flips the menu's open class and `aria-expanded` reports the new state |
| NavScript.ToggleTwiceRestoresMenu | src/scripts/modules/navigation.js:45-48 | two hamburger clicks restore the menu and its attribute |
| NavScript.MenuRun | src/scripts/modules/navigation.js:45-57 | a run of menu clicks never changes the highlighted buttons, and ending with a mobile click leaves the menu closed with `aria-expanded` `false` |
| NavScript.MobileClick | src/scripts/modules/navigation.js:50-57 | a mobile button closes the menu and sets `aria-expanded` to `false`, whatever the state |
| NavScript.AriaMirrorsMenu | src/scripts/modules/navigation.js:45-57 | after any sequence of hamburger and mobile clicks `aria-expanded` still mirrors the menu's open class |
| NavScript.Highlight | src/scripts/modules/navigation.js:63-66 | one intersecting section marks as `active` exactly the buttons whose `data-section` equals its id |
| NavScript.ApplyBatch | src/scripts/modules/navigation.js:60-68 | a batch keeps one flag per button, and leaves them as they were or highlights the section of one intersecting entry |
| NavScript.ApplyBatchSnoc | src/scripts/modules/navigation.js:60-68 | the last entry of a batch overrides the rest exactly when it intersects |
| NavScript.BatchHighlightsLastIntersecting | src/scripts/modules/navigation.js:60-68 | after a batch the active buttons are those naming the last intersecting section, and a batch with none changes no button |
| NavScript.HighlightNamesOneSection | src/scripts/modules/navigation.js:65 | all active buttons name the same section |
| NavScript.ObservedSections | src/scripts/modules/navigation.js:75-79 | exactly the sections with a non-empty id are observed |
| Reveal.Register | src/shared/lib/hooks/useScrollAnimation.tsx:60-64 | a non-null element not yet listed is appended; `null` and an element already listed change nothing |
| Reveal.RegisterAll | src/shared/lib/hooks/useScrollAnimation.tsx:60-64 | registering keeps the list as a prefix, adds every non-null element and nothing else |
| Reveal.RegisterAllDistinct | src/shared/lib/hooks/useScrollAnimation.tsx:60-64 | the list never holds an element twice, and registering keeps every listed element in its place |
| Reveal.MarkVisible | src/shared/lib/hooks/useScrollAnimation.tsx:36-42 | intersecting targets gain `is-visible`, nothing else does, and the class is never removed |
| Reveal.ListElements | src/shared/lib/hooks/useScrollAnimation.tsx:48-51 | the elements the effect observes are exactly the listed ones |
| Reveal.MountAnimation | src/shared/lib/hooks/useScrollAnimation.tsx:48-51 | the effect keeps the list, observes every listed element and observes nothing unlisted in addition |
| Reveal.UnmountAnimation | src/shared/lib/hooks/useScrollAnimation.tsx:53-57 | the cleanup keeps the list, stops observing every listed element and leaves other observed elements alone |
| Reveal.MountObservesListedOnly | src/shared/lib/hooks/useScrollAnimation.tsx:48-57 | elements registered after the mount are never observed, and because the cleanup holds the same array it leaves nothing observed |
| Reveal.InitialInView | src/shared/lib/hooks/useInView.tsx:10-11 | the hook starts out of view, with no node and nothing observed |
| Reveal.SetNode | src/shared/lib/hooks/useInView.tsx:13-18 | a node is observed exactly when the ref received one, and the flag is kept |
| Reveal.InViewBatch | src/shared/lib/hooks/useInView.tsx:21-26 | an intersecting first entry sets the flag and stops observing; otherwise nothing changes; the flag is never cleared |
| Reveal.InViewLatches | src/shared/lib/hooks/useInView.tsx:17-38 | once in view, always in view, whatever later refs and batches arrive |
| Reveal.OnlyFirstEntryCounts | src/shared/lib/hooks/useInView.tsx:21 | an intersecting entry after a non-intersecting first one is not seen |
| Reveal.EffectiveRootMargin | src/shared/lib/hooks/useInView.tsx:27-30 | the root margin is `200px` unless the caller's options carry the key, in which case their value wins, `undefined` included |
| Reveal.ContentRevealsOnce | src/scripts/modules/scroll-animations.js:58-67 | revealed elements are never watched again and stay revealed, and exactly the elements that stop being watched are the newly revealed ones |
| Reveal.ContentBatch | src/scripts/modules/scroll-animations.js:58-67 | a batch only adds revealed elements and only drops watched ones, and an intersecting watched element is revealed |
| Reveal.TimelineBatchSnoc | src/scripts/modules/scroll-animations.js:32-42 | the last entry of a batch decides its item's class |
| Reveal.TimelineBatch | src/scripts/modules/scroll-animations.js:32-42 | a batch changes the class only of items some entry of it belongs to |
| Reveal.TimelineMirrorsLastFlag | src/scripts/modules/scroll-animations.js:32-42 | each timeline item ends active exactly when the last entry for it intersected, and an item with no entry keeps its class |
| Reveal.FooterVisible | src/scripts/modules/scroll-animations.js:102-106 | the footer is shown exactly when the viewport's bottom is within 5 pixels of the document's end |
| Reveal.FooterMonotone | src/scripts/modules/scroll-animations.js:104 | scrolling further down never hides the footer |
| Carousel.JsRem | src/widgets/TestimonialsSection.tsx:48-49 | JavaScript's `%` keeps the sign of the dividend: non-negative dividends give a remainder in `[0, n)`, negative ones a remainder in `(-n, 0]`, and small dividends reduce as expected |
| Carousel.ModSmall | src/widgets/TestimonialsSection.tsx:48-49 | Dafny's remainder of a non-negative dividend below `2n`, written out |
| Carousel.JsRemOdd | src/widgets/TestimonialsSection.tsx:48-49 | negating the dividend negates the JavaScript remainder |
| Carousel.JsRemVsEuclidean | src/widgets/TestimonialsSection.tsx:48-49 | JavaScript's `-1 % 3` is `-1`, where the Euclidean remainder is `2`; the two agree on non-negative dividends |
| Carousel.GoToSlide | src/widgets/TestimonialsSection.tsx:47-51 | from `-n` upwards the new index lies in range; an index in range is kept; one slide before the start wraps to the end and one past the end wraps to the start |
| Carousel.GoToSlideNegativeBelowMinusN | src/widgets/TestimonialsSection.tsx:48-49 | below `-n` the wrap yields a negative index |
| Carousel.NextPrevWrap | src/widgets/TestimonialsSection.tsx:90-107 | next from the last slide gives the first, previous from the first gives the last, and each undoes the other |
| Carousel.DotSelects | src/widgets/TestimonialsSection.tsx:125-128 | dot `k` selects slide `k` |
| Carousel.ActiveDots | src/widgets/TestimonialsSection.tsx:125-131 | one dot per testimonial, marked exactly when it is the current slide |
| Carousel.ExactlyOneActiveDot | src/widgets/TestimonialsSection.tsx:129 | while the index is in range exactly one dot is marked, the current one |
| Carousel.InitialSection | src/widgets/TestimonialsSection.tsx:45 | the section starts at the first slide |
| Carousel.SetIndex | src/widgets/TestimonialsSection.tsx:58-63 | the interval is restarted exactly when the index changes |
| Carousel.SectionStep | src/widgets/TestimonialsSection.tsx:47-131 | clicks keep an in-range index in range; the interval is restarted exactly when the index changes, once |
| Carousel.SectionIndexInRange | src/widgets/TestimonialsSection.tsx:47-131 | whatever the clicks, dot clicks and auto-advances, the index stays in range |
| Carousel.AutoAdvanceIsNext | src/widgets/TestimonialsSection.tsx:58-61 | the auto-advance does what the next button does |
| Carousel.CurrentDotKeepsInterval | src/widgets/TestimonialsSection.tsx:58-63 | clicking the current slide's dot leaves the section, and so its interval, unchanged |
| Carousel.ClampWrap | src/scripts/modules/testimonial-carousel.js:38-46 | the script's `goToSlide` sends a negative index to the last slide, an index at or past the end to the first, and keeps any other |
| Carousel.ClampWrapInRange | src/scripts/modules/testimonial-carousel.js:38-46 | with at least one slide the script's index is always in range |
| Carousel.ClampWrapIsNotModular | src/scripts/modules/testimonial-carousel.js:41-42 | two past the last slide the script lands on the first where a modular wrap lands on the second |
| Carousel.InitScript | src/scripts/modules/testimonial-carousel.js:27-33 | the script starts exactly when the track and both buttons exist, at slide 0 with one interval running |
| Carousel.ScriptNext | src/scripts/modules/testimonial-carousel.js:59-62 | the next button moves forward and restarts the interval |
| Carousel.ScriptPrev | src/scripts/modules/testimonial-carousel.js:64-67 | the previous button moves back and restarts the interval |
| Carousel.ScriptTick | src/scripts/modules/testimonial-carousel.js:48-52 | the interval moves forward without restarting itself |
| Carousel.ScriptNextPrev | src/scripts/modules/testimonial-carousel.js:38-67 | next from the last slide gives the first, previous from the first gives the last, and in range the two undo each other |
| Carousel.CarouselsAgreeInRange | src/scripts/modules/testimonial-carousel.js:38-46 | from one before the first slide to one past the last, the script and the React section pick the same slide |
| Contact.InitialForm | src/widgets/CtaSection.tsx:12-15 | the form starts idle with all three fields empty |
| Contact.Edit | src/widgets/CtaSection.tsx:67-85 | typing into an input replaces that field alone and leaves the status |
| Contact.Submit | src/widgets/CtaSection.tsx:19-27 | a submit sets the status to `submitting` and posts the three fields as they are |
| Contact.Settle | src/widgets/CtaSection.tsx:29-39 | the form succeeds exactly on an OK response, which clears the fields; a non-OK response or a failed request ends in `error` with the fields kept |
| Contact.FormStep | src/widgets/CtaSection.tsx:19-85 | the form reaches success only through an OK response; typing never changes the status; a submit always moves to submitting; short of success only typing changes the fields |
| Contact.Render | src/widgets/CtaSection.tsx:56-100 | the form is replaced by the thank-you text exactly on success; the button is disabled and reads `SENDING...` exactly while submitting; the error text shows exactly after a failure |
| Contact.SuccessIsFinal | src/widgets/CtaSection.tsx:56-61 | after success the form is gone, so no event can change the section |
| Contact.RetryAfterFailure | src/widgets/CtaSection.tsx:92-100 | after a failure the button is enabled again and a retry posts the same fields |
| Contact.Compose | api/send-email.ts:55-65 | the email comes from the fixed sender, goes to the configured recipient, replies to the sender's address and is titled `New message from` followed by the name |
| Contact.Handle | api/send-email.ts:38-76 | any method but POST gets 405 with `Allow: POST`; a POST without a body fails while destructuring; an email is sent exactly when all three fields are truthy and a recipient is configured, and it is the composed one; the answer is 200 exactly when an email was sent and the service accepted it |
| Contact.MissingFieldBeforeConfig | api/send-email.ts:45-52 | a missing field gets 400 even when no recipient is configured |
| Contact.HandlerStatuses | api/send-email.ts:38-76 | the handler answers only 200, 400, 405 or 500; a 500 carries one of the three server messages, and every 500 except the configuration error comes after an email was handed to the service |
| Contact.MessageVerbatimInHtml | api/send-email.ts:60-64 | the message is spliced into the email's HTML unchanged, markup included, right before the closing `</p>` |
| Contact.Html | api/send-email.ts:60-64 | the email's HTML opens with the notice paragraph and is the fixed template plus the three fields, with no character added or dropped |
| Contact.FieldsInPlace | api/send-email.ts:60-64 | the name follows the notice and the `Name:` label, the email follows the name's closing tag and the `Email:` label, the message follows the heading and its opening tag, and the last `</p>` closes the email |
| Contact.SubmitEndToEnd | src/widgets/CtaSection.tsx:19-39 | posting the form succeeds exactly when all three fields are filled, a recipient is configured and the service accepts the email; an empty field ends in `error` with the text kept |
| ProjectCard.ProjectId | components/ProjectCard.tsx:13-14 | the identifier is `PRJ-` followed by at least two characters, all decimal digits |
| ProjectCard.ParseId | components/ProjectCard.tsx:13-14 | an identifier is read back only when it carries the `PRJ-` prefix and at least one character after it |
| ProjectCard.IdRoundTrip | components/ProjectCard.tsx:14 | reading an identifier back gives the card's position: the one-based number survives the zero padding |
| ProjectCard.IdInjective | components/ProjectCard.tsx:14 | two cards at different positions never share an identifier |
| ProjectCard.IdOfFirst | components/ProjectCard.tsx:13-14 | the first card is `PRJ-01`: a single digit is padded with one zero |
| ProjectCard.IdOfTenth | components/ProjectCard.tsx:14 | the tenth card is `PRJ-10`: two digits need no padding |
| ProjectCard.IdOfHundredth | components/ProjectCard.tsx:14 | the hundredth card is `PRJ-100`: the padding is a minimum width, not a truncation |
| ProjectCard.CardId | components/ProjectCard.tsx:11-14 | with an `index` the identifier reads back as that position; without one `undefined + 1` is `NaN` and the card shows `PRJ-NaN`, which reads back as no position |
| ProjectCard.MissingIndexNamesNoCard | components/ProjectCard.tsx:14 | `PRJ-NaN` names no position, and no card given an index shows it |
| ProjectCard.ListedIdsAsWritten | App.tsx:359-366 | the project list renders every card without `index`, so every card shows `PRJ-NaN` |
| ProjectCard.ListedIdsAsWrittenCollide | App.tsx:359-366 | with two or more projects the listed identifiers collide and none of them names a position |
| ProjectCard.ListedIds | App.tsx:359-366 | passing the `map` index on, card `k` shows the identifier of position `k` |
| ProjectCard.ListedIdsDistinct | App.tsx:359-366 | with the index passed on, no two cards share an identifier |
| ProjectCard.KeyDown | components/ProjectCard.tsx:22-27 | the default action is prevented exactly for Enter and space, and the optional click handler runs exactly for those keys when it is present |
| ProjectCard.KeyboardRunsHandlerPerActivation | components/ProjectCard.tsx:22-27 | over any run of key presses the default action is prevented once per Enter or space, and the handler runs as often when there is one and never otherwise |
| ProjectCard.TypeIcon | components/ProjectCard.tsx:12-37 | the code icon is shown exactly for projects of type `dev`, the chip icon for every other type |
| ProjectCard.ResumeDemoLink | components/ProjectCard.tsx:66-77 | the demo link appears exactly for a non-empty URL and always opens a new tab with `noopener noreferrer` |
| ProjectCard.PortfolioDemoLink | src/entities/project/ui/ProjectCard.tsx:47-52 | the demo link appears exactly for a non-empty URL; it stays in the page with an empty `rel` exactly when the URL is `#` |
| ProjectCard.DemoLinksAgreeExceptHash | src/entities/project/ui/ProjectCard.tsx:47-52 | the two cards render the same demo link for every URL except `#` |
| ProjectCard.CardImages | src/entities/project/ui/ProjectCard.tsx:15-27 | a placeholder name without `.webp` is used unchanged for the image and both sources |
| ProjectCard.ImagesFromStem | src/entities/project/ui/ProjectCard.tsx:15-27 | only the first `.webp` is replaced, by `.png`, `-large.webp` and `-small.webp`; the text before and after it is kept |
| ProjectCard.AltText | src/entities/project/ui/ProjectCard.tsx:16 | the alternative text is the fixed phrase followed by the project's title, unchanged |
| ImageFallback.FallbackText | src/shared/ui/ImageWithFallback.tsx:60 | the placeholder text defaults to `Image` only when none is passed; an empty text passed in is kept |
| ImageFallback.MountError | src/shared/ui/ImageWithFallback.tsx:64 | the error flag starts set exactly when the source is missing or empty |
| ImageFallback.Render | src/shared/ui/ImageWithFallback.tsx:66-93 | the placeholder is shown exactly when the error flag is set; otherwise a `<picture>` exactly when children were given, else a bare `<img>`, both with the given source and alternative text |
| ImageFallback.MissingSourceShowsPlaceholder | src/shared/ui/ImageWithFallback.tsx:64-68 | a missing source renders the placeholder from the first render on |
| ImageFallback.Step | src/shared/ui/ImageWithFallback.tsx:64-89 | a load error sets the flag and keeps the props; new props replace the props and keep the flag |
| ImageFallback.ErrorLatches | src/shared/ui/ImageWithFallback.tsx:64-68 | once the flag is set, no sequence of events clears it, and the placeholder shows the latest props' text |
| ImageFallback.NoErrorFollowsProps | src/shared/ui/ImageWithFallback.tsx:64-93 | mounted with a source and with no load error, the image is never replaced and always shows the latest props |
| ImageFallback.RunWithoutErrors | src/shared/ui/ImageWithFallback.tsx:64 | prop changes alone never set the error flag |
| ImageFallback.LateSourceIgnored | src/shared/ui/ImageWithFallback.tsx:64-68 | a source passed after a mount without one is never shown, because the flag is initialised once |
| ChatController.AnimationEndTarget | src/features/chat/ui/ChatController.tsx:67-77 | a missing animation name reads as empty; an `open-pill` prefix opens the panel, otherwise a `close-pill` prefix idles it, and any other name leaves the state alone, whatever the current state |
| ChatController.StateEffect | src/features/chat/ui/ChatController.tsx:79-90 | the body class mirrors whether the state is `opening` or `open`; those states show the overlay entering, `closing` marks it exiting, and `idle` leaves it as it was |
| ChatController.Mount | src/features/chat/ui/ChatController.tsx:51-90 | after mounting the panel is idle, the overlay hidden with no class and the body unlocked |
| ChatController.Handle | src/features/chat/ui/ChatController.tsx:55-108 | the handlers never touch the body; panel events leave the overlay alone, the overlay's own end leaves the panel state and class alone, and no handler shows a hidden overlay |
| ChatController.Step | src/features/chat/ui/ChatController.tsx:79-90 | a handler's state change re-runs the effect, which sets the body lock to match the new state; without a change the lock stays |
| ChatController.OpenOnlyFromIdle | src/features/chat/ui/ChatController.tsx:55-59 | opening acts only from `idle`, where it locks the body and shows the overlay entering; from any other state it changes nothing |
| ChatController.CloseOnlyFromOpen | src/features/chat/ui/ChatController.tsx:61-65 | closing acts only from `open`, where it unlocks the body and marks the overlay exiting; from any other state it changes nothing |
| ChatController.AnimationEndByPrefix | src/features/chat/ui/ChatController.tsx:67-77 | the panel's animation end moves to `open` or `idle` by name prefix alone, with no check of the current state |
| ChatController.OverlayUnmountsOnlyOnItsExit | src/features/chat/ui/ChatController.tsx:102-108 | the overlay disappears only through its own animation end, and only while it carries `is-exiting` |
| ChatController.StepKeepsConsistent | src/features/chat/ui/ChatController.tsx:55-108 | every event preserves the invariant: body locked exactly while opening or open, overlay shown entering then, exiting while closing |
| ChatController.RunKeepsConsistent | src/features/chat/ui/ChatController.tsx:79-90 | after any sequence of events the body carries `is-chat-open` if and only if the panel is opening or open |
| ChatController.MountIsConsistent | src/features/chat/ui/ChatController.tsx:51-53 | the initial state satisfies the invariant |
| ChatController.CycleRestoresFlags | src/features/chat/ui/ChatController.tsx:55-108 | a full open, open-end, close, close-end and overlay-exit cycle returns the state, the body lock and the overlay's visibility to their values at mount |
| ChatController.UnguardedCloseEndStrandsOverlay | src/features/chat/ui/ChatController.tsx:72-106 | a `close-pill` end arriving while the panel is still opening idles the panel but leaves the overlay mounted with `is-entering`, which its exit handler never removes |
| ChatController.ContainerClasses | src/features/chat/ui/ChatPanel.tsx:121-132 | nothing is rendered exactly when idle; otherwise the class list is the base classes followed by exactly one state class |
| ChatController.ContainerClassNameShape | src/features/chat/ui/ChatPanel.tsx:125-132 | the joined class string is the base classes, one space and the state's own class |
| ChatController.StateClassRoundTrip | src/features/chat/ui/ChatPanel.tsx:127-129 | the three state classes are distinct, so the class string determines the state |
| ChatController.FocusOnlyOnOpenPillEnd | src/features/chat/ui/ChatPanel.tsx:115-119 | the input is focused exactly on an `open-pill` end arriving while the panel is not open; another `open-pill` end while open focuses nothing |
| ChatScript.Init | src/scripts/modules/chat-panel.js:29-39 | the script installs its handlers exactly when all five elements are present, and changes nothing on the page while doing so |
| ChatScript.OpenChat | src/scripts/modules/chat-panel.js:41-50 | opening changes the page only from `idle` and never focuses the input |
| ChatScript.CloseChat | src/scripts/modules/chat-panel.js:52-60 | closing changes the page only from `open`, and never touches the body, the panel's display or the focus |
| ChatScript.OpenChatEffect | src/scripts/modules/chat-panel.js:41-50 | opening acts only from `idle`: it shows the panel, adds `is-opening`, locks the body and swaps the overlay's exit class for its enter class |
| ChatScript.CloseChatEffect | src/scripts/modules/chat-panel.js:52-60 | closing acts only from `open`: it swaps `is-open` for `is-closing` and the overlay's enter class for its exit class, and keeps the body locked |
| ChatScript.AnimationEndEffect | src/scripts/modules/chat-panel.js:65-77 | an `open-pill` end opens and swaps `is-opening` for `is-open`; otherwise a `close-pill` end idles, drops `is-closing`, hides the panel and unlocks the body; any other name changes nothing |
| ChatScript.AnimationEnd | src/scripts/modules/chat-panel.js:65-77 | a panel animation end leaves the overlay alone and focuses the input exactly once for an `open-pill` name, whatever the state |
| ChatScript.Step | src/scripts/modules/chat-panel.js:41-77 | an event focuses the input at most once, and exactly for an `open-pill` end |
| ChatScript.StepKeepsCycleInvariant | src/scripts/modules/chat-panel.js:41-77 | along the normal cycle each event keeps exactly the state's own class on the panel and the body locked in every state but `idle` |
| ChatScript.RunKeepsCycleInvariant | src/scripts/modules/chat-panel.js:41-77 | along any normal cycle the panel holds at most one state class and the body lock lasts from the open click to the end of the close animation |
| ChatScript.UnexpectedOpenEndDoublesClasses | src/scripts/modules/chat-panel.js:65-69 | an `open-pill` end arriving while closing leaves both `is-closing` and `is-open` on the panel |
| ChatScript.LockDiffersFromReactWhileClosing | src/scripts/modules/chat-panel.js:52-60 | after open, open-end and close, the script still locks the body while the React controller has already unlocked it |
| ChatScript.RepeatedOpenEndFocusesOnlyHere | src/scripts/modules/chat-panel.js:65-70 | a repeated `open-pill` end while open focuses the input again in the script but not in the React panel |

## Left out

- Network, email service, environment, `localStorage`, timers and animation frames are not modelled as such. They are parameters (`Blog.LoadPost` outcomes, `Contact.FetchOutcome`, `Contact.SendOutcome`, the recipient) or events in a step function.
- Scroll positions, offsets and viewport sizes are integers. The résumé page's `0.3 * innerHeight` is passed in already computed, and the scale-based progress bars of `scroll-animations.js` (floating point) are not modelled.
- Post dates are an abstract integer key. `new Date(..)` parsing, and the comparator's behaviour on invalid dates (NaN), are not modelled.
- YAML is not parsed beyond what `parseMarkdown` itself does.
- `ResumeApp.InitialTheme` strips JSON white space (space, tab, line feed, carriage return) from both ends of a saved theme and reads `true` or `false`; every other saved text is reported as an error, standing for `JSON.parse` throwing or yielding a number, string, `null`, array or object, whose truthiness the page would then use as the mode.
- `Contact.Handle`: body values that are present but not strings are not modelled; every present field is a string.
- The browser's `required` validation of the form inputs is not modelled, so the model lets empty fields be submitted, and the handler's 400 answer covers them.
- The router's location parsing is reduced to `SiteHeader.ParseLocation`, which splits at the first `#`.
- The static data files (sections, projects, testimonials, posts list) are not part of this model. The React carousel is fixed at three testimonials, and the section list is a parameter.
- Rendering beyond the flags and classes named in the table is not modelled: markup, styles, icons and mouse tracking.
- `ChatPanel.tsx`'s wiring of the close button to `onClose` and of the container's `animationend` to the controller's handler is assumed, not modelled: the model sends those events to the controller directly.
- Desktop navigation clicks in `navigation.js` and `scrollIntoView`/`scrollTo` calls are effects only. The model records which section would be scrolled to, not the scrolling.
- The frame-ticking flag of `scroll-animations.js` follows the same pattern as `useScrollSpy`'s, which `SectionTracking.AtMostOneFramePending` covers. It is not modelled a second time.
- `ProjectCard.ProjectId` takes a natural index. Neither project list passes `index` (`App.tsx` lines 359-366, `components/layout/MainContent.tsx` lines 45-52), so the page shows `PRJ-NaN` on every card; `ProjectCard.CardId` covers the missing prop and the Findings below record it. Negative or fractional indices are not modelled.
- `Reveal.InViewBatch` requires a non-empty batch. Destructuring the first entry of an empty batch is not modelled, because the observer never delivers one.
- Strings are sequences of characters. There is no Unicode normalisation, and no UTF-16 surrogate handling.
- The console warnings logged by the vanilla `init` functions are not modelled.

## Findings

| source | as written | input that shows it | evidently intended | confidence | as-written member | corrected member |
|---|---|---|---|---|---|---|
| App.tsx:359-366 | the project list (and its copy in `components/layout/MainContent.tsx`) renders `<ProjectCard project={project} onClick={..} />` without `index`, so `index + 1` is `NaN` | any list of two or more projects: every card shows `PRJ-NaN` | pass the `map` index on (`index={idx}`), giving `PRJ-01`, `PRJ-02`, … as the card's own comment says | high, not executed | ProjectCard.ListedIdsAsWrittenCollide | ProjectCard.ListedIdsDistinct |
