/** The two project cards: the résumé card (`components/ProjectCard.tsx`)
    with its `PRJ-nn` identifier, keyboard activation, type icon and demo
    link, and the portfolio card (`src/entities/project/ui/ProjectCard.tsx`)
    with the image variants it derives from the placeholder's file name and
    its demo link. */
module ProjectCard {
  import opened Wrappers
  import opened Strings

  // -------------------------------------------------- résumé card

  const IdPrefix := "PRJ-"

  /** The technical identifier of the card at position `index`: the
      one-based position, padded to two digits with zeros. */
  function ProjectId(index: nat): (r: string)
    ensures StartsWith(r, IdPrefix)
    ensures |r| >= |IdPrefix| + 2
    ensures forall i :: |IdPrefix| <= i < |r| ==> IsDigit(r[i])
  {
    var digits := PadStart(NatToString(index + 1), 2, '0');
    assert forall i :: 0 <= i < |digits| ==> IsDigit(digits[i]);
    IdPrefix + digits
  }

  /** Reading an identifier back: the position it names, if it has the
      prefix, at least one digit after it and a non-zero number. */
  function ParseId(id: string): (r: Option<nat>)
    ensures r.Some? ==> StartsWith(id, IdPrefix) && |id| > |IdPrefix|
  {
    if |id| > |IdPrefix| && id[..|IdPrefix|] == IdPrefix
       && (forall i :: |IdPrefix| <= i < |id| ==> IsDigit(id[i]))
    then
      var n := ParseDecimal(id[|IdPrefix|..]);
      if n >= 1 then Some(n - 1) else None
    else None
  }

  /** The identifier determines the position. */
  lemma IdRoundTrip(index: nat)
    ensures ParseId(ProjectId(index)) == Some(index)
  {
    var s := NatToString(index + 1);
    var digits := PadStart(s, 2, '0');
    var id := ProjectId(index);
    assert id[|IdPrefix|..] == digits;
    assert id[..|IdPrefix|] == IdPrefix;
    ParseNatToString(index + 1);
    if |s| < 2 {
      assert digits == "0" + s;
      assert forall i :: 0 <= i < |s| ==> IsDigit(s[i]);
      ParseLeadingZero(s);
    } else {
      assert digits == s;
    }
  }

  lemma IdInjective(i: nat, j: nat)
    requires ProjectId(i) == ProjectId(j)
    ensures i == j
  {
    IdRoundTrip(i);
    IdRoundTrip(j);
  }

  /** What `index + 1` prints as when the caller leaves `index` out:
      `undefined + 1` is `NaN`, whose text is already wider than two. */
  const MissingIndexText := "NaN"

  /** The identifier the card shows for the `index` prop it receives: the
      padded position when there is one, `PRJ-NaN` when there is none. */
  function CardId(index: Option<nat>): (r: string)
    ensures index.Some? ==> ParseId(r) == Some(index.value)
    ensures index.None? ==> r == IdPrefix + MissingIndexText && ParseId(r).None?
  {
    match index
    case Some(i) =>
      IdRoundTrip(i);
      ProjectId(i)
    case None =>
      var r := IdPrefix + PadStart(MissingIndexText, 2, '0');
      assert r[|IdPrefix|] == 'N';
      r
  }

  /** The identifiers of the résumé page's project list as written: both
      lists render each card with its project and click handler but no
      `index`, so every card gets the same identifier. */
  function ListedIdsAsWritten(count: nat): (r: seq<string>)
    ensures |r| == count
    ensures forall k :: 0 <= k < count ==> r[k] == IdPrefix + MissingIndexText
  {
    seq(count, k => CardId(None))
  }

  /** With two or more projects the identifiers as written collide, and
      none of them names a position. */
  lemma ListedIdsAsWrittenCollide(count: nat)
    requires count >= 2
    ensures ListedIdsAsWritten(count)[0] == ListedIdsAsWritten(count)[1]
    ensures forall k :: 0 <= k < count ==> ParseId(ListedIdsAsWritten(count)[k]).None?
  {
    var ids := ListedIdsAsWritten(count);
    forall k | 0 <= k < count
      ensures ParseId(ids[k]).None?
    {
      assert ids[k] == IdPrefix + MissingIndexText;
      MissingIndexNamesNoCard(0);
    }
  }

  /** `PRJ-NaN` reads back as no position, and no card with an index
      shows it. */
  lemma MissingIndexNamesNoCard(i: nat)
    ensures ParseId(IdPrefix + MissingIndexText).None?
    ensures ProjectId(i) != IdPrefix + MissingIndexText
  {
    assert (IdPrefix + MissingIndexText)[|IdPrefix|] == 'N';
    IdRoundTrip(i);
  }

  /** The identifiers of the list with the `map` index passed on, as the
      `PRJ-01` comment intends: card `k` names position `k`. */
  function ListedIds(count: nat): (r: seq<string>)
    ensures |r| == count
    ensures forall k :: 0 <= k < count ==> ParseId(r[k]) == Some(k)
  {
    seq(count, (k: int) requires 0 <= k => CardId(Some(k as nat)))
  }

  /** The corrected list shows a different identifier on every card. */
  lemma ListedIdsDistinct(count: nat, j: nat, k: nat)
    requires j < k < count
    ensures ListedIds(count)[j] != ListedIds(count)[k]
  {
    var ids := ListedIds(count);
    assert ParseId(ids[j]) == Some(j) && ParseId(ids[k]) == Some(k);
  }

  /** The padding is only a minimum width: one digit is padded, two or
      more are kept. */
  lemma IdOfFirst()
    ensures ProjectId(0) == "PRJ-01"
  {
    assert DigitChar(1) == '1';
    assert NatToString(1) == "1";
    assert PadStart("1", 2, '0') == "01";
  }

  lemma IdOfTenth()
    ensures ProjectId(9) == "PRJ-10"
  {
    NatToStringTen();
    assert PadStart("10", 2, '0') == "10";
  }

  lemma NatToStringTen()
    ensures NatToString(10) == "10"
  {
    assert DigitChar(1) == '1' && DigitChar(0) == '0';
    assert NatToString(1) == "1";
    assert NatToString(10) == NatToString(1) + [DigitChar(0)];
  }

  lemma IdOfHundredth()
    ensures ProjectId(99) == "PRJ-100"
  {
    NatToStringTen();
    assert DigitChar(0) == '0';
    assert NatToString(100) == NatToString(10) + [DigitChar(0)] == "100";
  }

  /** The keys that activate a card from the keyboard. */
  predicate ActivationKey(key: string) {
    key == "Enter" || key == " "
  }

  /** A key press on the card: whether the default action is prevented and
      whether the click handler runs (it is optional). */
  function KeyDown(key: string, hasHandler: bool): (r: (bool, bool))
    ensures r.0 <==> ActivationKey(key)
    ensures r.1 <==> ActivationKey(key) && hasHandler
  {
    if ActivationKey(key) then (true, hasHandler) else (false, false)
  }

  /** The number of keys in `keys` that activate a card. */
  function Activations(keys: seq<string>): (r: nat)
    ensures r <= |keys|
    decreases |keys|
  {
    if |keys| == 0 then 0 else (if ActivationKey(keys[0]) then 1 else 0) + Activations(keys[1..])
  }

  /** A sequence of key presses on a focused card: how many defaults were
      prevented and how many times the click handler ran. */
  function PressAll(keys: seq<string>, hasHandler: bool): (r: (nat, nat))
    decreases |keys|
  {
    if |keys| == 0 then (0, 0)
    else
      var first := KeyDown(keys[0], hasHandler);
      var rest := PressAll(keys[1..], hasHandler);
      (rest.0 + (if first.0 then 1 else 0), rest.1 + (if first.1 then 1 else 0))
  }

  /** Every Enter or Space press runs the handler once, as a click would,
      and has its default prevented even when there is no handler; any
      other key does neither. */
  lemma {:induction false} KeyboardRunsHandlerPerActivation(keys: seq<string>, hasHandler: bool)
    ensures PressAll(keys, hasHandler).0 == Activations(keys)
    ensures PressAll(keys, hasHandler).1 == if hasHandler then Activations(keys) else 0
    decreases |keys|
  {
    if |keys| > 0 {
      KeyboardRunsHandlerPerActivation(keys[1..], hasHandler);
    }
  }

  datatype Icon = CodeIcon | CpuIcon

  function TypeIcon(projectType: string): (r: Icon)
    ensures r == CodeIcon <==> projectType == "dev"
  {
    if projectType == "dev" then CodeIcon else CpuIcon
  }

  /** A rendered demo anchor. */
  datatype Anchor = Anchor(href: string, target: string, rel: string)

  /** The résumé card's demo link: rendered for any non-empty URL, always in
      a new tab. */
  function ResumeDemoLink(demoUrl: Option<string>): (r: Option<Anchor>)
    ensures r.Some? <==> demoUrl.Some? && demoUrl.value != ""
    ensures r.Some? ==> r.value == Anchor(demoUrl.value, "_blank", "noopener noreferrer")
  {
    if demoUrl.Some? && demoUrl.value != "" then Some(Anchor(demoUrl.value, "_blank", "noopener noreferrer"))
    else None
  }

  // ----------------------------------------------- portfolio card

  /** The portfolio card's demo link: `#` stays in the page with no `rel`,
      anything else opens a new tab. */
  function PortfolioDemoLink(demoUrl: Option<string>): (r: Option<Anchor>)
    ensures r.Some? <==> demoUrl.Some? && demoUrl.value != ""
    ensures r.Some? ==> r.value.href == demoUrl.value
    ensures r.Some? ==> (r.value.target == "_self" <==> demoUrl.value == "#")
    ensures r.Some? ==> (r.value.rel == "" <==> demoUrl.value == "#")
  {
    match demoUrl
    case None => None
    case Some(url) =>
      if url == "" then None
      else if url == "#" then Some(Anchor(url, "_self", ""))
      else Some(Anchor(url, "_blank", "noopener noreferrer"))
  }

  /** The two cards agree on every link except the in-page `#`. */
  lemma DemoLinksAgreeExceptHash(demoUrl: Option<string>)
    ensures PortfolioDemoLink(demoUrl) == ResumeDemoLink(demoUrl) <==> demoUrl != Some("#")
  {
  }

  /** The image the card shows: the fallback `<img>` source and the large
      and small `<source>` sets, each derived by replacing the first
      `.webp` of the placeholder name. */
  datatype Images = Images(fallback: string, large: string, small: string)

  const Webp := ".webp"

  function CardImages(placeholder: string): (r: Images)
    ensures IndexOf(placeholder, Webp).None? ==> r == Images(placeholder, placeholder, placeholder)
  {
    Images(ReplaceFirst(placeholder, Webp, ".png"),
           ReplaceFirst(placeholder, Webp, "-large.webp"),
           ReplaceFirst(placeholder, Webp, "-small.webp"))
  }

  /** For a name whose first `.webp` follows `stem`, the variants replace
      that occurrence and keep the rest, later `.webp`s included. */
  lemma ImagesFromStem(stem: string, rest: string)
    requires NoOccurrenceBefore(stem + Webp + rest, Webp, |stem|)
    ensures CardImages(stem + Webp + rest)
         == Images(stem + ".png" + rest, stem + "-large.webp" + rest, stem + "-small.webp" + rest)
  {
    ReplaceFirstAt(stem, Webp, rest, ".png");
    ReplaceFirstAt(stem, Webp, rest, "-large.webp");
    ReplaceFirstAt(stem, Webp, rest, "-small.webp");
  }

  /** The image's alternative text and its placeholder text. */
  function AltText(title: string): (r: string)
    ensures StartsWith(r, "Placeholder image for the project: ")
    ensures r[|"Placeholder image for the project: "|..] == title
  {
    "Placeholder image for the project: " + title
  }
}
