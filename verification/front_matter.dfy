/** `parseMarkdown`: the front-matter reader for blog posts. It is not a YAML
    parser: it runs the regular expression `/---\s*([\s\S]*?)\s*---/` once,
    splits the captured block on line feeds and reads `key: value` lines,
    turning a bracketed `tags` value into a list.

    The regular expression is modelled by what a backtracking engine
    returns: among all ways the pattern can match (`IsMatch`), the one with
    the leftmost start, then the longest first `\s*`, then the shortest lazy
    capture, then the longest second `\s*` (`PreferredOrEqual`). */
module FrontMatter {
  import opened Wrappers
  import opened Strings

  const Fence: string := "---"

  predicate FenceAt(s: string, i: nat) {
    OccursAt(s, Fence, i)
  }

  /** One way for the pattern to match `s`: the opening fence at `start`,
      `g1` white-space characters, a capture of `c` arbitrary characters,
      `g2` white-space characters and the closing fence. */
  datatype Shape = Shape(start: nat, g1: nat, c: nat, g2: nat) {
    function CaptureStart(): nat { start + 3 + g1 }
    function CaptureEnd(): nat { start + 3 + g1 + c }
    function End(): nat { start + 3 + g1 + c + g2 + 3 }
    /** `match[0].length`. */
    function Length(): nat { 3 + g1 + c + g2 + 3 }
  }

  predicate IsMatch(s: string, m: Shape) {
    && FenceAt(s, m.start)
    && (forall k :: m.start + 3 <= k < m.CaptureStart() ==> k < |s| && IsWhitespace(s[k]))
    && (forall k :: m.CaptureEnd() <= k < m.CaptureEnd() + m.g2 ==> k < |s| && IsWhitespace(s[k]))
    && FenceAt(s, m.CaptureEnd() + m.g2)
  }

  /** The engine's order of preference between two ways to match. */
  predicate PreferredOrEqual(a: Shape, b: Shape) {
    || a.start < b.start
    || (a.start == b.start && a.g1 > b.g1)
    || (a.start == b.start && a.g1 == b.g1 && a.c < b.c)
    || (a.start == b.start && a.g1 == b.g1 && a.c == b.c && a.g2 >= b.g2)
  }

  // ------------------------------------------------------- the matcher

  /** The length of the white-space run that starts at `i`. */
  function WsRun(s: string, i: nat): (n: nat)
    ensures n > 0 ==> i + n <= |s|
    ensures forall k :: i <= k < i + n ==> k < |s| && IsWhitespace(s[k])
    ensures i + n < |s| ==> !IsWhitespace(s[i + n])
    decreases |s| - i
  {
    if i < |s| && IsWhitespace(s[i]) then
      1 + WsRun(s, i + 1)
    else 0
  }

  lemma {:induction false} WsRunExact(s: string, i: nat, n: nat)
    requires forall k :: i <= k < i + n ==> k < |s| && IsWhitespace(s[k])
    requires i + n < |s| && !IsWhitespace(s[i + n])
    ensures WsRun(s, i) == n
    decreases n
  {
    if n > 0 {
      assert IsWhitespace(s[i]);
      WsRunExact(s, i + 1, n - 1);
    }
  }

  /** The capture may end at `t` when the white space after `t` is followed
      by the closing fence. */
  predicate ClosesAt(s: string, t: nat) {
    FenceAt(s, t + WsRun(s, t))
  }

  /** The lazy capture's search: the first `t >= from` where it may end. */
  function CloseFrom(s: string, from: nat): (r: Option<nat>)
    ensures r.Some? ==> from <= r.value && ClosesAt(s, r.value)
    ensures r.Some? ==> forall t: nat :: from <= t < r.value ==> !ClosesAt(s, t)
    ensures r.None? ==> forall t: nat :: from <= t ==> !ClosesAt(s, t)
    decreases |s| - from
  {
    if from + 3 > |s| then
      NoCloseNearEnd(s, from);
      None
    else if ClosesAt(s, from) then Some(from)
    else CloseFrom(s, from + 1)
  }

  /** Fewer than three characters from `from` on leave no room for a
      closing fence. */
  lemma NoCloseNearEnd(s: string, from: nat)
    requires from + 3 > |s|
    ensures forall t: nat :: from <= t ==> !ClosesAt(s, t)
  {
    forall t: nat | from <= t
      ensures !ClosesAt(s, t)
    {
      assert !FenceAt(s, t + WsRun(s, t));
    }
  }

  /** What `frontmatterRegex.exec(s)` finds, as a `Shape`. */
  function FindMatch(s: string): Option<Shape> {
    match IndexOf(s, Fence)
    case None => None
    case Some(i0) =>
      var q := i0 + 3 + WsRun(s, i0 + 3);
      match CloseFrom(s, q)
      case None => None
      case Some(t) =>
        Some(Shape(i0, WsRun(s, i0 + 3), t - q, WsRun(s, t)))
  }

  lemma FenceWithin(s: string, i: nat)
    requires FenceAt(s, i)
    ensures i + 3 <= |s|
  {
  }

  /** What `FindMatch` finds lies within the text. */
  lemma FoundWithin(s: string)
    ensures FindMatch(s).Some? ==> FindMatch(s).value.End() <= |s|
  {
    if FindMatch(s).Some? {
      FoundIsMatch(s);
      MatchWithin(s, FindMatch(s).value);
    }
  }

  /** Every way to match lies within the text. */
  lemma MatchWithin(s: string, m: Shape)
    requires IsMatch(s, m)
    ensures m.End() <= |s|
  {
    FenceWithin(s, m.CaptureEnd() + m.g2);
  }

  /** What `FindMatch` finds is a way for the pattern to match. */
  lemma FoundIsMatch(s: string)
    requires FindMatch(s).Some?
    ensures IsMatch(s, FindMatch(s).value)
  {
    FoundShape(s);
    MatchOfRuns(s, FindMatch(s).value);
  }

  /** The first fence and a place where the capture may close, with the
      maximal white-space runs after each, make a match. */
  lemma MatchOfRuns(s: string, m: Shape)
    requires IndexOf(s, Fence) == Some(m.start) && ClosesAt(s, m.CaptureEnd())
    requires m.g1 == WsRun(s, m.start + 3) && m.g2 == WsRun(s, m.CaptureEnd())
    ensures IsMatch(s, m)
  {
    assert FenceAt(s, m.CaptureEnd() + m.g2);
  }

  /** The closing fence of any match lies at or after the end of the
      white-space run that follows the first fence, and the capture may end
      there. */
  lemma ClosingFenceBeyondFirstRun(s: string, m: Shape, i0: nat)
    requires IsMatch(s, m) && i0 <= m.start
    ensures var f := m.CaptureEnd() + m.g2;
            f >= i0 + 3 + WsRun(s, i0 + 3) && ClosesAt(s, f)
  {
    var f := m.CaptureEnd() + m.g2;
    assert FenceAt(s, f);
    assert s[f] == s[f..f + 3][0];
    assert !IsWhitespace(s[f]);
    assert WsRun(s, f) == 0;
  }

  lemma FirstFenceNotAfter(s: string, m: Shape)
    requires IsMatch(s, m)
    ensures IndexOf(s, Fence).Some? && IndexOf(s, Fence).value <= m.start
  {
    assert OccursAt(s, Fence, m.start);
  }

  lemma MatchFoundWhenPossible(s: string, m: Shape)
    requires IsMatch(s, m)
    ensures FindMatch(s).Some?
  {
    FirstFenceNotAfter(s, m);
    var i0 := IndexOf(s, Fence).value;
    ClosingFenceBeyondFirstRun(s, m, i0);
  }

  /** The parts of the match `FindMatch` returns: the first fence, the
      whole white-space run after it, the least capture that can close and
      the whole white-space run after the capture. */
  lemma FoundShape(s: string)
    requires FindMatch(s).Some?
    ensures var r := FindMatch(s).value;
            && IndexOf(s, Fence) == Some(r.start)
            && r.g1 == WsRun(s, r.start + 3)
            && ClosesAt(s, r.CaptureEnd())
            && (forall t: nat :: r.CaptureStart() <= t < r.CaptureEnd() ==> !ClosesAt(s, t))
            && r.g2 == WsRun(s, r.CaptureEnd())
  {
    var i0 := IndexOf(s, Fence).value;
    var q := i0 + 3 + WsRun(s, i0 + 3);
    var t := CloseFrom(s, q).value;
    FindMatchOfParts(s, i0, q, t);
    var r := FindMatch(s).value;
    assert r.CaptureStart() == q && r.CaptureEnd() == t;
  }

  /** A run of white space is never longer than the maximal run. */
  lemma RunAtMostWsRun(s: string, i: nat, n: nat)
    requires forall k :: i <= k < i + n ==> k < |s| && IsWhitespace(s[k])
    ensures n <= WsRun(s, i)
  {
  }

  /** In any match, the capture may end where it ends, and the second run
      is the whole white-space run there. */
  lemma MatchCloses(s: string, m: Shape)
    requires IsMatch(s, m)
    ensures ClosesAt(s, m.CaptureEnd()) && WsRun(s, m.CaptureEnd()) == m.g2
  {
    var f := m.CaptureEnd() + m.g2;
    assert FenceAt(s, f);
    assert s[f] == s[f..f + 3][0];
    WsRunExact(s, m.CaptureEnd(), m.g2);
  }

  /** Every way the pattern can match proves that `FindMatch` finds one, and
      the one it finds is preferred to it. */
  lemma FoundIsPreferred(s: string, m: Shape)
    requires IsMatch(s, m)
    ensures FindMatch(s).Some? && PreferredOrEqual(FindMatch(s).value, m)
  {
    MatchFoundWhenPossible(s, m);
    FirstFenceNotAfter(s, m);
    FoundShape(s);
    var r := FindMatch(s).value;
    if m.start == r.start {
      RunAtMostWsRun(s, m.start + 3, m.g1);
      if m.g1 == r.g1 {
        MatchCloses(s, m);
        assert r.CaptureStart() == m.CaptureStart();
        assert r.CaptureEnd() <= m.CaptureEnd();
      }
    }
  }

  /** `exec` semantics: `FindMatch` returns `None` exactly when the pattern
      cannot match at all, and otherwise the most preferred match. */
  lemma FindMatchIsExec(s: string)
    ensures FindMatch(s).None? <==> forall m :: !IsMatch(s, m)
    ensures FindMatch(s).Some? ==>
              IsMatch(s, FindMatch(s).value)
              && forall m :: IsMatch(s, m) ==> PreferredOrEqual(FindMatch(s).value, m)
  {
    forall m | IsMatch(s, m)
      ensures FindMatch(s).Some? && PreferredOrEqual(FindMatch(s).value, m)
    {
      FoundIsPreferred(s, m);
    }
    if FindMatch(s).Some? {
      FoundIsMatch(s);
    }
  }

  /** The match starts at the first `---` of the text, wherever it is; no
      anchoring to the start of the file. */
  lemma MatchStartsAtFirstFence(s: string)
    requires FindMatch(s).Some?
    ensures IndexOf(s, Fence) == Some(FindMatch(s).value.start)
  {
  }

  // ------------------------------------------------------ line parsing

  datatype Value = Text(text: string) | Tags(items: seq<string>)

  function TrimAll(parts: seq<string>): (r: seq<string>)
    ensures |r| == |parts| && forall i :: 0 <= i < |r| ==> r[i] == Trim(parts[i])
  {
    seq(|parts|, i requires 0 <= i < |parts| => Trim(parts[i]))
  }

  predicate IsBracketed(v: string) {
    StartsWith(v, "[") && EndsWith(v, "]")
  }

  /** The value stored under `key`: only `tags` with a bracketed value
      becomes a list, of the comma-separated pieces of its inside, trimmed. */
  function ConvertValue(key: string, value: string): (r: Value)
    ensures r.Tags? <==> key == "tags" && IsBracketed(value)
    ensures r.Text? ==> r.text == value
    ensures r.Tags? ==> |value| >= 2 && r.items == TrimAll(Split(value[1..|value| - 1], ','))
  {
    if key == "tags" && IsBracketed(value) then
      assert value[0] == '[' && value[|value| - 1] == ']';
      Tags(TrimAll(Split(value[1..|value| - 1], ',')))
    else Text(value)
  }

  /** One captured line: nothing without a colon; otherwise the trimmed text
      before the first colon is the key and the trimmed rest is the value. */
  function ParseLine(line: string): (r: Option<(string, Value)>)
    ensures r.None? <==> ':' !in line
  {
    match IndexOfChar(line, ':')
    case None => None
    case Some(i) =>
      var key := Trim(line[..i]);
      Some((key, ConvertValue(key, Trim(line[i + 1..]))))
  }

  /** The one key an assignment on a plain object does not store: writing
      a string to `__proto__` goes to the prototype setter, which ignores
      anything that is not an object. */
  const ProtoKey := "__proto__"

  /** One line's effect on the object being built: a line without a colon,
      or one whose key is `__proto__`, leaves it as it was; any other line
      sets its key and nothing else. */
  function ApplyLine(acc: map<string, Value>, line: string): (r: map<string, Value>)
    ensures ParseLine(line).None? || ParseLine(line).value.0 == ProtoKey ==> r == acc
    ensures ParseLine(line).Some? && ParseLine(line).value.0 != ProtoKey ==>
              && r.Keys == acc.Keys + {ParseLine(line).value.0}
              && r[ParseLine(line).value.0] == ParseLine(line).value.1
              && forall k :: k in acc && k != ParseLine(line).value.0 ==> r[k] == acc[k]
  {
    match ParseLine(line)
    case None => acc
    case Some(kv) => if kv.0 == ProtoKey then acc else acc[kv.0 := kv.1]
  }

  /** `forEach` over the lines, each entry written into the object in turn:
      keys are only ever added, and `__proto__` is never one of them. */
  function FoldLines(acc: map<string, Value>, lines: seq<string>): (r: map<string, Value>)
    ensures acc.Keys <= r.Keys
    ensures ProtoKey in r <==> ProtoKey in acc
    decreases |lines|
  {
    if |lines| == 0 then acc else FoldLines(ApplyLine(acc, lines[0]), lines[1..])
  }

  datatype Parsed = Parsed(frontmatter: map<string, Value>, content: string)

  /** `parseMarkdown`: run the pattern once, then build the result from
      what it found. */
  function ParseMarkdown(raw: string): (r: Parsed)
    ensures FindMatch(raw).None? ==> r.frontmatter == map[] && r.content == raw
    ensures ProtoKey !in r.frontmatter
  {
    FoundWithin(raw);
    ParseWith(raw, FindMatch(raw))
  }

  /** The result once `exec` has answered: without a match, no front matter
      and the raw text; with one, the captured block's lines folded, and the
      text after its first `match[0].length` characters, trimmed. */
  function ParseWith(raw: string, found: Option<Shape>): (r: Parsed)
    requires found.Some? ==> found.value.End() <= |raw|
    ensures found.None? ==> r.frontmatter == map[] && r.content == raw
    ensures found.Some? ==> Trimmed(r.content) && |r.content| <= |raw| - found.value.Length()
    ensures ProtoKey !in r.frontmatter
  {
    match found
    case None => Parsed(map[], raw)
    case Some(m) =>
      Parsed(FoldLines(map[], Split(raw[m.CaptureStart()..m.CaptureEnd()], '\n')),
             ContentAfter(raw, m.Length()))
  }

  /** The content once the length of the slice's prefix is known. */
  function ContentAfter(raw: string, k: nat): (r: string)
    requires k <= |raw|
    ensures Trimmed(r) && |r| <= |raw| - k
  {
    Trim(raw[k..])
  }

  // -------------------------------------------------------- properties

  /** Without a match the front matter is empty and the content is the raw
      text itself, not even trimmed. */
  lemma NoMatchKeepsRaw(raw: string)
    requires forall m :: !IsMatch(raw, m)
    ensures ParseMarkdown(raw) == Parsed(map[], raw)
  {
    FindMatchIsExec(raw);
  }

  /** The content is the raw text minus its first `match[0].length`
      characters, trimmed. When the opening fence is at index 0 this is the
      trimmed text after the closing fence. */
  lemma ContentAfterLeadingFence(raw: string, m: Shape)
    requires FindMatch(raw) == Some(m) && m.start == 0
    ensures m.End() <= |raw| && ParseMarkdown(raw).content == Trim(raw[m.End()..])
  {
    ContentOfMatch(raw, m);
    assert m.Length() == m.End();
  }

  /** The content of a matched text, named for the lemmas above. */
  lemma ContentOfMatch(raw: string, m: Shape)
    requires FindMatch(raw) == Some(m)
    ensures m.Length() <= |raw|
    ensures ParseMarkdown(raw).content == Trim(raw[m.Length()..])
  {
    FoundWithin(raw);
    ContentOfParse(raw);
    ContentOfFound(raw, m);
    ContentAfterMatch(raw, m.Length());
  }

  lemma ContentOfParse(raw: string)
    ensures FindMatch(raw).Some? ==> FindMatch(raw).value.End() <= |raw|
    ensures ParseMarkdown(raw).content == ParseWith(raw, FindMatch(raw)).content
  {
    FoundWithin(raw);
  }

  lemma ContentOfFound(raw: string, m: Shape)
    requires m.End() <= |raw|
    ensures ParseWith(raw, Some(m)).content == ContentAfter(raw, m.Length())
  {
  }

  lemma ContentAfterMatch(raw: string, k: nat)
    requires k <= |raw|
    ensures ContentAfter(raw, k) == Trim(raw[k..])
  {
  }

  /** When the opening fence is not at index 0 the slice is too short: with
      one character before the fence, the last `-` of the closing fence is
      kept in the content. */
  lemma ContentSliceIgnoresMatchIndex()
    ensures ParseMarkdown("x---a---body").content == "-body"
  {
    var s := "x---a---body";
    ExampleMatch();
    ContentOfMatch(s, Shape(1, 0, 1, 0));
    assert Shape(1, 0, 1, 0).Length() == 7;
    ExampleTail();
    ExampleTrim();
  }

  /** What the slice keeps of the example, and its trim. */
  lemma ExampleTail()
    ensures "x---a---body"[7..] == "-body"
  {
    var a, b := "x---a--", "-body";
    assert "x---a---body" == a + b;
    assert (a + b)[|a|..] == b;
  }

  lemma ExampleTrim()
    ensures Trim("-body") == "-body"
  {
    assert Trimmed("-body") && AllWhitespace("");
    TrimOfPadded("", "-body", "");
    assert "" + "-body" + "" == "-body";
  }

  /** The match in the example: the fence at index 1, no white space, a
      one-character capture and the closing fence right after it. */
  lemma ExampleMatch()
    ensures FindMatch("x---a---body") == Some(Shape(1, 0, 1, 0))
  {
    var s := "x---a---body";
    ExampleFirstFence();
    ExampleCloses();
    CloseFromSkips(s, 4);
    assert CloseFrom(s, 5) == Some(5);
    FindMatchOfParts(s, 1, 4, 5);
    assert FindMatch(s).value == Shape(1, 0, 1, 0);
  }

  /** `FindMatch` assembled from the first fence, the end of the white
      space after it and the place where the capture closes. */
  lemma FindMatchOfParts(s: string, i0: nat, q: nat, t: nat)
    requires IndexOf(s, Fence) == Some(i0) && q == i0 + 3 + WsRun(s, i0 + 3)
    requires CloseFrom(s, q) == Some(t)
    ensures FindMatch(s).Some?
    ensures FindMatch(s).value.start == i0
    ensures FindMatch(s).value.g1 == WsRun(s, i0 + 3)
    ensures FindMatch(s).value.c == t - q
    ensures FindMatch(s).value.g2 == WsRun(s, t)
  {
  }

  /** The search for the end of the capture passes over a place where it
      cannot end. */
  lemma CloseFromSkips(s: string, from: nat)
    requires from + 3 <= |s| && !ClosesAt(s, from)
    ensures CloseFrom(s, from) == CloseFrom(s, from + 1)
  {
  }


  lemma ExampleFirstFence()
    ensures IndexOf("x---a---body", Fence) == Some(1)
  {
    var s := "x---a---body";
    assert s[0..3][0] == 'x';
    assert !FenceAt(s, 0);
    assert s[1..4] == Fence;
    assert FenceAt(s, 1);
  }

  lemma ExampleCloses()
    ensures !ClosesAt("x---a---body", 4) && ClosesAt("x---a---body", 5)
    ensures WsRun("x---a---body", 4) == 0 && WsRun("x---a---body", 5) == 0
  {
    var s := "x---a---body";
    assert !IsWhitespace(s[4]) && !IsWhitespace(s[5]);
    assert WsRun(s, 4) == 0 && WsRun(s, 5) == 0;
    assert s[4..7][0] == 'a';
    assert s[5..8] == Fence;
  }

  /** A line with a colon yields the trimmed text before its first colon as
      key and the trimmed remainder, further colons included, as value. */
  lemma LineSplitsAtFirstColon(k: string, v: string)
    requires ':' !in k
    ensures ParseLine(k + ":" + v) == Some((Trim(k), ConvertValue(Trim(k), Trim(v))))
  {
    var line := k + ":" + v;
    assert line[|k|] == ':';
    assert line[..|k|] == k;
    var i := IndexOfChar(line, ':').value;
    assert forall j :: 0 <= j < |k| ==> line[j] != ':' by {
      forall j | 0 <= j < |k| ensures line[j] != ':' { assert line[j] == k[j]; }
    }
    assert forall j :: 0 <= j < i ==> line[j] != ':' by {
      forall j | 0 <= j < i ensures line[j] != ':' { assert line[..i][j] == line[j]; }
    }
    assert i == |k|;
    assert line[i + 1..] == v;
  }

  /** `tags: []` yields a single empty tag, not an empty list. */
  lemma EmptyTagListHasOneEmptyTag()
    ensures ConvertValue("tags", "[]") == Tags([""])
  {
    assert IsBracketed("[]");
    assert "[]"[1..1] == "";
    assert Split("", ',') == [""];
    TrimOfPadded("", "", "");
    assert "" + "" + "" == "";
  }

  /** A bracketed value under any key other than `tags` stays a string. */
  lemma OnlyTagsBecomeLists(key: string, value: string)
    requires key != "tags"
    ensures ConvertValue(key, value) == Text(value)
  {
  }

  /** Reference for the fold: the entry of the last line that parses to
      `key`, looking from the end. */
  function LastEntry(lines: seq<string>, key: string): Option<Value>
    decreases |lines|
  {
    if |lines| == 0 then None
    else match ParseLine(lines[|lines| - 1])
      case Some(kv) => if kv.0 == key then Some(kv.1) else LastEntry(lines[..|lines| - 1], key)
      case None => LastEntry(lines[..|lines| - 1], key)
  }

  lemma {:induction false} FoldLinesLastWins(acc: map<string, Value>, lines: seq<string>, key: string)
    ensures key != ProtoKey && LastEntry(lines, key).Some? ==>
              key in FoldLines(acc, lines) && FoldLines(acc, lines)[key] == LastEntry(lines, key).value
    ensures key == ProtoKey || LastEntry(lines, key).None? ==>
              (key in FoldLines(acc, lines) <==> key in acc)
              && (key in acc ==> FoldLines(acc, lines)[key] == acc[key])
    decreases |lines|
  {
    if |lines| > 0 {
      var n := |lines| - 1;
      var init := lines[..n];
      FoldLinesSnoc(acc, init, lines[n]);
      assert init + [lines[n]] == lines;
      FoldLinesLastWins(acc, init, key);
    }
  }

  lemma {:induction false} FoldLinesSnoc(acc: map<string, Value>, init: seq<string>, line: string)
    ensures FoldLines(acc, init + [line]) == ApplyLine(FoldLines(acc, init), line)
    decreases |init|
  {
    if |init| == 0 {
      assert init + [line] == [line];
      assert FoldLines(ApplyLine(acc, line), []) == ApplyLine(acc, line);
    } else {
      assert (init + [line])[0] == init[0];
      assert (init + [line])[1..] == init[1..] + [line];
      FoldLinesSnoc(ApplyLine(acc, init[0]), init[1..], line);
    }
  }

  /** When a key repeats, the last occurrence wins; a key other than
      `__proto__` appears in the front matter exactly when some captured
      line defines it, and `__proto__` never appears. */
  lemma FrontMatterLastWins(raw: string, key: string)
    requires FindMatch(raw).Some?
    ensures var m := FindMatch(raw).value;
            var lines := Split(raw[m.CaptureStart()..m.CaptureEnd()], '\n');
            var fm := ParseMarkdown(raw).frontmatter;
            && (key != ProtoKey ==> (key in fm <==> LastEntry(lines, key).Some?))
            && (key in fm ==> key != ProtoKey && fm[key] == LastEntry(lines, key).value)
  {
    var m := FindMatch(raw).value;
    var lines := Split(raw[m.CaptureStart()..m.CaptureEnd()], '\n');
    FoldLinesLastWins(map[], lines, key);
  }
}
