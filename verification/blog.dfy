/** `getBlogPosts`: every listed markdown file is fetched and parsed, the
    front matter is spread into a post object together with `content` and a
    `slug` derived from the filename, files that fail to load are dropped,
    and the rest are sorted newest first.

    The fetch is an input (`FetchOutcome` per file). The date comparison is
    an abstract, total integer key per post (`dateKey`); `Array.prototype.sort`
    is stable, so the sort is modelled as a stable insertion sort. */
module Blog {
  import opened Wrappers
  import opened Strings
  import FrontMatter

  type Fields = map<string, FrontMatter.Value>

  /** What loading one file produced: the response text, a response that is
      not OK, or an exception (a failed fetch or a failed body read). */
  datatype FetchOutcome = Fetched(text: string) | NotOk | Threw

  const Md := ".md"

  /** `filename.replace('.md', '')`: only the first `.md` is removed (see
      also `SlugDropsFirstMd`). */
  function Slug(filename: string): (r: string)
    ensures IndexOf(filename, Md).None? ==> r == filename
    ensures IndexOf(filename, Md).Some? ==>
              var i := IndexOf(filename, Md).value;
              |r| == |filename| - 3 && r == filename[..i] + filename[i + 3..]
  {
    ReplaceFirst(filename, Md, "")
  }

  /** The slug of `a + ".md" + b`, with no `.md` inside `a`, is `a + b`:
      a later `.md` in `b` is kept. */
  lemma SlugDropsFirstMd(a: string, b: string)
    requires NoOccurrenceBefore(a + Md + b, Md, |a|)
    ensures Slug(a + Md + b) == a + b
  {
    ReplaceFirstAt(a, Md, b, "");
    assert a + "" + b == a + b;
  }

  /** `{ ...frontmatter, content, slug }`: the front-matter keys, then
      `content` and `slug`, which override same-named front-matter keys. */
  function AssemblePost(filename: string, parsed: FrontMatter.Parsed): (r: Fields)
    ensures r.Keys == parsed.frontmatter.Keys + {"content", "slug"}
    ensures r["content"] == FrontMatter.Text(parsed.content)
    ensures r["slug"] == FrontMatter.Text(Slug(filename))
    ensures forall k :: k in parsed.frontmatter && k != "content" && k != "slug" ==>
              r[k] == parsed.frontmatter[k]
  {
    parsed.frontmatter + map["content" := FrontMatter.Text(parsed.content),
                             "slug" := FrontMatter.Text(Slug(filename))]
  }

  /** One file's `try` block: a post on success, `null` on any failure. */
  function LoadPost(filename: string, outcome: FetchOutcome): (r: Option<Fields>)
    ensures r.Some? <==> outcome.Fetched?
    ensures outcome.Fetched? ==>
              r.value == AssemblePost(filename, FrontMatter.ParseMarkdown(outcome.text))
  {
    match outcome
    case Fetched(text) => Some(AssemblePost(filename, FrontMatter.ParseMarkdown(text)))
    case _ => None
  }

  /** `Promise.all` over the filenames: one result per file, in order. */
  function LoadAll(filenames: seq<string>, outcomes: seq<FetchOutcome>): (r: seq<Option<Fields>>)
    requires |outcomes| == |filenames|
    ensures |r| == |filenames|
    ensures forall i :: 0 <= i < |r| ==> r[i] == LoadPost(filenames[i], outcomes[i])
  {
    if |filenames| == 0 then []
    else [LoadPost(filenames[0], outcomes[0])] + LoadAll(filenames[1..], outcomes[1..])
  }

  /** `filter(Boolean)`: a post object is always truthy, so exactly the
      `null`s are dropped. */
  function Successes(results: seq<Option<Fields>>): (r: seq<Fields>)
    ensures |r| <= |results|
  {
    if |results| == 0 then []
    else match results[0]
      case Some(p) => [p] + Successes(results[1..])
      case None => Successes(results[1..])
  }

  /** The filter keeps each loaded post as often as it was loaded and adds
      nothing. */
  lemma {:induction false} SuccessesCount(results: seq<Option<Fields>>, p: Fields)
    ensures multiset(Successes(results))[p] == multiset(results)[Some(p)]
    decreases |results|
  {
    if |results| > 0 {
      var rest := results[1..];
      SuccessesCount(rest, p);
      assert results == [results[0]] + rest;
      assert multiset(results) == multiset{results[0]} + multiset(rest);
      match results[0]
      case Some(q) =>
        assert multiset(Successes(results)) == multiset{q} + multiset(Successes(rest));
      case None =>
        assert Successes(results) == Successes(rest);
    }
  }

  // ------------------------------------------------------------- sort

  /** Newest first: no post has a larger date key than one before it. */
  predicate SortedDesc<T>(s: seq<T>, dateKey: T -> int) {
    forall i, j :: 0 <= i < j < |s| ==> dateKey(s[i]) >= dateKey(s[j])
  }

  /** Place `x` after every element whose key is at least its own. */
  function Insert<T>(x: T, s: seq<T>, dateKey: T -> int): (r: seq<T>)
    ensures multiset(r) == multiset(s) + multiset{x}
    decreases |s|
  {
    if |s| == 0 then [x]
    else if dateKey(s[0]) >= dateKey(x) then
      assert s == [s[0]] + s[1..];
      [s[0]] + Insert(x, s[1..], dateKey)
    else [x] + s
  }

  predicate AllAtMost<T>(s: seq<T>, dateKey: T -> int, bound: int) {
    forall i :: 0 <= i < |s| ==> dateKey(s[i]) <= bound
  }

  lemma SortedCons<T>(a: T, t: seq<T>, dateKey: T -> int)
    requires SortedDesc(t, dateKey) && AllAtMost(t, dateKey, dateKey(a))
    ensures SortedDesc([a] + t, dateKey)
  {
    var r := [a] + t;
    forall i, j | 0 <= i < j < |r| ensures dateKey(r[i]) >= dateKey(r[j]) {
      assert r[j] == t[j - 1];
      if i > 0 {
        assert r[i] == t[i - 1];
      }
    }
  }

  lemma {:induction false} InsertAtMost<T>(x: T, s: seq<T>, dateKey: T -> int, bound: int)
    requires AllAtMost(s, dateKey, bound) && dateKey(x) <= bound
    ensures AllAtMost(Insert(x, s, dateKey), dateKey, bound)
    decreases |s|
  {
    if |s| > 0 && dateKey(s[0]) >= dateKey(x) {
      InsertAtMost(x, s[1..], dateKey, bound);
      var rest := Insert(x, s[1..], dateKey);
      assert forall i :: 0 < i < |rest| + 1 ==> ([s[0]] + rest)[i] == rest[i - 1];
    } else if |s| > 0 {
      assert forall i :: 0 < i < |s| + 1 ==> ([x] + s)[i] == s[i - 1];
    }
  }

  lemma {:induction false} InsertSorted<T>(x: T, s: seq<T>, dateKey: T -> int)
    requires SortedDesc(s, dateKey)
    ensures SortedDesc(Insert(x, s, dateKey), dateKey)
    decreases |s|
  {
    if |s| > 0 {
      assert AllAtMost(s[1..], dateKey, dateKey(s[0])) by {
        forall i | 0 <= i < |s[1..]| ensures dateKey(s[1..][i]) <= dateKey(s[0]) {
          assert s[1..][i] == s[i + 1];
        }
      }
      assert SortedDesc(s[1..], dateKey) by {
        forall i, j | 0 <= i < j < |s[1..]| ensures dateKey(s[1..][i]) >= dateKey(s[1..][j]) {
          assert s[1..][i] == s[i + 1] && s[1..][j] == s[j + 1];
        }
      }
      if dateKey(s[0]) >= dateKey(x) {
        InsertSorted(x, s[1..], dateKey);
        InsertAtMost(x, s[1..], dateKey, dateKey(s[0]));
        SortedCons(s[0], Insert(x, s[1..], dateKey), dateKey);
      } else {
        assert AllAtMost(s, dateKey, dateKey(x)) by {
          forall i | 0 <= i < |s| ensures dateKey(s[i]) <= dateKey(x) {
            if i > 0 {
              assert dateKey(s[0]) >= dateKey(s[i]);
            }
          }
        }
        SortedCons(x, s, dateKey);
      }
    }
  }

  /** Stable insertion sort, newest first. */
  function SortByDateDesc<T>(s: seq<T>, dateKey: T -> int): (r: seq<T>)
    ensures multiset(r) == multiset(s)
    decreases |s|
  {
    if |s| == 0 then []
    else
      assert s == s[..|s| - 1] + [s[|s| - 1]];
      Insert(s[|s| - 1], SortByDateDesc(s[..|s| - 1], dateKey), dateKey)
  }

  lemma {:induction false} SortSorted<T>(s: seq<T>, dateKey: T -> int)
    ensures SortedDesc(SortByDateDesc(s, dateKey), dateKey)
    decreases |s|
  {
    if |s| > 0 {
      SortSorted(s[..|s| - 1], dateKey);
      InsertSorted(s[|s| - 1], SortByDateDesc(s[..|s| - 1], dateKey), dateKey);
    }
  }

  /** The posts with date key `k`, in order. */
  function WithKey<T>(s: seq<T>, dateKey: T -> int, k: int): seq<T>
    decreases |s|
  {
    if |s| == 0 then []
    else (if dateKey(s[0]) == k then [s[0]] else []) + WithKey(s[1..], dateKey, k)
  }

  lemma {:induction false} WithKeyConcat<T>(a: seq<T>, b: seq<T>, dateKey: T -> int, k: int)
    ensures WithKey(a + b, dateKey, k) == WithKey(a, dateKey, k) + WithKey(b, dateKey, k)
    decreases |a|
  {
    if |a| == 0 {
      assert a + b == b;
    } else {
      assert a + b == [a[0]] + (a[1..] + b);
      assert a == [a[0]] + a[1..];
      WithKeyHead(a[0], a[1..] + b, dateKey, k);
      WithKeyHead(a[0], a[1..], dateKey, k);
      WithKeyConcat(a[1..], b, dateKey, k);
    }
  }

  lemma {:induction false} WithKeyNone<T>(s: seq<T>, dateKey: T -> int, k: int)
    requires forall i :: 0 <= i < |s| ==> dateKey(s[i]) < k
    ensures WithKey(s, dateKey, k) == []
    decreases |s|
  {
    if |s| > 0 {
      WithKeyNone(s[1..], dateKey, k);
    }
  }

  /** `WithKey` unfolds at the head of any non-empty sequence. */
  lemma WithKeyHead<T>(h: T, t: seq<T>, dateKey: T -> int, k: int)
    ensures WithKey([h] + t, dateKey, k) == (if dateKey(h) == k then [h] else []) + WithKey(t, dateKey, k)
  {
    assert ([h] + t)[0] == h;
    assert ([h] + t)[1..] == t;
  }

  lemma {:induction false} InsertStable<T>(x: T, s: seq<T>, dateKey: T -> int, k: int)
    requires SortedDesc(s, dateKey)
    ensures WithKey(Insert(x, s, dateKey), dateKey, k) == WithKey(s + [x], dateKey, k)
    decreases |s|
  {
    if |s| == 0 {
      assert s + [x] == [x];
    } else if dateKey(s[0]) >= dateKey(x) {
      assert SortedDesc(s[1..], dateKey) by {
        forall i, j | 0 <= i < j < |s[1..]| ensures dateKey(s[1..][i]) >= dateKey(s[1..][j]) {
          assert s[1..][i] == s[i + 1] && s[1..][j] == s[j + 1];
        }
      }
      InsertStable(x, s[1..], dateKey, k);
      WithKeyHead(s[0], Insert(x, s[1..], dateKey), dateKey, k);
      assert s + [x] == [s[0]] + (s[1..] + [x]);
      WithKeyHead(s[0], s[1..] + [x], dateKey, k);
    } else {
      WithKeyHead(x, s, dateKey, k);
      WithKeyConcat(s, [x], dateKey, k);
      WithKeyHead(x, [], dateKey, k);
      if dateKey(x) == k {
        forall i | 0 <= i < |s| ensures dateKey(s[i]) < k {
          if i > 0 {
            assert dateKey(s[0]) >= dateKey(s[i]);
          }
        }
        WithKeyNone(s, dateKey, k);
      }
    }
  }

  /** Posts with equal dates keep their load order. */
  lemma {:induction false} SortStable<T>(s: seq<T>, dateKey: T -> int, k: int)
    ensures WithKey(SortByDateDesc(s, dateKey), dateKey, k) == WithKey(s, dateKey, k)
    decreases |s|
  {
    if |s| > 0 {
      var init := s[..|s| - 1];
      SortStable(init, dateKey, k);
      SortSorted(init, dateKey);
      InsertStable(s[|s| - 1], SortByDateDesc(init, dateKey), dateKey, k);
      WithKeyConcat(SortByDateDesc(init, dateKey), [s[|s| - 1]], dateKey, k);
      WithKeyConcat(init, [s[|s| - 1]], dateKey, k);
      assert init + [s[|s| - 1]] == s;
    }
  }

  // -------------------------------------------------------- assembly

  /** `getBlogPosts`. */
  function GetBlogPosts(filenames: seq<string>, outcomes: seq<FetchOutcome>, dateKey: Fields -> int): (r: seq<Fields>)
    requires |outcomes| == |filenames|
    ensures |r| <= |filenames|
    ensures SortedDesc(r, dateKey)
  {
    var loaded := Successes(LoadAll(filenames, outcomes));
    var sorted := SortByDateDesc(loaded, dateKey);
    SortSorted(loaded, dateKey);
    assert |sorted| == |multiset(sorted)| == |multiset(loaded)| == |loaded|;
    sorted
  }

  /** The result holds every successfully loaded post exactly as often as it
      was loaded, newest first, equal dates in load order, and is no longer
      than the list of filenames. */
  lemma GetBlogPostsSpec(filenames: seq<string>, outcomes: seq<FetchOutcome>, dateKey: Fields -> int, p: Fields, k: int)
    requires |outcomes| == |filenames|
    ensures var r := GetBlogPosts(filenames, outcomes, dateKey);
            && |r| <= |filenames|
            && SortedDesc(r, dateKey)
            && multiset(r)[p] == multiset(LoadAll(filenames, outcomes))[Some(p)]
            && WithKey(r, dateKey, k) == WithKey(Successes(LoadAll(filenames, outcomes)), dateKey, k)
  {
    var loaded := Successes(LoadAll(filenames, outcomes));
    SortSorted(loaded, dateKey);
    SortStable(loaded, dateKey, k);
    SuccessesCount(LoadAll(filenames, outcomes), p);
    assert |SortByDateDesc(loaded, dateKey)| == |multiset(loaded)|;
  }

  /** A failed file does not stop the others: a post is in the result
      exactly when some file loaded to it. */
  lemma FailuresDropOnlyThemselves(filenames: seq<string>, outcomes: seq<FetchOutcome>, dateKey: Fields -> int, p: Fields)
    requires |outcomes| == |filenames|
    ensures p in GetBlogPosts(filenames, outcomes, dateKey) <==>
              exists i :: 0 <= i < |filenames| && outcomes[i].Fetched? && LoadPost(filenames[i], outcomes[i]) == Some(p)
  {
    var all := LoadAll(filenames, outcomes);
    var r := GetBlogPosts(filenames, outcomes, dateKey);
    GetBlogPostsSpec(filenames, outcomes, dateKey, p, 0);
    assert p in r <==> multiset(r)[p] > 0;
    assert Some(p) in all <==> multiset(all)[Some(p)] > 0;
    LoadedSomewhere(filenames, outcomes, p);
  }

  /** A post is among the load results exactly when some file loaded to
      it. */
  lemma LoadedSomewhere(filenames: seq<string>, outcomes: seq<FetchOutcome>, p: Fields)
    requires |outcomes| == |filenames|
    ensures Some(p) in LoadAll(filenames, outcomes) <==>
              exists i :: 0 <= i < |filenames| && outcomes[i].Fetched? && LoadPost(filenames[i], outcomes[i]) == Some(p)
  {
    var all := LoadAll(filenames, outcomes);
    if Some(p) in all {
      var i :| 0 <= i < |all| && all[i] == Some(p);
      assert outcomes[i].Fetched?;
    }
  }
}
