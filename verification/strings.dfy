/** String helpers standing for the JavaScript built-ins the site uses:
    `trim` and the regular-expression class `\s`, `startsWith`/`endsWith`,
    `indexOf`, `replace` with a string pattern, `split` on one character,
    `Number.prototype.toString()` in base ten and `padStart`.
    Strings are `seq<char>`; there is no Unicode normalisation. */
module Strings {
  import opened Wrappers

  /** White space as ECMA-262 (2023 edition) defines it: section 12.2
      (TAB, VT, FF, ZWNBSP and every Zs character) together with the line
      terminators of section 12.3 (LF, CR, LS, PS). `String.prototype.trim`
      strips exactly these, and the regular-expression class `\s` matches
      exactly these. */
  predicate IsWhitespace(c: char) {
    var n := c as int;
    || n == 0x09 || n == 0x0B || n == 0x0C || n == 0xFEFF                  // TAB VT FF ZWNBSP
    || n == 0x20 || n == 0xA0 || n == 0x1680 || 0x2000 <= n <= 0x200A      // Zs
    || n == 0x202F || n == 0x205F || n == 0x3000                           // Zs
    || n == 0x0A || n == 0x0D || n == 0x2028 || n == 0x2029                // LF CR LS PS
  }

  predicate AllWhitespace(s: string) {
    forall i :: 0 <= i < |s| ==> IsWhitespace(s[i])
  }

  /** Neither end of `s` is white space: what `trim` leaves behind. */
  predicate Trimmed(s: string) {
    |s| == 0 || (!IsWhitespace(s[0]) && !IsWhitespace(s[|s| - 1]))
  }

  // ---------------------------------------------------------------- trim

  /** Drops the leading white space: the result is the suffix of `s` that
      starts at its first non-white-space character. */
  function TrimStart(s: string): (r: string)
    ensures |r| <= |s| && r == s[|s| - |r|..]
    ensures AllWhitespace(s[..|s| - |r|])
    ensures |r| > 0 ==> !IsWhitespace(r[0])
  {
    if |s| > 0 && IsWhitespace(s[0]) then TrimStart(s[1..]) else s
  }

  /** Drops the trailing white space: the result is the prefix of `s` that
      ends at its last non-white-space character. */
  function TrimEnd(s: string): (r: string)
    ensures |r| <= |s| && r == s[..|r|]
    ensures AllWhitespace(s[|r|..])
    ensures |r| > 0 ==> !IsWhitespace(r[|r| - 1])
  {
    if |s| > 0 && IsWhitespace(s[|s| - 1]) then TrimEnd(s[..|s| - 1]) else s
  }

  /** `String.prototype.trim`. */
  function Trim(s: string): (r: string)
    ensures Trimmed(r)
    ensures |r| <= |s|
  {
    TrimEnd(TrimStart(s))
  }

  lemma {:induction false} TrimStartSkips(p: string, t: string)
    requires AllWhitespace(p)
    ensures TrimStart(p + t) == TrimStart(t)
    decreases |p|
  {
    if |p| > 0 {
      assert (p + t)[1..] == p[1..] + t;
      TrimStartSkips(p[1..], t);
    } else {
      assert p + t == t;
    }
  }

  lemma {:induction false} TrimEndSkips(t: string, q: string)
    requires AllWhitespace(q)
    ensures TrimEnd(t + q) == TrimEnd(t)
    decreases |q|
  {
    if |q| > 0 {
      assert (t + q)[..|t + q| - 1] == t + q[..|q| - 1];
      TrimEndSkips(t, q[..|q| - 1]);
    } else {
      assert t + q == t;
    }
  }

  /** Reference characterisation of `trim`: whatever white space surrounds
      a string without white-space ends, `trim` returns exactly that string. */
  lemma TrimOfPadded(p: string, r: string, q: string)
    requires AllWhitespace(p) && AllWhitespace(q) && Trimmed(r)
    ensures Trim(p + r + q) == r
  {
    assert p + r + q == p + (r + q);
    TrimStartSkips(p, r + q);
    if |r| > 0 {
      assert (r + q)[0] == r[0];
      assert TrimStart(r + q) == r + q;
      TrimEndSkips(r, q);
      assert TrimEnd(r) == r;
    } else {
      assert r + q == q;
      TrimStartSkips(q, "");
      assert q + "" == q;
      assert TrimStart(q) == "";
    }
  }

  /** `s` is `k` white-space characters, then `r`, then white space. */
  predicate FramedByWhitespace(s: string, k: nat, r: string) {
    && k + |r| <= |s|
    && s == s[..k] + r + s[k + |r|..]
    && AllWhitespace(s[..k]) && AllWhitespace(s[k + |r|..])
  }

  /** `trim` only removes white space, and only at the two ends. */
  lemma TrimDecomposes(s: string)
    ensures FramedByWhitespace(s, |s| - |TrimStart(s)|, Trim(s))
  {
    var t := TrimStart(s);
    var k := |s| - |t|;
    assert t == s[k..] && AllWhitespace(s[..k]);
    var r := TrimEnd(t);
    assert |r| <= |t| && r == t[..|r|] && AllWhitespace(t[|r|..]);
    assert Trim(s) == r;
    PrefixOfSuffix(s, k, t, r);
  }

  /** A prefix `r` of the suffix `t` of `s` that starts at `k`, with white
      space before `k` and after `r` in `t`, frames `r` in `s`. */
  lemma PrefixOfSuffix(s: string, k: nat, t: string, r: string)
    requires k <= |s| && t == s[k..] && |r| <= |t| && r == t[..|r|]
    requires AllWhitespace(s[..k]) && AllWhitespace(t[|r|..])
    ensures FramedByWhitespace(s, k, r)
  {
    assert r == s[k..k + |r|];
    assert t[|r|..] == s[k + |r|..];
    SliceConcat3(s, k, k + |r|);
  }

  lemma SliceConcat3(s: string, i: nat, j: nat)
    requires i <= j <= |s|
    ensures s == s[..i] + s[i..j] + s[j..]
  {
  }

  lemma TrimIdempotent(s: string)
    ensures Trim(Trim(s)) == Trim(s)
  {
    TrimOfPadded("", Trim(s), "");
    assert "" + Trim(s) + "" == Trim(s);
  }

  // ---------------------------------------------------------- prefixes

  predicate StartsWith(s: string, prefix: string) {
    |prefix| <= |s| && s[..|prefix|] == prefix
  }

  lemma StartsWithConcat(prefix: string, rest: string)
    ensures StartsWith(prefix + rest, prefix)
  {
    assert (prefix + rest)[..|prefix|] == prefix;
  }

  predicate EndsWith(s: string, suffix: string) {
    |suffix| <= |s| && s[|s| - |suffix|..] == suffix
  }

  // ------------------------------------------------------------ search

  predicate OccursAt(s: string, pat: string, i: nat) {
    i + |pat| <= |s| && s[i..i + |pat|] == pat
  }

  /** No occurrence of `pat` in `s` starts before index `i`. */
  predicate NoOccurrenceBefore(s: string, pat: string, i: nat) {
    forall j: nat :: j < i ==> !OccursAt(s, pat, j)
  }

  /** `s.indexOf(pat, from)`: the first occurrence at or after `from`. */
  function IndexOfFrom(s: string, pat: string, from: nat): (r: Option<nat>)
    ensures r.Some? ==> from <= r.value && OccursAt(s, pat, r.value)
    ensures r.Some? ==> forall j: nat :: from <= j < r.value ==> !OccursAt(s, pat, j)
    ensures r.None? ==> forall j: nat :: from <= j ==> !OccursAt(s, pat, j)
    decreases |s| - from
  {
    if from + |pat| > |s| then None
    else if s[from..from + |pat|] == pat then Some(from)
    else IndexOfFrom(s, pat, from + 1)
  }

  /** `s.indexOf(pat)`, with `None` for the source's `-1`. */
  function IndexOf(s: string, pat: string): (r: Option<nat>)
    ensures r.Some? ==> OccursAt(s, pat, r.value) && NoOccurrenceBefore(s, pat, r.value)
    ensures r.None? ==> forall j: nat :: !OccursAt(s, pat, j)
  {
    IndexOfFrom(s, pat, 0)
  }

  /** `s.indexOf(c)` for a one-character pattern. */
  function IndexOfChar(s: string, c: char): (r: Option<nat>)
    ensures r.Some? ==> r.value < |s| && s[r.value] == c && c !in s[..r.value]
    ensures r.None? ==> c !in s
  {
    if |s| == 0 then None
    else if s[0] == c then Some(0)
    else match IndexOfChar(s[1..], c)
      case None => None
      case Some(i) => assert s[..i + 1] == [s[0]] + s[1..][..i]; Some(i + 1)
  }

  /** `s.replace(pat, rep)` with a string pattern: only the first occurrence
      is replaced, and a string without `pat` is returned unchanged. */
  function ReplaceFirst(s: string, pat: string, rep: string): (r: string)
    ensures IndexOf(s, pat).None? ==> r == s
    ensures IndexOf(s, pat).Some? ==>
              var i := IndexOf(s, pat).value;
              |r| == |s| - |pat| + |rep| && r[..i] == s[..i] && r[i..i + |rep|] == rep
              && r[i + |rep|..] == s[i + |pat|..]
  {
    match IndexOf(s, pat)
    case None => s
    case Some(i) => s[..i] + rep + s[i + |pat|..]
  }

  /** Reference characterisation of `replace`: when `s` is `a + pat + b`
      and `pat` does not occur earlier, exactly that occurrence is rewritten
      and every later one (inside `b`) is kept. */
  lemma ReplaceFirstAt(a: string, pat: string, b: string, rep: string)
    requires NoOccurrenceBefore(a + pat + b, pat, |a|)
    ensures ReplaceFirst(a + pat + b, pat, rep) == a + rep + b
  {
    var s := a + pat + b;
    assert OccursAt(s, pat, |a|) by { assert s[|a|..|a| + |pat|] == pat; }
    var i := IndexOf(s, pat).value;
    assert OccursAt(s, pat, i);
    assert i == |a|;
    assert s[..i] == a;
    assert s[i + |pat|..] == b;
  }

  // ------------------------------------------------------ split and join

  /** The inverse of `split`: `parts.join(sep)`. */
  function Join(parts: seq<string>, sep: char): string {
    if |parts| == 0 then ""
    else if |parts| == 1 then parts[0]
    else parts[0] + [sep] + Join(parts[1..], sep)
  }

  /** `s.split(sep)` for a one-character separator: never empty (the empty
      string splits to `[""]`) and no piece holds the separator. */
  function Split(s: string, sep: char): (r: seq<string>)
    ensures |r| >= 1
    ensures forall i :: 0 <= i < |r| ==> sep !in r[i]
    decreases |s|
  {
    match IndexOfChar(s, sep)
    case None => [s]
    case Some(i) => [s[..i]] + Split(s[i + 1..], sep)
  }

  /** Joining the pieces of a split gives the text back. */
  lemma {:induction false} JoinSplit(s: string, sep: char)
    ensures Join(Split(s, sep), sep) == s
    decreases |s|
  {
    match IndexOfChar(s, sep)
    case None =>
    case Some(i) =>
      var rest := Split(s[i + 1..], sep);
      JoinSplit(s[i + 1..], sep);
      assert Split(s, sep) == [s[..i]] + rest;
      assert s == s[..i] + [sep] + s[i + 1..];
  }

  /** Splitting a join of separator-free pieces gives the pieces back. */
  lemma {:induction false} SplitJoin(parts: seq<string>, sep: char)
    requires |parts| >= 1
    requires forall i :: 0 <= i < |parts| ==> sep !in parts[i]
    ensures Split(Join(parts, sep), sep) == parts
    decreases |parts|
  {
    if |parts| == 1 {
      assert IndexOfChar(parts[0], sep).None?;
    } else {
      var head, rest := parts[0], Join(parts[1..], sep);
      assert Join(parts, sep) == head + [sep] + rest;
      FirstSeparator(head, rest, sep);
      SplitJoin(parts[1..], sep);
      assert parts == [head] + parts[1..];
    }
  }

  /** In `head + [sep] + rest` with `sep` not in `head`, the first separator
      is the one after `head`, so the split takes `head` and goes on with
      `rest`. */
  lemma FirstSeparator(head: string, rest: string, sep: char)
    requires sep !in head
    ensures Split(head + [sep] + rest, sep) == [head] + Split(rest, sep)
  {
    var s := head + [sep] + rest;
    var n := |head|;
    assert s[n] == sep;
    assert s[..n] == head && s[n + 1..] == rest;
  }

  // --------------------------------------------------- decimal numbers

  predicate IsDigit(c: char) { '0' <= c <= '9' }

  function DigitChar(d: nat): (c: char)
    requires d < 10
    ensures IsDigit(c)
  {
    ('0' as int + d) as char
  }

  /** `n.toString()` in base ten: the shortest decimal numeral of `n`. */
  function NatToString(n: nat): (r: string)
    ensures |r| >= 1 && forall i :: 0 <= i < |r| ==> IsDigit(r[i])
    ensures (|r| == 1) == (n < 10)
    ensures n >= 10 ==> r[0] != '0'
  {
    if n < 10 then [DigitChar(n)] else NatToString(n / 10) + [DigitChar(n % 10)]
  }

  /** The value of a decimal numeral; leading zeros count for nothing. */
  function ParseDecimal(s: string): nat
    requires forall i :: 0 <= i < |s| ==> IsDigit(s[i])
  {
    if |s| == 0 then 0
    else
      assert IsDigit(s[|s| - 1]);
      ParseDecimal(s[..|s| - 1]) * 10 + (s[|s| - 1] as int - '0' as int)
  }

  lemma {:induction false} ParseNatToString(n: nat)
    ensures ParseDecimal(NatToString(n)) == n
  {
    if n >= 10 {
      var s := NatToString(n);
      assert s[..|s| - 1] == NatToString(n / 10);
      ParseNatToString(n / 10);
    }
  }

  lemma {:induction false} ParseLeadingZero(s: string)
    requires forall i :: 0 <= i < |s| ==> IsDigit(s[i])
    ensures ParseDecimal("0" + s) == ParseDecimal(s)
    decreases |s|
  {
    if |s| > 0 {
      assert ("0" + s)[..|"0" + s| - 1] == "0" + s[..|s| - 1];
      ParseLeadingZero(s[..|s| - 1]);
    }
  }

  function Repeat(c: char, k: nat): (r: string)
    ensures |r| == k && forall i :: 0 <= i < k ==> r[i] == c
  {
    if k == 0 then "" else [c] + Repeat(c, k - 1)
  }

  /** `s.padStart(len, [c])`: the fill goes in front, and a string already
      `len` long is returned unchanged. */
  function PadStart(s: string, len: nat, c: char): (r: string)
    ensures |r| == if |s| >= len then |s| else len
    ensures r[|r| - |s|..] == s
    ensures forall i :: 0 <= i < |r| - |s| ==> r[i] == c
  {
    if |s| >= len then s else Repeat(c, len - |s|) + s
  }
}
