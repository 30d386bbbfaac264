/** The testimonial carousels. The React section wraps indices with the
    remainder operator; the vanilla script clamps an out-of-range index to
    the opposite end instead. JavaScript's `%` truncates toward zero, so it
    is written out (`JsRem`) rather than borrowed from Dafny's Euclidean
    `%`. Timers are modelled by a generation counter that grows each time
    the auto-advance interval is restarted. */
module Carousel {
  import opened Wrappers

  /** The number of testimonials the React section shows. */
  const TestimonialCount := 3

  /** JavaScript's `a % n` for `n > 0`: the sign follows the dividend. */
  function JsRem(a: int, n: int): (r: int)
    requires n > 0
    ensures a >= 0 ==> 0 <= r < n
    ensures a < 0 ==> -n < r <= 0
    ensures 0 <= a < n ==> r == a
    ensures n <= a < 2 * n ==> r == a - n
    ensures 2 * n <= a < 3 * n ==> r == a - 2 * n
  {
    ModSmall(a, n);
    ModSmall(-a, n);
    if a >= 0 then a % n else -((-a) % n)
  }

  /** Euclidean remainders of small non-negative dividends. */
  lemma ModSmall(a: int, n: int)
    requires n > 0
    ensures a >= 0 ==> 0 <= a % n < n
    ensures 0 <= a < n ==> a % n == a
    ensures n <= a < 2 * n ==> a % n == a - n
    ensures 2 * n <= a < 3 * n ==> a % n == a - 2 * n
  {
    if n <= a < 3 * n {
      var q, r := a / n, a % n;
      assert a == q * n + r && 0 <= r < n;
      MulBounds(q, n);
    }
  }

  /** A multiple of a positive `n` lies below `n` when the factor is at
      most zero, is `n` or `2n` for the factors one and two, and is at
      least `3n` otherwise. */
  lemma MulBounds(q: int, n: int)
    requires n > 0
    ensures q <= 0 ==> q * n <= 0
    ensures q == 1 ==> q * n == n
    ensures q == 2 ==> q * n == 2 * n
    ensures q >= 3 ==> q * n >= 3 * n
  {
    if q >= 3 {
      assert q * n == 3 * n + (q - 3) * n;
    }
  }

  /** Unlike Dafny's `%`, negating the dividend negates the remainder. */
  lemma JsRemOdd(a: int, n: int)
    requires n > 0
    ensures JsRem(-a, n) == -JsRem(a, n)
  {
  }

  /** The two agree on non-negative dividends and differ on the negative
      ones that are not multiples of `n`. */
  lemma JsRemVsEuclidean()
    ensures JsRem(-1, 3) == -1 && (-1) % 3 == 2
    ensures JsRem(4, 3) == 4 % 3
  {
  }

  // ------------------------------------------------------------- React

  /** `goToSlide(index)`: `(index + length) % length`. */
  function GoToSlide(index: int, n: int): (r: int)
    requires n > 0
    ensures index >= -n ==> 0 <= r < n
    ensures 0 <= index < n ==> r == index
    ensures -n <= index < 0 ==> r == index + n
    ensures n <= index < 2 * n ==> r == index - n
  {
    JsRem(index + n, n)
  }

  /** Below `-n` the remainder goes negative: the wrap is only sound for
      the indices the buttons can produce. */
  lemma GoToSlideNegativeBelowMinusN()
    ensures GoToSlide(-TestimonialCount - 1, TestimonialCount) == -1
  {
  }

  function Next(i: int, n: int): int requires n > 0 { GoToSlide(i + 1, n) }
  function Prev(i: int, n: int): int requires n > 0 { GoToSlide(i - 1, n) }

  /** Next from the last slide wraps to the first, previous from the first
      wraps to the last, and each undoes the other. */
  lemma NextPrevWrap(i: int, n: int)
    requires n > 0 && 0 <= i < n
    ensures 0 <= Next(i, n) < n && 0 <= Prev(i, n) < n
    ensures i == n - 1 ==> Next(i, n) == 0
    ensures i == 0 ==> Prev(i, n) == n - 1
    ensures i < n - 1 ==> Next(i, n) == i + 1
    ensures i > 0 ==> Prev(i, n) == i - 1
    ensures Prev(Next(i, n), n) == i && Next(Prev(i, n), n) == i
  {
  }

  /** Dot `k` selects slide `k`. */
  lemma DotSelects(k: int, n: int)
    requires n > 0 && 0 <= k < n
    ensures GoToSlide(k, n) == k
  {
  }

  /** Which dots are rendered active. */
  function ActiveDots(current: int, n: nat): (r: seq<bool>)
    ensures |r| == n
    ensures forall k :: 0 <= k < n ==> (r[k] <==> k == current)
  {
    seq(n, k => k == current)
  }

  /** Exactly one dot is active while the index is in range. */
  lemma ExactlyOneActiveDot(current: int, n: nat, j: int)
    requires 0 <= current < n
    ensures ActiveDots(current, n)[current]
    ensures 0 <= j < n && ActiveDots(current, n)[j] ==> j == current
  {
  }

  /** The section's state: the index and the generation of the interval
      that the effect keyed on `currentIndex` has installed. */
  datatype Section = Section(index: int, generation: nat)

  function InitialSection(): (r: Section)
    ensures r.index == 0
  {
    Section(0, 0)
  }

  /** Setting the index; the effect restarts the interval only when the
      index actually changes. */
  function SetIndex(s: Section, i: int): (r: Section)
    ensures r.index == i
    ensures r.generation == if i == s.index then s.generation else s.generation + 1
  {
    if i == s.index then s else Section(i, s.generation + 1)
  }

  datatype Click = PrevClick | NextClick | DotClick(k: int) | IntervalFires

  /** One click or tick: the index stays among the slides, and the
      interval restarts exactly when the index moves. */
  function SectionStep(s: Section, c: Click): (r: Section)
    ensures 0 <= s.index < TestimonialCount && (c.DotClick? ==> 0 <= c.k < TestimonialCount)
            ==> 0 <= r.index < TestimonialCount
    ensures r.generation == s.generation <==> r.index == s.index
    ensures r.generation == s.generation || r.generation == s.generation + 1
  {
    match c
    case PrevClick => SetIndex(s, GoToSlide(s.index - 1, TestimonialCount))
    case NextClick => SetIndex(s, GoToSlide(s.index + 1, TestimonialCount))
    case DotClick(k) => SetIndex(s, GoToSlide(k, TestimonialCount))
    case IntervalFires => SetIndex(s, GoToSlide(s.index + 1, TestimonialCount))
  }

  function SectionRun(s: Section, clicks: seq<Click>): Section
    decreases |clicks|
  {
    if |clicks| == 0 then s else SectionRun(SectionStep(s, clicks[0]), clicks[1..])
  }

  /** From the initial state, any sequence of clicks, dot clicks within the
      dots and auto-advances keeps the index in range. */
  lemma {:induction false} SectionIndexInRange(s: Section, clicks: seq<Click>)
    requires 0 <= s.index < TestimonialCount
    requires forall j :: 0 <= j < |clicks| && clicks[j].DotClick? ==> 0 <= clicks[j].k < TestimonialCount
    ensures 0 <= SectionRun(s, clicks).index < TestimonialCount
    decreases |clicks|
  {
    if |clicks| > 0 {
      assert 0 <= SectionStep(s, clicks[0]).index < TestimonialCount;
      SectionIndexInRange(SectionStep(s, clicks[0]), clicks[1..]);
    }
  }

  /** Auto-advance is the next button. */
  lemma AutoAdvanceIsNext(s: Section)
    ensures SectionStep(s, IntervalFires) == SectionStep(s, NextClick)
  {
  }

  /** Clicking the dot of the current slide leaves the running interval
      alone. */
  lemma CurrentDotKeepsInterval(s: Section)
    requires 0 <= s.index < TestimonialCount
    ensures SectionStep(s, DotClick(s.index)) == s
  {
  }

  // ------------------------------------------------------------ vanilla

  /** The script's `goToSlide`: below zero goes to the last slide, at or
      past the end goes to the first, anything else is kept. */
  function ClampWrap(index: int, n: int): (r: int)
    ensures index < 0 ==> r == n - 1
    ensures index >= n && index >= 0 ==> r == 0
    ensures 0 <= index < n ==> r == index
  {
    if index < 0 then n - 1 else if index >= n then 0 else index
  }

  lemma ClampWrapInRange(index: int, n: int)
    requires n > 0
    ensures 0 <= ClampWrap(index, n) < n
  {
  }

  /** The clamp is not a modular wrap: two past the last slide lands on the
      first, not the second. */
  lemma ClampWrapIsNotModular(n: int)
    requires n > 1
    ensures ClampWrap(n + 1, n) == 0 && GoToSlide(n + 1, n) == 1
  {
  }

  /** Which carousel elements the page provides. */
  datatype Found = Found(track: bool, nextButton: bool, prevButton: bool)

  /** The script's state: the index and the generation of the running
      auto-scroll interval. */
  datatype Script = Script(index: int, generation: nat)

  /** `initTestimonialCarousel`: nothing without the track or either
      button; otherwise slide 0 with the first interval started. */
  function InitScript(f: Found): (r: Option<Script>)
    ensures r.Some? <==> f.track && f.nextButton && f.prevButton
    ensures r.Some? ==> r.value.index == 0 && r.value.generation == 1
  {
    if f.track && f.nextButton && f.prevButton then Some(Script(0, 1)) else None
  }

  /** A button click moves and always restarts the interval. */
  function ScriptNext(s: Script, n: int): (r: Script)
    ensures r.index == ClampWrap(s.index + 1, n) && r.generation == s.generation + 1
  {
    Script(ClampWrap(s.index + 1, n), s.generation + 1)
  }

  function ScriptPrev(s: Script, n: int): (r: Script)
    ensures r.index == ClampWrap(s.index - 1, n) && r.generation == s.generation + 1
  {
    Script(ClampWrap(s.index - 1, n), s.generation + 1)
  }

  /** The interval firing moves forward without restarting itself. */
  function ScriptTick(s: Script, n: int): (r: Script)
    ensures r.index == ClampWrap(s.index + 1, n) && r.generation == s.generation
  {
    Script(ClampWrap(s.index + 1, n), s.generation)
  }

  /** Next from the last slide gives the first, previous from the first
      gives the last, and for in-range indices the two undo each other. */
  lemma ScriptNextPrev(s: Script, n: int)
    requires n > 0 && 0 <= s.index < n
    ensures s.index == n - 1 ==> ScriptNext(s, n).index == 0
    ensures s.index == 0 ==> ScriptPrev(s, n).index == n - 1
    ensures ScriptPrev(ScriptNext(s, n), n).index == s.index
    ensures ScriptNext(ScriptPrev(s, n), n).index == s.index
  {
  }

  /** On in-range indices the two carousels agree; they differ only on the
      indices the buttons never produce. */
  lemma CarouselsAgreeInRange(i: int, n: int)
    requires n > 0 && -1 <= i <= n
    ensures ClampWrap(i, n) == GoToSlide(i, n)
  {
  }
}
