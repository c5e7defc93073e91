/** The hero section's typewriter: an interval callback that reveals the headline
    one character per tick and clears its own interval once it has shown all of
    it, plus the split of the revealed text into a plain and a highlighted span.
    Ticks are explicit calls; the 50 ms period is not modelled. */
module HeroTypewriter {

  import opened MathUtil

  /** The two parts of the headline and the full text typed out. */
  const Part1: string := "> MENOS TAREAS MANUALES, "
  const Part2: string := "M\U{C1}S RENTABILIDAD."
  const HeroText: string := Part1 + Part2

  /** What the typewriter is at: the closure's counter, the published text and
      whether the interval is still set. */
  datatype Ticker = Ticker(index: nat, displayed: string, active: bool)

  /** Before the first tick: counter 0, the initial empty text, interval set. */
  const Initial: Ticker := Ticker(0, "", true)

  /** One firing of the interval: while the counter is at most the text length it
      publishes the prefix of that length and counts up; past it, it clears the
      interval and publishes nothing. A cleared interval does not fire. */
  function TickOnce(fullText: string, t: Ticker): (r: Ticker)
    ensures t.active && t.index <= |fullText| ==> r == Ticker(t.index + 1, fullText[..t.index], true)
    ensures t.active && t.index > |fullText| ==> r == Ticker(t.index, t.displayed, false)
    ensures !t.active ==> r == t
    ensures t.active && t.index <= |fullText| ==> r.displayed <= fullText && |r.displayed| == t.index
  {
    if !t.active then t
    else if t.index <= |fullText| then Ticker(t.index + 1, fullText[..t.index], true)
    else Ticker(t.index, t.displayed, false)
  }

  /** The typewriter after k firings of the interval since mount. */
  function AfterTicks(fullText: string, k: nat): (r: Ticker)
    ensures r.index <= k && r.index <= |fullText| + 1
    ensures r.displayed <= fullText
    decreases k
  {
    if k == 0 then Initial else TickOnce(fullText, AfterTicks(fullText, k - 1))
  }

  /** The text shown after k ticks: tick k publishes the prefix of length k - 1, so
      the first tick shows the empty text and the whole text appears at tick
      |fullText| + 1. */
  function Published(fullText: string, k: nat): (s: string)
    ensures s <= fullText
    ensures |s| == if k == 0 then 0 else Min(k - 1, |fullText|)
  {
    if k == 0 then "" else fullText[..Min(k - 1, |fullText|)]
  }

  /** After k ticks the counter is min(k, |fullText| + 1), the text shown is
      Published(fullText, k) and the interval is still set exactly while
      k <= |fullText| + 1. */
  lemma {:induction false} AfterTicksClosedForm(fullText: string, k: nat)
    ensures AfterTicks(fullText, k) == Ticker(Min(k, |fullText| + 1), Published(fullText, k), k <= |fullText| + 1)
    decreases k
  {
    if k > 0 {
      AfterTicksClosedForm(fullText, k - 1);
    }
  }

  /** The text shown is always a prefix of the full text and the counter never
      passes |fullText| + 1. */
  lemma DisplayedIsPrefix(fullText: string, k: nat)
    ensures AfterTicks(fullText, k).displayed <= fullText
    ensures AfterTicks(fullText, k).index <= |fullText| + 1
  {
    AfterTicksClosedForm(fullText, k);
  }

  /** What is shown only grows: an earlier text is a prefix of a later one. */
  lemma DisplayedGrows(fullText: string, j: nat, k: nat)
    requires j <= k
    ensures AfterTicks(fullText, j).displayed <= AfterTicks(fullText, k).displayed
  {
    AfterTicksClosedForm(fullText, j);
    AfterTicksClosedForm(fullText, k);
  }

  /** At tick |fullText| + 1 the whole text is shown with the interval still set;
      the next tick clears it, and from then on nothing changes. */
  lemma Completion(fullText: string, k: nat)
    ensures AfterTicks(fullText, |fullText| + 1) == Ticker(|fullText| + 1, fullText, true)
    ensures k >= |fullText| + 2 ==> AfterTicks(fullText, k) == Ticker(|fullText| + 1, fullText, false)
  {
    AfterTicksClosedForm(fullText, |fullText| + 1);
    AfterTicksClosedForm(fullText, k);
  }

  /** Typing "AB": the ticks show "", "A" and "AB", and the fourth clears the
      interval. */
  lemma TwoLetterRun()
    ensures AfterTicks("AB", 1) == Ticker(1, "", true)
    ensures AfterTicks("AB", 2) == Ticker(2, "A", true)
    ensures AfterTicks("AB", 3) == Ticker(3, "AB", true)
    ensures AfterTicks("AB", 4) == Ticker(3, "AB", false)
  {
    AfterTicksClosedForm("AB", 1);
    AfterTicksClosedForm("AB", 2);
    AfterTicksClosedForm("AB", 3);
    AfterTicksClosedForm("AB", 4);
  }

  /** The headline has 42 characters: it is complete at tick 43 and the interval
      clears itself at tick 44. */
  lemma HeroCompletes()
    ensures |HeroText| == 42
    ensures AfterTicks(HeroText, 43) == Ticker(43, HeroText, true)
    ensures AfterTicks(HeroText, 44) == Ticker(43, HeroText, false)
  {
    Completion(HeroText, 44);
  }

  /** `s.slice(0, n)` for n >= 0. */
  function SliceTo(s: string, n: nat): (r: string)
    ensures r <= s && |r| == Min(n, |s|)
  {
    s[..Min(n, |s|)]
  }

  /** `s.slice(n)` for n >= 0. */
  function SliceFrom(s: string, n: nat): (r: string)
    ensures SliceTo(s, n) + r == s
    ensures n >= |s| ==> r == ""
  {
    s[Min(n, |s|)..]
  }

  /** The two spans of the subtitle: the text cut at the boundary; together they
      are the text again, and the second is empty until the text passes the
      boundary. */
  function Spans(displayed: string, boundary: nat): (spans: (string, string))
    ensures spans.0 + spans.1 == displayed
    ensures spans.0 <= displayed && |spans.0| == Min(boundary, |displayed|)
    ensures |displayed| <= boundary ==> spans.1 == ""
  {
    (SliceTo(displayed, boundary), SliceFrom(displayed, boundary))
  }

  /** When the text shown is a prefix of part1 + part2, cutting it at |part1| gives
      a prefix of part1 and a prefix of part2. */
  lemma SpansFollowParts(part1: string, part2: string, displayed: string)
    requires displayed <= part1 + part2
    ensures Spans(displayed, |part1|).0 <= part1
    ensures Spans(displayed, |part1|).1 <= part2
  {
    var whole := part1 + part2;
    var (first, second) := Spans(displayed, |part1|);
    assert displayed == whole[..|displayed|];
    if |displayed| > |part1| {
      assert first == whole[..|part1|] == part1;
      assert second == whole[|part1|..|displayed|];
      assert whole[|part1|..] == part2;
    }
  }

  /** The headline's spans, at every tick, hold a prefix of each part. */
  lemma HeroSpans(k: nat)
    ensures Spans(AfterTicks(HeroText, k).displayed, |Part1|).0 <= Part1
    ensures Spans(AfterTicks(HeroText, k).displayed, |Part1|).1 <= Part2
  {
    DisplayedIsPrefix(HeroText, k);
    SpansFollowParts(Part1, Part2, AfterTicks(HeroText, k).displayed);
  }

  /** The running typewriter of one mounted hero section. */
  class Typewriter {
    const fullText: string
    var index: nat
    var displayed: string
    var active: bool
    /** The number of times the interval has fired. */
    ghost var ticks: nat

    function State(): Ticker
      reads this
    {
      Ticker(index, displayed, active)
    }

    /** The counter and the text are those after `ticks` firings; the interval can
        have been cleared early by the unmount cleanup, never set again. */
    ghost predicate Valid()
      reads this
    {
      var s := AfterTicks(fullText, ticks);
      index == s.index && displayed == s.displayed && (active ==> s.active)
    }

    /** Mount: the counter starts at 0, the text is empty and the interval is set. */
    constructor (fullText: string)
      ensures Valid()
      ensures this.fullText == fullText && State() == Initial && ticks == 0
    {
      this.fullText := fullText;
      index := 0;
      displayed := "";
      active := true;
      ticks := 0;
    }

    /** One period of the interval. While the interval is set it fires once
        (TickOnce); after the self-clear or the cleanup nothing happens. */
    method Tick()
      requires Valid()
      modifies this
      ensures Valid()
      ensures old(active) ==> State() == TickOnce(fullText, old(State())) && ticks == old(ticks) + 1
      ensures !old(active) ==> State() == old(State()) && ticks == old(ticks)
      ensures displayed <= fullText && index <= |fullText| + 1
      ensures old(displayed) <= displayed
    {
      AfterTicksClosedForm(fullText, ticks);
      if active {
        if index <= |fullText| {
          displayed := fullText[..index];
          index := index + 1;
        } else {
          active := false;
        }
        ticks := ticks + 1;
        AfterTicksClosedForm(fullText, ticks);
      }
    }

    /** The effect's cleanup on unmount: clears the interval; the counter and the
        text stay as they are. Clearing twice is harmless. */
    method Cancel()
      requires Valid()
      modifies this
      ensures Valid()
      ensures !active && index == old(index) && displayed == old(displayed) && ticks == old(ticks)
    {
      active := false;
    }
  }
}
