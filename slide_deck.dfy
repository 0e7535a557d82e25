/**
 * The presenter's slide state machine (src/pages/main-page.tsx): the state
 * cells `currentSlide` and `direction`, the slide count of the placeholder
 * deck, the remote handlers the control channel calls and the local keyboard
 * handlers.
 */
module SlideDeck {
  import opened Wrappers
  import CC = ControlChannel

  datatype SlideData = SlideData(title: string, content: string)

  /** The placeholder deck whose length is the presenter's slide count. */
  const PlaceholderSlides: seq<SlideData> := [
    SlideData("Welcome", "DualView Presentation"),
    SlideData("Slide 2", "This is a placeholder slide"),
    SlideData("Slide 3", "Add your content here"),
    SlideData("Slide 4", "Control from your phone"),
    SlideData("Slide 5", "Thank you!")
  ]

  /** A snapshot of the presenter's slide state. */
  datatype Slides = Slides(current: int, direction: int, total: int)

  /** The two-sided bound `1 <= currentSlide <= totalSlides`. */
  predicate InRange(s: Slides) {
    1 <= s.current <= s.total
  }

  /** `handleNext(slide?)`: the guard tests the resolved target against the total only. */
  function Next(s: Slides, slide: Option<int>): Slides {
    var target := slide.GetOr(s.current);
    if target < s.total then s.(direction := 1, current := target) else s
  }

  /** `handlePrev(slide?)`: the guard tests the resolved target against 1 only. */
  function Prev(s: Slides, slide: Option<int>): Slides {
    var target := slide.GetOr(s.current);
    if target > 1 then s.(direction := -1, current := target) else s
  }

  /** `handleGoToSlide(slide)`. */
  function GoTo(s: Slides, slide: int): Slides {
    if 1 <= slide <= s.total then s.(direction := if slide > s.current then 1 else -1, current := slide)
    else s
  }

  /** `handleLocalNext`, bound to the keyboard. */
  function LocalNext(s: Slides): Slides {
    if s.current < s.total then s.(direction := 1, current := s.current + 1) else s
  }

  /** `handleLocalPrev`, bound to the keyboard. */
  function LocalPrev(s: Slides): Slides {
    if s.current > 1 then s.(direction := -1, current := s.current - 1) else s
  }

  /**
   * The presenter registers next, prev, goto and fullscreen callbacks with
   * its control channel listener and no sync callback; fullscreen touches no
   * slide state.
   */
  function Deliver(s: Slides, ev: CC.Event): Slides {
    match ev
    case OnNext(t) => Next(s, Some(t))
    case OnPrev(t) => Prev(s, Some(t))
    case OnGoToSlide(t) => GoTo(s, t)
    case OnSync(_, _) => s
    case OnFullscreen => s
    case NoEvent => s
  }

  /**
   * An accepted remote next sets direction +1 and the resolved target, which
   * then lies strictly below the total; a rejected one changes nothing.
   * The total never changes.
   */
  lemma NextOutcome(s: Slides, slide: Option<int>)
    ensures var target := slide.GetOr(s.current);
      if target < s.total then Next(s, slide) == Slides(target, 1, s.total) else Next(s, slide) == s
    ensures Next(s, slide) == s || (Next(s, slide).direction == 1 && Next(s, slide).current < s.total)
    ensures Next(s, slide).total == s.total
  {
  }

  /**
   * An accepted remote prev sets direction -1 and the resolved target, which
   * then lies strictly above 1; a rejected one changes nothing.
   */
  lemma PrevOutcome(s: Slides, slide: Option<int>)
    ensures var target := slide.GetOr(s.current);
      if target > 1 then Prev(s, slide) == Slides(target, -1, s.total) else Prev(s, slide) == s
    ensures Prev(s, slide) == s || (Prev(s, slide).direction == -1 && Prev(s, slide).current > 1)
    ensures Prev(s, slide).total == s.total
  {
  }

  /**
   * The remote guards are one-sided: from any in-range state a next to 0 or
   * to a slide behind the current one is accepted with direction +1, and a
   * prev past the last slide is accepted, so neither keeps the bound.
   */
  lemma RemoteGuardsAreOneSided(s: Slides, t: int)
    requires InRange(s)
    ensures t <= 0 ==> !InRange(Next(s, Some(t))) && Next(s, Some(t)).direction == 1
    ensures 1 <= t < s.current ==> Next(s, Some(t)).current == t && Next(s, Some(t)).direction == 1
    ensures t > s.total ==> !InRange(Prev(s, Some(t))) && Prev(s, Some(t)).direction == -1
  {
  }

  /**
   * Because the guard tests the already-moved target, a remote next never
   * lands on the last slide and a remote prev never lands on the first.
   */
  lemma RemoteNeverReachesEnds(s: Slides, slide: Option<int>)
    ensures Next(s, slide).current == s.total ==> Next(s, slide) == s
    ensures Prev(s, slide).current == 1 ==> Prev(s, slide) == s
  {
  }

  /**
   * Goto accepts exactly the targets in `[1, total]`, derives its direction
   * from the current slide (+1 only when moving forward), and is a no-op
   * otherwise.
   */
  lemma GoToOutcome(s: Slides, t: int)
    ensures 1 <= t <= s.total ==> GoTo(s, t) == Slides(t, if t > s.current then 1 else -1, s.total)
    ensures !(1 <= t <= s.total) ==> GoTo(s, t) == s
    ensures InRange(s) ==> InRange(GoTo(s, t))
    ensures GoTo(s, 0) == s && GoTo(s, s.total + 1) == s
  {
  }

  /** The direction examples: 2 to 4 is forward, 2 to 1 backward, a goto to the current slide backward. */
  lemma GoToDirectionExamples()
    ensures GoTo(Slides(2, 0, 5), 4).direction == 1
    ensures GoTo(Slides(2, 0, 5), 1).direction == -1
    ensures GoTo(Slides(2, 1, 5), 2) == Slides(2, -1, 5)
  {
  }

  /**
   * The keyboard moves step by exactly one, keep the bound, and are no-ops
   * on the last (next) and first (prev) slide.
   */
  lemma LocalMovesStepByOne(s: Slides)
    requires InRange(s)
    ensures InRange(LocalNext(s)) && InRange(LocalPrev(s))
    ensures s.current < s.total ==> LocalNext(s) == Slides(s.current + 1, 1, s.total)
    ensures s.current == s.total ==> LocalNext(s) == s
    ensures s.current > 1 ==> LocalPrev(s) == Slides(s.current - 1, -1, s.total)
    ensures s.current == 1 ==> LocalPrev(s) == s
  {
  }

  /**
   * Outside the range, where remote messages can leave the presenter, the
   * keyboard moves still step by one toward it: next does nothing at or past
   * the last slide and steps up below the first; prev steps down past the
   * last slide and does nothing at or below the first.
   */
  lemma LocalMovesOutOfRange(s: Slides)
    ensures s.current >= s.total ==> LocalNext(s) == s
    ensures s.current < 1 <= s.total ==> LocalNext(s) == Slides(s.current + 1, 1, s.total)
    ensures s.current > s.total && s.current > 1 ==> LocalPrev(s) == Slides(s.current - 1, -1, s.total)
    ensures s.current <= 1 ==> LocalPrev(s) == s
  {
  }

  /** The presenter-side operations that keep the bound. */
  datatype Command = GoToCmd(slide: int) | LocalNextCmd | LocalPrevCmd

  function Apply(s: Slides, c: Command): Slides {
    match c
    case GoToCmd(t) => GoTo(s, t)
    case LocalNextCmd => LocalNext(s)
    case LocalPrevCmd => LocalPrev(s)
  }

  function Run(s: Slides, cs: seq<Command>): Slides
    decreases |cs|
  {
    if cs == [] then s else Run(Apply(s, cs[0]), cs[1..])
  }

  /** Any sequence of gotos and keyboard moves keeps `1 <= current <= total`, and the total is fixed. */
  lemma {:induction false} RunKeepsRange(s: Slides, cs: seq<Command>)
    requires InRange(s)
    ensures InRange(Run(s, cs)) && Run(s, cs).total == s.total
    decreases |cs|
  {
    if cs != [] {
      var s' := Apply(s, cs[0]);
      match cs[0] {
        case GoToCmd(t) => GoToOutcome(s, t);
        case LocalNextCmd => LocalMovesStepByOne(s);
        case LocalPrevCmd => LocalMovesStepByOne(s);
      }
      RunKeepsRange(s', cs[1..]);
    }
  }

  /** The presenter's state after its listener has processed `ms` in order. */
  function Receive(s: Slides, ms: seq<CC.Msg>): Slides
    decreases |ms|
  {
    if ms == [] then s else Receive(Deliver(s, CC.Fired(ms[0])), ms[1..])
  }

  /**
   * Messages without a slide payload keep the presenter in range: with the
   * stale captured slide, next always targets slide 2 and prev slide 0,
   * which the prev guard rejects, and a goto without a slide fires nothing.
   */
  lemma {:induction false} PayloadFreeMessagesKeepRange(s: Slides, ms: seq<CC.Msg>)
    requires InRange(s)
    requires forall k :: 0 <= k < |ms| ==> ms[k].slide == None
    ensures InRange(Receive(s, ms)) && Receive(s, ms).total == s.total
    decreases |ms|
  {
    if ms != [] {
      var m := ms[0];
      var s' := Deliver(s, CC.Fired(m));
      assert m.slide == None;
      assert InRange(s') by {
        match m.action {
          case Next => assert s' == Next(s, Some(2));
          case Prev => assert s' == Prev(s, Some(0));
          case Goto =>
          case Sync =>
          case Fullscreen =>
          case Unrecognised(_) =>
        }
      }
      RemainingPayloadFree(ms);
      PayloadFreeMessagesKeepRange(s', ms[1..]);
    }
  }

  lemma RemainingPayloadFree(ms: seq<CC.Msg>)
    requires ms != []
    requires forall k :: 0 <= k < |ms| ==> ms[k].slide == None
    ensures forall k :: 0 <= k < |ms[1..]| ==> ms[1..][k].slide == None
  {
    forall k | 0 <= k < |ms[1..]| ensures ms[1..][k].slide == None {
      assert ms[1..][k] == ms[k + 1];
    }
  }

  /**
   * Messages with a slide payload can break the bound: a next to slide 0 or
   * a prev to slide 9 from the initial state is accepted.
   */
  lemma PayloadMessagesCanLeaveRange()
    ensures Receive(Slides(1, 0, 5), [CC.Msg(CC.Next, Some(0), None)]) == Slides(0, 1, 5)
    ensures Receive(Slides(1, 0, 5), [CC.Msg(CC.Prev, Some(9), None)]) == Slides(9, -1, 5)
  {
    assert [CC.Msg(CC.Next, Some(0), None)][1..] == [];
    assert [CC.Msg(CC.Prev, Some(9), None)][1..] == [];
  }

  /** The presenter page's slide state. */
  class Presenter {
    var currentSlide: int
    var direction: int
    const totalSlides: int

    function State(): Slides
      reads this
    {
      Slides(currentSlide, direction, totalSlides)
    }

    /** Initial state: slide 1, no direction, as many slides as the placeholder deck. */
    constructor ()
      ensures State() == Slides(1, 0, |PlaceholderSlides|)
      ensures totalSlides == 5 && InRange(State())
    {
      currentSlide, direction := 1, 0;
      totalSlides := |PlaceholderSlides|;
    }

    method HandleNext(slide: Option<int>)
      modifies this
      ensures State() == Next(old(State()), slide)
    {
      var target := slide.GetOr(currentSlide);
      if target < totalSlides {
        direction := 1;
        currentSlide := target;
      }
    }

    method HandlePrev(slide: Option<int>)
      modifies this
      ensures State() == Prev(old(State()), slide)
    {
      var target := slide.GetOr(currentSlide);
      if target > 1 {
        direction := -1;
        currentSlide := target;
      }
    }

    method HandleGoToSlide(slide: int)
      modifies this
      ensures State() == GoTo(old(State()), slide)
      ensures old(InRange(State())) ==> InRange(State())
    {
      if 1 <= slide <= totalSlides {
        direction := if slide > currentSlide then 1 else -1;
        currentSlide := slide;
      }
    }

    method HandleLocalNext()
      modifies this
      ensures State() == LocalNext(old(State()))
      ensures old(InRange(State())) ==> InRange(State())
    {
      if currentSlide < totalSlides {
        direction := 1;
        currentSlide := currentSlide + 1;
      }
    }

    method HandleLocalPrev()
      modifies this
      ensures State() == LocalPrev(old(State()))
      ensures old(InRange(State())) ==> InRange(State())
    {
      if currentSlide > 1 {
        direction := -1;
        currentSlide := currentSlide - 1;
      }
    }

    /** One control-channel callback, dispatched to the handler registered for it. */
    method OnControl(ev: CC.Event)
      modifies this
      ensures State() == Deliver(old(State()), ev)
    {
      match ev
      case OnNext(t) => HandleNext(Some(t));
      case OnPrev(t) => HandlePrev(Some(t));
      case OnGoToSlide(t) => HandleGoToSlide(t);
      case OnSync(_, _) =>
      case OnFullscreen =>
      case NoEvent =>
    }
  }
}
