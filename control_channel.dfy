/**
 * The control channel hook (src/hooks/useControlChannel.ts): the listener
 * that folds incoming control messages into a local reflection of the slide
 * position and fires one callback per message, and the sender that writes a
 * message to the broadcast channel and to the fallback storage slot, which a
 * timer clears 100 ms later.
 */
module ControlChannel {
  import opened Wrappers

  /** The `action` tag; `Unrecognised` stands for any other string on the wire. */
  datatype Action = Next | Prev | Goto | Fullscreen | Sync | Unrecognised(name: string)

  /** The five tags the listener handles. */
  const HandledTags := {"next", "prev", "goto", "fullscreen", "sync"}

  /** An `Unrecognised` action never carries one of the handled tags. */
  predicate Canonical(a: Action) {
    a.Unrecognised? ==> a.name !in HandledTags
  }

  /** The tag on the wire. */
  function TagOf(a: Action): string {
    match a
    case Next => "next"
    case Prev => "prev"
    case Goto => "goto"
    case Fullscreen => "fullscreen"
    case Sync => "sync"
    case Unrecognised(name) => name
  }

  /** The action a wire tag stands for: the `===` comparisons of the listener. */
  function ActionOf(tag: string): (a: Action)
    ensures Canonical(a)
    ensures a.Unrecognised? <==> tag !in HandledTags
    ensures TagOf(a) == tag
  {
    if tag == "sync" then Sync
    else if tag == "next" then Next
    else if tag == "prev" then Prev
    else if tag == "goto" then Goto
    else if tag == "fullscreen" then Fullscreen
    else Unrecognised(tag)
  }

  /** Each canonical action is the reading of its own tag, so a wire message has one representation. */
  lemma ActionOfTagOf(a: Action)
    requires Canonical(a)
    ensures ActionOf(TagOf(a)) == a
  {
  }

  /** The message shape `{ action, slide?, totalSlides? }`. */
  datatype Msg = Msg(action: Action, slide: Option<int>, totalSlides: Option<int>)

  /** The callback a message asks the listener's owner to run, if registered. */
  datatype Event =
    | NoEvent
    | OnSync(slide: int, totalSlides: int)
    | OnNext(slide: int)
    | OnPrev(slide: int)
    | OnGoToSlide(slide: int)
    | OnFullscreen

  /** The listener's reflection of the presenter's slide state. */
  datatype Reflection = Reflection(currentSlide: int, totalSlides: int)

  const InitialSlide := 1
  const InitialTotal := 10
  const SyncDefaultSlide := 1
  const SyncDefaultTotal := 10

  /**
   * The listener is installed once, with an empty dependency list, so the
   * `currentSlide` its closure reads is the one of the first render.
   */
  const CapturedSlide := InitialSlide

  /** Broadcast topic and fallback storage key share this name. */
  const ChannelName := "dualview-control"
  const ClearDelay := 100

  /** JavaScript truthiness of an optional number: present and non-zero. */
  predicate Truthy(n: Option<int>) {
    n.Some? && n.value != 0
  }

  /** `control.slide ?? currentSlide + delta`, with the captured slide. */
  function Target(m: Msg, delta: int): int {
    m.slide.GetOr(CapturedSlide + delta)
  }

  /** The callback `handleMessage` fires for `m`. */
  function Fired(m: Msg): Event {
    match m.action
    case Sync => OnSync(m.slide.GetOr(SyncDefaultSlide), m.totalSlides.GetOr(SyncDefaultTotal))
    case Next => OnNext(Target(m, 1))
    case Prev => OnPrev(Target(m, -1))
    case Goto => if Truthy(m.slide) then OnGoToSlide(m.slide.value) else NoEvent
    case Fullscreen => OnFullscreen
    case Unrecognised(_) => NoEvent
  }

  /** The reflection after `handleMessage` has processed `m`. */
  function Reflect(r: Reflection, m: Msg): Reflection {
    match m.action
    case Sync =>
      Reflection(if Truthy(m.slide) then m.slide.value else r.currentSlide,
                 if Truthy(m.totalSlides) then m.totalSlides.value else r.totalSlides)
    case Next => r.(currentSlide := Target(m, 1))
    case Prev => r.(currentSlide := Target(m, -1))
    case Goto => if Truthy(m.slide) then r.(currentSlide := m.slide.value) else r
    case Fullscreen => r
    case Unrecognised(_) => r
  }

  /** Processing a sequence of messages in arrival order. */
  function Replay(r: Reflection, ms: seq<Msg>): Reflection
    decreases |ms|
  {
    if ms == [] then r else Replay(Reflect(r, ms[0]), ms[1..])
  }

  /** The slide number a single message writes into the reflection, if any. */
  function SlideWritten(m: Msg): Option<int> {
    match m.action
    case Next => Some(Target(m, 1))
    case Prev => Some(Target(m, -1))
    case Goto => if Truthy(m.slide) then m.slide else None
    case Sync => if Truthy(m.slide) then m.slide else None
    case Fullscreen => None
    case Unrecognised(_) => None
  }

  /** The slide number written by the last message of `ms` that writes one. */
  function LastSlideWritten(ms: seq<Msg>): Option<int>
    decreases |ms|
  {
    if ms == [] then None
    else if SlideWritten(ms[|ms| - 1]).Some? then SlideWritten(ms[|ms| - 1])
    else LastSlideWritten(ms[..|ms| - 1])
  }

  /** The total a message writes into the reflection, if any. */
  function TotalWritten(m: Msg): Option<int> {
    if m.action == Sync && Truthy(m.totalSlides) then m.totalSlides else None
  }

  function LastTotalWritten(ms: seq<Msg>): Option<int>
    decreases |ms|
  {
    if ms == [] then None
    else if TotalWritten(ms[|ms| - 1]).Some? then TotalWritten(ms[|ms| - 1])
    else LastTotalWritten(ms[..|ms| - 1])
  }

  /** A sync writes only the fields it carries as non-zero numbers, so applying it twice is applying it once. */
  lemma SyncIdempotent(r: Reflection, m: Msg)
    requires m.action == Sync
    ensures Reflect(Reflect(r, m), m) == Reflect(r, m)
    ensures Truthy(m.slide) ==> Reflect(r, m).currentSlide == m.slide.value
    ensures !Truthy(m.slide) ==> Reflect(r, m).currentSlide == r.currentSlide
    ensures Truthy(m.totalSlides) ==> Reflect(r, m).totalSlides == m.totalSlides.value
    ensures !Truthy(m.totalSlides) ==> Reflect(r, m).totalSlides == r.totalSlides
    ensures Fired(m) == OnSync(m.slide.GetOr(1), m.totalSlides.GetOr(10))
  {
  }

  /**
   * Without a slide payload, next and prev resolve against the captured
   * slide 1, whatever the reflection holds: next always targets 2, prev 0.
   */
  lemma StaleDefaultTargets(r: Reflection, m: Msg)
    requires m.slide == None
    ensures m.action == Next ==> Fired(m) == OnNext(2) && Reflect(r, m).currentSlide == 2
    ensures m.action == Prev ==> Fired(m) == OnPrev(0) && Reflect(r, m).currentSlide == 0
    ensures m.action == Goto ==> Fired(m) == NoEvent && Reflect(r, m) == r
  {
  }

  /**
   * Next, prev and a goto with a non-zero slide set the reflection to the
   * very number passed to the callback, with no range check; the total is
   * left alone.
   */
  lemma NavigationReflectsCallbackTarget(r: Reflection, m: Msg)
    requires m.action == Next || m.action == Prev || m.action == Goto
    ensures Reflect(r, m).totalSlides == r.totalSlides
    ensures Fired(m).OnNext? ==> Reflect(r, m).currentSlide == Fired(m).slide
    ensures Fired(m).OnPrev? ==> Reflect(r, m).currentSlide == Fired(m).slide
    ensures Fired(m).OnGoToSlide? ==> Reflect(r, m).currentSlide == Fired(m).slide
    ensures Fired(m) == NoEvent <==> m.action == Goto && !Truthy(m.slide)
    ensures Fired(m) == NoEvent ==> Reflect(r, m) == r
  {
  }

  /** Fullscreen and unrecognised actions leave the reflection as it is. */
  lemma OtherActionsKeepReflection(r: Reflection, m: Msg)
    requires m.action == Fullscreen || m.action.Unrecognised?
    ensures Reflect(r, m) == r
    ensures Fired(m) == (if m.action == Fullscreen then OnFullscreen else NoEvent)
  {
  }

  lemma {:induction false} ReplaySnoc(r: Reflection, ms: seq<Msg>, m: Msg)
    ensures Replay(r, ms + [m]) == Reflect(Replay(r, ms), m)
    decreases |ms|
  {
    if ms == [] {
      assert [m][1..] == [];
    } else {
      assert (ms + [m])[1..] == ms[1..] + [m];
      ReplaySnoc(Reflect(r, ms[0]), ms[1..], m);
    }
  }

  /**
   * Last writer wins: after any sequence of messages the reflection holds the
   * slide number and the total of the last message that wrote each, or the
   * starting values when none did.
   */
  lemma {:induction false} ReplayLastWriterWins(r: Reflection, ms: seq<Msg>)
    ensures Replay(r, ms).currentSlide == LastSlideWritten(ms).GetOr(r.currentSlide)
    ensures Replay(r, ms).totalSlides == LastTotalWritten(ms).GetOr(r.totalSlides)
    decreases |ms|
  {
    if ms != [] {
      var init, last := ms[..|ms| - 1], ms[|ms| - 1];
      assert ms == init + [last];
      ReplaySnoc(r, init, last);
      ReplayLastWriterWins(r, init);
    }
  }

  /** The receiving side: the hook's reflection state and its message handler. */
  class Listener {
    var currentSlide: int
    var totalSlides: int

    function State(): Reflection
      reads this
    {
      Reflection(currentSlide, totalSlides)
    }

    constructor ()
      ensures State() == Reflection(InitialSlide, InitialTotal)
    {
      currentSlide, totalSlides := InitialSlide, InitialTotal;
    }

    /** `handleMessage`: update the reflection and report the callback fired. */
    method HandleMessage(m: Msg) returns (ev: Event)
      modifies this
      ensures State() == Reflect(old(State()), m)
      ensures ev == Fired(m)
    {
      ev := NoEvent;
      if m.action == Sync {
        if Truthy(m.slide) { currentSlide := m.slide.value; }
        if Truthy(m.totalSlides) { totalSlides := m.totalSlides.value; }
        ev := OnSync(m.slide.GetOr(SyncDefaultSlide), m.totalSlides.GetOr(SyncDefaultTotal));
      } else if m.action == Next {
        var target := m.slide.GetOr(CapturedSlide + 1);
        currentSlide := target;
        ev := OnNext(target);
      } else if m.action == Prev {
        var target := m.slide.GetOr(CapturedSlide - 1);
        currentSlide := target;
        ev := OnPrev(target);
      } else if m.action == Goto {
        if Truthy(m.slide) {
          currentSlide := m.slide.value;
          ev := OnGoToSlide(m.slide.value);
        }
      } else if m.action == Fullscreen {
        ev := OnFullscreen;
      }
    }
  }

  /** The scheduled removals still pending at time `now`: those due later. */
  function Remaining(pending: seq<int>, now: int): (r: seq<int>)
    ensures forall t :: t in r <==> t in pending && t > now
    ensures forall t :: multiset(r)[t] == if t > now then multiset(pending)[t] else 0
    ensures |r| <= |pending|
    decreases |pending|
  {
    if pending == [] then []
    else
      assert pending == [pending[0]] + pending[1..];
      if pending[0] > now then [pending[0]] + Remaining(pending[1..], now)
      else Remaining(pending[1..], now)
  }

  /** The earliest pending removal time. */
  function Earliest(pending: seq<int>): (e: int)
    requires pending != []
    ensures e in pending
    ensures forall t :: t in pending ==> e <= t
    decreases |pending|
  {
    if |pending| == 1 then pending[0]
    else
      var rest := Earliest(pending[1..]);
      assert pending == [pending[0]] + pending[1..];
      if pending[0] <= rest then pending[0] else rest
  }

  /** Before the earliest removal is due, every removal is still pending. */
  lemma {:induction false} NothingDueKeepsAll(pending: seq<int>, now: int)
    requires forall t :: t in pending ==> now < t
    ensures Remaining(pending, now) == pending
    decreases |pending|
  {
    if pending != [] {
      assert pending == [pending[0]] + pending[1..];
      assert pending[0] in pending;
      assert forall t :: t in pending[1..] ==> t in pending;
      NothingDueKeepsAll(pending[1..], now);
    }
  }

  /** Once the earliest removal is due, at least one removal has fired. */
  lemma {:induction false} EarliestDueFires(pending: seq<int>, now: int)
    requires pending != [] && Earliest(pending) <= now
    ensures |Remaining(pending, now)| < |pending|
    decreases |pending|
  {
    if pending[0] > now {
      EarliestDueFires(pending[1..], now);
    }
  }

  /** The sending side: `sendControl` and the timers it schedules. */
  class Sender {
    /** Messages posted on the broadcast channel, in order. */
    var posted: seq<Msg>
    /** The fallback storage slot under `ChannelName`. */
    var slot: Option<Msg>
    /** Fire times of the scheduled removals of the slot. */
    var pending: seq<int>
    /** The current time in milliseconds. */
    var clock: int

    ghost predicate Valid()
      reads this
    {
      forall t :: t in pending ==> clock < t
    }

    /**
     * Mounting schedules nothing and leaves the slot alone: it may still hold
     * a message another page wrote and whose removal never ran.
     */
    constructor (now: int, initial: Option<Msg>, scheduled: seq<int>)
      requires forall t :: t in scheduled ==> now < t
      ensures Valid()
      ensures posted == [] && slot == initial && pending == scheduled && clock == now
    {
      posted, slot, pending, clock := [], initial, scheduled, now;
    }

    /**
     * `sendControl(action, slide)`: post `{action, slide}` (never a total),
     * overwrite the slot with it, and schedule an unconditional removal.
     */
    method SendControl(action: Action, slide: Option<int>)
      requires Valid()
      modifies this
      ensures Valid()
      ensures posted == old(posted) + [Msg(action, slide, None)]
      ensures slot == Some(Msg(action, slide, None))
      ensures pending == old(pending) + [clock + ClearDelay]
      ensures clock == old(clock)
    {
      var m := Msg(action, slide, None);
      posted := posted + [m];
      slot := Some(m);
      pending := pending + [clock + ClearDelay];
    }

    /**
     * Time passes to `now`: every removal due by then fires and empties the
     * slot, whichever send scheduled it.
     */
    method Advance(now: int)
      requires Valid() && clock <= now
      modifies this
      ensures Valid()
      ensures clock == now && posted == old(posted)
      ensures pending == Remaining(old(pending), now)
      ensures slot == if |pending| < |old(pending)| then None else old(slot)
    {
      var rest := Remaining(pending, now);
      if |rest| < |pending| {
        slot := None;
      }
      pending, clock := rest, now;
    }
  }

  /**
   * A sync sent over the fallback slot is readable there until its removal
   * fires 100 ms later, and the slot is empty afterwards.
   */
  method FallbackDelivery() returns (during: Option<Msg>, after: Option<Msg>)
    ensures during == Some(Msg(Sync, Some(3), None))
    ensures after == None
  {
    var s := new Sender(0, None, []);
    s.SendControl(Sync, Some(3));
    NothingDueKeepsAll(s.pending, 99);
    s.Advance(99);
    during := s.slot;
    EarliestDueFires(s.pending, 100);
    s.Advance(100);
    after := s.slot;
  }

  /**
   * A message left by a page that closed before its removal ran stays in
   * the slot for as long as this page sends nothing.
   */
  method LeftoverOutlivesMount(now: int, later: int, leftover: Msg) returns (read: Option<Msg>)
    requires now <= later
    ensures read == Some(leftover)
  {
    var s := new Sender(now, Some(leftover), []);
    s.Advance(later);
    read := s.slot;
  }

  /**
   * A message another page sent at 0 ms, with this page mounted at 50 ms:
   * the other page's removal still empties the slot at 100 ms.
   */
  method OtherPagesRemovalStillFires(m: Msg) returns (during: Option<Msg>, after: Option<Msg>)
    ensures during == Some(m)
    ensures after == None
  {
    var s := new Sender(50, Some(m), [ClearDelay]);
    NothingDueKeepsAll(s.pending, 99);
    s.Advance(99);
    during := s.slot;
    EarliestDueFires(s.pending, 100);
    s.Advance(100);
    after := s.slot;
  }

  /**
   * The removal scheduled by an older send clears a newer message: the slot
   * keeps the latest message only until the earliest pending removal fires.
   */
  method OlderClearDropsNewerMessage() returns (before: Option<Msg>, at: Option<Msg>, stillPending: nat)
    ensures before == Some(Msg(Next, Some(2), None))
    ensures at == None
    ensures stillPending == 1
  {
    var s := new Sender(0, None, []);
    s.SendControl(Next, None);
    s.Advance(50);
    s.SendControl(Next, Some(2));
    NothingDueKeepsAll(s.pending, 99);
    s.Advance(99);
    before := s.slot;
    EarliestDueFires(s.pending, 100);
    s.Advance(100);
    at := s.slot;
    stillPending := |s.pending|;
  }
}
