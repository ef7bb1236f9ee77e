/** The EasyLink button: both edges interrupt, a timer tells a long press. */
module Button {
  const WORD := 0x1_0000_0000
  type word = x: int | 0 <= x < 0x1_0000_0000
  const RESTORE_DEFAULT_TIMEOUT := 3000

  /** A 32-bit word read as a C `int`. */
  function Signed(x: word): int { if x < 0x8000_0000 then x else x - WORD }

  /** Interrupts and timer expiries, at a true time in milliseconds. An edge interrupt is a press
      or a release by the level its handler reads, so that presses need not alternate with
      releases. */
  datatype Event = Press(at: nat) | Release(at: nat) | Timeout(at: nat)

  datatype Callback = Clicked | LongPressed

  /** The millisecond clock is `offset` ahead of true time and wraps. The timer expires at its due
      time, is served at most `slack` later, and may be periodic. */
  datatype World = World(offset: nat, slack: nat, periodic: bool) {
    function Clock(at: nat): word { (offset + at) % WORD }

    predicate Sane() { RESTORE_DEFAULT_TIMEOUT + slack < WORD }
  }

  /** `_default_start_time` and the timer. */
  datatype State = State(start: word, running: bool, due: nat)

  const IDLE := State(0, false, 0)

  function Interval(w: World, start: word, at: nat): int {
    Signed((w.Clock(at) + 1 - start) % WORD)
  }

  function Step(w: World, s: State, e: Event): (State, seq<Callback>) {
    match e
    case Press(at) => (State((w.Clock(at) + 1) % WORD, true, at + RESTORE_DEFAULT_TIMEOUT), [])
    case Release(at) =>
      var interval := Interval(w, s.start, at);
      (s.(start := 0, running := false),
       if s.start != 0 && 50 < interval < RESTORE_DEFAULT_TIMEOUT then [Clicked] else [])
    case Timeout(at) => (State(0, w.periodic, s.due + RESTORE_DEFAULT_TIMEOUT), [LongPressed])
  }

  class EasyLinkButton {
    const world: World
    var defaultStartTime: word
    var timerRunning: bool
    var timerDue: nat
    var callbacks: seq<Callback>

    constructor (world: World)
      ensures this.world == world && View() == IDLE && callbacks == []
    {
      this.world := world;
      defaultStartTime, timerRunning, timerDue, callbacks := 0, false, 0, [];
    }

    function View(): State
      reads this
    {
      State(defaultStartTime, timerRunning, timerDue)
    }

    /** `_button_EL_irq_handler`; `low` is the level of the pin. */
    method IrqHandler(low: bool, at: nat)
      modifies this
      ensures var (s, c) := Step(world, old(View()), if low then Press(at) else Release(at));
              View() == s && callbacks == old(callbacks) + c
    {
      if low {
        defaultStartTime := (world.Clock(at) + 1) % WORD;
        timerRunning, timerDue := true, at + RESTORE_DEFAULT_TIMEOUT;
      } else {
        var interval := Signed((world.Clock(at) + 1 - defaultStartTime) % WORD);
        if defaultStartTime != 0 && interval > 50 && interval < RESTORE_DEFAULT_TIMEOUT {
          callbacks := callbacks + [Clicked];
        }
        timerRunning := false;
        defaultStartTime := 0;
      }
    }

    /** `_button_EL_Timeout_handler`, called by the timer. */
    method TimeoutHandler(at: nat)
      modifies this
      ensures var (s, c) := Step(world, old(View()), Timeout(at));
              View() == s && callbacks == old(callbacks) + c
    {
      timerRunning, timerDue := world.periodic, timerDue + RESTORE_DEFAULT_TIMEOUT;
      defaultStartTime := 0;
      callbacks := callbacks + [LongPressed];
    }

    /** A whole trace of interrupts. */
    method Live(events: seq<Event>)
      requires View() == IDLE && callbacks == []
      modifies this
      ensures View() == After(world, events) && callbacks == Heard(world, events)
    {
      for i := 0 to |events|
        invariant View() == After(world, events[..i]) && callbacks == Heard(world, events[..i])
      {
        AfterStep(world, events, i);
        match events[i] {
          case Press(at) => IrqHandler(true, at);
          case Release(at) => IrqHandler(false, at);
          case Timeout(at) => TimeoutHandler(at);
        }
      }
      assert events[..|events|] == events;
    }
  }

  function After(w: World, events: seq<Event>): State {
    if events == [] then IDLE else Step(w, After(w, events[..|events| - 1]), events[|events| - 1]).0
  }

  /** What the last of `events` calls back. */
  function Outcome(w: World, events: seq<Event>): seq<Callback>
    requires events != []
  {
    Step(w, After(w, events[..|events| - 1]), events[|events| - 1]).1
  }

  function Heard(w: World, events: seq<Event>): seq<Callback> {
    if events == [] then [] else Heard(w, events[..|events| - 1]) + Outcome(w, events)
  }

  lemma AfterStep(w: World, events: seq<Event>, i: nat)
    requires i < |events|
    ensures After(w, events[..i + 1]) == Step(w, After(w, events[..i]), events[i]).0
    ensures Outcome(w, events[..i + 1]) == Step(w, After(w, events[..i]), events[i]).1
    ensures Heard(w, events[..i + 1]) == Heard(w, events[..i]) + Step(w, After(w, events[..i]), events[i]).1
  {
    assert events[..i + 1][..i] == events[..i];
  }

  /** Time goes forward, the timer expires only when it is running and due, and while it runs
      nothing happens later than it would have been served. */
  ghost predicate CanHappen(w: World, events: seq<Event>, i: nat)
    requires i < |events|
  {
    var s, e := After(w, events[..i]), events[i];
    && (i > 0 ==> events[i - 1].at <= e.at)
    && (e.Timeout? ==> s.running && s.due <= e.at)
    && (s.running ==> e.at <= s.due + w.slack)
  }

  ghost predicate Trace(w: World, events: seq<Event>) {
    w.Sane() && forall i :: 0 <= i < |events| ==> CanHappen(w, events, i)
  }

  function CallbackAt(w: World, events: seq<Event>, i: nat): seq<Callback>
    requires i < |events|
  {
    Outcome(w, events[..i + 1])
  }

  lemma AfterPress(w: World, events: seq<Event>, i: nat)
    requires 0 < i <= |events| && events[i - 1].Press?
    ensures After(w, events[..i]) ==
            State((w.Clock(events[i - 1].at) + 1) % WORD, true, events[i - 1].at + RESTORE_DEFAULT_TIMEOUT)
  {
    AfterStep(w, events, i - 1);
  }

  lemma AfterNoPress(w: World, events: seq<Event>, i: nat)
    requires i <= |events| && (i == 0 || !events[i - 1].Press?)
    ensures After(w, events[..i]).start == 0
    ensures i == 0 || events[i - 1].Release? ==> !After(w, events[..i]).running
  {
    if i > 0 { AfterStep(w, events, i - 1); }
  }

  /** Differences of the wrapped clock are true differences, below one turn of it. */
  lemma IntervalIsTrue(w: World, p: nat, r: nat)
    requires p <= r < p + WORD
    ensures Interval(w, (w.Clock(p) + 1) % WORD, r) == Signed(r - p)
  {
    var a, b := w.offset + p, w.offset + r;
    ModSub(w.Clock(r) + 1, w.Clock(p) + 1);
    ModDiff(b, a);
  }

  lemma ModSub(u: int, v: int)
    ensures (u - v % WORD) % WORD == (u - v) % WORD
  {
    ModTurns(u - v, v / WORD);
  }

  lemma ModDiff(b: nat, a: nat)
    ensures (b % WORD - a % WORD) % WORD == (b - a) % WORD
  {
    var q := b / WORD - a / WORD;
    assert b - a == (b % WORD - a % WORD) + WORD * q;
    ModTurns(b % WORD - a % WORD, q);
  }

  lemma ModTurns(x: int, q: int)
    ensures (x + WORD * q) % WORD == x % WORD
  {}

  /** A release is a click exactly when the event before it is a press, more than 50 and less than
      3000 ms ago, whatever the clock did in between - except a press in the millisecond before
      the clock wraps, whose start time is the value that means "no press". */
  lemma ClickIff(w: World, events: seq<Event>, k: nat)
    requires Trace(w, events) && k < |events| && events[k].Release?
    ensures CallbackAt(w, events, k) == [Clicked] || CallbackAt(w, events, k) == []
    ensures CallbackAt(w, events, k) == [Clicked] <==>
              && k > 0 && events[k - 1].Press?
              && 50 < events[k].at - events[k - 1].at < 3000
              && (w.offset + events[k - 1].at) % 0x1_0000_0000 != 0xFFFF_FFFF
  {
    AfterStep(w, events, k);
    if k > 0 && events[k - 1].Press? {
      assert CanHappen(w, events, k);
      AfterPress(w, events, k);
      IntervalIsTrue(w, events[k - 1].at, events[k].at);
    } else {
      AfterNoPress(w, events, k);
    }
  }

  /** Only a timer expiry is a long press, and a press alone is nothing. */
  lemma LongPressIff(w: World, events: seq<Event>, k: nat)
    requires k < |events|
    ensures CallbackAt(w, events, k) == [LongPressed] <==> events[k].Timeout?
    ensures events[k].Press? ==> CallbackAt(w, events, k) == []
  {
    AfterStep(w, events, k);
  }

  /** The timer runs only between a press and the next release. */
  lemma {:induction false} StoppedUntilPress(w: World, events: seq<Event>, b: nat, c: nat)
    requires Trace(w, events) && b < c <= |events| && events[b].Release?
    requires forall i :: b < i < c ==> !events[i].Press?
    ensures !After(w, events[..c]).running
    ensures forall i :: b < i < c ==> !events[i].Timeout?
    decreases c
  {
    AfterNoPress(w, events, b + 1);
    if c > b + 1 {
      StoppedUntilPress(w, events, b, c - 1);
      assert CanHappen(w, events, c - 1);
      AfterNoPress(w, events, c);
    }
  }

  /** From one press to the next there is a click or there are long presses, never both. */
  lemma NeverBoth(w: World, events: seq<Event>, a: nat, b: nat, c: nat)
    requires Trace(w, events) && a <= b < |events| && a <= c < |events|
    requires events[a].Press? && forall i :: a < i <= b || a < i <= c ==> !events[i].Press?
    ensures !(CallbackAt(w, events, b) == [Clicked] && CallbackAt(w, events, c) == [LongPressed])
  {
    LongPressIff(w, events, c);
    AfterStep(w, events, b);
    if CallbackAt(w, events, b) == [Clicked] && events[c].Timeout? {
      ClickIff(w, events, b);
      assert b - 1 == a;
      StoppedUntilPress(w, events, b, c + 1);
    }
  }

  /** A long press comes 3000 ms or more after a press, the button not released since. */
  lemma {:induction false} LongPressIsLong(w: World, events: seq<Event>, c: nat) returns (a: nat)
    requires Trace(w, events) && c < |events| && (events[c].Timeout? || After(w, events[..c]).running)
    ensures a < c && events[a].Press? && forall i :: a < i < c ==> events[i].Timeout?
    ensures After(w, events[..c]).due >= events[a].at + 3000
    ensures events[c].Timeout? ==> events[c].at >= events[a].at + 3000
    decreases c
  {
    assert CanHappen(w, events, c);
    if c == 0 || !events[c - 1].Press? { AfterNoPress(w, events, c); }
    a := c - 1;
    AfterStep(w, events, a);
    if events[a].Timeout? { a := LongPressIsLong(w, events, a); }
  }

  /** A button held past the time the timer is served gets its long press. */
  lemma HeldLong(w: World, events: seq<Event>, a: nat, b: nat)
    requires Trace(w, events) && a < b < |events| && events[a].Press? && events[b].Release?
    requires events[b].at - events[a].at > 3000 + w.slack
    requires forall i :: a < i < b ==> events[i].Timeout?
    ensures a + 1 < b && CallbackAt(w, events, a + 1) == [LongPressed]
  {
    AfterPress(w, events, a + 1);
    assert CanHappen(w, events, a + 1);
    LongPressIff(w, events, a + 1);
  }

  lemma {:induction false} DueAgain(w: World, events: seq<Event>, a: nat, c: nat)
    requires Trace(w, events) && a < c <= |events| && events[a].Press?
    requires forall i :: a < i < c ==> events[i].Timeout?
    ensures After(w, events[..c]).due == events[a].at + 3000 * (c - a)
    ensures c > a + 1 ==> After(w, events[..c]).running == w.periodic
    decreases c
  {
    AfterPress(w, events, a + 1);
    if c > a + 1 {
      DueAgain(w, events, a, c - 1);
      AfterStep(w, events, c - 1);
    }
  }

  /** A button held on is reported every 3000 ms by a periodic timer, and once by any other. */
  lemma LongPressTimes(w: World, events: seq<Event>, a: nat, c: nat)
    requires Trace(w, events) && a < c < |events| && events[a].Press?
    requires forall i :: a < i <= c ==> events[i].Timeout?
    ensures 0 <= events[c].at - (events[a].at + 3000 * (c - a)) <= w.slack
    ensures !w.periodic ==> c == a + 1
  {
    DueAgain(w, events, a, c);
    assert CanHappen(w, events, c);
  }

  /** A button pressed for 100 ms, in the last millisecond before the clock wraps, is no click. */
  lemma ClickLost()
    ensures var w := World(WORD - 1, 0, false);
            var events := [Press(0), Release(100)];
            Trace(w, events) && CallbackAt(w, events, 1) == []
  {
    var w := World(WORD - 1, 0, false);
    var events := [Press(0), Release(100)];
    assert events[..0] == [];
    AfterPress(w, events, 1);
    assert CanHappen(w, events, 0) && CanHappen(w, events, 1);
    ClickIff(w, events, 1);
  }
}
