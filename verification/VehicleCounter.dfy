/** The vehicle counter: two interrupt handlers, a polling loop with a five-state machine, and every
    interleaving of the two. */
module VehicleCounter {

  // ---------- times ----------

  const MILLION: int := 1_000_000

  /** struct timeval */
  datatype Time = Time(sec: nat, usec: nat)

  predicate IsTime(t: Time) {
    t.usec < MILLION
  }

  const CLEARED := Time(0, 0)

  /** timerisset */
  predicate IsSet(t: Time) {
    t.sec != 0 || t.usec != 0
  }

  predicate NotAfter(a: Time, b: Time) {
    a.sec < b.sec || (a.sec == b.sec && a.usec <= b.usec)
  }

  predicate Earlier(a: Time, b: Time) {
    a.sec < b.sec || (a.sec == b.sec && a.usec < b.usec)
  }

  /** get_timeval_ms */
  function Milliseconds(ms: nat): (t: Time)
    ensures IsTime(t) && t.sec * MILLION + t.usec == ms * 1000
  {
    if ms >= 1000 then Time(ms / 1000, ms % 1000 * 1000) else Time(0, ms * 1000)
  }

  function Add(a: Time, b: Time): Time {
    if a.usec + b.usec >= MILLION then Time(a.sec + b.sec + 1, a.usec + b.usec - MILLION)
    else Time(a.sec + b.sec, a.usec + b.usec)
  }

  /** timeradd(get_timeval_now(NULL), b, result). The macro evaluates its first argument twice, so the
      seconds are those of one reading of the clock and the microseconds those of the next. */
  function AddToClock(first: Time, second: Time, b: Time): Time {
    Add(Time(first.sec, second.usec), b)
  }

  /** timercmp(get_timeval_now(NULL), t, >), which reads the clock twice as well. */
  predicate ClockIsAfter(first: Time, second: Time, t: Time) {
    if first.sec == t.sec then second.usec > t.usec else second.sec > t.sec
  }

  // ---------- the state machine ----------

  datatype State = SCAN | TRIGGER | WAIT | PASSED | END

  /** The falling edges of the two points of a channel. */
  datatype Stamps = Stamps(x: Time, y: Time)

  const NO_STAMPS := Stamps(CLEARED, CLEARED)

  datatype Car = Car(state: State, flows: int, toClear: bool, timeout: Time, stamps: Stamps)

  /** fns_cardet_doflows, when the clock reads first and then second. */
  function DoFlows(c: Car, first: Time, second: Time): Car {
    match c.state
    case SCAN =>
      if IsSet(c.stamps.x) || IsSet(c.stamps.y) then c.(state := TRIGGER) else c
    case TRIGGER =>
      c.(state := WAIT, timeout := AddToClock(first, second, Milliseconds(1000)))
    case WAIT =>
      var both := IsSet(c.stamps.x) && IsSet(c.stamps.y);
      if ClockIsAfter(first, second, c.timeout) then c.(state := END)
      else if both then c.(state := PASSED)
      else c
    case PASSED =>
      var step := if Earlier(c.stamps.y, c.stamps.x) then -1 else if Earlier(c.stamps.x, c.stamps.y) then 1 else 0;
      c.(state := END, flows := c.flows + step)
    case END =>
      c.(state := SCAN, toClear := true, stamps := NO_STAMPS)
  }

  // ---------- the program ----------

  /** _timesign of the driver, and its two handlers and two file operations. */
  class Driver {
    var stamps: Stamps

    constructor ()
      ensures stamps == NO_STAMPS
    {
      stamps := NO_STAMPS;
    }

    /** isr_ch0_xphandle: the event EdgeX of the interleavings below. */
    method HandleX(now: Time)
      modifies this
      ensures stamps == old(stamps).(x := now)
      ensures forall s: System | s.driver == old(stamps) && s.clock == now :: Apply(s, EdgeX).driver == stamps
    {
      stamps := stamps.(x := now);
    }

    /** isr_ch0_yphandle: the event EdgeY of the interleavings below. */
    method HandleY(now: Time)
      modifies this
      ensures stamps == old(stamps).(y := now)
      ensures forall s: System | s.driver == old(stamps) && s.clock == now :: Apply(s, EdgeY).driver == stamps
    {
      stamps := stamps.(y := now);
    }
  }

  /** _cardet[0] and the loop over it. */
  class Counter {
    var state: State
    var flows: int
    var toClear: bool
    var timeout: Time
    var stamps: Stamps
    const driver: Driver

    constructor (driver: Driver)
      ensures this.driver == driver && View() == Car(SCAN, 0, false, CLEARED, NO_STAMPS)
    {
      this.driver := driver;
      state, flows, toClear, timeout, stamps := SCAN, 0, false, CLEARED, NO_STAMPS;
    }

    function View(): Car
      reads this
    {
      Car(state, flows, toClear, timeout, stamps)
    }

    /** cardet_irq_read */
    method Read()
      modifies this
      ensures View() == old(View()).(stamps := driver.stamps)
    {
      stamps := driver.stamps;
    }

    /** cardet_irq_write */
    method WriteBack()
      modifies driver
      ensures driver.stamps == stamps
    {
      driver.stamps := stamps;
    }

    method Flows(first: Time, second: Time)
      modifies this
      ensures View() == DoFlows(old(View()), first, second)
    {
      if state == SCAN {
        if IsSet(stamps.x) || IsSet(stamps.y) {
          state := TRIGGER;
        }
      } else if state == TRIGGER {
        state := WAIT;
        timeout := AddToClock(first, second, Milliseconds(1000));
      } else if state == WAIT {
        if IsSet(stamps.x) && IsSet(stamps.y) {
          state := PASSED;
        }
        if ClockIsAfter(first, second, timeout) {
          state := END;
        }
      } else if state == PASSED {
        if Earlier(stamps.y, stamps.x) {
          flows := flows - 1;
        } else if Earlier(stamps.x, stamps.y) {
          flows := flows + 1;
        }
        state := END;
      } else if state == END {
        stamps := NO_STAMPS;
        toClear := true;
        state := SCAN;
      }
    }

    /** fns_detec_loop, when nothing interrupts it: the poll of Run below. */
    method Loop(first: Time, second: Time)
      requires !toClear
      modifies this, driver
      ensures forall s: System | s.car == old(View()) && s.driver == old(driver.stamps) && s.phase == Idle ::
        Run(s, Poll(s, first, second)).car == View() && Run(s, Poll(s, first, second)).driver == driver.stamps
    {
      forall s: System | s.car == View() && s.driver == driver.stamps && s.phase == Idle
        ensures Run(s, Poll(s, first, second)).car
             == DoFlows(View().(stamps := driver.stamps), first, second).(toClear := false)
        ensures Run(s, Poll(s, first, second)).driver
             == (if DoFlows(View().(stamps := driver.stamps), first, second).toClear then
                   DoFlows(View().(stamps := driver.stamps), first, second).stamps
                 else driver.stamps)
      {
        PollRun(s, first, second);
      }
      Read();
      Flows(first, second);
      if toClear {
        WriteBack();
        toClear := false;
      }
      hide Run, Poll, DoFlows;
    }
  }

  /** The driver, the counter and the clock, with the system they make up. */
  class Plant {
    const driver: Driver
    const counter: Counter
    var clock: Time
    ghost var system: System

    ghost predicate Valid()
      reads this, driver, counter
    {
      counter.driver == driver && system.clock == clock && system.driver == driver.stamps
        && system.car == counter.View()
    }

    constructor (now: Time)
      requires IsTime(now) && IsSet(now)
      ensures Valid() && IsStart(system) && fresh(driver) && fresh(counter)
    {
      var d := new Driver();
      var c := new Counter(d);
      driver, counter, clock := d, c, now;
      system := System(now, NO_STAMPS, Car(SCAN, 0, false, CLEARED, NO_STAMPS), Idle, 0, 0, 0, 0, 0, 0, 0, 0, 0, 0);
    }

    /** What the program does at an event is what the event does to the system. */
    method Take(e: Event)
      requires Valid() && Enabled(system, e)
      modifies this, driver, counter
      ensures Valid() && system == Apply(old(system), e)
    {
      system := Apply(system, e);
      match e
      case Tick(now) => clock := now;
      case EdgeX => driver.HandleX(clock);
      case EdgeY => driver.HandleY(clock);
      case Copy => counter.Read();
      case Step(first, second) =>
        counter.Flows(first, second);
        clock := second;
      case Write =>
        counter.WriteBack();
        counter.toClear := false;
    }

    /** So every run of the program is a run of the system. */
    method TakeAll(es: seq<Event>)
      requires Valid() && IsRun(system, es)
      modifies this, driver, counter
      ensures Valid() && system == Run(old(system), es)
    {
      var i := 0;
      assert es[0..] == es;
      while i < |es|
        invariant 0 <= i <= |es| && Valid()
        invariant IsRun(system, es[i..]) && Run(system, es[i..]) == Run(old(system), es)
      {
        assert es[i..][0] == es[i] && es[i..][1..] == es[i + 1..];
        Take(es[i]);
        i := i + 1;
      }
    }
  }

  // ---------- interleavings ----------

  datatype Phase = Idle | Copied | WriteDue

  /** The program, its clock and its driver, with a history: edges so far, at the last copy and at the last
      write-back, edges wiped before any copy, write-backs, and passes counted each way. */
  datatype System = System(
    clock: Time, driver: Stamps, car: Car, phase: Phase,
    xEdges: nat, yEdges: nat, xCopied: nat, yCopied: nat, xCleared: nat, yCleared: nat, lost: int,
    clears: nat, entries: nat, exits: nat)

  /** Edges that came since the last copy. */
  function Unseen(s: System): int {
    s.xEdges - s.xCopied + (s.yEdges - s.yCopied)
  }

  datatype Event =
    | Tick(now: Time)
    | EdgeX
    | EdgeY
    | Copy
    | Step(first: Time, second: Time)
    | Write

  predicate Enabled(s: System, e: Event) {
    match e
    case Tick(now) => IsTime(now) && NotAfter(s.clock, now)
    case EdgeX => true
    case EdgeY => true
    case Copy => s.phase == Idle
    case Step(first, second) =>
      s.phase == Copied && IsTime(first) && IsTime(second) && NotAfter(s.clock, first) && NotAfter(first, second)
    case Write => s.phase == WriteDue
  }

  function Apply(s: System, e: Event): System {
    match e
    case Tick(now) => s.(clock := now)
    case EdgeX => s.(driver := s.driver.(x := s.clock), xEdges := s.xEdges + 1)
    case EdgeY => s.(driver := s.driver.(y := s.clock), yEdges := s.yEdges + 1)
    case Copy => s.(car := s.car.(stamps := s.driver), phase := Copied, xCopied := s.xEdges, yCopied := s.yEdges)
    case Step(first, second) =>
      var car := DoFlows(s.car, first, second);
      s.(clock := second, car := car, phase := if car.toClear then WriteDue else Idle,
         entries := s.entries + (if car.flows > s.car.flows then 1 else 0),
         exits := s.exits + (if car.flows < s.car.flows then 1 else 0))
    case Write =>
      s.(driver := s.car.stamps, car := s.car.(toClear := false), phase := Idle,
         xCleared := s.xEdges, yCleared := s.yEdges, clears := s.clears + 1, lost := s.lost + Unseen(s))
  }

  predicate IsRun(s: System, es: seq<Event>)
    decreases |es|
  {
    es == [] || (Enabled(s, es[0]) && IsRun(Apply(s, es[0]), es[1..]))
  }

  function Run(s: System, es: seq<Event>): System
    decreases |es|
  {
    if es == [] then s else Run(Apply(s, es[0]), es[1..])
  }

  /** One poll, uninterrupted. */
  function Poll(s: System, first: Time, second: Time): seq<Event> {
    var car := DoFlows(s.car.(stamps := s.driver), first, second);
    if car.toClear then [Copy, Step(first, second), Write] else [Copy, Step(first, second)]
  }

  lemma PollRun(s: System, first: Time, second: Time)
    requires !s.car.toClear && s.phase == Idle
    ensures var s' := Run(s, Poll(s, first, second));
            var car := DoFlows(s.car.(stamps := s.driver), first, second);
            && s'.car == car.(toClear := false)
            && s'.driver == (if car.toClear then car.stamps else s.driver)
            && s'.phase == Idle && s'.clock == second
  {
    var s1 := Apply(s, Copy);
    var s2 := Apply(s1, Step(first, second));
    var es := Poll(s, first, second);
    hide DoFlows;
    assert es[0] == Copy && es[1..][0] == Step(first, second);
    assert Run(s, es) == Run(s1, es[1..]) == Run(s2, es[1..][1..]);
    if s2.car.toClear {
      assert es[1..][1..] == [Write];
      assert Run(s2, [Write]) == Run(Apply(s2, Write), [Write][1..]);
    } else {
      assert es[1..][1..] == [];
    }
  }

  predicate IsStart(s: System) {
    && IsTime(s.clock) && IsSet(s.clock)
    && s == System(s.clock, NO_STAMPS, Car(SCAN, 0, false, CLEARED, NO_STAMPS), Idle, 0, 0, 0, 0, 0, 0, 0, 0, 0, 0)
  }

  /** What every step keeps. */
  predicate Inv(s: System) {
    var counted := s.entries + s.exits;
    && IsTime(s.clock) && IsSet(s.clock)
    && s.xCleared <= s.xEdges && s.yCleared <= s.yEdges && s.xCopied <= s.xEdges && s.yCopied <= s.yEdges
    // a stamp is set in the driver iff its edge came since the last write-back
    && (IsSet(s.driver.x) <==> s.xEdges > s.xCleared)
    && (IsSet(s.driver.y) <==> s.yEdges > s.yCleared)
    && (IsSet(s.car.stamps.x) ==> s.xEdges > s.xCleared)
    && (IsSet(s.car.stamps.y) ==> s.yEdges > s.yCleared)
    && (s.car.toClear <==> s.phase == WriteDue)
    && (s.phase == WriteDue ==> s.car.state == SCAN && s.car.stamps == NO_STAMPS)
    && (s.car.state == PASSED ==> s.xEdges > s.xCleared && s.yEdges > s.yCleared)
    && s.car.flows == s.entries - s.exits
    // a pass is counted at most once a cycle, and only then
    && counted <= s.xEdges && counted <= s.yEdges
    && counted <= s.clears + (if s.car.state == END || s.phase == WriteDue then 1 else 0)
    && (s.car.state != END && s.phase != WriteDue ==> counted <= s.xCleared && counted <= s.yCleared)
  }

  lemma InvStep(s: System, e: Event)
    requires Inv(s) && Enabled(s, e)
    ensures Inv(Apply(s, e))
  {
  }

  lemma {:induction false} InvRun(s: System, es: seq<Event>)
    requires Inv(s) && IsRun(s, es)
    ensures Inv(Run(s, es))
    decreases |es|
  {
    if es != [] {
      InvStep(s, es[0]);
      InvRun(Apply(s, es[0]), es[1..]);
    }
  }

  /** After any run: the count is entries less exits; no more passes have been counted than edges came on
      either point, and than cycles were begun; PASSED means an edge on both points since the last clear. */
  lemma Counts(s: System, es: seq<Event>)
    requires IsStart(s) && IsRun(s, es)
    ensures var t := Run(s, es);
            && t.car.flows == t.entries - t.exits
            && t.entries + t.exits <= t.xEdges && t.entries + t.exits <= t.yEdges
            && t.entries + t.exits <= t.clears + 1
            && (t.car.state == PASSED ==> t.xEdges > t.xCleared && t.yEdges > t.yCleared)
  {
    InvRun(s, es);
  }

  // ---------- the timeout ----------

  /** The timeout lies one second after the later reading of the clock iff both readings fell into one
      second; else, when the next second began between them, it is that reading itself. */
  lemma TimeoutIsOneSecond(c: Car, first: Time, second: Time)
    requires c.state == TRIGGER && IsTime(first) && IsTime(second) && NotAfter(first, second)
    ensures var t := DoFlows(c, first, second).timeout;
            && IsTime(t)
            && (t == Add(second, Time(1, 0)) <==> first.sec == second.sec)
            && (second.sec == first.sec + 1 ==> t == second)
  {
  }

  /** The comparison misses a time that has passed iff the second turns between its two readings and the
      second reading is no further into its second than the time is into its own. */
  lemma ComparisonMisses(first: Time, second: Time, t: Time)
    requires IsTime(first) && IsTime(second) && IsTime(t) && NotAfter(first, second) && Earlier(t, first)
    ensures !ClockIsAfter(first, second, t) <==>
      first.sec == t.sec && second.sec > t.sec && second.usec <= t.usec
  {
  }

  /** How many more steps a cycle can take once its timeout has passed. */
  function StepsLeft(s: System): nat {
    match s.car.state
    case SCAN => 0
    case END => 1
    case PASSED => 2
    case WAIT => if s.clock.sec > s.car.timeout.sec then 2 else 3
    case TRIGGER => 4
  }

  predicate Overdue(s: System) {
    && IsTime(s.clock) && IsTime(s.car.timeout)
    && s.car.state != TRIGGER
    && (s.car.state == WAIT ==> Earlier(s.car.timeout, s.clock))
  }

  function StepCount(es: seq<Event>): nat {
    if es == [] then 0 else (if es[0].Step? then 1 else 0) + StepCount(es[1..])
  }

  lemma OverdueStep(s: System, e: Event)
    requires Overdue(s) && s.car.state != SCAN && Enabled(s, e)
    ensures Overdue(Apply(s, e))
    ensures StepsLeft(Apply(s, e)) <= StepsLeft(s) - (if e.Step? then 1 else 0)
  {
  }

  /** Once the clock has passed its timeout, a cycle is back in SCAN after at most three polls,
      whatever comes between them. */
  lemma {:induction false} OverdueCycleEnds(s: System, es: seq<Event>) returns (k: nat)
    requires Overdue(s) && IsRun(s, es) && StepCount(es) >= StepsLeft(s)
    ensures StepsLeft(s) <= 3
    ensures k <= |es| && Run(s, es[..k]).car.state == SCAN && StepCount(es[..k]) <= StepsLeft(s)
    decreases |es|
  {
    if s.car.state == SCAN {
      k := 0;
    } else {
      OverdueStep(s, es[0]);
      var i := OverdueCycleEnds(Apply(s, es[0]), es[1..]);
      k := i + 1;
      assert es[..k][0] == es[0] && es[..k][1..] == es[1..][..i];
    }
  }

  /** Three are needed: the comparison can miss once, and the cycle then still has two steps to go. */
  lemma ThreePollsAreNeeded()
    ensures var s := System(Time(7, 900_000), NO_STAMPS, Car(WAIT, 0, false, Time(7, 500_000), NO_STAMPS),
                            Copied, 0, 0, 0, 0, 0, 0, 0, 0, 0, 0);
            var t := Apply(s, Step(Time(7, 900_000), Time(8, 0)));
            Overdue(s) && Enabled(s, Step(Time(7, 900_000), Time(8, 0))) && t.car.state == WAIT
  {
  }

  // ---------- a pass ----------

  /** Events between a copy and the step on it. */
  predicate Quiet(es: seq<Event>) {
    forall e :: e in es ==> e.Tick? || e.EdgeX? || e.EdgeY?
  }

  /** Edges and ticks touch neither the channel nor the history of what it has seen. */
  lemma {:induction false} QuietRun(s: System, es: seq<Event>)
    requires Quiet(es)
    ensures Run(s, es).car == s.car && Run(s, es).phase == s.phase
    decreases |es|
  {
    if es != [] {
      QuietRun(Apply(s, es[0]), es[1..]);
    }
  }

  lemma {:induction false} RunConcat(s: System, es: seq<Event>, more: seq<Event>)
    ensures Run(s, es + more) == Run(Run(s, es), more)
    ensures IsRun(s, es + more) <==> IsRun(s, es) && IsRun(Run(s, es), more)
    decreases |es|
  {
    if es == [] {
      assert es + more == more;
    } else {
      assert (es + more)[0] == es[0] && (es + more)[1..] == es[1..] + more;
      RunConcat(Apply(s, es[0]), es[1..], more);
    }
  }

  /** In when X fell first, out when Y did. */
  function Sign(t: Stamps): int {
    if Earlier(t.x, t.y) then 1 else if Earlier(t.y, t.x) then -1 else 0
  }

  /** The step on a copy, whatever comes between the two: it sees the stamps of the copy. */
  lemma StepSeesCopy(s: System, es: seq<Event>, first: Time, second: Time)
    requires s.phase == Idle && Quiet(es)
    ensures Run(s, [Copy] + es + [Step(first, second)]).car == DoFlows(s.car.(stamps := s.driver), first, second)
  {
    var c := Apply(s, Copy);
    QuietRun(c, es);
    RunConcat(s, [Copy] + es, [Step(first, second)]);
    RunConcat(s, [Copy], es);
    assert Run(s, [Copy]) == c by {
      assert [Copy][1..] == [];
    }
    var u := Run(c, es);
    assert Run(u, [Step(first, second)]) == Apply(u, Step(first, second)) by {
      assert [Step(first, second)][1..] == [];
    }
    hide DoFlows;
  }

  /** A pass with both stamps at its copy changes the count by their sign, whatever edges come before the
      step; then the cycle ends. */
  lemma PassIsCounted(s: System, es: seq<Event>, first: Time, second: Time)
    requires s.car.state == PASSED && s.phase == Idle && Quiet(es)
    ensures var t := Run(s, [Copy] + es + [Step(first, second)]);
      && t.car.state == END && t.car.flows == s.car.flows + Sign(s.driver)
      && (Sign(s.driver) == 0 <==> s.driver.x == s.driver.y)
  {
    StepSeesCopy(s, es, first, second);
    hide Run;
  }

  /** And a waiting cycle passes iff, at its copy, both stamps are set and its timeout has not passed; it ends
      iff its timeout has, even with both stamps set. Neither counts anything. */
  lemma WaitPasses(s: System, es: seq<Event>, first: Time, second: Time)
    requires s.car.state == WAIT && s.phase == Idle && Quiet(es)
    ensures var car := Run(s, [Copy] + es + [Step(first, second)]).car;
      && (car.state == PASSED
          <==> IsSet(s.driver.x) && IsSet(s.driver.y) && !ClockIsAfter(first, second, s.car.timeout))
      && (car.state == END <==> ClockIsAfter(first, second, s.car.timeout))
      && car.flows == s.car.flows && car.timeout == s.car.timeout
  {
    StepSeesCopy(s, es, first, second);
    hide Run;
  }

  /** A cycle begins iff a stamp of either point is set at the copy; without one nothing changes. */
  lemma CycleBegins(s: System, es: seq<Event>, first: Time, second: Time)
    requires s.car.state == SCAN && s.phase == Idle && Quiet(es)
    ensures var car := Run(s, [Copy] + es + [Step(first, second)]).car;
      && (car.state == TRIGGER <==> s.driver.x != CLEARED || s.driver.y != CLEARED)
      && (car.state != TRIGGER ==> car.state == SCAN)
      && car == s.car.(state := car.state, stamps := s.driver)
  {
    StepSeesCopy(s, es, first, second);
    hide Run;
  }

  /** A cycle that has begun always waits next, until a second after the clock, as the macro adds it. */
  lemma TriggerWaits(s: System, es: seq<Event>, first: Time, second: Time)
    requires s.car.state == TRIGGER && s.phase == Idle && Quiet(es) && IsTime(second)
    ensures Run(s, [Copy] + es + [Step(first, second)]).car
         == Car(WAIT, s.car.flows, s.car.toClear, Time(first.sec + 1, second.usec), s.driver)
  {
    StepSeesCopy(s, es, first, second);
    hide Run;
  }

  /** An ended cycle wipes its stamps, asks for the write-back and scans again. */
  lemma EndClears(s: System, es: seq<Event>, first: Time, second: Time)
    requires s.car.state == END && s.phase == Idle && Quiet(es)
    ensures var t := Run(s, [Copy] + es + [Step(first, second)]);
      && t.car == Car(SCAN, s.car.flows, true, s.car.timeout, Stamps(Time(0, 0), Time(0, 0)))
      && t.phase == WriteDue && Apply(t, Write).driver == Stamps(Time(0, 0), Time(0, 0))
  {
    var c := Apply(s, Copy);
    QuietRun(c, es);
    RunConcat(s, [Copy] + es, [Step(first, second)]);
    RunConcat(s, [Copy], es);
    assert Run(s, [Copy]) == c by {
      assert [Copy][1..] == [];
    }
    var u := Run(c, es);
    assert Run(u, [Step(first, second)]) == Apply(u, Step(first, second)) by {
      assert [Step(first, second)][1..] == [];
    }
  }

  // ---------- an edge of one point alone ----------

  datatype Point = X | Y

  function StampOf(t: Stamps, p: Point): Time {
    if p == X then t.x else t.y
  }

  /** No edge of point p has been seen since the last write-back. */
  predicate Without(s: System, p: Point) {
    StampOf(s.driver, p) == CLEARED && StampOf(s.car.stamps, p) == CLEARED && s.car.state != PASSED
  }

  /** And none comes. */
  predicate NoEdgeOf(es: seq<Event>, p: Point) {
    forall e :: e in es ==> e != if p == X then EdgeX else EdgeY
  }

  lemma WithoutStep(s: System, e: Event, p: Point)
    requires Without(s, p) && e != if p == X then EdgeX else EdgeY
    ensures Without(Apply(s, e), p) && Apply(s, e).car.flows == s.car.flows
  {
  }

  /** Without an edge of one point nothing is ever counted, however many come of the other. */
  lemma {:induction false} OnePointIsNotCounted(s: System, es: seq<Event>, p: Point)
    requires Without(s, p) && NoEdgeOf(es, p)
    ensures Without(Run(s, es), p) && Run(s, es).car.flows == s.car.flows
    decreases |es|
  {
    if es != [] {
      assert es[0] in es && forall e :: e in es[1..] ==> e in es;
      WithoutStep(s, es[0], p);
      OnePointIsNotCounted(Apply(s, es[0]), es[1..], p);
    }
  }

  /** On the way from a seen edge to the wait: so many steps are still to be taken. */
  predicate Begun(s: System, steps: nat) {
    && !s.car.toClear && s.phase != WriteDue && IsTime(s.clock) && IsSet(s.clock)
    && match s.car.state
       case SCAN =>
         && steps == 2
         && (if s.phase == Idle then IsSet(s.driver.x) || IsSet(s.driver.y)
             else IsSet(s.car.stamps.x) || IsSet(s.car.stamps.y))
       case TRIGGER => steps == 1
       case WAIT => steps == 0 && IsTime(s.car.timeout)
       case _ => false
  }

  lemma BegunStep(s: System, e: Event, steps: nat)
    requires Begun(s, steps) && Enabled(s, e) && (e.Step? ==> steps > 0)
    ensures Begun(Apply(s, e), if e.Step? then steps - 1 else steps)
  {
  }

  /** Two polls after an edge of either point the cycle waits, whatever comes between. */
  lemma {:induction false} EdgeLeadsToWait(s: System, es: seq<Event>, steps: nat)
    requires Begun(s, steps) && IsRun(s, es) && StepCount(es) == steps
    ensures Begun(Run(s, es), 0)
    decreases |es|
  {
    hide Begun;
    if es != [] {
      BegunStep(s, es[0], steps);
      EdgeLeadsToWait(Apply(s, es[0]), es[1..], if es[0].Step? then steps - 1 else steps);
    }
  }

  /** An overdue or ended cycle that cannot pass, up to its write-back. */
  predicate Closing(s: System, p: Point) {
    && Without(s, p) && Overdue(s)
    && (if s.car.state == SCAN then s.phase == WriteDue && s.car.stamps == NO_STAMPS
        else s.phase != WriteDue && !s.car.toClear)
  }

  lemma ClosingStep(s: System, e: Event, p: Point)
    requires Closing(s, p) && Enabled(s, e) && e != if p == X then EdgeX else EdgeY
    ensures e == Write ==> Apply(s, e).driver == NO_STAMPS
    ensures e != Write ==>
      Closing(Apply(s, e), p) && StepsLeft(Apply(s, e)) <= StepsLeft(s) - (if e.Step? then 1 else 0)
  {
  }

  /** Its stamps are gone after at most three more steps and the write-back. */
  lemma {:induction false} ClosingIsCleared(s: System, es: seq<Event>, p: Point) returns (k: nat)
    requires Closing(s, p) && NoEdgeOf(es, p) && IsRun(s, es) && StepCount(es) > StepsLeft(s)
    ensures k <= |es| && StepCount(es[..k]) <= StepsLeft(s) <= 3 && Run(s, es[..k]).driver == NO_STAMPS
    decreases |es|
  {
    hide Closing, StepsLeft;
    assert StepsLeft(s) <= 3 by { ThreeStepsLeft(s, p); }
    assert es[0] in es && forall e :: e in es[1..] ==> e in es;
    ClosingStep(s, es[0], p);
    if es[0] == Write {
      k := 1;
      assert es[..1] == [es[0]] && [es[0]][1..] == [];
    } else {
      var i := ClosingIsCleared(Apply(s, es[0]), es[1..], p);
      k := i + 1;
      assert es[..k][0] == es[0] && es[..k][1..] == es[1..][..i];
    }
  }

  lemma ThreeStepsLeft(s: System, p: Point)
    requires Closing(s, p)
    ensures StepsLeft(s) <= 3
  {
  }

  /** A step while waiting: the wait goes on, or the cycle ends. */
  lemma WaitStep(s: System, e: Event, p: Point)
    requires Begun(s, 0) && Without(s, p) && Enabled(s, e)
    ensures var t := Apply(s, e);
      || (Begun(t, 0) && t.car.timeout == s.car.timeout)
      || (Closing(t, p) && StepsLeft(t) == 1 && e.Step?)
  {
  }

  lemma OverdueIsClosing(s: System, p: Point)
    requires Begun(s, 0) && Without(s, p) && Earlier(s.car.timeout, s.clock)
    ensures Closing(s, p) && StepsLeft(s) <= 3
  {
  }

  /** Such a cycle, from its wait on; when the timeout has passed after the events c, the stamps are gone after
      at most three more steps. */
  lemma {:induction false} WaitIsCleared(s: System, c: seq<Event>, b: seq<Event>, p: Point) returns (k: nat)
    requires Begun(s, 0) && Without(s, p) && NoEdgeOf(c + b, p) && IsRun(s, c + b)
    requires Earlier(s.car.timeout, Run(s, c).clock) && StepCount(b) >= 4
    ensures k <= |c + b| && StepCount((c + b)[..k]) <= StepCount(c) + 3 && Run(s, (c + b)[..k]).driver == NO_STAMPS
    decreases |c|
  {
    hide Begun, Closing, Without, StepsLeft, NoEdgeOf, Apply, Enabled;
    if c == [] {
      assert c + b == b;
      OverdueIsClosing(s, p);
      k := ClosingIsCleared(s, b, p);
    } else {
      var more := c[1..] + b;
      FirstEvent(c, b, p);
      var t := Apply(s, c[0]);
      WithoutStep(s, c[0], p);
      WaitStep(s, c[0], p);
      var i;
      if Begun(t, 0) && t.car.timeout == s.car.timeout {
        i := WaitIsCleared(t, c[1..], b, p);
      } else {
        StepsAdd(c[1..], b);
        i := ClosingIsCleared(t, more, p);
      }
      k := i + 1;
      assert (c + b)[..k][0] == c[0] && (c + b)[..k][1..] == more[..i];
    }
  }

  lemma FirstEvent(c: seq<Event>, b: seq<Event>, p: Point)
    requires c != [] && NoEdgeOf(c + b, p)
    ensures (c + b)[0] == c[0] && (c + b)[1..] == c[1..] + b
    ensures c[0] != (if p == X then EdgeX else EdgeY) && NoEdgeOf(c[1..] + b, p)
  {
    assert c[0] in c + b && forall f :: f in c[1..] + b ==> f in c + b;
  }

  lemma {:induction false} StepsAdd(a: seq<Event>, b: seq<Event>)
    ensures StepCount(a + b) == StepCount(a) + StepCount(b)
  {
    if a == [] {
      assert a + b == b;
    } else {
      assert (a + b)[0] == a[0] && (a + b)[1..] == a[1..] + b;
      StepsAdd(a[1..], b);
    }
  }

  /** An edge of one point alone: two polls later the cycle waits; once the timeout has passed, after the events c,
      at most three more polls clear every stamp; and nothing has been counted. */
  lemma LoneEdgeIsCleared(s: System, a: seq<Event>, c: seq<Event>, b: seq<Event>, p: Point) returns (k: nat)
    requires s.car.state == SCAN && s.phase == Idle && !s.car.toClear && IsTime(s.clock) && IsSet(s.clock)
    requires s.driver.x != CLEARED || s.driver.y != CLEARED
    requires Without(s, p) && NoEdgeOf(a + (c + b), p) && IsRun(s, a + (c + b)) && StepCount(a) == 2
    requires Earlier(Run(s, a).car.timeout, Run(s, a + c).clock) && StepCount(b) >= 4
    ensures Run(s, a).car.state == WAIT
    ensures |a| <= k <= |a + (c + b)| && StepCount((a + (c + b))[..k]) <= StepCount(a + c) + 3
    ensures Run(s, (a + (c + b))[..k]).driver == NO_STAMPS
    ensures Run(s, (a + (c + b))[..k]).car.flows == s.car.flows
  {
    var all, u := a + (c + b), Run(s, a);
    RunConcat(s, a, c + b);
    RunConcat(s, a, c);
    RunConcat(u, c, b);
    assert forall e :: e in a || e in c + b ==> e in all;
    OnePointIsNotCounted(s, a, p);
    EdgeLeadsToWait(s, a, 2);
    var i := WaitIsCleared(u, c, b, p);
    k := |a| + i;
    assert all[..k] == a + (c + b)[..i];
    RunConcat(s, a, (c + b)[..i]);
    StepsAdd(a, c);
    StepsAdd(a, (c + b)[..i]);
    assert forall e :: e in (c + b)[..i] ==> e in c + b;
    OnePointIsNotCounted(u, (c + b)[..i], p);
    hide Run, IsRun, StepCount;
  }

  // ---------- what a poll can miss ----------

  /** Edges behind the last copy of a run. */
  function EdgesSinceCopy(es: seq<Event>): nat {
    if es == [] then 0
    else
      var e := es[|es| - 1];
      if e == Copy then 0 else EdgesSinceCopy(es[..|es| - 1]) + if e.EdgeX? || e.EdgeY? then 1 else 0
  }

  lemma {:induction false} RunLast(s: System, es: seq<Event>)
    requires es != []
    ensures var front, e := es[..|es| - 1], es[|es| - 1];
      && Run(s, es) == Apply(Run(s, front), e)
      && (IsRun(s, es) <==> IsRun(s, front) && Enabled(Run(s, front), e))
  {
    var front, e := es[..|es| - 1], es[|es| - 1];
    assert es == front + [e] && [e][1..] == [];
    RunConcat(s, front, [e]);
    assert Run(Run(s, front), [e]) == Run(Apply(Run(s, front), e), []);
    assert IsRun(Apply(Run(s, front), e), []);
    hide Apply, Enabled;
  }

  /** The history counts just those edges. */
  lemma {:induction false} HistoryIsRight(s: System, es: seq<Event>)
    requires IsStart(s) && IsRun(s, es)
    ensures Unseen(Run(s, es)) == EdgesSinceCopy(es)
    decreases |es|
  {
    if es != [] {
      RunLast(s, es);
      HistoryIsRight(s, es[..|es| - 1]);
      hide Run, IsRun;
    }
  }

  /** A write-back leaves no stamp, so it wipes unseen exactly the edges that came since the last copy:
      none iff none came. */
  lemma WriteBackWipes(s: System, es: seq<Event>)
    requires IsStart(s) && IsRun(s, es) && Run(s, es).phase == WriteDue
    ensures var t := Run(s, es);
      var u := Apply(t, Write);
      && u.driver == NO_STAMPS && u.lost == t.lost + EdgesSinceCopy(es)
      && (u.lost == t.lost <==> t.xEdges == t.xCopied && t.yEdges == t.yCopied)
      && u.xCleared == u.xEdges && u.yCleared == u.yEdges
  {
    InvRun(s, es);
    HistoryIsRight(s, es);
    hide Run, IsRun, EdgesSinceCopy;
  }

  lemma TwoEvents(s: System, a: Event, b: Event)
    ensures Run(s, [a, b]) == Apply(Apply(s, a), b)
    ensures IsRun(s, [a, b]) <==> Enabled(s, a) && Enabled(Apply(s, a), b)
  {
    assert [a, b][1..] == [b] && [b][1..] == [];
    var t := Apply(s, a);
    assert Run(s, [a, b]) == Run(t, [b]) == Run(Apply(t, b), []);
    assert IsRun(s, [a, b]) <==> Enabled(s, a) && IsRun(t, [b]);
    assert IsRun(t, [b]) <==> Enabled(t, b) && IsRun(Apply(t, b), []);
    hide Apply, Enabled;
  }

  lemma PairThen(s: System, a: Event, b: Event, es: seq<Event>)
    ensures Run(s, [a, b] + es) == Run(Apply(Apply(s, a), b), es)
    ensures IsRun(s, [a, b] + es) <==> Enabled(s, a) && Enabled(Apply(s, a), b) && IsRun(Apply(Apply(s, a), b), es)
  {
    RunConcat(s, [a, b], es);
    TwoEvents(s, a, b);
  }

  const ONE_STAMP := Stamps(Time(9, 0), CLEARED)
  const STARTED := System(Time(9, 0), NO_STAMPS, Car(SCAN, 0, false, CLEARED, NO_STAMPS), Idle,
                          0, 0, 0, 0, 0, 0, 0, 0, 0, 0)
  const ENDING := System(Time(11, 0), ONE_STAMP, Car(END, 0, false, Time(10, 0), ONE_STAMP), Copied,
                         1, 0, 1, 0, 0, 0, 0, 0, 0, 0)
  const EARLY := Step(Time(9, 0), Time(9, 0))
  const LATE := Step(Time(11, 0), Time(11, 0))

  /** The timed-out cycle of a single edge. */
  lemma CycleTimesOut(es: seq<Event>)
    ensures var all := [EdgeX, Copy] + ([EARLY, Copy] + ([EARLY, Copy] + ([LATE, Copy] + es)));
      Run(STARTED, all) == Run(ENDING, es) && (IsRun(STARTED, all) <==> IsRun(ENDING, es))
  {
    hide Run, IsRun;
    PairThen(STARTED, EdgeX, Copy, [EARLY, Copy] + ([EARLY, Copy] + ([LATE, Copy] + es)));
    var s1 := Apply(Apply(STARTED, EdgeX), Copy);
    assert s1 == System(Time(9, 0), ONE_STAMP, Car(SCAN, 0, false, CLEARED, ONE_STAMP), Copied,
                        1, 0, 1, 0, 0, 0, 0, 0, 0, 0);
    PairThen(s1, EARLY, Copy, [EARLY, Copy] + ([LATE, Copy] + es));
    var s2 := Apply(Apply(s1, EARLY), Copy);
    assert s2 == s1.(car := s1.car.(state := TRIGGER));
    PairThen(s2, EARLY, Copy, [LATE, Copy] + es);
    var s3 := Apply(Apply(s2, EARLY), Copy);
    assert s3 == s2.(car := s2.car.(state := WAIT, timeout := Time(10, 0)));
    PairThen(s3, LATE, Copy, es);
    assert Apply(Apply(s3, LATE), Copy) == ENDING;
  }

  const EMPTIED := System(Time(11, 0), NO_STAMPS, Car(SCAN, 0, false, Time(10, 0), NO_STAMPS), Idle,
                          2, 1, 1, 0, 2, 1, 2, 1, 0, 0)

  /** Both edges of the next car between the last step of that cycle and its write-back. */
  lemma EdgesAreWiped()
    ensures Run(ENDING, [LATE, EdgeX] + [EdgeY, Write]) == EMPTIED && IsRun(ENDING, [LATE, EdgeX] + [EdgeY, Write])
  {
    hide Run, IsRun;
    PairThen(ENDING, LATE, EdgeX, [EdgeY, Write]);
    var s := Apply(Apply(ENDING, LATE), EdgeX);
    assert s == ENDING.(car := Car(SCAN, 0, true, Time(10, 0), NO_STAMPS), phase := WriteDue,
                        driver := Stamps(Time(11, 0), CLEARED), xEdges := 2);
    TwoEvents(s, EdgeY, Write);
  }

  const LOSING := [EdgeX, Copy] + ([EARLY, Copy] + ([EARLY, Copy] + ([LATE, Copy] + ([LATE, EdgeX] + [EdgeY, Write]))))

  /** A whole pass lost: three edges, one of each point behind the last copy, and no pass counted. */
  lemma PassIsLost()
    ensures IsStart(STARTED) && IsRun(STARTED, LOSING)
    ensures var t := Run(STARTED, LOSING);
      && t.driver == NO_STAMPS && t.car.state == SCAN
      && t.xEdges == 2 && t.yEdges == 1 && t.entries + t.exits == 0 && t.lost == 2
  {
    hide Run, IsRun;
    CycleTimesOut([LATE, EdgeX] + [EdgeY, Write]);
    EdgesAreWiped();
  }
}
