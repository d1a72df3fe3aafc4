// button.c (both firmwares): a debounce state machine per push button, run
// once per scan tick. A press must last past the short threshold to count;
// a press held until the long threshold is reported as a long press at that
// tick, a shorter one as a short press on release; the release itself is
// debounced before the button is idle again. The two firmwares differ only
// in their thresholds and in the pin level that means "pressed".

module Button {

  const BTNCNT: nat := 2
  const NO_EVENT: nat := 0
  const SHORT_PRESS: nat := 1
  const LONG_PRESS: nat := 2

  datatype State = Idle | FirstPressed | Holding | Released

  /** The thresholds, in scan ticks, and the pin level read while a button is pressed. */
  datatype Board = Board(short: nat, long: nat, release: nat, pressedLevel: int)

  /** fw/User: a 10 ms tick, active-high buttons. */
  const USER_BOARD := Board(2, 50, 2, 1)
  /** fw: a 1 ms tick, active-low buttons. */
  const PICO_BOARD := Board(20, 500, 20, 0)

  /** The comparison made when a held button is released: as the firmware writes it, or corrected. */
  datatype Rule = AsWritten | Fixed

  /** One button after one tick: its state, its counter and what the tick reports. */
  datatype Step = Step(state: State, count: int, event: nat)

  /** On release from Holding the counter has already been incremented; the fix also reports a press whose count has just reached long. */
  predicate ShortOnRelease(b: Board, rule: Rule, count: int)
  {
    match rule
    case AsWritten => count < b.long
    case Fixed => count <= b.long
  }

  /** button_scan_single for one button in state s with counter count. */
  function Scan(b: Board, rule: Rule, s: State, count: int, pressed: bool): Step
  {
    match s
    case Idle =>
      if pressed then Step(FirstPressed, 0, NO_EVENT) else Step(Idle, count, NO_EVENT)
    case FirstPressed =>
      if !pressed then Step(Idle, count + 1, NO_EVENT)
      else if count + 1 >= b.short then Step(Holding, 0, NO_EVENT)
      else Step(FirstPressed, count + 1, NO_EVENT)
    case Holding =>
      if pressed then Step(Holding, count + 1, if count + 1 == b.long then LONG_PRESS else NO_EVENT)
      else Step(Released, 0, if ShortOnRelease(b, rule, count + 1) then SHORT_PRESS else NO_EVENT)
    case Released =>
      if pressed then Step(Released, 0, NO_EVENT)
      else if count + 1 >= b.release then Step(Idle, count + 1, NO_EVENT)
      else Step(Released, count + 1, NO_EVENT)
  }

  // ---------------------------------------------------------------
  // Runs of ticks
  // ---------------------------------------------------------------

  datatype Trace = Trace(events: seq<nat>, state: State, count: int)

  /** The events of a sequence of ticks and where the button ends up. */
  function Run(b: Board, rule: Rule, s: State, count: int, ticks: seq<bool>): (t: Trace)
    ensures |t.events| == |ticks|
    decreases |ticks|
  {
    if ticks == [] then Trace([], s, count)
    else
      var first := Scan(b, rule, s, count, ticks[0]);
      var rest := Run(b, rule, first.state, first.count, ticks[1..]);
      Trace([first.event] + rest.events, rest.state, rest.count)
  }

  /** A long press is only reported on a tick where the button is pressed, a short press only on one where it is released. */
  lemma {:induction false} EventsFollowTicks(b: Board, rule: Rule, s: State, count: int, ticks: seq<bool>)
    ensures var t := Run(b, rule, s, count, ticks);
      && (forall i | 0 <= i < |ticks| && t.events[i] == LONG_PRESS :: ticks[i])
      && (forall i | 0 <= i < |ticks| && t.events[i] == SHORT_PRESS :: !ticks[i])
    decreases |ticks|
  {
    if ticks != [] {
      var first := Scan(b, rule, s, count, ticks[0]);
      EventsFollowTicks(b, rule, first.state, first.count, ticks[1..]);
    }
  }

  function Ticks(pressed: bool, n: nat): (t: seq<bool>)
    ensures |t| == n && forall i | 0 <= i < n :: t[i] == pressed
  {
    seq(n, _ => pressed)
  }

  /** The reports among the events, in order. */
  function Reports(events: seq<nat>): seq<nat>
  {
    if events == [] then []
    else (if events[0] == NO_EVENT then [] else [events[0]]) + Reports(events[1..])
  }

  lemma {:induction false} ReportsAppend(a: seq<nat>, c: seq<nat>)
    ensures Reports(a + c) == Reports(a) + Reports(c)
    decreases |a|
  {
    if a == [] {
      assert a + c == c;
    } else {
      assert (a + c)[1..] == a[1..] + c;
      ReportsAppend(a[1..], c);
    }
  }

  /** Running two stretches of ticks is running the first, then the second from where it ended. */
  lemma {:induction false} RunAppend(b: Board, rule: Rule, s: State, count: int, x: seq<bool>, y: seq<bool>)
    ensures var t := Run(b, rule, s, count, x);
      var u := Run(b, rule, t.state, t.count, y);
      Run(b, rule, s, count, x + y) == Trace(t.events + u.events, u.state, u.count)
    decreases |x|
  {
    if x == [] {
      assert x + y == y;
    } else {
      var first := Scan(b, rule, s, count, x[0]);
      assert (x + y)[0] == x[0] && (x + y)[1..] == x[1..] + y;
      RunAppend(b, rule, first.state, first.count, x[1..], y);
      var t1 := Run(b, rule, first.state, first.count, x[1..]);
      var u := Run(b, rule, t1.state, t1.count, y);
      assert [first.event] + (t1.events + u.events) == ([first.event] + t1.events) + u.events;
    }
  }

  /** While the press is shorter than the short threshold it reports nothing and stays in FirstPressed. */
  lemma {:induction false} DebounceRun(b: Board, rule: Rule, count: int, k: nat)
    requires 0 <= count && count + k < b.short
    ensures var t := Run(b, rule, FirstPressed, count, Ticks(true, k));
      t.state == FirstPressed && t.count == count + k && Reports(t.events) == []
    decreases k
  {
    if k > 0 {
      assert Ticks(true, k)[1..] == Ticks(true, k - 1);
      DebounceRun(b, rule, count + 1, k - 1);
    }
  }

  /** Holding the button: the long press is reported once, at the tick where the counter equals the long threshold. */
  lemma {:induction false} HoldRun(b: Board, rule: Rule, count: int, k: nat)
    requires 0 <= count
    ensures var t := Run(b, rule, Holding, count, Ticks(true, k));
      && t.state == Holding && t.count == count + k
      && (forall i | 0 <= i < k :: t.events[i] == if count + i + 1 == b.long then LONG_PRESS else NO_EVENT)
      && Reports(t.events) == if count < b.long <= count + k then [LONG_PRESS] else []
    decreases k
  {
    if k > 0 {
      assert Ticks(true, k)[1..] == Ticks(true, k - 1);
      HoldRun(b, rule, count + 1, k - 1);
    }
  }

  /** m ticks held in Holding, then the release: the long press if m reached it, else the short press if the rule allows. */
  lemma HoldThenRelease(b: Board, rule: Rule, m: nat)
    requires 1 <= b.long
    ensures var t := Run(b, rule, Holding, 0, Ticks(true, m) + [false]);
      && t.state == Released
      && Reports(t.events) ==
        if m >= b.long then [LONG_PRESS]
        else if ShortOnRelease(b, rule, m + 1) then [SHORT_PRESS] else []
  {
    RunAppend(b, rule, Holding, 0, Ticks(true, m), [false]);
    HoldRun(b, rule, 0, m);
    var t2 := Run(b, rule, Holding, 0, Ticks(true, m));
    var t3 := Run(b, rule, Holding, m, [false]);
    assert t3.events == [if ShortOnRelease(b, rule, m + 1) then SHORT_PRESS else NO_EVENT];
    assert Reports(t3.events) == if ShortOnRelease(b, rule, m + 1) then [SHORT_PRESS] else [] by {
      assert t3.events[1..] == [];
    }
    ReportsAppend(t2.events, t3.events);
  }

  /** short ticks pressed from the first pressed tick reach Holding with the counter reset, reporting nothing. */
  lemma DebounceToHolding(b: Board, rule: Rule)
    requires 1 <= b.short
    ensures var t := Run(b, rule, FirstPressed, 0, Ticks(true, b.short));
      t.state == Holding && t.count == 0 && Reports(t.events) == []
  {
    assert Ticks(true, b.short) == Ticks(true, b.short - 1) + [true];
    RunAppend(b, rule, FirstPressed, 0, Ticks(true, b.short - 1), [true]);
    DebounceRun(b, rule, 0, b.short - 1);
    var t1 := Run(b, rule, FirstPressed, 0, Ticks(true, b.short - 1));
    var t2 := Run(b, rule, FirstPressed, b.short - 1, [true]);
    assert t2 == Trace([NO_EVENT], Holding, 0);
    assert Reports(t2.events) == [] by {
      assert t2.events[1..] == [];
    }
    ReportsAppend(t1.events, t2.events);
  }

  /** j more ticks pressed after the first, then the release. */
  lemma PressFromFirst(b: Board, rule: Rule, j: nat)
    requires 1 <= b.short && 1 <= b.long
    ensures var t := Run(b, rule, FirstPressed, 0, Ticks(true, j) + [false]);
      && t.state == (if j < b.short then Idle else Released)
      && Reports(t.events) ==
        if j < b.short then []
        else Reports(Run(b, rule, Holding, 0, Ticks(true, j - b.short) + [false]).events)
  {
    if j < b.short {
      RunAppend(b, rule, FirstPressed, 0, Ticks(true, j), [false]);
      DebounceRun(b, rule, 0, j);
      var t1 := Run(b, rule, FirstPressed, 0, Ticks(true, j));
      var t2 := Run(b, rule, FirstPressed, j, [false]);
      assert t2.events == [NO_EVENT] && t2.state == Idle;
      assert Reports(t2.events) == [] by {
        assert t2.events[1..] == [];
      }
      ReportsAppend(t1.events, t2.events);
    } else {
      var tail := Ticks(true, j - b.short) + [false];
      assert Ticks(true, j) + [false] == Ticks(true, b.short) + tail;
      RunAppend(b, rule, FirstPressed, 0, Ticks(true, b.short), tail);
      DebounceToHolding(b, rule);
      var t1 := Run(b, rule, FirstPressed, 0, Ticks(true, b.short));
      ReportsAppend(t1.events, Run(b, rule, Holding, 0, tail).events);
      HoldThenRelease(b, rule, j - b.short);
    }
  }

  /**
   * A press of n ticks followed by a release, from Idle: nothing is reported
   * for a press no longer than the short threshold; otherwise, with
   * m = n - 1 - short ticks held, a long press is reported once m reaches the
   * long threshold, and a short press on release when the rule's comparison
   * allows it.
   */
  lemma PressReports(b: Board, rule: Rule, count: int, n: nat)
    requires 1 <= b.short && 1 <= b.long
    ensures var t := Run(b, rule, Idle, count, Ticks(true, n) + [false]);
      && t.state == (if n <= b.short then Idle else Released)
      && Reports(t.events) ==
        if n <= b.short then []
        else if n - 1 - b.short >= b.long then [LONG_PRESS]
        else if ShortOnRelease(b, rule, n - b.short) then [SHORT_PRESS]
        else []
  {
    if n == 0 {
      assert Ticks(true, n) + [false] == [false];
    } else {
      PressFromIdle(b, rule, count, n - 1);
      PressFromFirst(b, rule, n - 1);
      if n - 1 >= b.short {
        HoldThenRelease(b, rule, n - 1 - b.short);
      }
    }
  }

  /** The first pressed tick from Idle reports nothing and starts the debounce. */
  lemma PressFromIdle(b: Board, rule: Rule, count: int, j: nat)
    ensures var t := Run(b, rule, Idle, count, Ticks(true, j + 1) + [false]);
      var u := Run(b, rule, FirstPressed, 0, Ticks(true, j) + [false]);
      t.state == u.state && Reports(t.events) == Reports(u.events)
  {
    var rest := Ticks(true, j) + [false];
    assert Ticks(true, j + 1) + [false] == [true] + rest;
    RunAppend(b, rule, Idle, count, [true], rest);
    assert Run(b, rule, Idle, count, [true]) == Trace([NO_EVENT], FirstPressed, 0);
    ReportsAppend([NO_EVENT], Run(b, rule, FirstPressed, 0, rest).events);
    assert Reports([NO_EVENT]) == [] by {
      assert [NO_EVENT][1..] == [];
    }
  }

  /** As written, a press held for exactly short + long ticks is reported neither as short nor as long. */
  lemma PressLostAsWritten()
    ensures Reports(Run(USER_BOARD, AsWritten, Idle, 0, Ticks(true, 52) + [false]).events) == []
    ensures Reports(Run(PICO_BOARD, AsWritten, Idle, 0, Ticks(true, 520) + [false]).events) == []
  {
    PressReports(USER_BOARD, AsWritten, 0, 52);
    PressReports(PICO_BOARD, AsWritten, 0, 520);
  }

  /** With the fix, every press that outlasts the debounce is reported exactly once. */
  lemma EveryPressReported(b: Board, count: int, n: nat)
    requires 1 <= b.short && 1 <= b.long && n > b.short
    ensures |Reports(Run(b, Fixed, Idle, count, Ticks(true, n) + [false]).events)| == 1
  {
    PressReports(b, Fixed, count, n);
  }

  /** After a release, the button is idle again only once it has been released for the release threshold. */
  lemma {:induction false} SettleRun(b: Board, rule: Rule, count: int, k: nat)
    requires 0 <= count && count + k <= b.release
    ensures var t := Run(b, rule, Released, count, Ticks(false, k));
      && Reports(t.events) == []
      && t.state == (if k > 0 && count + k == b.release then Idle else Released)
      && t.count == count + k
    decreases k
  {
    if k > 0 {
      assert Ticks(false, k)[1..] == Ticks(false, k - 1);
      if count + 1 >= b.release {
        assert k == 1;
        assert Ticks(false, k) == [false];
      } else {
        SettleRun(b, rule, count + 1, k - 1);
      }
    }
  }

  /** button_scan's packing: the first button's event in bits 0-1, the second's in bits 2-3. */
  function Pack(e1: nat, e2: nat): (r: nat)
    ensures r < 16
  {
    e1 % 4 + (e2 % 4) * 4
  }

  lemma PackUnpack(e1: nat, e2: nat)
    requires e1 < 4 && e2 < 4
    ensures Pack(e1, e2) % 4 == e1 && Pack(e1, e2) / 4 == e2
  {
  }

  /** The state of the scan: state[] and timecntr[]. */
  class Buttons {
    const board: Board
    const state: array<State>
    const counter: array<int>

    predicate Valid()
      reads this
    {
      state.Length == BTNCNT && counter.Length == BTNCNT
    }

    /** button_init: every button idle with its counter at 0. */
    constructor (b: Board)
      ensures Valid() && board == b && fresh(state) && fresh(counter)
      ensures forall i | 0 <= i < BTNCNT :: state[i] == Idle && counter[i] == 0
    {
      board := b;
      state := new State[BTNCNT](_ => Idle);
      counter := new int[BTNCNT](_ => 0);
    }

    /** button_scan_single as written, for button id. */
    method ScanSingle(id: nat, pressed: bool) returns (event: nat)
      requires Valid() && id < BTNCNT
      modifies state, counter
      ensures var s := Scan(board, AsWritten, old(state[id]), old(counter[id]), pressed);
        state[id] == s.state && counter[id] == s.count && event == s.event
      ensures forall i | 0 <= i < BTNCNT && i != id :: state[i] == old(state[i]) && counter[i] == old(counter[i])
    {
      event := NO_EVENT;
      match state[id] {
        case Idle =>
          if pressed {
            state[id] := FirstPressed;
            counter[id] := 0;
          }
        case FirstPressed =>
          counter[id] := counter[id] + 1;
          if pressed {
            if counter[id] >= board.short {
              state[id] := Holding;
              counter[id] := 0;
            }
          } else {
            state[id] := Idle;
          }
        case Holding =>
          counter[id] := counter[id] + 1;
          if pressed {
            if counter[id] == board.long {
              event := LONG_PRESS;
            }
          } else {
            if counter[id] < board.long {
              event := SHORT_PRESS;
            }
            counter[id] := 0;
            state[id] := Released;
          }
        case Released =>
          if pressed {
            counter[id] := 0;
          } else {
            counter[id] := counter[id] + 1;
            if counter[id] >= board.release {
              state[id] := Idle;
            }
          }
      }
    }

    /** button_scan: both buttons scanned from their pin levels, the two events packed. */
    method ButtonScan(level1: int, level2: int) returns (packed: nat)
      requires Valid()
      modifies state, counter
      ensures var e1 := Scan(board, AsWritten, old(state[0]), old(counter[0]), level1 == board.pressedLevel);
        var e2 := Scan(board, AsWritten, old(state[1]), old(counter[1]), level2 == board.pressedLevel);
        && state[0] == e1.state && counter[0] == e1.count
        && state[1] == e2.state && counter[1] == e2.count
        && packed == Pack(e1.event, e2.event)
        && packed % 4 == e1.event && packed / 4 == e2.event
    {
      var btn1 := ScanSingle(0, level1 == board.pressedLevel);
      var btn2 := ScanSingle(1, level2 == board.pressedLevel);
      packed := Pack(btn1, btn2);
      PackUnpack(btn1, btn2);
    }
  }
}
