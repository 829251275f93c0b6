/**
 * One iteration of the stopwatch's main loop, as a function of the loop's
 * state, and runs of the loop over a sequence of inputs.
 *
 * The state is the four mutable locals of the loop: the committed duration,
 * the anchor instant of the current running interval, whether the stopwatch
 * is paused, and the terminal row the next output goes to. Instants are
 * milliseconds of a monotonic clock; each iteration sees one instant `now`,
 * at most one key, and the wall-clock text of that moment.
 */
module Stopwatch {
  import opened Optional
  import opened TimeFormat

  /** Row of the "Start time:" line; rows 0 and 1 hold the header. */
  const StartLine: nat := 3
  /** Column at which the time text of every row begins. */
  const TimeColumn: nat := 14

  const StartLabel: string := "Start time: "
  const ElapsedLabel: string := "Elapsed: "
  const ResumedLabel: string := "Resumed at: "
  const PausedLabel: string := "Paused: "

  datatype Colour = Reset | Cyan | Green | Red

  /** What a row shows at the time column: a wall-clock reading, or a duration drawn by `format_time`. */
  datatype Text = WallClock(reading: string) | Duration(millis: nat)

  /** The characters a row's text puts on the screen. */
  function Render(t: Text): string {
    match t
    case WallClock(reading) => reading
    case Duration(millis) => FormatDuration(millis)
  }

  /**
   * One write to the terminal: `caption` at column 0 of `line`, then `text` at
   * column `TimeColumn`, in foreground `colour`; `boldText` says whether the
   * text (not the caption) is bold.
   */
  datatype Row = Row(line: nat, caption: string, text: Text, colour: Colour, boldText: bool)

  datatype State = State(runningTotal: nat, start: nat, paused: bool, activeLine: nat)

  /** What one iteration is given: the key it received, if any, the instant, and the wall-clock text. */
  datatype Input = Input(key: Option<char>, now: nat, wall: string)

  /** What one iteration, or a run of them, yields: the new state, the rows written, and whether the loop ended. */
  datatype Outcome = Outcome(next: State, rows: seq<Row>, quit: bool)

  /** `Instant::elapsed`: time since `start`, zero if the clock reads earlier. */
  function Elapsed(start: nat, now: nat): nat {
    if start <= now then now - start else 0
  }

  /** The duration the stopwatch stands at, at instant `now`. */
  function Shown(s: State, now: nat): nat {
    s.runningTotal + (if s.paused then 0 else Elapsed(s.start, now))
  }

  predicate IsToggle(c: char) { c == 'p' || c == ' ' }

  predicate Toggles(key: Option<char>) { key.Some? && IsToggle(key.value) }

  predicate Quits(key: Option<char>) { key == Some('q') }

  /** The state just after the "Start time:" row, with the clock anchored at `now`. */
  function Started(now: nat): (s: State)
    ensures Shown(s, now) == 0 && !s.paused && s.activeLine == StartLine + 1
    ensures s.runningTotal == 0 && s.start == now
  {
    State(0, now, false, StartLine + 1)
  }

  function StartRow(wall: string): Row {
    Row(StartLine, StartLabel, WallClock(wall), Cyan, false)
  }

  /** The live "Elapsed:" row an iteration writes before it looks at the key: only while running. */
  function TickRows(s: State, now: nat): seq<Row> {
    if s.paused then []
    else [Row(s.activeLine, ElapsedLabel, Duration(s.runningTotal + Elapsed(s.start, now)), Reset, true)]
  }

  lemma CaptionsDistinct()
    ensures ElapsedLabel != ResumedLabel && ElapsedLabel != PausedLabel && ElapsedLabel != StartLabel
    ensures ResumedLabel != PausedLabel
  {
    assert ElapsedLabel[0] != ResumedLabel[0] && ElapsedLabel[0] != PausedLabel[0] && ElapsedLabel[0] != StartLabel[0];
    assert ResumedLabel[0] != PausedLabel[0];
  }

  /** One iteration of the loop. */
  function Step(s: State, inp: Input): (o: Outcome)
    // the loop ends exactly on 'q'
    ensures o.quit <==> Quits(inp.key)
    // a toggle flips `paused` and moves to the next row; nothing else changes the state
    ensures Toggles(inp.key) ==> o.next.paused == !s.paused && o.next.activeLine == s.activeLine + 1
    ensures !Toggles(inp.key) ==> o.next == s && o.rows == TickRows(s, inp.now)
    // the committed duration grows only when a running stopwatch is paused, by the time since the anchor
    ensures o.next.runningTotal >= s.runningTotal
    ensures o.next.runningTotal != s.runningTotal ==> Toggles(inp.key) && !s.paused
    ensures Toggles(inp.key) && !s.paused ==>
      o.next.runningTotal == s.runningTotal + Elapsed(s.start, inp.now) && o.next.start == s.start
    // resuming re-anchors the clock at `now` and keeps the committed duration
    ensures Toggles(inp.key) && s.paused ==> o.next.start == inp.now && o.next.runningTotal == s.runningTotal
    ensures s.start <= inp.now ==> o.next.start <= inp.now
    // toggling never makes the shown duration jump
    ensures Shown(o.next, inp.now) == Shown(s, inp.now)
    // while running, the first row is the live one, at the current row, showing total plus time since the anchor
    ensures |o.rows| == (if s.paused then 0 else 1) + (if !Toggles(inp.key) then 0 else if s.paused then 2 else 1)
    ensures !s.paused ==>
      o.rows[0] == Row(s.activeLine, ElapsedLabel, Duration(s.runningTotal + Elapsed(s.start, inp.now)), Reset, true)
    // pausing writes "Paused:" with the just-committed total at the old current row
    ensures Toggles(inp.key) && !s.paused ==>
      o.rows[1] == Row(s.activeLine, PausedLabel, Duration(o.next.runningTotal), Red, false)
    // resuming writes "Resumed at:" at the old current row and a frozen total at the new one
    ensures Toggles(inp.key) && s.paused ==>
      o.rows[0] == Row(s.activeLine, ResumedLabel, WallClock(inp.wall), Green, false) &&
      o.rows[1] == Row(o.next.activeLine, ElapsedLabel, Duration(s.runningTotal), Reset, true)
  {
    var tick := TickRows(s, inp.now);
    if Quits(inp.key) then Outcome(s, tick, true)
    else if Toggles(inp.key) then
      if s.paused then
        Outcome(State(s.runningTotal, inp.now, false, s.activeLine + 1),
                tick + [Row(s.activeLine, ResumedLabel, WallClock(inp.wall), Green, false),
                        Row(s.activeLine + 1, ElapsedLabel, Duration(s.runningTotal), Reset, true)],
                false)
      else
        var total := s.runningTotal + Elapsed(s.start, inp.now);
        Outcome(State(total, s.start, true, s.activeLine + 1),
                tick + [Row(s.activeLine, PausedLabel, Duration(total), Red, false)],
                false)
    else Outcome(s, tick, false)
  }

  /**
   * Where and what an iteration writes: rows go to the current row or the
   * next, only "Elapsed:" rows reach the new current row, every duration
   * written is the one the stopwatch stands at, and no caption runs into the
   * time column.
   */
  lemma StepRowsAt(s: State, inp: Input, i: nat)
    requires i < |Step(s, inp).rows|
    ensures var o, r := Step(s, inp), Step(s, inp).rows[i];
      s.activeLine <= r.line <= o.next.activeLine &&
      (r.caption != ElapsedLabel ==> r.line < o.next.activeLine) &&
      (r.caption != ResumedLabel ==> r.text == Duration(Shown(s, inp.now))) &&
      (r.caption == ResumedLabel ==> r.text == WallClock(inp.wall)) &&
      |r.caption| < TimeColumn
  {
    CaptionsDistinct();
  }

  /**
   * What an iteration puts on the screen at the time column: "Resumed at:"
   * rows show the wall clock, and every other row shows a display that reads
   * back as the whole seconds the stopwatch stands at.
   */
  lemma StepRowsRender(s: State, inp: Input, i: nat)
    requires i < |Step(s, inp).rows|
    ensures var r := Step(s, inp).rows[i];
      (r.caption != ResumedLabel ==> ParseTime(Render(r.text)) == Some(Shown(s, inp.now) / MillisPerSecond)) &&
      (r.caption == ResumedLabel ==> Render(r.text) == inp.wall)
  {
    StepRowsAt(s, inp, i);
  }

  /**
   * No row of `rows` lies below `line`, and only "Elapsed:" rows lie on it:
   * when `line` is the current row, the next live row overwrites no event row.
   */
  predicate EventsAbove(rows: seq<Row>, line: nat) {
    (forall r :: r in rows ==> r.line <= line) &&
    (forall r :: r in rows && r.caption != ElapsedLabel ==> r.line < line)
  }

  /** An iteration keeps every row written so far, and the ones it writes, above the new current row. */
  lemma StepKeepsEventsAbove(rows: seq<Row>, s: State, inp: Input)
    requires EventsAbove(rows, s.activeLine)
    ensures EventsAbove(rows + Step(s, inp).rows, Step(s, inp).next.activeLine)
  {
    var o := Step(s, inp);
    forall r | r in rows + o.rows
      ensures r.line <= o.next.activeLine && (r.caption != ElapsedLabel ==> r.line < o.next.activeLine)
    {
      if r !in rows {
        var i :| 0 <= i < |o.rows| && o.rows[i] == r;
        StepRowsAt(s, inp, i);
      }
    }
  }

  /** Iterations of the loop over `ins`, up to and including the one that receives 'q'. */
  function Run(s: State, ins: seq<Input>): (o: Outcome)
    ensures o.next.runningTotal >= s.runningTotal
    ensures o.next.activeLine >= s.activeLine
    decreases |ins|
  {
    if ins == [] then Outcome(s, [], false)
    else
      var first := Step(s, ins[0]);
      if first.quit then first
      else
        var rest := Run(first.next, ins[1..]);
        Outcome(rest.next, first.rows + rest.rows, rest.quit)
  }

  /**
   * A run writes nothing above the current row it starts from, and leaves
   * every row it wrote above its final current row, only "Elapsed:" rows on it.
   */
  lemma {:induction false} RunEventsAbove(rows: seq<Row>, s: State, ins: seq<Input>)
    requires EventsAbove(rows, s.activeLine)
    ensures EventsAbove(rows + Run(s, ins).rows, Run(s, ins).next.activeLine)
    ensures forall r :: r in Run(s, ins).rows ==> s.activeLine <= r.line
    decreases |ins|
  {
    if ins == [] {
      assert rows + Run(s, ins).rows == rows;
    } else {
      var first := Step(s, ins[0]);
      StepKeepsEventsAbove(rows, s, ins[0]);
      forall i | 0 <= i < |first.rows| ensures s.activeLine <= first.rows[i].line {
        StepRowsAt(s, ins[0], i);
      }
      if !first.quit {
        var rest := Run(first.next, ins[1..]);
        RunEventsAbove(rows + first.rows, first.next, ins[1..]);
        assert rows + first.rows + rest.rows == rows + (first.rows + rest.rows);
      }
    }
  }

  /** Number of toggles among the keys that a run consumes, that is, before the first 'q'. */
  function ToggleCount(ins: seq<Input>): nat {
    if ins == [] || Quits(ins[0].key) then 0
    else (if Toggles(ins[0].key) then 1 else 0) + ToggleCount(ins[1..])
  }

  /** Instants that never go back, starting from `prev`. */
  predicate Chronological(prev: nat, ins: seq<Input>)
    decreases |ins|
  {
    ins == [] || (prev <= ins[0].now && Chronological(ins[0].now, ins[1..]))
  }

  /** The instant of the last iteration a run performs (`prev` when there is none). */
  function LastInstant(prev: nat, ins: seq<Input>): nat
    decreases |ins|
  {
    if ins == [] then prev
    else if Quits(ins[0].key) then ins[0].now
    else LastInstant(ins[0].now, ins[1..])
  }

  /**
   * Reference definition of how long the stopwatch has been running: the sum
   * of the gaps between consecutive iterations during which it was not paused,
   * with `paused` flipped by each toggle key.
   */
  function RunningTime(paused: bool, prev: nat, ins: seq<Input>): nat
    requires Chronological(prev, ins)
    decreases |ins|
  {
    if ins == [] then 0
    else
      var gap := if paused then 0 else ins[0].now - prev;
      if Quits(ins[0].key) then gap
      else gap + RunningTime(if Toggles(ins[0].key) then !paused else paused, ins[0].now, ins[1..])
  }

  /** The current row is the first row below the start row, plus one per toggle. */
  lemma {:induction false} RunActiveLine(s: State, ins: seq<Input>)
    ensures Run(s, ins).next.activeLine == s.activeLine + ToggleCount(ins)
    decreases |ins|
  {
    if ins != [] && !Quits(ins[0].key) {
      RunActiveLine(Step(s, ins[0]).next, ins[1..]);
    }
  }

  /** The loop ends exactly when some key before the end of the input is 'q'. */
  lemma {:induction false} RunQuits(s: State, ins: seq<Input>)
    ensures Run(s, ins).quit <==> exists i :: 0 <= i < |ins| && Quits(ins[i].key)
    decreases |ins|
  {
    if ins != [] && !Quits(ins[0].key) {
      RunQuits(Step(s, ins[0]).next, ins[1..]);
      if exists i :: 0 <= i < |ins| && Quits(ins[i].key) {
        var i :| 0 <= i < |ins| && Quits(ins[i].key);
        assert Quits(ins[1..][i - 1].key);
      }
      if exists j :: 0 <= j < |ins[1..]| && Quits(ins[1..][j].key) {
        var j :| 0 <= j < |ins[1..]| && Quits(ins[1..][j].key);
        assert Quits(ins[j + 1].key);
      }
    }
  }

  /** Between two iterations, the shown duration grows by the time passed if running, and not at all if paused. */
  lemma ShownAdvance(s: State, t0: nat, t1: nat)
    requires s.start <= t0 <= t1
    ensures Shown(s, t1) == Shown(s, t0) + (if s.paused then 0 else t1 - t0)
  {
  }

  /**
   * Over a run whose instants never go back, the duration shown at the last
   * instant is the duration shown at the first plus the time spent running.
   */
  lemma {:induction false} RunShown(s: State, t0: nat, ins: seq<Input>)
    requires s.start <= t0 && Chronological(t0, ins)
    ensures Shown(Run(s, ins).next, LastInstant(t0, ins)) == Shown(s, t0) + RunningTime(s.paused, t0, ins)
    decreases |ins|
  {
    if ins != [] {
      var t1 := ins[0].now;
      var first := Step(s, ins[0]);
      ShownAdvance(s, t0, t1);
      if !Quits(ins[0].key) {
        assert first.next.paused == if Toggles(ins[0].key) then !s.paused else s.paused;
        RunShown(first.next, t1, ins[1..]);
      }
    }
  }

  /** From the start, the shown duration is exactly the time spent running; in particular it never goes back. */
  lemma SessionShown(t0: nat, ins: seq<Input>)
    requires Chronological(t0, ins)
    ensures Shown(Run(Started(t0), ins).next, LastInstant(t0, ins)) == RunningTime(false, t0, ins)
  {
    RunShown(Started(t0), t0, ins);
  }
}
