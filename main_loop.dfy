/**
 * The stopwatch's main loop as imperative code: the four mutable locals of
 * the loop become the fields of `Timer`, one iteration is `Timer.Step`, and
 * `Session` is the body of the program from the "Start time:" row until the
 * loop ends.
 */
module MainLoop {
  import opened Optional
  import opened Stopwatch

  class Timer {
    var runningTotal: nat
    var start: nat
    var paused: bool
    var activeLine: nat
    /** Number of pause/resume toggles so far. */
    ghost var toggles: nat
    /** Every row written so far, the "Start time:" row first. */
    ghost var written: seq<Row>

    function Snapshot(): State
      reads this
    {
      State(runningTotal, start, paused, activeLine)
    }

    /**
     * The current row is one past the start row per toggle, no row has been
     * written below it, and only "Elapsed:" rows lie on it: the live row
     * never overwrites a "Start time:", "Paused:" or "Resumed at:" row.
     */
    ghost predicate Valid()
      reads this
    {
      activeLine == StartLine + 1 + toggles && EventsAbove(written, activeLine)
    }

    /** The locals as the loop first sees them, after the "Start time:" row has been written at row 3. */
    constructor (now: nat, wall: string)
      ensures Valid()
      ensures Snapshot() == Started(now)
      ensures toggles == 0 && written == [StartRow(wall)]
    {
      runningTotal, start, paused := 0, now, false;
      written := [StartRow(wall)];
      activeLine := StartLine + 1;
      toggles := 0;
    }

    /** One iteration of the loop: the live row if running, then the key, if any. */
    method Step(key: Option<char>, now: nat, wall: string) returns (rows: seq<Row>, quit: bool)
      requires Valid()
      modifies this
      ensures Valid()
      ensures Outcome(Snapshot(), rows, quit) == Stopwatch.Step(old(Snapshot()), Input(key, now, wall))
      ensures written == old(written) + rows
      ensures toggles == old(toggles) + (if Toggles(key) then 1 else 0)
    {
      ghost var before := Snapshot();
      rows := [];
      if !paused {
        rows := rows + [Row(activeLine, ElapsedLabel, Duration(runningTotal + Elapsed(start, now)), Reset, true)];
      }
      quit := false;
      if key.Some? {
        var c := key.value;
        if c == 'q' {
          quit := true;
        } else if c == 'p' || c == ' ' {
          if paused {
            start := now;
            rows := rows + [Row(activeLine, ResumedLabel, WallClock(wall), Green, false)];
            activeLine := activeLine + 1;
            rows := rows + [Row(activeLine, ElapsedLabel, Duration(runningTotal), Reset, true)];
          } else {
            runningTotal := runningTotal + Elapsed(start, now);
            rows := rows + [Row(activeLine, PausedLabel, Duration(runningTotal), Red, false)];
            activeLine := activeLine + 1;
          }
          paused := !paused;
          toggles := toggles + 1;
        }
      }
      StepKeepsEventsAbove(written, before, Input(key, now, wall));
      written := written + rows;
    }
  }

  /**
   * One more iteration of the loop keeps a run from the start equal to the
   * rows written so far followed by the run over the inputs not yet consumed.
   */
  lemma RunAdvance(init: State, ins: seq<Input>, i: nat, done: seq<Row>, s: State)
    requires i < |ins|
    requires var rest := Run(s, ins[i..]); Run(init, ins) == Outcome(rest.next, done + rest.rows, rest.quit)
    ensures var first := Stopwatch.Step(s, Input(ins[i].key, ins[i].now, ins[i].wall));
      var rest := Run(first.next, ins[i + 1..]);
      Run(init, ins) == if first.quit then Outcome(first.next, done + first.rows, true)
                        else Outcome(rest.next, (done + first.rows) + rest.rows, rest.quit)
  {
    assert ins[i..][0] == ins[i] == Input(ins[i].key, ins[i].now, ins[i].wall);
    assert ins[i..][1..] == ins[i + 1..];
    var first := Stopwatch.Step(s, ins[i]);
    var rest := Run(first.next, ins[i + 1..]);
    assert done + (first.rows + rest.rows) == (done + first.rows) + rest.rows;
  }

  /**
   * From the "Start time:" row to the end of the loop, over the iterations
   * `inputs` describes. Yields every row written, whether the loop ended on
   * 'q', and the row the cursor is parked on afterwards, two below the
   * current one. The program reaches that parking step only by quitting, so
   * `restLine` stands for a screen position only when `quit` holds.
   */
  method Session(now: nat, wall: string, inputs: seq<Input>) returns (rows: seq<Row>, quit: bool, restLine: nat)
    ensures rows == [StartRow(wall)] + Run(Started(now), inputs).rows
    ensures quit == Run(Started(now), inputs).quit
    ensures restLine == StartLine + 3 + ToggleCount(inputs)
    ensures forall r :: r in rows ==> r.line < restLine
  {
    var timer := new Timer(now, wall);
    ghost var init := Started(now);
    var log: seq<Row> := [];
    quit := false;
    var i := 0;
    while i < |inputs| && !quit
      invariant 0 <= i <= |inputs|
      invariant timer.Valid()
      invariant quit ==> Run(init, inputs) == Outcome(timer.Snapshot(), log, true)
      invariant !quit ==>
        var rest := Run(timer.Snapshot(), inputs[i..]);
        Run(init, inputs) == Outcome(rest.next, log + rest.rows, rest.quit)
      decreases |inputs| - i
    {
      RunAdvance(init, inputs, i, log, timer.Snapshot());
      var stepRows, stepQuit := timer.Step(inputs[i].key, inputs[i].now, inputs[i].wall);
      log := log + stepRows;
      quit := stepQuit;
      i := i + 1;
    }
    assert !quit ==> inputs[i..] == [];
    RunActiveLine(init, inputs);
    RunEventsAbove([StartRow(wall)], init, inputs);
    rows := [StartRow(wall)] + log;
    restLine := timer.activeLine + 2;
  }
}
