# datimer stopwatch core, in Dafny

datimer is a terminal stopwatch. It draws a header, a "Start time:" row and
then a live "Elapsed:" row that updates every iteration of its main loop. The
`p` key or the space bar pauses and resumes it, and `q` quits. Each pause
leaves a red "Paused:" row with the total so far. Each resume leaves a green
"Resumed at:" row with the wall-clock time, and below it a new "Elapsed:" row
that carries on counting.

This project models two pieces of `src/main.rs`:

- `format_time`: a duration shown as `HH:MM:SS`, each field zero-padded to
  two digits. The hour field is the raw quotient by 3600, so 30 hours shows
  as `30:00:00`. This is module `TimeFormat` (`time_format.dfy`): pure
  functions and lemmas.
- The state machine inside `main`'s loop. Its state is four mutable locals:
  `running_total`, `start`, `paused` and `active_line`.
  - Module `Stopwatch` (`stopwatch.dfy`) gives one iteration as the function
    `Step` and a sequence of iterations as `Run`. The lemmas are stated about
    these two.
  - Module `MainLoop` (`main_loop.dfy`) is the imperative form. Class `Timer`
    holds the four locals as fields, and its `Step` method updates them in
    place; it is proved equal to `Stopwatch.Step`. Method `Session` runs the
    loop from the "Start time:" row to the end and is proved equal to `Run`.
- Module `Optional` (`optional.dfy`) holds the `Option` type.

How the model stands in for what it cannot run:

- **The clock.** Instants are milliseconds of a monotonic clock, as `nat`.
  `Instant::elapsed` is `Elapsed(start, now)`, a subtraction that gives 0 if
  the clock reads earlier than `start`.
- **Rounding.** `format_time` calls `as_secs`, which drops the fraction of a
  second. So `FormatDuration(ms)` is `FormatSeconds(ms / 1000)`.
- **What a row shows.** A `Row` is one write to the terminal: a line, a
  caption, a colour, whether the text is bold, and a `Text`. The `Text` is
  either a wall-clock reading or a `Duration` that `Render` draws with
  `FormatDuration`. Rows therefore record which duration they show, not only
  the characters.
- **Inputs.** The wall-clock string (`get_local_time`) is an input of each
  iteration. So is the key the loop received, if any.

What the loop does, in a few facts the model keeps:

- **Rows.** Rows are drawn one below the other, from row 3 downward. No log
  of rows is kept; each row is written to the terminal only.
- **The tick.** The loop sleeps 250 ms per iteration.
- **The pause row.** It reads "Paused: " and shows the committed total. It is
  drawn on the live row's line, over it, and nothing else is written in that
  iteration.

## Model

| member | source | states |
|---|---|---|
| TimeFormat.Split | src/main.rs:12-17 | the fields satisfy hours·3600 + minutes·60 + seconds = secs, with minutes < 60 and seconds < 60 |
| TimeFormat.SplitJoin | src/main.rs:15-17 | the split is unique: any clock with minutes and seconds below 60 is split back from the seconds it stands for |
| TimeFormat.Pad2 | src/main.rs:14 | `{:02}` gives digits that read back as the number; never fewer than two characters, exactly two when the number is below 100; a leading zero exactly when the number is a single digit, so no extra zeros from 10 on |
| TimeFormat.FormatSeconds | src/main.rs:13-18 | the display is at least 8 characters, has colons 6 and 3 from the end, is exactly 8 characters iff secs < 360000, and starts with '0' iff the hours are below 10 |
| TimeFormat.FormatFields | src/main.rs:13-17 | the three fields read back as secs / 3600 (no wrap at 24), (secs % 3600) / 60 and secs % 60 |
| TimeFormat.FormatParse | src/main.rs:11-19 | round trip: reading the display back gives the number of seconds |
| TimeFormat.FormatInjective | src/main.rs:11-19 | different numbers of seconds never give the same display |
| TimeFormat.FormatDuration | src/main.rs:11-12 | `format_time` on a duration: `as_secs` drops the fraction of a second, and the display reads back as exactly the whole seconds of the duration |
| TimeFormat.ThirtyHours | src/main.rs:15 | 30 hours are shown as `30:00:00` |
| Stopwatch.Started | src/main.rs:47-80 | the loop starts running, with a total of 0 and the anchor at the start instant, so 0 is shown then, and the current row is 4, one below the "Start time:" row at 3 |
| Stopwatch.Step | src/main.rs:84-141 | 'q' and only 'q' ends the loop; 'p' or ' ' flips `paused` and moves down one row; any other key or no key changes no state and writes only the live row; the total grows only on a pause, by exactly the time since the anchor; a resume re-anchors at `now` and keeps the total; toggling never changes the shown duration; while running the first row is "Elapsed:" at the current row with total + elapsed; while paused nothing is written unless resumed; the pause row holds the new total at the old row; the resume rows are the wall clock at the old row and the frozen total at the new row |
| Stopwatch.StepRowsAt | src/main.rs:85-133 | every row of an iteration lies on the old or new current row; only "Elapsed:" rows lie on the new one; every duration written equals the shown duration at that instant; "Resumed at:" shows the wall clock; every caption ends before column 14 |
| Stopwatch.StepRowsRender | src/main.rs:85-130 | the text of every row an iteration writes, as drawn: "Resumed at:" shows the wall clock, and every other row shows a display that reads back as the whole seconds the stopwatch stands at |
| Stopwatch.StepKeepsEventsAbove | src/main.rs:85-133 | no row lies below the current row, and only "Elapsed:" rows lie on it; one iteration keeps this, so the live row never overwrites an event row |
| Stopwatch.Run | src/main.rs:84-141 | over any run, the committed total never decreases and the current row never moves up |
| Stopwatch.RunEventsAbove | src/main.rs:84-141 | over any run, every row written lies between the starting and final current rows, and only "Elapsed:" rows lie on the final one |
| Stopwatch.RunActiveLine | src/main.rs:80-133 | after a run the current row is the starting row plus the number of toggles before the first 'q' |
| Stopwatch.RunQuits | src/main.rs:99 | a run ends by quitting iff some input key is 'q' |
| Stopwatch.RunShown | src/main.rs:85-135 | with instants that never go back, the duration shown at the last iteration is the one shown at the instant before the first iteration plus the time spent running, measured independently as the sum of gaps while not paused |
| Stopwatch.SessionShown | src/main.rs:68-141 | from the start, the shown duration is exactly the time spent running |
| MainLoop.Timer.constructor | src/main.rs:47-80 | the fields start as `Started(now)`, with the "Start time:" row the only one written |
| MainLoop.Timer.Step | src/main.rs:84-139 | updates the four fields in place exactly as `Stopwatch.Step`, returns its rows and quit flag, and keeps the row invariant: the current row is 4 plus the number of toggles, and no event row lies on or below it |
| MainLoop.Session | src/main.rs:47-147 | the rows written are the "Start time:" row followed by those of `Run`; the loop quits exactly as `Run` does; the cursor is parked 2 rows below the current row, at row 6 plus the number of toggles, below every row written (a screen position only when the loop quit) |

## Left out

- Terminal control: raw mode, hiding and showing the cursor, clearing the
  screen, and the two header rows. These are foreign I/O calls. The header
  only shows up as the start row being 3, and cursor handling at exit only as
  `restLine`.
- The screen contents: rows are modelled as writes, not as the text left on
  the screen. When a shorter caption is drawn over a longer one, leftover
  characters remain visible; the model does not track that.
- The key-listener task and its one-slot channel. This is concurrency. Each
  iteration is given at most one character. Key events that are not
  characters are dropped by the listener, and the model has no such events.
- The 250 ms sleep. Time passing is the `now` of each iteration. Nothing
  bounds the gap between two iterations.
- Several clock reads per iteration. The code reads the clock separately for
  the live row, for a pause, and for a resume. The model uses one `now`
  for the whole iteration.
- `get_local_time`: the wall-clock reading is an opaque string input.
- Panics: the `.unwrap()` panics on write failure, and the early return when
  raw mode cannot be enabled. This is I/O error handling.
- Integer widths. `active_line` is a `u16` in the code, because
  `cursor::MoveTo` takes one. It would overflow after about 65 500 toggles;
  the model's row numbers are unbounded. Likewise, `Duration` overflow and the
  64-bit bound on seconds are not modelled.
- Precision: instants are milliseconds, not nanoseconds. Only whole seconds
  reach the display; `FormatDuration` states that truncation.
- A history buffer, eviction and file persistence. None of these are in the
  code.
