# Motion2Gif in Dafny

Motion2Gif is an Avalonia desktop front end. It cuts video and turns ranges of it into GIFs by running ffmpeg. This project models the arithmetic and bookkeeping around that hand-off, as pure Dafny functions over immutable datatypes:

- **Time ↔ strip position.** These are `TimeMs.FromDip` / `ToDip`, the `TimeMs` ordering and the four clock-text formatters (`time.dfy`, `formats.dfy`, with `clock.dfy` for .NET `TimeSpan`).
- **Trim ranges.** These are `MediaRange.Create` and `GetDuration` (`ranges.dfy`).
- **The ffmpeg jobs of `VideoProcessor`** (`processor.dfy`, `commandline.dfy`). The model covers:
  - the cut job's argument string;
  - the GIF job's checks and argument list;
  - the `key=value` progress protocol, as a fold over the lines ffmpeg prints;
  - the outcome of a run.
- **`JobProcessingService`** (`service.dfy`). This is a registry keyed by fresh ids, plus a four-slot semaphore. Acquire, cancel-while-waiting and run are separate atomic steps, which may come in any interleaving.
- **The progress journal** (`journal.dfy`). This covers insert-or-update of the job rows, the summary text, and the Remove and Cancel commands.
- **The trim-range selectors** (`selectors.dfy`, `handles.dfy`). There are three revisions of the control, each with two draggable handles. They are one state machine, parameterised by the constants that differ between revisions.
- **The timeline's tick list** (`timeline.dfy`) and **volume clamping** (`volume.dfy`).

Three things are modelled abstractly:

- **Numbers.** C# `double` is `real` and `long` is `int`. `Math.Round` rounds half to even. C#'s truncating `/` and `%` are written out (`Common.TruncDiv`, `Common.TruncMod`).
- **Unknown code is a parameter.** `FormatForProcessor` is a `Formatter` function parameter, and Avalonia's `Rect.Contains` is a `Contains` function parameter.
- **Unseen behaviour is an input.** `Guid.NewGuid` is a counter. What the ffmpeg process does is an input to the model:
  - whether it starts;
  - the lines it prints;
  - its exit code;
  - when the job is cancelled.

Exceptions are `Failure` values of a `Result`, or the `fault` of an outcome.

Quirks of the program are kept as written:

- `progress=continue` is reported as Completed.
- `DurationExtensions.Formatted` reads milliseconds as 100-ns ticks.
- A negative media duration gives all-zero timeline ticks.
- The selectors' reset may put `TrimEnd` past `Max`.
- `TimeMs.TimeSpan()` is taken to be `TimeSpan.FromMilliseconds`, that is 10 000 ticks per millisecond.

## Model

| member | source | states |
|---|---|---|
| Time.FromDip | Motion2Gif/Player/TimeMs.cs:9-20 | the result lies in [0, max(0, duration)]; it is 0 when the width or the duration is not positive, 0 at or left of the strip, and the whole duration at or right of its end |
| Time.FromDipMonotone | Motion2Gif/Player/TimeMs.cs:16-19 | moving the position right never gives an earlier time |
| Time.FromDipUnfold | Motion2Gif/Controls/TimeMs.cs:7-17 | for a positive width and duration, the older `FromDip` is the rounded clamped share of the duration, the same as the player's, so one definition serves both |
| Time.ShareOfBounds | Motion2Gif/Player/TimeMs.cs:17-19 | rounding a share in [0, 1] of a total gives a whole number in [0, total], exactly 0 and the total at the ends |
| Time.CompareTo | Motion2Gif/Player/TimeMs.cs:22-26 | the sign of `CompareTo` agrees with `<`, `>`, `<=`, `>=` and equality of the values |
| Time.ToDip | Motion2Gif/Player/TimeMs.cs:49-50 | multiplied back by the duration (a duration below 1 counting as 1) the position gives t·width; it is not negative for t, width ≥ 0, and at most the width for 0 ≤ t ≤ duration |
| Time.ToDipThenFromDip | Motion2Gif.Tests/TimeMsTests.cs:34-48 | for a positive duration and width and 0 ≤ t ≤ duration, `FromDip(ToDip(t))` is exactly t |
| Time.FromDipThenToDip | Motion2Gif.Tests/TimeMsTests.cs:50-68 | for a position on the strip, `ToDip(FromDip(x))` is within width/(2·duration) of x, and so within the width/duration of one millisecond |
| Time.FromDipError | Motion2Gif/Player/TimeMs.cs:16-19 | `FromDip` is within half a millisecond of the exact share of the duration |
| Time.Examples | Motion2Gif.Tests/TimeMsTests.cs:9-32 | ToDip(100 ms of 10 s, width 1000) is 10, and the test's concrete round trips hold |
| Common.RoundHalfEven | Motion2Gif/Player/TimeMs.cs:19 | `Math.Round`: the result is within one half of x, and a tie goes to the even neighbour |
| Common.TruncDiv | Motion2Gif/Processing/MediaRange.cs:22 | C# `long` division: the remainder has the sign of the dividend and is smaller than the divisor |
| Clock.MillisecondParts | Motion2Gif/Player/TimeMs.cs:31 | the hour, minute and second components of `TimeSpan.FromMilliseconds(ms)`, and its whole hours, are truncating quotients of ms, with the hours wrapped at 24 |
| Clock.ClockParts | Motion2Gif/Other/VideoPlayerService.cs:18-19 | for non-negative ticks: hours = ticks/36·10⁹ mod 24, minutes = ticks/6·10⁸ mod 60, seconds = ticks/10⁷ mod 60, and the components rebuild the tick count |
| Formats.PlayerFormatted | Motion2Gif/Player/TimeMs.cs:33-47 | `Formatted` and `NewFormatted`: two fields when the hour of the day is 0 and three otherwise; a non-negative time reads back as the components shown, in 5 or 8 characters |
| Formats.ShortFormIffNoHour | Motion2Gif/Player/TimeMs.cs:37-39 | the short "mm:ss" form appears exactly when the hour of the day is 0 |
| Formats.OneDayLooksLikeZero | Motion2Gif/Player/TimeMs.cs:37-39 | a whole day shows as "00:00" in the player and "00:00:00" in the controls, like 0 |
| Formats.ControlsFormatted | Motion2Gif/Controls/TimeMs.cs:24-28 | always three fields; a non-negative time reads back as hour of day, minute and second, in 8 characters |
| Formats.WholeSecondsOnly | Motion2Gif/Controls/TimeMs.cs:22-27 | cutting the sub-second milliseconds changes none of the player text, the controls text or the duration text |
| Formats.DurationText | Motion2Gif/Other/Extensions.cs:7-11 | three fields; for ms ≥ 0 the hours are the total whole hours, not wrapped at a day, then minutes and seconds, and the text is 8 characters below 100 hours |
| Formats.DurationTextExamples | Motion2Gif/Other/Extensions.cs:9-10 | 0 shows as "00:00:00" and 25 h 1 min 1 s as "25:01:01" |
| Formats.TickFormatted | Motion2Gif/Other/VideoPlayerService.cs:16-20 | the value is read as 100-ns ticks: for a non-negative value the fields are the tick quotients by an hour (mod 24), a minute (mod 60) and a second (mod 60) |
| Formats.BelowOneSecondOfTicks | Motion2Gif/Other/VideoPlayerService.cs:18-19 | every value under 10 000 000 shows as "00:00:00" |
| Formats.TicksNotMilliseconds | Motion2Gif/Other/VideoPlayerService.cs:18-19 | a minute's worth of milliseconds shows as "00:00:00", and adding a day of ticks changes nothing |
| Ranges.Create | Motion2Gif/Processing/MediaRange.cs:8-14 | fails with an `ArgumentException` exactly when end < start, and otherwise keeps both ends unchanged, with no lower bound on start |
| Ranges.GetDuration | Motion2Gif/Processing/MediaRange.cs:19-24 | end − start for an ordered range, and end − start + 1 for an inverted one, because of truncating division of the rounded tick difference |
| Ranges.CreatedDuration | Motion2Gif/Processing/VideoProcessor.cs:13-29 | a range that `Create` accepts has duration exactly end − start; the copy in this file is the same definition |
| Ranges.EmptyRange | Motion2Gif/Processing/MediaRange.cs:10-23 | `Create(t, t)` succeeds and its duration is 0 |
| Processor.CutArguments | Motion2Gif/Processing/VideoProcessor.cs:55-61 | when the formatted times are single words and neither path holds a quote or ends in a backslash, the child process receives exactly -hide_banner, -ss start, -t duration, -i input, -c copy, -map 0, -movflags +faststart, -progress pipe:1 and the output |
| Processor.CutCommand | Motion2Gif/Processing/VideoProcessor.cs:55-61 | the cut job's string splits into -hide_banner, -ss start, -t duration, -i input, -c copy, -map 0, -movflags +faststart, -progress pipe:1 and the output last, and ffmpeg reads them as those options |
| Processor.Percent | Motion2Gif/Processing/VideoProcessor.cs:116-118 | in [0, 100]; 100 when the total is not positive; otherwise processed·100/total clamped, with 0 and 100 at the ends |
| Processor.PercentMonotone | Motion2Gif/Processing/VideoProcessor.cs:116-118 | more processed time never gives a smaller percent |
| Processor.KeyValue | Motion2Gif/Processing/VideoProcessor.cs:110-111 | an index error exactly when the line has no '='; otherwise the key and the value hold no '=' |
| Processor.KeyValueOf | Motion2Gif/Processing/VideoProcessor.cs:110-111 | the value is the text between the first and the second '=' |
| Processor.FromMicroseconds | Motion2Gif/Processing/VideoProcessor.cs:115 | ten ticks per microsecond, and an overflow when they do not fit in a long |
| Processor.ReadLine | Motion2Gif/Processing/VideoProcessor.cs:107-130 | a line throws exactly when it has no '=' or its microseconds overflow; every report carries the total, a percent in [0, 100] and state Running or Completed; a line without a report keeps the processed time |
| Processor.OutTimeValue | Motion2Gif/Processing/VideoProcessor.cs:113-121 | an `out_time_ms` line with a long value sets processed and reports Running "continue" at its percent; a non-number changes nothing |
| Processor.NotYetLine | Motion2Gif/Processing/VideoProcessor.cs:113 | `out_time_ms=N/A` changes nothing |
| Processor.ProgressValue | Motion2Gif/Processing/VideoProcessor.cs:122-129 | any `progress=v` line reports Completed with phase v, at 100% for "end" and otherwise at the percent of the last processed time |
| Processor.ContinueLine | Motion2Gif/Processing/VideoProcessor.cs:122-128 | `progress=continue` is reported as Completed |
| Processor.OtherKeyLine | Motion2Gif/Processing/VideoProcessor.cs:110-130 | a line with any other key reports nothing and keeps the processed time |
| Processor.NoEqualsLine | Motion2Gif/Processing/VideoProcessor.cs:110-111 | a line without '=' throws an index error |
| Processor.ReadFrom | Motion2Gif/Processing/VideoProcessor.cs:105-130 | the loop only appends reports, at most one per line, keeps every report's shape, and stops at the first exception |
| Processor.ReadFromAppend | Motion2Gif/Processing/VideoProcessor.cs:107 | reading lines in two batches is reading them together |
| Processor.ReportCount | Motion2Gif/Processing/VideoProcessor.cs:107-130 | without a throwing line, the loop makes exactly one report per `progress` line and per well-formed `out_time_ms` line |
| Processor.StopsAtFault | Motion2Gif/Processing/VideoProcessor.cs:110-111 | after a throwing line the loop has ended with a fault, and later lines change nothing |
| Processor.RunCut | Motion2Gif/Processing/VideoProcessor.cs:47-139 | a missing range throws a null reference before anything else; every report carries the range's duration as its total |
| Processor.CutFails | Motion2Gif/Processing/VideoProcessor.cs:90-138 | a cut reports Failed exactly when ffmpeg does not start, or when it ran uncancelled, no line threw, and the exit code is not 0; a cancelled run that reaches the exit-code check with a non-zero code reports no Failed |
| Processor.CutCanceled | Motion2Gif/Processing/VideoProcessor.cs:75-134 | a Canceled report happens only after a cancellation; a job cancelled before it starts, or while ffmpeg runs and the pending read then throws, ends with an exception; one cancelled while ffmpeg runs that has exited by the next `HasExited` test ends normally exactly when none of the lines it read threw, and then it has reported Canceled and no Failed, whatever the exit code; one cancelled after ffmpeg has exited ends normally with Canceled last, unless a line threw first |
| Processor.CompletedAfterCanceled | Motion2Gif/Processing/VideoProcessor.cs:75-134 | a buffered `progress=end` read after the cancellation reports Completed after Canceled, and with ffmpeg gone the run ends normally whatever the exit code |
| Processor.ValidateGif | Motion2Gif/Processing/VideoProcessor.cs:164-168 | succeeds exactly for a present range, non-blank input and output, and positive fps and maxWidth; the first failing check decides the exception |
| Processor.WrapperValidation | Motion2Gif/Processing/VideoProcessor.cs:146-152 | with the defaults 12 and 480, only the null and blank checks can fail |
| Processor.GifFilter | Motion2Gif/Processing/VideoProcessor.cs:205-206 | for a non-negative fps and width, the filter graph reads back as the fps and the width it was built from |
| Processor.DefaultFilter | Motion2Gif/Processing/VideoProcessor.cs:159-160 | the default filter starts with "[0:v]fps=12,scale=480:" |
| Processor.GifArguments | Motion2Gif/Processing/VideoProcessor.cs:189-218 | 16 entries, and ffmpeg reads the GIF list as -y, -hide_banner, -i input, -ss start, -t duration, -filter_complex filter, -an, -gifflags -offsetting, -loop 0 and the output |
| Processor.GifJobArguments | Motion2Gif/Processing/VideoProcessor.cs:164-218 | a list is built exactly when validation passes; it has 16 entries, the formatted start and duration at 5 and 7, and the filter at 9 |
| Processor.RunGif | Motion2Gif/Processing/VideoProcessor.cs:154-271 | the GIF job never reports progress; it throws exactly when validation fails, the process cannot be launched, or a running job is cancelled before ffmpeg exits, and a validation failure is the exception thrown |
| Service.ScheduleJob | Motion2Gif/Processing/JobProcessingService.cs:38-46 | adds exactly one registry entry, under a fresh id it returns, puts the job in the wait, and reports only Queued at 0% with zero times, to a sink if there is one |
| Service.DistinctIds | Motion2Gif/Processing/JobProcessingService.cs:20-40 | two scheduled jobs get different ids, and the first stays registered |
| Service.Acquire | Motion2Gif/Processing/JobProcessingService.cs:50 | a waiting job takes a slot exactly when one is free |
| Service.CancelWait | Motion2Gif/Processing/JobProcessingService.cs:50 | a wait cancelled before acquisition takes and gives back nothing |
| Service.Dispatch | Motion2Gif/Processing/JobProcessingService.cs:53-63 | a cut goes to the cut job: a missing range throws a null reference, every report carries the range's duration, the run reports Failed exactly when the cut job's condition holds, and Canceled only after a cancellation. A GIF goes to the GIF job with fps 12 and width 480 and no progress: no reports, no fault exactly when validation with 12 and 480 passes and the process does not start or runs uncancelled, and a validation fault is only a null or blank argument. Anything else throws `ArgumentOutOfRangeException` |
| Service.RunJob | Motion2Gif/Processing/JobProcessingService.cs:48-73 | a job holding a slot runs, any exception is caught, the slot is given back, and the caller's sink receives nothing |
| Service.ReleasedOnce | Motion2Gif/Processing/JobProcessingService.cs:69-72 | after a job has run it cannot run again or take another slot |
| Service.CancelledNeverHolds | Motion2Gif/Processing/JobProcessingService.cs:50 | a job whose wait was cancelled never holds a slot |
| Service.ApplyAll | Motion2Gif/Processing/JobProcessingService.cs:35-46 | any sequence of steps keeps the slot accounting and never removes or changes a registered job |
| Service.AnyInterleaving | Motion2Gif/Processing/JobProcessingService.cs:36 | whatever the interleaving, at most four jobs hold a slot and the free count stays in [0, 4] |
| Journal.ApplyUpdate | Motion2Gif/ViewModels/ProgressJournalViewModel.cs:31-66 | a Queued update for an unknown id appends one row; any other update overwrites percent and state of the one matching row and nothing else, and fails unless exactly one row matches |
| Journal.UpdateKeepsUnique | Motion2Gif/ViewModels/ProgressJournalViewModel.cs:33-63 | ids stay unique, and an update fails exactly when it is not Queued and its id is absent |
| Journal.UnknownJobFails | Motion2Gif/ViewModels/ProgressJournalViewModel.cs:60 | a non-Queued update for an absent id fails with `InvalidOperationException` |
| Journal.Refresh | Motion2Gif/ViewModels/ProgressJournalViewModel.cs:68-78 | `IsJobListEmpty` holds exactly when the list is empty |
| Journal.TopText | Motion2Gif/ViewModels/ProgressJournalViewModel.cs:72-77 | the text starts "Processing" exactly when some row is Queued or Running and "All" otherwise, and shows that count, or the row count |
| Journal.CountActive | Motion2Gif/ViewModels/ProgressJournalViewModel.cs:72 | at most the row count, and 0 exactly when no row is Queued or Running |
| Journal.RemoveCmd | Motion2Gif/ViewModels/ProgressJournalViewModel.cs:41-50 | cancels the job and removes exactly its row, keeping the others and unique ids; without a row it only refreshes |
| Journal.CancelCmd | Motion2Gif/ViewModels/ProgressJournalViewModel.cs:51-55 | cancels the job and keeps every row |
| Handles.TryPress | Motion2Gif/Controls/RangeSelectorControl/DraggableRect.cs:9-13 | pressed becomes whether the rectangle holds the point, and that is the answer |
| Handles.PressThenDrag | Motion2Gif/Controls/RangeSelectorControl/DraggableRect.cs:11-15 | a drag goes ahead exactly when the last press hit, so a missed press clears an earlier hit |
| Handles.TryDrag | Motion2Gif/Controls/RangeSelectorControl/DraggableRect.cs:15 | a handle drags exactly when it is not the idle, unpressed handle |
| Handles.Release | Motion2Gif/Controls/RangeSelectorControl/DraggableRect.cs:17 | after a release no drag goes ahead |
| Selectors.SetMax | Motion2Gif/Controls/RangeSelectorControl/TimeRangeSelectorControl.cs:93-97 | a new `Max` puts the handles at 0 and at the gap, which sets up the gap; an equal value raises nothing |
| Selectors.Press | Motion2Gif/Controls/RangeSelectorControl/TimeRangeSelectorControl.cs:113-121 | the left handle is pressed exactly when its rectangle holds the point; the right one is tried only when the left missed, and otherwise keeps its state |
| Selectors.Move | Motion2Gif/Controls/RangeSelectorControl/TimeRangeSelectorControl.cs:123-147 | a held left handle takes its candidate only below TrimEnd − gap and never touches TrimEnd; otherwise a held right handle takes its candidate only above TrimStart + gap; written values lie in [0, max(0, Max)] and the gap is kept |
| Selectors.Release | Motion2Gif/Controls/RangeSelectorControl/TimeRangeSelectorControl.cs:149-152 | both handles let go and the range stays |
| Selectors.GapKept | Motion2Gif/Controls/RangeSelectorControl/TimeRangeSelector.cs:95-141 | once TrimEnd − TrimStart ≥ gap, no sequence of events breaks it |
| Selectors.GapAfterReset | Motion2Gif/RangeSelectorControl/TimeRangeSelector.cs:85-131 | in each revision, a change of `Max` sets TrimEnd − TrimStart to exactly the gap, and it stays at least the gap afterwards |
| Selectors.ResetCanPassMax | Motion2Gif/Controls/RangeSelectorControl/TimeRangeSelectorControl.cs:96 | with `Max` = 50 ms, the reset puts TrimEnd at 100, past the media's end |
| Selectors.LeftWinsMove | Motion2Gif/Controls/RangeSelectorControl/TimeRangeSelectorControl.cs:127-136 | with both handles held, a move never touches TrimEnd |
| Selectors.LeftWinsPress | Motion2Gif/Controls/RangeSelectorControl/TimeRangeSelector.cs:110-118 | after a release, a press inside both rectangles takes the left handle only |
| Selectors.MovesAfterRelease | Motion2Gif/Controls/RangeSelectorControl/TimeRangeSelector.cs:146-149 | after a release, any pointer moves leave the state unchanged |
| Selectors.InitialStuck | Motion2Gif/RangeSelectorControl/TimeRangeSelector.cs:91-131 | before any `Max` arrives, no drag moves a handle: they stay at 0, without the gap |
| Selectors.Revisions | Motion2Gif/RangeSelectorControl/TimeRangeSelector.cs:83-130 | the left candidate is x + 2, x + 5 and x − 5 in the three revisions, the right one x − RectWidth/2; the older rectangles start at the handle's position and are 35 tall |
| Timeline.TickCount | Motion2Gif/Controls/MediaTimelineControl/TimelineControl.cs:91-93 | the number of ticks is the count of integers i with 1 ≤ i < width/100 |
| Timeline.UpdateTimeline | Motion2Gif/Controls/MediaTimelineControl/TimelineControl.cs:83-95 | the loop builds no tick for a zero duration, and otherwise tick k at (k + 1)·FromDip(100, width, duration) |
| Timeline.NarrowHasNoTicks | Motion2Gif/Controls/MediaTimelineControl/TimelineControl.cs:91-93 | a width of 100 or less gives no tick |
| Timeline.TicksSpaced | Motion2Gif/Controls/MediaTimelineControl/TimelineControl.cs:90-94 | the step is never negative, the first tick is one step in, and neighbouring ticks are one step apart |
| Timeline.TicksOrdered | Motion2Gif/Controls/MediaTimelineControl/TimelineControl.cs:93-94 | ticks never go down, and rise strictly when the step is positive |
| Timeline.NegativeDurationZeros | Motion2Gif/Controls/MediaTimelineControl/TimelineControl.cs:87-90 | a negative duration passes the zero test and gives ticks that are all at 0 |
| Timeline.Apply | Motion2Gif/Controls/MediaTimelineControl/TimelineControl.cs:73-81 | a new duration or new bounds rebuild the list from scratch; the play position leaves it alone |
| Timeline.AlwaysConsistent | Motion2Gif/Controls/MediaTimelineControl/TimelineControl.cs:73-95 | whatever changes arrive, the list is the one the current duration and width give |
| Timeline.InitialConsistent | Motion2Gif/Controls/MediaTimelineControl/TimelineControl.cs:56-61 | the constructor's state, with no width yet, has no tick and is consistent |
| Volume.Create | Motion2Gif/Player/AudioVolume.cs:7-8 | in [0, 100]; in-range values pass through, below 0 gives 0, above 100 gives 100 |
| Volume.CreateIdempotent | Motion2Gif/Other/AudioVolume.cs:7-8 | clamping a clamped volume changes nothing; the copy in this file is the same definition |
| Volume.CreateMonotone | Motion2Gif/Player/AudioVolume.cs:7-8 | a larger input never gives a smaller volume |

## Left out

- Process I/O and concurrency are not modelled. This covers spawning ffmpeg, reading its pipes, the stderr drain task, `WaitForExitAsync`, and the kill / `CloseMainWindow` / 500 ms escalation. They become inputs: whether the process starts, the lines read, the exit code, and when the job is cancelled.
- The timing of the `HasExited` guard of the reading loop is not modelled, only its result. Without a cancellation the model reads the lines the loop actually received; how many that is depends on timing. After a cancellation in the middle of a run, how many buffered lines the loop still reads, and whether ffmpeg has exited by the next test, are inputs: the `buffered` and `exits` fields of the cancellation.
- Threading is not modelled: `SemaphoreSlim` waits, fire-and-forget tasks, `CancellationToken.Register` callbacks and `Dispatcher.UIThread.Post`. Each service step is atomic.
- Floating point is not modelled. Doubles are reals, so IEEE-754 round-off in `FromDip`, `ToDip`, the percent and the tick widths is out of scope.
- Integer overflow is not modelled. 64-bit wrap-around of `TimeMs` arithmetic is out of scope. So are `TimeSpan.FromMilliseconds` overflow on huge values, the `int` cast in `ToDurationText`, and the loop counter and tick product of `UpdateTimeline`. The one overflow kept is `FromMicroseconds`.
- The C# `(long)` cast in `FromDip` is taken as exact. A rounded share in [0, 1] of a long duration always fits in a long, so nothing is lost.
- `FormatForProcessor` has no body in this model; it is a `Formatter` parameter. `CutCommand` needs its output to be one word without quotes.
- The .NET argument splitting rules are modelled only for text without backslash-quote sequences and without doubled quotes. This suffices when the paths hold no quote and do not end in a backslash; a path ending in a backslash would escape the closing quote, so `CutArguments` and `CutCommand` say nothing about it.
- `long.TryParse` uses the current culture. The model takes "-" and "+" as the sign strings; other cultures' sign strings are not modelled. Trailing NUL characters, which .NET accepts after the number, are rejected by the model.
- A cancellation that arrives after the exit-code check of the cut job but before the callback is disposed is not modelled. It would report Canceled after Failed.
- `TimeMs.TimeSpan()` is not part of this model. It is taken to be `TimeSpan.FromMilliseconds`.
- Logging (Serilog, `Console.WriteLine`) is not modelled. It has no effect on the logic.
- Rendering, cursors, `AffectsRender` and DirectProperty registration are not modelled. `OnPointerEntered`/`OnPointerExited` only set the cursor.
- Selectors.SetMax: the model has one live selector per control class. In the source every constructor adds a class handler to the static `MaxProperty.Changed`, and that handler resets the range of the instance that registered it, not of the sender. So with several selectors of one class, a `Max` change on any of them resets all of them, through one handler per construction.
- Two-way binding writes of `TrimStart`, `TrimEnd` and `Min` from outside the selector are not modelled. Such a write could break the gap. `Min` is never read by any revision.
- The stale `RangeSelectorControl/DraggableRect.cs` is not modelled. Its constructor and method signatures do not match how the selectors call it. Two revisions declare the namespace `Motion2Gif.RangeSelectorControl`, and so bind to it: the older `RangeSelectorControl/TimeRangeSelector.cs` and the middle `Controls/RangeSelectorControl/TimeRangeSelector.cs`. Both also declare the same type name, `TimeRangeSelector`. Both are modelled with the current `DraggableRect`, whose press and release are the same.
- The drawing of ticks (`DrawTimePoint`) is not modelled, and neither are the drawing-only timeline and marker controls.
- The LibVLC player services are not modelled. They are wrappers over a library that is not part of this model.
- The job-progress sink is not modelled as an object. A job keeps only whether it has one.
- The GIF job's process output is printed to the console and never read back, so it is not modelled.
- The fault of `TimeSpan.FromMicroseconds` for a value out of range follows .NET 7 and 8, where the call binds to the `double` overload and throws `OverflowException`. From .NET 9 a `long` overload throws `ArgumentOutOfRangeException` instead; when the call succeeds is the same on both.
- The `ArgumentOutOfRangeException` thrown for an unknown job kind carries the default message. Its ParamName, null in the source, is the empty string here.
