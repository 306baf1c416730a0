/** `VideoProcessor`: the two ffmpeg jobs. The model covers what the code
    decides — the command lines, the checks on the GIF arguments, the
    reading of ffmpeg's `key=value` progress lines and the outcome of a run —
    and takes what the process does (whether it starts, the lines it prints
    before it stops, its exit code, when the job is cancelled) as inputs. */
module Processor {
  import opened Common
  import opened Text
  import opened Clock
  import opened Time
  import opened Ranges
  import opened Exceptions
  import opened Jobs
  import opened CommandLine

  /** `TimeMs.FormatForProcessor`, whose body is not part of this model. */
  type Formatter = TimeMs -> string

  // ------------------------------------------------------------ cut command line

  /** The argument string of the cut job: seek and length before the input,
      a stream copy of every stream with the index moved to the front,
      progress reports on standard output, and the output file last. When
      the formatted times are single words and the paths can be quoted, the
      child process receives exactly the arguments the string was built from. */
  function CutArguments(fmt: Formatter, range: MediaRange, input: string, output: string): (r: string)
    ensures IsWord(fmt(range.start)) && IsWord(fmt(GetDuration(range))) && Quotable(input) && Quotable(output)
            ==> SplitArguments(r)
                == ["-hide_banner", "-ss", fmt(range.start), "-t", fmt(GetDuration(range)), "-i", input,
                    "-c", "copy", "-map", "0", "-movflags", "+faststart", "-progress", "pipe:1", output]
  {
    var start := fmt(range.start);
    var duration := fmt(GetDuration(range));
    if IsWord(start) && IsWord(duration) && Quotable(input) && Quotable(output) then
      CutSplits(start, duration, input, output);
      CutString(start, duration, input, output)
    else CutString(start, duration, input, output)
  }

  /** What ffmpeg receives for the cut job, read as options. */
  function CutOptions(start: string, duration: string, input: string, output: string): seq<Arg>
  {
    [Switch("-hide_banner"), Opt("-ss", start), Opt("-t", duration), Opt("-i", input), Opt("-c", "copy"),
     Opt("-map", "0"), Opt("-movflags", "+faststart"), Opt("-progress", "pipe:1"), Output(output)]
  }

  predicate NoQuote(s: string)
  {
    forall i :: 0 <= i < |s| ==> s[i] != '"'
  }

  /** Text that survives being put between quotes: no quote inside, and no
      backslash at the end, which would escape the closing quote. */
  predicate Quotable(s: string)
  {
    NoQuote(s) && (|s| == 0 || s[|s| - 1] != '\\')
  }

  /** The cut job's string splits into the arguments it was built from, and
      ffmpeg reads them as the options below, provided the formatted times
      are single words and neither path holds a quote or ends in a
      backslash. */
  lemma CutCommand(fmt: Formatter, range: MediaRange, input: string, output: string)
    requires IsWord(fmt(range.start)) && IsWord(fmt(GetDuration(range)))
    requires Quotable(input) && Quotable(output) && IsFileName(output)
    ensures SplitArguments(CutArguments(fmt, range, input, output))
            == ["-hide_banner", "-ss", fmt(range.start), "-t", fmt(GetDuration(range)), "-i", input,
                "-c", "copy", "-map", "0", "-movflags", "+faststart", "-progress", "pipe:1", output]
    ensures ReadOptions(SplitArguments(CutArguments(fmt, range, input, output)))
            == CutOptions(fmt(range.start), fmt(GetDuration(range)), input, output)
  {
    CutReads(fmt(range.start), fmt(GetDuration(range)), input, output);
  }

  /** The cut job's argument string for formatted times. */
  function CutString(start: string, duration: string, input: string, output: string): string
  {
    "-hide_banner -ss " + (start + (" -t " + (duration + (" -i \"" + (input + ("\" -c copy -map 0 -movflags " +
    ("+faststart -progress pipe:1 \"" + (output + "\""))))))))
  }

  lemma CutReads(start: string, duration: string, input: string, output: string)
    requires IsFileName(output)
    ensures ReadOptions(["-hide_banner", "-ss", start, "-t", duration, "-i", input, "-c", "copy", "-map", "0",
                         "-movflags", "+faststart", "-progress", "pipe:1", output])
            == CutOptions(start, duration, input, output)
  {
    var tail := ["-c", "copy", "-map", "0", "-movflags", "+faststart", "-progress", "pipe:1", output];
    CutTailReads(output);
    ReadThreeOpts("-ss", start, "-t", duration, "-i", input, tail);
    var t := ["-ss", start, "-t", duration, "-i", input] + tail;
    ReadSwitch("-hide_banner", t);
    assert ["-hide_banner", "-ss", start, "-t", duration, "-i", input, "-c", "copy", "-map", "0",
            "-movflags", "+faststart", "-progress", "pipe:1", output] == ["-hide_banner"] + t;
    assert CutOptions(start, duration, input, output)
           == [Switch("-hide_banner")] + ([Opt("-ss", start), Opt("-t", duration), Opt("-i", input)]
              + [Opt("-c", "copy"), Opt("-map", "0"), Opt("-movflags", "+faststart"), Opt("-progress", "pipe:1"),
                 Output(output)]);
  }

  /** The stream options and the output after the input file. */
  lemma CutTailReads(output: string)
    requires IsFileName(output)
    ensures ReadOptions(["-c", "copy", "-map", "0", "-movflags", "+faststart", "-progress", "pipe:1", output])
            == [Opt("-c", "copy"), Opt("-map", "0"), Opt("-movflags", "+faststart"), Opt("-progress", "pipe:1"),
                Output(output)]
  {
    ReadOutput(output);
    ReadOpt("-progress", "pipe:1", [output]);
    var t := ["-progress", "pipe:1"] + [output];
    ReadThreeOpts("-c", "copy", "-map", "0", "-movflags", "+faststart", t);
    assert ["-c", "copy", "-map", "0", "-movflags", "+faststart"] + t
           == ["-c", "copy", "-map", "0", "-movflags", "+faststart", "-progress", "pipe:1", output];
  }

  /** The fixed words of the cut command line, in order. */
  const CutWords: seq<string> :=
    ["-hide_banner", "-ss", "-t", "-i", "-c", "copy", "-map", "0", "-movflags", "+faststart", "-progress", "pipe:1"]

  /** The cut string with its fixed words as parameters, grouped as the program writes it. */
  function CutShape(w: seq<string>, start: string, duration: string, input: string, output: string): string
    requires |w| == 12
  {
    (w[0] + " " + w[1] + " ") + (start + ((" " + w[2] + " ") + (duration + ((" " + w[3] + " " + "\"") +
    (input + ((("\"" + " " + w[4] + " ") + (w[5] + " " + w[6] + " ") + (w[7] + " " + w[8] + " ")) +
    ((w[9] + " " + w[10] + " " + w[11] + " " + "\"") + (output + "\""))))))))
  }

  lemma CutStringShape(start: string, duration: string, input: string, output: string)
    ensures CutString(start, duration, input, output) == CutShape(CutWords, start, duration, input, output)
  {
    CutWordsText();
  }

  /** The fixed pieces of the cut string are the fixed words with their blanks and quotes. */
  lemma CutWordsText()
    ensures var w := CutWords;
            && w[0] + " " + w[1] + " " == "-hide_banner -ss "
            && " " + w[2] + " " == " -t "
            && " " + w[3] + " " + "\"" == " -i \""
            && ("\"" + " " + w[4] + " ") + (w[5] + " " + w[6] + " ") + (w[7] + " " + w[8] + " ")
               == "\" -c copy -map 0 -movflags "
            && w[9] + " " + w[10] + " " + w[11] + " " + "\"" == "+faststart -progress pipe:1 \""
  {
    var w := CutWords;
    assert w[0] + " " + w[1] + " " == "-hide_banner -ss ";
    assert " " + w[2] + " " == " -t ";
    assert " " + w[3] + " " + "\"" == " -i \"";
    assert ("\"" + " " + w[4] + " ") + (w[5] + " " + w[6] + " ") + (w[7] + " " + w[8] + " ") == "\" -c copy -map 0 -movflags ";
    assert w[9] + " " + w[10] + " " + w[11] + " " + "\"" == "+faststart -progress pipe:1 \"";
  }

  /** The lexer walks the cut string piece by piece. */
  lemma CutSplits(start: string, duration: string, input: string, output: string)
    requires IsWord(start) && IsWord(duration) && Quotable(input) && Quotable(output)
    ensures SplitArguments(CutString(start, duration, input, output))
            == ["-hide_banner", "-ss", start, "-t", duration, "-i", input,
                "-c", "copy", "-map", "0", "-movflags", "+faststart", "-progress", "pipe:1", output]
  {
    var w := CutWords;
    assert forall k :: 0 <= k < 12 ==> IsWord(w[k]);
    CutStringShape(start, duration, input, output);
    FeedCutShape(Fresh, w, start, duration, input, output);
    CutList(start, duration, input, output);
  }

  /** The arguments of the cut string, grouped as the lexer finds them. */
  function CutGroups(done: seq<string>, w: seq<string>, start: string, duration: string, input: string, output: string)
    : seq<string>
    requires |w| == 12
  {
    done + [w[0], w[1]] + [start, w[2]] + [duration, w[3]] + [input, w[4], w[5], w[6]] + [w[7], w[8]]
    + [w[9], w[10], w[11]] + [output]
  }

  lemma CutList(start: string, duration: string, input: string, output: string)
    ensures CutGroups([], CutWords, start, duration, input, output)
            == ["-hide_banner", "-ss", start, "-t", duration, "-i", input,
                "-c", "copy", "-map", "0", "-movflags", "+faststart", "-progress", "pipe:1", output]
  {
  }

  lemma FeedCutShape(l0: Lexer, w: seq<string>, start: string, duration: string, input: string, output: string)
    requires Between(l0) && |w| == 12 && forall k :: 0 <= k < 12 ==> IsWord(w[k])
    requires IsWord(start) && IsWord(duration) && NoQuote(input) && NoQuote(output)
    ensures Close(FeedAll(l0, CutShape(w, start, duration, input, output)))
            == CutGroups(l0.done, w, start, duration, input, output)
  {
    var p1 := w[0] + " " + w[1] + " ";
    var p2 := " " + w[2] + " ";
    var p3 := " " + w[3] + " " + "\"";
    var p4 := ("\"" + " " + w[4] + " ") + (w[5] + " " + w[6] + " ") + (w[7] + " " + w[8] + " ");
    var p5 := w[9] + " " + w[10] + " " + w[11] + " " + "\"";
    var s8 := output + "\"";
    var s7 := p5 + s8;
    var s6 := p4 + s7;
    var s5 := input + s6;
    var s4 := p3 + s5;
    var s3 := duration + s4;
    var s2 := p2 + s3;
    var s1 := start + s2;
    assert CutShape(w, start, duration, input, output) == p1 + s1;
    var d1 := l0.done + [w[0], w[1]];
    var d3 := d1 + [start, w[2]];
    var d5 := d3 + [duration, w[3]];
    var d7 := d5 + [input, w[4], w[5], w[6]] + [w[7], w[8]];
    var d8 := d7 + [w[9], w[10], w[11]];
    var l1 := Lexer(d1, "", false, false);
    var l2 := Lexer(d1, start, true, false);
    var l3 := Lexer(d3, "", false, false);
    var l4 := Lexer(d3, duration, true, false);
    var l5 := Lexer(d5, "", true, true);
    var l6 := Lexer(d5, input, true, true);
    var l7 := Lexer(d7, "", false, false);
    var l8 := Lexer(d8, "", true, true);
    var last := Lexer(d8, output, true, false);
    FeedInside(l8, output);
    FeedQuote(Lexer(d8, output, true, true));
    Chain(l8, output, "\"", Lexer(d8, output, true, true), last);
    ThreeWordsQuote(l7, w[9], w[10], w[11]);
    Chain(l7, p5, s8, l8, last);
    QuoteFiveWords(l6, w[4], w[5], w[6], w[7], w[8]);
    Chain(l6, p4, s7, l7, last);
    FeedInside(l5, input);
    Chain(l5, input, s6, l6, last);
    SpacedWordQuote(l4, w[3]);
    Chain(l4, p3, s5, l5, last);
    FeedWord(l3, duration);
    Chain(l3, duration, s4, l4, last);
    SpacedWord(l2, w[2]);
    Chain(l2, p2, s3, l3, last);
    FeedWord(l1, start);
    Chain(l1, start, s2, l2, last);
    TwoWords(l0, w[0], w[1]);
    Chain(l0, p1, s1, l1, last);
  }

  // Steps that extend a prefix whose lexer state is known.

  lemma ThenSpace(l: Lexer, x: string)
    requires FeedAll(l, x).started && !FeedAll(l, x).quoted
    ensures FeedAll(l, x + " ") == Lexer(FeedAll(l, x).done + [FeedAll(l, x).cur], "", false, false)
  {
    FeedAllAppend(l, x, " ");
    FeedSpace(FeedAll(l, x));
  }

  lemma ThenWord(l: Lexer, x: string, v: string)
    requires Between(FeedAll(l, x)) && IsWord(v)
    ensures FeedAll(l, x + v) == Lexer(FeedAll(l, x).done, v, true, false)
  {
    FeedAllAppend(l, x, v);
    FeedWord(FeedAll(l, x), v);
  }

  lemma ThenQuote(l: Lexer, x: string)
    ensures FeedAll(l, x + "\"") == FeedAll(l, x).(started := true, quoted := !FeedAll(l, x).quoted)
  {
    FeedAllAppend(l, x, "\"");
    FeedQuote(FeedAll(l, x));
  }

  lemma TwoWords(l: Lexer, a: string, b: string)
    requires Between(l) && IsWord(a) && IsWord(b)
    ensures FeedAll(l, a + " " + b + " ") == Lexer(l.done + [a, b], "", false, false)
  {
    FeedWord(l, a);
    ThenSpace(l, a);
    ThenWord(l, a + " ", b);
    ThenSpace(l, a + " " + b);
    assert l.done + [a] + [b] == l.done + [a, b];
  }

  lemma SpacedWord(l: Lexer, a: string)
    requires l.started && !l.quoted && IsWord(a)
    ensures FeedAll(l, " " + a + " ") == Lexer(l.done + [l.cur, a], "", false, false)
  {
    FeedSpace(l);
    ThenWord(l, " ", a);
    ThenSpace(l, " " + a);
    assert l.done + [l.cur] + [a] == l.done + [l.cur, a];
  }

  lemma SpacedWordQuote(l: Lexer, a: string)
    requires l.started && !l.quoted && IsWord(a)
    ensures FeedAll(l, " " + a + " " + "\"") == Lexer(l.done + [l.cur, a], "", true, true)
  {
    SpacedWord(l, a);
    ThenQuote(l, " " + a + " ");
  }

  lemma QuoteWord(l: Lexer, a: string)
    requires l.started && l.quoted && IsWord(a)
    ensures FeedAll(l, "\"" + " " + a + " ") == Lexer(l.done + [l.cur, a], "", false, false)
  {
    FeedQuote(l);
    ThenSpace(l, "\"");
    ThenWord(l, "\"" + " ", a);
    ThenSpace(l, "\"" + " " + a);
    assert l.done + [l.cur] + [a] == l.done + [l.cur, a];
  }

  /** Feeding two pieces whose effects are known one after the other. */
  lemma Chain(l: Lexer, x: string, y: string, m: Lexer, n: Lexer)
    requires FeedAll(l, x) == m && FeedAll(m, y) == n
    ensures FeedAll(l, x + y) == n
  {
    FeedAllAppend(l, x, y);
  }

  lemma QuoteThreeWords(l: Lexer, a: string, b: string, c: string)
    requires l.started && l.quoted && IsWord(a) && IsWord(b) && IsWord(c)
    ensures FeedAll(l, ("\"" + " " + a + " ") + (b + " " + c + " ")) == Lexer(l.done + [l.cur, a, b, c], "", false, false)
  {
    QuoteWord(l, a);
    var l1 := Lexer(l.done + [l.cur, a], "", false, false);
    TwoWords(l1, b, c);
    Chain(l, "\"" + " " + a + " ", b + " " + c + " ", l1, Lexer(l1.done + [b, c], "", false, false));
  }

  lemma QuoteFiveWords(l: Lexer, a: string, b: string, c: string, d: string, e: string)
    requires l.started && l.quoted && IsWord(a) && IsWord(b) && IsWord(c) && IsWord(d) && IsWord(e)
    ensures FeedAll(l, ("\"" + " " + a + " ") + (b + " " + c + " ") + (d + " " + e + " "))
            == Lexer(l.done + [l.cur, a, b, c] + [d, e], "", false, false)
  {
    QuoteThreeWords(l, a, b, c);
    var l1 := Lexer(l.done + [l.cur, a, b, c], "", false, false);
    TwoWords(l1, d, e);
    Chain(l, ("\"" + " " + a + " ") + (b + " " + c + " "), d + " " + e + " ", l1, Lexer(l1.done + [d, e], "", false, false));
  }

  lemma ThreeWordsQuote(l: Lexer, a: string, b: string, c: string)
    requires Between(l) && IsWord(a) && IsWord(b) && IsWord(c)
    ensures FeedAll(l, a + " " + b + " " + c + " " + "\"") == Lexer(l.done + [a, b, c], "", true, true)
  {
    FeedWord(l, a);
    ThenSpace(l, a);
    ThenWord(l, a + " ", b);
    ThenSpace(l, a + " " + b);
    ThenWord(l, a + " " + b + " ", c);
    ThenSpace(l, a + " " + b + " " + c);
    ThenQuote(l, a + " " + b + " " + c + " ");
    assert l.done + [a] + [b] + [c] == l.done + [a, b, c];
  }

  // ------------------------------------------------------------ progress lines

  /** The percent shown for `processed` out of `total`: the ratio of the two
      clamped to [0, 100], or 100 when the total is not positive. */
  function Percent(processed: TimeSpan, total: TimeSpan): (p: real)
    ensures 0.0 <= p <= 100.0
    ensures total.ticks <= 0 ==> p == 100.0
    ensures total.ticks > 0 && processed.ticks <= 0 ==> p == 0.0
    ensures total.ticks > 0 && processed.ticks >= total.ticks ==> p == 100.0
    ensures total.ticks > 0 && 0 <= processed.ticks <= total.ticks
            ==> p == processed.ticks as real * 100.0 / total.ticks as real
  {
    if total.TotalMilliseconds() > 0.0 then
      TickRatio(processed.ticks as real, total.ticks as real);
      ClampReal(processed.TotalMilliseconds() * 100.0 / total.TotalMilliseconds(), 0.0, 100.0)
    else 100.0
  }

  /** Milliseconds and ticks give the same ratio, which is at most 100 for a part of the whole. */
  lemma TickRatio(a: real, b: real)
    requires b > 0.0
    ensures (a / 10_000.0) * 100.0 / (b / 10_000.0) == a * 100.0 / b
    ensures a <= 0.0 ==> a * 100.0 / b <= 0.0
    ensures a >= b ==> a * 100.0 / b >= 100.0
    ensures 0.0 <= a <= b ==> 0.0 <= a * 100.0 / b <= 100.0
  {
    assert (a / 10_000.0) / (b / 10_000.0) == a / b;
    assert a * 100.0 / b == (a / b) * 100.0;
    if a >= b {
      assert a / b >= 1.0;
    }
    if 0.0 <= a <= b {
      assert a / b <= 1.0;
    }
  }

  /** More processed time never shows a smaller percent. */
  lemma PercentMonotone(p1: TimeSpan, p2: TimeSpan, total: TimeSpan)
    requires p1.ticks <= p2.ticks
    ensures Percent(p1, total) <= Percent(p2, total)
  {
    if total.ticks > 0 {
      var m1, m2, t := p1.TotalMilliseconds(), p2.TotalMilliseconds(), total.TotalMilliseconds();
      RatioMonotone(m1, m2, t);
    }
  }

  lemma RatioMonotone(a1: real, a2: real, t: real)
    requires a1 <= a2 && t > 0.0
    ensures a1 * 100.0 / t <= a2 * 100.0 / t
  {
  }

  /** `line.Split('=')` followed by taking parts 0 and 1: a line without '='
      has a single part, and reading the second one throws. */
  function KeyValue(line: string): (r: Result<(string, string), Fault>)
    ensures r.Failure? <==> '=' !in line
    ensures r.Failure? ==> r.error == IndexOutOfRange
    ensures r.Success? ==> '=' !in r.value.0 && '=' !in r.value.1
  {
    var parts := Split(line, '=');
    if |parts| < 2 then Failure(IndexOutOfRange) else Success((parts[0], parts[1]))
  }

  /** The key is the text before the first '=', and the value stops at the second one. */
  lemma KeyValueOf(key: string, value: string, rest: string)
    requires '=' !in key && '=' !in value
    ensures KeyValue(key + "=" + value) == Success((key, value))
    ensures KeyValue(key + "=" + value + "=" + rest) == Success((key, value))
  {
    assert key + "=" + value == key + ['='] + value;
    SplitAt(key, value, '=');
    SplitWithout(value, '=');
    assert key + "=" + value + "=" + rest == key + ['='] + (value + ['='] + rest);
    SplitAt(key, value + ['='] + rest, '=');
    SplitAt(value, rest, '=');
  }

  /** `TimeSpan.FromMicroseconds`: ten ticks per microsecond, and a fault
      when the ticks do not fit in a long. The fault is `Overflow`, as the
      `double` overload throws on .NET 7 and 8. From .NET 9 a `long`
      overload binds instead and throws `ArgumentOutOfRangeException`; the
      success condition is the same either way. */
  function FromMicroseconds(us: int): (r: Result<TimeSpan, Fault>)
    ensures r.Success? <==> InLong(us * 10)
    ensures r.Success? ==> r.value.TotalMilliseconds() == us as real / 1000.0
    ensures r.Failure? ==> r.error == Overflow
  {
    if InLong(us * 10) then Success(TimeSpan(us * 10)) else Failure(Overflow)
  }

  /** What one line of ffmpeg's `-progress` output does: the processed time
      it sets and the report it makes, if any. */
  datatype LineEffect = LineEffect(processed: TimeSpan, report: Option<JobProgress>)

  /** One pass of the reading loop. An `out_time_ms` line with an integer
      value sets the processed time and reports Running; a `progress` line
      reports Completed with its value as the phase, whatever that value is,
      at 100% for "end" and otherwise at the percent of the time processed so
      far; any other line changes nothing. */
  function ReadLine(total: TimeSpan, processed: TimeSpan, line: string): (r: Result<LineEffect, Fault>)
    ensures r.Failure? <==> '=' !in line || (var kv := KeyValue(line).value;
                             kv.0 == "out_time_ms" && TryParseLong(kv.1).Some? && !InLong(TryParseLong(kv.1).value * 10))
    ensures r.Success? && r.value.report.Some? ==> Reported(r.value.report.value, total)
    ensures r.Success? && r.value.report.Some? ==> r.value.report.value.processed == r.value.processed
    ensures r.Success? && r.value.report.None? ==> r.value.processed == processed
    ensures r.Success? && r.value.report.Some? && r.value.report.value.state == Completed
            ==> r.value.processed == processed
  {
    match KeyValue(line)
    case Failure(e) => Failure(e)
    case Success((key, value)) =>
      if key == "out_time_ms" && TryParseLong(value).Some? then
        match FromMicroseconds(TryParseLong(value).value)
        case Failure(e) => Failure(e)
        case Success(p) => Success(LineEffect(p, Some(JobProgress(Percent(p, total), p, total, Running, "continue"))))
      else if key == "progress" then
        var percent := if value == "end" then 100.0 else Percent(processed, total);
        Success(LineEffect(processed, Some(JobProgress(percent, processed, total, Completed, value))))
      else Success(LineEffect(processed, None))
  }

  /** The shape of every report the reading loop makes. */
  predicate Reported(e: JobProgress, total: TimeSpan)
  {
    && e.total == total
    && 0.0 <= e.percent <= 100.0
    && (e.state == Running || e.state == Completed)
  }

  /** The state of the reading loop: the time processed, the reports made so
      far and the exception that stopped it, if one did. */
  datatype Reading = Reading(processed: TimeSpan, reports: seq<JobProgress>, fault: Option<Fault>)

  const Unread: Reading := Reading(Zero, [], None)

  predicate AllReported(es: seq<JobProgress>, total: TimeSpan)
  {
    forall i :: 0 <= i < |es| ==> Reported(es[i], total)
  }

  /** The loop over the lines: each line in turn, until one throws. */
  function ReadFrom(total: TimeSpan, r: Reading, lines: seq<string>): (res: Reading)
    ensures r.reports <= res.reports
    ensures |res.reports| <= |r.reports| + |lines|
    ensures r.fault.Some? ==> res == r
    ensures AllReported(r.reports, total) ==> AllReported(res.reports, total)
    decreases |lines|
  {
    if r.fault.Some? || lines == [] then r
    else
      var next := match ReadLine(total, r.processed, lines[0])
        case Failure(e) => r.(fault := Some(e))
        case Success(LineEffect(p, None)) => r.(processed := p)
        case Success(LineEffect(p, Some(e))) => Reading(p, r.reports + [e], None);
      ReadFrom(total, next, lines[1..])
  }

  /** The reports of all lines read from the start. */
  function ReadAll(total: TimeSpan, lines: seq<string>): Reading
  {
    ReadFrom(total, Unread, lines)
  }

  /** Reading two batches of lines is reading them together. */
  lemma {:induction false} ReadFromAppend(total: TimeSpan, r: Reading, a: seq<string>, b: seq<string>)
    ensures ReadFrom(total, r, a + b) == ReadFrom(total, ReadFrom(total, r, a), b)
    decreases |a|
  {
    if r.fault.None? && a != [] {
      assert (a + b)[0] == a[0];
      assert (a + b)[1..] == a[1..] + b;
      var next := match ReadLine(total, r.processed, a[0])
        case Failure(e) => r.(fault := Some(e))
        case Success(LineEffect(p, None)) => r.(processed := p)
        case Success(LineEffect(p, Some(e))) => Reading(p, r.reports + [e], None);
      ReadFromAppend(total, next, a[1..], b);
    } else if a == [] {
      assert a + b == b;
    }
  }

  /** Does a line make a report (and not throw)? */
  predicate Reports(line: string)
  {
    && '=' in line
    && var kv := KeyValue(line).value;
       || kv.0 == "progress"
       || (kv.0 == "out_time_ms" && TryParseLong(kv.1).Some? && InLong(TryParseLong(kv.1).value * 10))
  }

  function CountReports(lines: seq<string>): nat
    decreases |lines|
  {
    if lines == [] then 0 else (if Reports(lines[0]) then 1 else 0) + CountReports(lines[1..])
  }

  predicate Throws(line: string)
  {
    ReadLine(Zero, Zero, line).Failure?
  }

  /** Whether a line throws does not depend on the times. */
  lemma ThrowsAnyTime(total: TimeSpan, processed: TimeSpan, line: string)
    ensures ReadLine(total, processed, line).Failure? <==> Throws(line)
  {
  }

  /** Without an exception, the loop makes one report per reporting line and no other. */
  lemma {:induction false} ReportCount(total: TimeSpan, r: Reading, lines: seq<string>)
    requires r.fault.None?
    requires forall i :: 0 <= i < |lines| ==> !Throws(lines[i])
    ensures ReadFrom(total, r, lines).fault.None?
    ensures |ReadFrom(total, r, lines).reports| == |r.reports| + CountReports(lines)
    decreases |lines|
  {
    if lines != [] {
      ThrowsAnyTime(total, r.processed, lines[0]);
      assert !Throws(lines[0]);
      var effect := ReadLine(total, r.processed, lines[0]).value;
      assert effect.report.Some? <==> Reports(lines[0]);
      var next := if effect.report.Some? then Reading(effect.processed, r.reports + [effect.report.value], None)
                  else r.(processed := effect.processed);
      assert forall i :: 0 <= i < |lines[1..]| ==> !Throws(lines[1..][i]) by {
        forall i | 0 <= i < |lines[1..]| ensures !Throws(lines[1..][i]) {
          assert lines[1..][i] == lines[i + 1];
        }
      }
      ReportCount(total, next, lines[1..]);
    }
  }

  /** The first line that throws stops the loop with its exception. */
  lemma StopsAtFault(total: TimeSpan, r: Reading, lines: seq<string>, k: nat)
    requires r.fault.None? && k < |lines| && Throws(lines[k])
    ensures ReadFrom(total, r, lines).fault.Some?
    ensures ReadFrom(total, r, lines) == ReadFrom(total, r, lines[..k + 1])
  {
    var upto := lines[..k + 1];
    FaultUpTo(total, r, lines, k);
    assert lines == upto + lines[k + 1..];
    ReadFromAppend(total, r, upto, lines[k + 1..]);
  }

  /** Reading up to and including a throwing line ends with a fault. */
  lemma FaultUpTo(total: TimeSpan, r: Reading, lines: seq<string>, k: nat)
    requires k < |lines| && Throws(lines[k])
    ensures ReadFrom(total, r, lines[..k + 1]).fault.Some?
  {
    assert lines[..k + 1] == lines[..k] + [lines[k]];
    ReadFromAppend(total, r, lines[..k], [lines[k]]);
    var s := ReadFrom(total, r, lines[..k]);
    if s.fault.None? {
      ThrowingLine(total, s, lines[k]);
    }
  }

  /** A throwing line read on its own records its exception. */
  lemma ThrowingLine(total: TimeSpan, r: Reading, line: string)
    requires r.fault.None? && Throws(line)
    ensures ReadFrom(total, r, [line]).fault.Some?
  {
    ThrowsAnyTime(total, r.processed, line);
    assert [line][0] == line;
    assert [line][1..] == [];
  }

  // Single lines, written as ffmpeg writes them.

  /** An `out_time_ms` line: a long value sets the processed time and reports
      Running, anything else is ignored, and a value too large for the tick
      count throws. */
  lemma OutTimeValue(total: TimeSpan, processed: TimeSpan, key: string, value: string)
    requires key == "out_time_ms" && '=' !in value
    ensures TryParseLong(value).None? ==> ReadLine(total, processed, key + "=" + value) == Success(LineEffect(processed, None))
    ensures TryParseLong(value).Some? && !InLong(TryParseLong(value).value * 10)
            ==> ReadLine(total, processed, key + "=" + value) == Failure(Overflow)
    ensures TryParseLong(value).Some? && InLong(TryParseLong(value).value * 10)
            ==> var p := TimeSpan(TryParseLong(value).value * 10);
                ReadLine(total, processed, key + "=" + value)
                == Success(LineEffect(p, Some(JobProgress(Percent(p, total), p, total, Running, "continue"))))
  {
    KeyValueOf(key, value, "");
  }

  /** `out_time_ms=N` sets the processed time to N microseconds and reports Running. */
  lemma OutTimeLine(total: TimeSpan, processed: TimeSpan, us: int)
    requires InLong(us * 10)
    ensures ReadLine(total, processed, "out_time_ms=" + IntText(us))
            == Success(LineEffect(TimeSpan(us * 10),
                                  Some(JobProgress(Percent(TimeSpan(us * 10), total), TimeSpan(us * 10), total,
                                                   Running, "continue"))))
  {
    assert InLong(us);
    IntTextParses(us);
    NoEqualsInNumber(us);
    LineTexts();
    OutTimeValue(total, processed, "out_time_ms", IntText(us));
  }

  lemma NoEqualsInNumber(n: int)
    ensures '=' !in IntText(n)
  {
    var m: nat := if n < 0 then -n else n;
    assert AllDigits(NatText(m));
    if n < 0 {
      assert IntText(n) == "-" + NatText(m);
    }
  }

  /** Before the first frame ffmpeg writes `out_time_ms=N/A`; that line changes nothing. */
  lemma NotYetLine(total: TimeSpan, processed: TimeSpan)
    ensures ReadLine(total, processed, "out_time_ms=N/A") == Success(LineEffect(processed, None))
  {
    NotANumber();
    NotYetText();
    UnparsedOutTime(total, processed, "N/A");
  }

  lemma NotYetText()
    ensures "out_time_ms=N/A" == "out_time_ms" + "=" + "N/A"
    ensures '=' !in "N/A"
  {
  }

  /** An `out_time_ms` value that is not a long changes nothing. */
  lemma UnparsedOutTime(total: TimeSpan, processed: TimeSpan, value: string)
    ensures '=' !in value && TryParseLong(value).None?
            ==> ReadLine(total, processed, "out_time_ms" + "=" + value) == Success(LineEffect(processed, None))
  {
    if '=' !in value {
      OutTimeValue(total, processed, "out_time_ms", value);
    }
  }

  /** A `progress` line reports Completed whatever its value, with the value
      as the phase: at 100% for "end", otherwise at the current percent. */
  lemma ProgressValue(total: TimeSpan, processed: TimeSpan, key: string, value: string)
    requires key == "progress" && '=' !in value
    ensures ReadLine(total, processed, key + "=" + value)
            == Success(LineEffect(processed, Some(JobProgress(if value == "end" then 100.0 else Percent(processed, total),
                                                              processed, total, Completed, value))))
  {
    KeyValueOf(key, value, "");
  }

  /** `progress=end` reports Completed at 100%. */
  lemma EndLine(total: TimeSpan, processed: TimeSpan)
    ensures ReadLine(total, processed, "progress=end")
            == Success(LineEffect(processed, Some(JobProgress(100.0, processed, total, Completed, "end"))))
  {
    LineTexts();
    ProgressValue(total, processed, "progress", "end");
  }

  /** `progress=continue`, which ffmpeg writes with every block of values
      while it still runs, is reported as Completed too, at the current percent. */
  lemma ContinueLine(total: TimeSpan, processed: TimeSpan)
    ensures ReadLine(total, processed, "progress=continue")
            == Success(LineEffect(processed, Some(JobProgress(Percent(processed, total), processed, total,
                                                              Completed, "continue"))))
  {
    LineTexts();
    ProgressValue(total, processed, "progress", "continue");
  }

  /** The lines above, cut at their '='. */
  lemma LineTexts()
    ensures "out_time_ms=" == "out_time_ms" + "="
    ensures "progress=end" == "progress" + "=" + "end"
    ensures "progress=continue" == "progress" + "=" + "continue"
  {
  }

  /** Other keys are ignored. */
  lemma OtherKeyLine(total: TimeSpan, processed: TimeSpan, key: string, value: string)
    requires '=' !in key && '=' !in value && key != "out_time_ms" && key != "progress"
    ensures ReadLine(total, processed, key + "=" + value) == Success(LineEffect(processed, None))
  {
    KeyValueOf(key, value, "");
  }

  /** A line without '=' throws. */
  lemma NoEqualsLine(total: TimeSpan, processed: TimeSpan, line: string)
    requires '=' !in line
    ensures ReadLine(total, processed, line) == Failure(IndexOutOfRange)
  {
  }

  // ------------------------------------------------------------ running the cut

  /** How `Process.Start` turns out: a started process, `false`, or an
      exception (no ffmpeg on the path). */
  datatype Spawn = Started | NotStarted | StartThrows

  /** When the job's token is cancelled: never; before the job starts;
      while ffmpeg runs, after the loop has read `count` lines; or once
      ffmpeg has exited and the loop has ended, before the exit code is
      looked at (the wait on an exited process returns without throwing).

      A read with the token returns lines already in the reader's buffer
      without looking at the token, so after a cancellation in the middle of
      a run the loop may still read `buffered` more lines. Then either the
      killed ffmpeg has exited by the next `HasExited` test (`exits`), the
      loop ends and the run ends normally, or the pending read throws. */
  datatype Cancel = NoCancel | BeforeStart | AfterLines(count: nat, buffered: nat, exits: bool) | AfterExit

  /** What a run reports to its progress sink, and the exception it ends with, if any. */
  datatype Outcome = Outcome(reports: seq<JobProgress>, fault: Option<Fault>)

  function CanceledReport(total: TimeSpan): JobProgress
  {
    JobProgress(0.0, Zero, total, Canceled, "canceled")
  }

  function NotStartedReport(total: TimeSpan): JobProgress
  {
    JobProgress(0.0, Zero, total, Failed, "could not start")
  }

  function ExitReport(processed: TimeSpan, total: TimeSpan, code: int): JobProgress
  {
    JobProgress(0.0, processed, total, Failed, "exit code: " + IntText(code))
  }

  /** The total time of a cut: the range's duration. */
  function CutTotal(range: MediaRange): TimeSpan
  {
    ToTimeSpan(GetDuration(range))
  }

  /** `CutVideo` given what the process does: whether it starts, the lines
      the loop reads from its standard output, its exit code, and when the
      token is cancelled. A missing range throws at the first use. A
      cancellation reports Canceled as it happens, and the lines still read
      afterwards report as usual. A run whose pending read or wait is
      cancelled throws; once ffmpeg has exited the run ends normally, and
      the exit code is not reported, because the token has been cancelled. */
  function RunCut(range: Option<MediaRange>, spawn: Spawn, lines: seq<string>, exitCode: int, cancel: Cancel)
    : (o: Outcome)
    ensures range.None? ==> o == Outcome([], Some(NullReference))
    ensures range.Some? ==> forall i :: 0 <= i < |o.reports| ==> o.reports[i].total == CutTotal(range.value)
  {
    if range.None? then Outcome([], Some(NullReference))
    else
      var total := CutTotal(range.value);
      var early := if cancel == BeforeStart then [CanceledReport(total)] else [];
      match spawn
      case NotStarted => Outcome(early + [NotStartedReport(total)], None)
      case StartThrows => Outcome(early, Some(SpawnFailed))
      case Started =>
        if cancel == BeforeStart then Outcome(early, Some(OperationCanceled))
        else if cancel.AfterLines? then MidRun(total, lines, cancel.count, cancel.buffered, cancel.exits)
        else if cancel == AfterExit then
          var r := ReadAll(total, lines);
          if r.fault.Some? then Outcome(r.reports, r.fault)
          else Outcome(r.reports + [CanceledReport(total)], None)
        else
          var r := ReadAll(total, lines);
          if r.fault.Some? then Outcome(r.reports, r.fault)
          else if exitCode != 0 then Outcome(r.reports + [ExitReport(r.processed, total, exitCode)], None)
          else Outcome(r.reports, None)
  }

  /** A started cut cancelled after `count` lines, which still reads
      `buffered` lines, and then ends normally if ffmpeg has exited and
      throws otherwise. A line that throws ends the run with its exception. */
  function MidRun(total: TimeSpan, lines: seq<string>, count: nat, buffered: nat, exits: bool): (o: Outcome)
    ensures forall i :: 0 <= i < |o.reports| ==> o.reports[i].total == total
  {
    var m := Clip(count, lines);
    assert AllReported(Unread.reports, total);
    var r := ReadAll(total, lines[..m]);
    if r.fault.Some? then Outcome(r.reports, r.fault)
    else
      assert AllReported([], total);
      var after := ReadFrom(total, Reading(r.processed, [], None), lines[m..Clip(m + buffered, lines)]);
      var reports := r.reports + [CanceledReport(total)] + after.reports;
      if after.fault.Some? then Outcome(reports, after.fault)
      else if exits then Outcome(reports, None)
      else Outcome(reports, Some(OperationCanceled))
  }

  /** n, or the number of lines when there are fewer. */
  function Clip(n: nat, lines: seq<string>): (m: nat)
    ensures m <= |lines| && m <= n
    ensures m == n || m == |lines|
  {
    if n < |lines| then n else |lines|
  }

  predicate HasState(es: seq<JobProgress>, s: JobState)
  {
    exists i :: 0 <= i < |es| && es[i].state == s
  }

  lemma HasStateConcat(a: seq<JobProgress>, b: seq<JobProgress>, s: JobState)
    ensures HasState(a + b, s) <==> HasState(a, s) || HasState(b, s)
  {
    if HasState(a + b, s) {
      var i :| 0 <= i < |a + b| && (a + b)[i].state == s;
      if i >= |a| {
        assert b[i - |a|].state == s;
      }
    }
    if HasState(b, s) {
      var i :| 0 <= i < |b| && b[i].state == s;
      assert (a + b)[|a| + i] == b[i];
    }
    if HasState(a, s) {
      var i :| 0 <= i < |a| && a[i].state == s;
      assert (a + b)[i] == a[i];
    }
  }

  /** The reports of a run cancelled in the middle: those before, Canceled,
      and those read after, none of them Failed; Canceled among them. */
  lemma MidRunStates(total: TimeSpan, before: seq<JobProgress>, after: seq<JobProgress>)
    requires AllReported(before, total) && AllReported(after, total)
    ensures !HasState(before + [CanceledReport(total)] + after, Failed)
    ensures HasState(before + [CanceledReport(total)] + after, Canceled)
  {
    NoOtherStates(before, total, Failed);
    NoOtherStates(after, total, Failed);
    LastState(before, CanceledReport(total), total, Failed);
    LastState(before, CanceledReport(total), total, Canceled);
    HasStateConcat(before + [CanceledReport(total)], after, Failed);
    HasStateConcat(before + [CanceledReport(total)], after, Canceled);
  }

  lemma NoOtherStates(es: seq<JobProgress>, total: TimeSpan, s: JobState)
    requires AllReported(es, total) && s != Running && s != Completed
    ensures !HasState(es, s)
  {
  }

  lemma LastState(es: seq<JobProgress>, e: JobProgress, total: TimeSpan, s: JobState)
    requires AllReported(es, total) && s != Running && s != Completed
    ensures HasState(es + [e], s) <==> e.state == s
  {
    if HasState(es + [e], s) {
      var i :| 0 <= i < |es + [e]| && (es + [e])[i].state == s;
      assert i == |es|;
    }
    assert (es + [e])[|es|] == e;
  }

  /** A cut reports Failed exactly when ffmpeg could not be started, or when
      it ran uncancelled, every line was read without an exception, and it
      exited with a non-zero code. */
  lemma CutFails(range: MediaRange, spawn: Spawn, lines: seq<string>, exitCode: int, cancel: Cancel)
    ensures var o := RunCut(Some(range), spawn, lines, exitCode, cancel);
            HasState(o.reports, Failed)
            <==> spawn == NotStarted
                 || (spawn == Started && cancel == NoCancel && exitCode != 0
                     && ReadAll(CutTotal(range), lines).fault.None?)
  {
    var total := CutTotal(range);
    var o := RunCut(Some(range), spawn, lines, exitCode, cancel);
    var early := if cancel == BeforeStart then [CanceledReport(total)] else [];
    assert AllReported(Unread.reports, total);
    match spawn
    case NotStarted =>
      assert o.reports[|o.reports| - 1].state == Failed;
    case StartThrows =>
      assert !HasState(early, Failed);
    case Started =>
      if cancel == BeforeStart {
        assert !HasState(early, Failed);
      } else if cancel.AfterLines? {
        assert o == MidRun(total, lines, cancel.count, cancel.buffered, cancel.exits);
        MidRunFacts(total, lines, cancel.count, cancel.buffered, cancel.exits);
      } else if cancel == AfterExit {
        var r := ReadAll(total, lines);
        NoOtherStates(r.reports, total, Failed);
        if r.fault.None? {
          LastState(r.reports, CanceledReport(total), total, Failed);
        }
      } else {
        var r := ReadAll(total, lines);
        NoOtherStates(r.reports, total, Failed);
        if r.fault.None? && exitCode != 0 {
          LastState(r.reports, ExitReport(r.processed, total, exitCode), total, Failed);
        }
      }
  }

  /** A cut reports Canceled only when its token was cancelled. A started
      cut cancelled before it starts, or while ffmpeg runs and the pending
      read then throws, ends with an exception. One cancelled while ffmpeg
      runs that has exited by the next test ends normally exactly when no
      line it read threw, and then it has reported Canceled and no Failed,
      whatever the exit code. One cancelled after ffmpeg has exited ends
      normally, with Canceled as its last report, unless a line threw first. */
  lemma CutCanceled(range: MediaRange, spawn: Spawn, lines: seq<string>, exitCode: int, cancel: Cancel)
    ensures var o := RunCut(Some(range), spawn, lines, exitCode, cancel);
            HasState(o.reports, Canceled) ==> cancel != NoCancel
    ensures (cancel == BeforeStart || (cancel.AfterLines? && !cancel.exits)) && spawn == Started
            ==> RunCut(Some(range), spawn, lines, exitCode, cancel).fault.Some?
    ensures cancel.AfterLines? && cancel.exits && spawn == Started
            ==> var o := RunCut(Some(range), spawn, lines, exitCode, cancel);
                && (o.fault.None? <==> NoneThrows(lines[..Clip(Clip(cancel.count, lines) + cancel.buffered, lines)]))
                && (o.fault.None? ==> HasState(o.reports, Canceled) && !HasState(o.reports, Failed))
    ensures cancel == AfterExit && spawn == Started
            ==> var o := RunCut(Some(range), spawn, lines, exitCode, cancel);
                var r := ReadAll(CutTotal(range), lines);
                o.fault == r.fault
                && (r.fault.None? ==> o.reports == r.reports + [CanceledReport(CutTotal(range))]
                                      && !HasState(o.reports, Failed))
  {
    var total := CutTotal(range);
    assert AllReported(Unread.reports, total);
    if cancel == NoCancel && spawn == Started {
      var r := ReadAll(total, lines);
      NoOtherStates(r.reports, total, Canceled);
      if r.fault.None? && exitCode != 0 {
        LastState(r.reports, ExitReport(r.processed, total, exitCode), total, Canceled);
      }
    } else if cancel == NoCancel && spawn == NotStarted {
      LastState([], NotStartedReport(total), total, Canceled);
    } else if cancel == AfterExit && spawn == Started {
      CutFails(range, spawn, lines, exitCode, cancel);
    } else if cancel.AfterLines? && spawn == Started {
      StartedMidRun(range, lines, exitCode, cancel);
      MidRunFacts(total, lines, cancel.count, cancel.buffered, cancel.exits);
    }
  }

  lemma StartedMidRun(range: MediaRange, lines: seq<string>, exitCode: int, cancel: Cancel)
    requires cancel.AfterLines?
    ensures RunCut(Some(range), Started, lines, exitCode, cancel)
            == MidRun(CutTotal(range), lines, cancel.count, cancel.buffered, cancel.exits)
  {
  }

  lemma MidRunFacts(total: TimeSpan, lines: seq<string>, count: nat, buffered: nat, exits: bool)
    ensures !HasState(MidRun(total, lines, count, buffered, exits).reports, Failed)
    ensures !exits ==> MidRun(total, lines, count, buffered, exits).fault.Some?
    ensures exits
            ==> var o := MidRun(total, lines, count, buffered, exits);
                && (o.fault.None? <==> NoneThrows(lines[..Clip(Clip(count, lines) + buffered, lines)]))
                && (o.fault.None? ==> HasState(o.reports, Canceled) && !HasState(o.reports, Failed))
  {
    var m := Clip(count, lines);
    var n := Clip(m + buffered, lines);
    var r := ReadAll(total, lines[..m]);
    assert AllReported(Unread.reports, total);
    NoFaultIff(total, Unread, lines[..m]);
    ThrowsSplit(lines, m, n);
    NoOtherStates(r.reports, total, Failed);
    if r.fault.None? {
      var start := Reading(r.processed, [], None);
      assert AllReported(start.reports, total);
      var after := ReadFrom(total, start, lines[m..n]);
      MidRunStates(total, r.reports, after.reports);
      NoFaultIff(total, start, lines[m..n]);
    }
  }

  /** Cancelled before the first line, with "progress=end" already in the
      reader's buffer and ffmpeg gone by the next test: Completed is
      reported after Canceled, and the run ends normally whatever the exit
      code. */
  lemma CompletedAfterCanceled(range: MediaRange, exitCode: int)
    ensures RunCut(Some(range), Started, ["progress=end"], exitCode, AfterLines(0, 1, true))
            == Outcome([CanceledReport(CutTotal(range)), JobProgress(100.0, Zero, CutTotal(range), Completed, "end")], None)
  {
    EndLine(CutTotal(range), Zero);
    ReportAfterCanceled(range, "progress=end", exitCode, JobProgress(100.0, Zero, CutTotal(range), Completed, "end"));
  }

  /** A buffered line read after a cancellation at the start reports after Canceled. */
  lemma ReportAfterCanceled(range: MediaRange, line: string, exitCode: int, e: JobProgress)
    requires ReadLine(CutTotal(range), Zero, line) == Success(LineEffect(Zero, Some(e)))
    ensures RunCut(Some(range), Started, [line], exitCode, AfterLines(0, 1, true))
            == Outcome([CanceledReport(CutTotal(range)), e], None)
  {
    var total := CutTotal(range);
    var lines := [line];
    StartedMidRun(range, lines, exitCode, AfterLines(0, 1, true));
    assert Clip(0, lines) == 0 && Clip(1, lines) == 1;
    assert lines[..0] == [] && lines[0..1] == lines;
    assert ReadAll(total, []) == Unread;
    var start := Reading(Zero, [], None);
    assert lines[1..] == [];
    assert ReadFrom(total, start, lines) == ReadFrom(total, Reading(Zero, [e], None), []);
    assert [] + [CanceledReport(total)] + [e] == [CanceledReport(total), e];
  }

  predicate NoneThrows(lines: seq<string>)
  {
    forall i :: 0 <= i < |lines| ==> !Throws(lines[i])
  }

  /** No line up to n throws exactly when none up to m and none from m to n does. */
  lemma ThrowsSplit(lines: seq<string>, m: nat, n: nat)
    requires m <= n <= |lines|
    ensures NoneThrows(lines[..n]) <==> NoneThrows(lines[..m]) && NoneThrows(lines[m..n])
  {
    assert lines[..n] == lines[..m] + lines[m..n];
  }

  /** The loop ends without an exception exactly when none of its lines throws. */
  lemma NoFaultIff(total: TimeSpan, r: Reading, lines: seq<string>)
    requires r.fault.None?
    ensures ReadFrom(total, r, lines).fault.None? <==> NoneThrows(lines)
  {
    if NoneThrows(lines) {
      ReportCount(total, r, lines);
    } else {
      var k :| 0 <= k < |lines| && Throws(lines[k]);
      StopsAtFault(total, r, lines, k);
    }
  }

  // ------------------------------------------------------------ the GIF job

  /** The checks `GenerateGif` makes before anything else, in their order. */
  function ValidateGif(range: Option<MediaRange>, input: string, output: string, fps: int, maxWidth: int)
    : (r: Result<MediaRange, Fault>)
    ensures r.Success? <==> range.Some? && !IsBlankText(input) && !IsBlankText(output) && fps > 0 && maxWidth > 0
    ensures r.Success? ==> r.value == range.value
    ensures range.None? ==> r == Failure(ArgumentNull("range"))
    ensures range.Some? && IsBlankText(input) ==> r == Failure(ArgumentError("input is empty", "input"))
    ensures r.Failure? && r.error.ArgumentOutOfRange? ==> r.error.param in {"fps", "maxWidth"}
  {
    if range.None? then Failure(ArgumentNull("range"))
    else if IsBlankText(input) then Failure(ArgumentError("input is empty", "input"))
    else if IsBlankText(output) then Failure(ArgumentError("output is empty", "output"))
    else if fps <= 0 then Failure(ArgumentOutOfRange("fps"))
    else if maxWidth <= 0 then Failure(ArgumentOutOfRange("maxWidth"))
    else Success(range.value)
  }

  /** The frame rate and width the job wrapper always uses. */
  const DefaultFps: int := 12
  const DefaultMaxWidth: int := 480

  /** Through the job wrapper only the range, the input and the output can be refused. */
  lemma WrapperValidation(range: Option<MediaRange>, input: string, output: string)
    ensures ValidateGif(range, input, output, DefaultFps, DefaultMaxWidth).Failure?
            ==> ValidateGif(range, input, output, DefaultFps, DefaultMaxWidth).error.ArgumentNull?
                || ValidateGif(range, input, output, DefaultFps, DefaultMaxWidth).error.ArgumentError?
  {
  }

  /** What follows the width in the filter graph: keep the aspect ratio,
      resample with Lanczos, split, build a palette from one copy and apply
      it to the other with sierra2_4a dithering. */
  const PaletteGraph: string :=
    "-1:flags=lanczos,split[v1][v2];[v1]palettegen=stats_mode=diff[p];[v2][p]paletteuse=dither=sierra2_4a"

  /** The one-pass filter graph for a frame rate and a width; it carries
      the frame rate and the width it was built with. */
  function GifFilter(fps: int, maxWidth: int): (f: string)
    ensures 0 <= fps && 0 <= maxWidth ==> ReadFilter(f) == Some((fps, maxWidth))
  {
    var text := "[0:v]fps=" + IntText(fps) + ",scale=" + IntText(maxWidth) + ":" + PaletteGraph;
    if 0 <= fps && 0 <= maxWidth then
      FilterReadsBack(fps, maxWidth);
      text
    else text
  }

  /** Reads the frame rate and the width back out of a filter graph. */
  function ReadFilter(f: string): Option<(int, int)>
  {
    var rate := Before(f, ',');
    var scale := Before(After(f, ','), ':');
    var x, y := After(rate, '='), After(scale, '=');
    if Before(rate, '=') != "[0:v]fps" || Before(scale, '=') != "scale" then None
    else if |x| == 0 || !AllDigits(x) || |y| == 0 || !AllDigits(y) then None
    else Some((DigitsValue(x) as int, DigitsValue(y) as int))
  }

  lemma FilterReadsBack(fps: nat, maxWidth: nat)
    ensures ReadFilter("[0:v]fps=" + IntText(fps) + ",scale=" + IntText(maxWidth) + ":" + PaletteGraph)
            == Some((fps as int, maxWidth as int))
  {
    var a, b := NatText(fps), NatText(maxWidth);
    NatTextRoundTrip(fps);
    NatTextRoundTrip(maxWidth);
    assert ',' !in a && '=' !in a && ':' !in b && '=' !in b;
    FilterShape(a, b, PaletteGraph);
    FilterPieces("[0:v]fps", a, "scale", b, PaletteGraph);
  }

  lemma FilterShape(a: string, b: string, r: string)
    ensures "[0:v]fps=" + a + ",scale=" + b + ":" + r
            == "[0:v]fps" + ['='] + a + [','] + ("scale" + ['='] + b + [':'] + r)
  {
    assert "[0:v]fps=" == "[0:v]fps" + ['='];
    assert ",scale=" == [','] + "scale" + ['='];
  }

  lemma FilterPieces(h: string, a: string, m: string, b: string, r: string)
    requires ',' !in h && '=' !in h && ',' !in a && '=' !in a && ':' !in m && '=' !in m && ':' !in b && '=' !in b
    ensures var f := h + ['='] + a + [','] + (m + ['='] + b + [':'] + r);
            && Before(f, ',') == h + ['='] + a
            && Before(After(f, ','), ':') == m + ['='] + b
            && Before(h + ['='] + a, '=') == h && After(h + ['='] + a, '=') == a
            && Before(m + ['='] + b, '=') == m && After(m + ['='] + b, '=') == b
  {
    var head := h + ['='] + a;
    var rest := m + ['='] + b + [':'] + r;
    assert ',' !in head;
    BeforeAfter(head, rest, ',');
    BeforeAfter(h, a, '=');
    assert ':' !in m + ['='] + b;
    BeforeAfter(m + ['='] + b, r, ':');
    BeforeAfter(m, b, '=');
  }

  /** With the wrapper's values the graph is the documented one: 12 frames a
      second, 480 DIP wide. */
  lemma DefaultFilter()
    ensures GifFilter(DefaultFps, DefaultMaxWidth) == "[0:v]fps=12,scale=480:" + PaletteGraph
  {
    assert NatText(12) == "12";
    assert NatText(480) == "480";
    DefaultFilterText();
  }

  lemma DefaultFilterText()
    ensures "[0:v]fps=" + "12" + ",scale=" + "480" + ":" == "[0:v]fps=12,scale=480:"
  {
  }

  /** The GIF job's argument list, one argument per entry. ffmpeg reads it
      as: overwrite, no banner, the input, an accurate seek after it, the
      filter graph, no audio, GIF flags, endless loop and the output. The
      "-offsetting" entry is the value of "-gifflags". */
  function GifArguments(input: string, output: string, start: string, duration: string, filter: string)
    : (args: seq<string>)
    ensures |args| == 16
    ensures IsFileName(output)
            ==> ReadOptions(args)
                == [Switch("-y"), Switch("-hide_banner"), Opt("-i", input), Opt("-ss", start), Opt("-t", duration),
                    Opt("-filter_complex", filter), Switch("-an"), Opt("-gifflags", "-offsetting"), Opt("-loop", "0"),
                    Output(output)]
  {
    var head := ["-y", "-hide_banner", "-i", input, "-ss", start, "-t", duration, "-filter_complex", filter];
    var tail := ["-an", "-gifflags", "-offsetting", "-loop", "0", output];
    if IsFileName(output) then
      GifTail(output);
      GifHead(input, start, duration, filter, tail);
      head + tail
    else head + tail
  }

  lemma GifTail(output: string)
    requires IsFileName(output)
    ensures ReadOptions(["-an", "-gifflags", "-offsetting", "-loop", "0", output])
            == [Switch("-an"), Opt("-gifflags", "-offsetting"), Opt("-loop", "0"), Output(output)]
  {
    var t0 := [output];
    ReadOutput(output);
    ReadOpt("-loop", "0", t0);
    var t1 := ["-loop", "0"] + t0;
    ReadOpt("-gifflags", "-offsetting", t1);
    var t2 := ["-gifflags", "-offsetting"] + t1;
    ReadSwitch("-an", t2);
    assert ["-an"] + t2 == ["-an", "-gifflags", "-offsetting", "-loop", "0", output];
  }

  lemma GifHead(input: string, start: string, duration: string, filter: string, tail: seq<string>)
    ensures ReadOptions(["-y", "-hide_banner", "-i", input, "-ss", start, "-t", duration, "-filter_complex", filter] + tail)
            == [Switch("-y"), Switch("-hide_banner"), Opt("-i", input), Opt("-ss", start), Opt("-t", duration),
                Opt("-filter_complex", filter)] + ReadOptions(tail)
  {
    ReadThreeOpts("-ss", start, "-t", duration, "-filter_complex", filter, tail);
    var t := ["-ss", start, "-t", duration, "-filter_complex", filter] + tail;
    ReadOpt("-i", input, t);
    ReadSwitch("-hide_banner", ["-i", input] + t);
    ReadSwitch("-y", ["-hide_banner"] + (["-i", input] + t));
    assert ["-y"] + (["-hide_banner"] + (["-i", input] + t))
           == ["-y", "-hide_banner", "-i", input, "-ss", start, "-t", duration, "-filter_complex", filter] + tail;
  }

  /** The arguments of a GIF job that passes the checks. */
  function GifJobArguments(fmt: Formatter, range: Option<MediaRange>, input: string, output: string, fps: int,
                           maxWidth: int): (r: Result<seq<string>, Fault>)
    ensures r.Success? <==> ValidateGif(range, input, output, fps, maxWidth).Success?
    ensures r.Success? ==> |r.value| == 16 && r.value[9] == GifFilter(fps, maxWidth)
    ensures r.Success? ==> r.value[5] == fmt(range.value.start) && r.value[7] == fmt(GetDuration(range.value))
  {
    match ValidateGif(range, input, output, fps, maxWidth)
    case Failure(e) => Failure(e)
    case Success(rg) =>
      Success(GifArguments(input, output, fmt(rg.start), fmt(GetDuration(rg)), GifFilter(fps, maxWidth)))
  }

  /** `GenerateGif` given what the process does. It never reports progress:
      ffmpeg's output goes to the console and a non-zero exit code is only
      logged. A refused argument, a failing spawn or a cancelled wait throws;
      a cancellation after ffmpeg has exited does not. The job reads no
      lines, so every `AfterLines` cancellation is one while ffmpeg runs. */
  function RunGif(range: Option<MediaRange>, input: string, output: string, fps: int, maxWidth: int,
                  spawn: Spawn, cancel: Cancel): (o: Outcome)
    ensures o.reports == []
    ensures o.fault.None? <==> ValidateGif(range, input, output, fps, maxWidth).Success?
                               && (spawn == NotStarted
                                   || (spawn == Started && (cancel == NoCancel || cancel == AfterExit)))
    ensures ValidateGif(range, input, output, fps, maxWidth).Failure?
            ==> o.fault == Some(ValidateGif(range, input, output, fps, maxWidth).error)
  {
    match ValidateGif(range, input, output, fps, maxWidth)
    case Failure(e) => Outcome([], Some(e))
    case Success(_) =>
      match spawn
      case StartThrows => Outcome([], Some(SpawnFailed))
      case NotStarted => Outcome([], None)
      case Started =>
        if cancel == NoCancel || cancel == AfterExit then Outcome([], None) else Outcome([], Some(OperationCanceled))
  }
}
