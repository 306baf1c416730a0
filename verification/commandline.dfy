/** How an argument string is cut into an argument vector, and how ffmpeg
    reads that vector as options and values. The cut job passes one string
    (`ProcessStartInfo.Arguments`), the GIF job a list (`ArgumentList`); both
    are read back here so that the argument builders have a partner.

    The splitting rules are those of .NET for text without backslashes in
    front of a quote and without doubled quotes inside a quoted part: blanks
    (space, tab) outside quotes separate arguments, and a double quote
    switches quoting on or off without being part of the argument. */
module CommandLine {

  predicate IsBlank(c: char)
  {
    c == ' ' || c == '\t'
  }

  // ------------------------------------------------------------ splitting

  /** The state of the splitter: the arguments finished so far, the one
      being built, whether one has been started (`""` starts an empty one)
      and whether we are inside quotes. */
  datatype Lexer = Lexer(done: seq<string>, cur: string, started: bool, quoted: bool)

  const Fresh: Lexer := Lexer([], "", false, false)

  function Feed(l: Lexer, c: char): Lexer
  {
    if c == '"' then l.(started := true, quoted := !l.quoted)
    else if IsBlank(c) && !l.quoted then
      (if l.started then Lexer(l.done + [l.cur], "", false, false) else l)
    else l.(cur := l.cur + [c], started := true)
  }

  function FeedAll(l: Lexer, s: string): Lexer
    decreases |s|
  {
    if s == [] then l else FeedAll(Feed(l, s[0]), s[1..])
  }

  function Close(l: Lexer): seq<string>
  {
    if l.started then l.done + [l.cur] else l.done
  }

  /** The argument vector the child process receives. */
  function SplitArguments(s: string): seq<string>
  {
    Close(FeedAll(Fresh, s))
  }

  lemma {:induction false} FeedAllAppend(l: Lexer, a: string, b: string)
    ensures FeedAll(l, a + b) == FeedAll(FeedAll(l, a), b)
    decreases |a|
  {
    if a == [] {
      assert a + b == b;
    } else {
      assert (a + b)[0] == a[0];
      assert (a + b)[1..] == a[1..] + b;
      FeedAllAppend(Feed(l, a[0]), a[1..], b);
    }
  }

  /** Text without blanks and quotes is appended to the current argument. */
  lemma {:induction false} FeedPlain(l: Lexer, w: string)
    requires forall i :: 0 <= i < |w| ==> !IsBlank(w[i]) && w[i] != '"'
    requires |w| > 0 || l.started
    ensures FeedAll(l, w) == l.(cur := l.cur + w, started := true)
    decreases |w|
  {
    if w != [] {
      var l1 := Feed(l, w[0]);
      assert l1 == l.(cur := l.cur + [w[0]], started := true);
      FeedPlain(l1, w[1..]);
      assert l.cur + [w[0]] + w[1..] == l.cur + w;
    }
  }

  /** Inside quotes everything but a quote, blanks included, is appended. */
  lemma {:induction false} FeedQuoted(l: Lexer, w: string)
    requires l.quoted && l.started
    requires forall i :: 0 <= i < |w| ==> w[i] != '"'
    ensures FeedAll(l, w) == l.(cur := l.cur + w)
    decreases |w|
  {
    if w != [] {
      var l1 := Feed(l, w[0]);
      assert l1 == l.(cur := l.cur + [w[0]]);
      FeedQuoted(l1, w[1..]);
      assert l.cur + [w[0]] + w[1..] == l.cur + w;
    }
  }

  /** A word is text without blanks and quotes; it stands for itself. */
  predicate IsWord(w: string)
  {
    |w| > 0 && forall i :: 0 <= i < |w| ==> !IsBlank(w[i]) && w[i] != '"'
  }

  predicate Between(l: Lexer)
  {
    l.cur == "" && !l.started && !l.quoted
  }

  /** A quote switches quoting and starts an argument. */
  lemma FeedQuote(l: Lexer)
    ensures FeedAll(l, "\"") == l.(started := true, quoted := !l.quoted)
  {
    assert "\""[1..] == "";
  }

  /** A space outside quotes finishes the current argument. */
  lemma FeedSpace(l: Lexer)
    requires l.started && !l.quoted
    ensures FeedAll(l, " ") == Lexer(l.done + [l.cur], "", false, false)
  {
    assert " "[1..] == "";
  }

  /** Between arguments, a word becomes the current argument. */
  lemma FeedWord(l: Lexer, w: string)
    requires Between(l) && IsWord(w)
    ensures FeedAll(l, w) == Lexer(l.done, w, true, false)
  {
    FeedPlain(l, w);
    assert "" + w == w;
  }

  /** A space and a word after an argument: the argument is finished, the word is current. */
  lemma FeedSpaceWord(l: Lexer, w: string)
    requires l.started && !l.quoted && IsWord(w)
    ensures FeedAll(l, " " + w) == Lexer(l.done + [l.cur], w, true, false)
  {
    FeedAllAppend(l, " ", w);
    FeedSpace(l);
    FeedWord(Lexer(l.done + [l.cur], "", false, false), w);
  }

  /** Inside quotes, text without quotes becomes the current argument, blanks included. */
  lemma FeedInside(l: Lexer, w: string)
    requires l.cur == "" && l.started && l.quoted
    requires forall i :: 0 <= i < |w| ==> w[i] != '"'
    ensures FeedAll(l, w) == l.(cur := w)
  {
    FeedQuoted(l, w);
    assert "" + w == w;
  }

  // ------------------------------------------------------------ reading options

  /** The ffmpeg options this program uses that take a value, and those that do not. */
  const ValueOptions: set<string> :=
    {"-ss", "-t", "-i", "-c", "-map", "-movflags", "-progress", "-filter_complex", "-gifflags", "-loop"}
  const Switches: set<string> := {"-y", "-hide_banner", "-an"}

  /** An argument vector read the way ffmpeg reads it: an option name takes
      the next argument as its value, a switch stands alone, anything that
      does not start with '-' names an output file. */
  datatype Arg =
    | Switch(name: string)
    | Opt(name: string, value: string)
    | Output(file: string)
    | MissingValue(name: string)
    | Unknown(text: string)

  function ReadOptions(args: seq<string>): seq<Arg>
    decreases |args|
  {
    if args == [] then []
    else if args[0] in ValueOptions then
      if |args| == 1 then [MissingValue(args[0])]
      else [Opt(args[0], args[1])] + ReadOptions(args[2..])
    else if args[0] in Switches then [Switch(args[0])] + ReadOptions(args[1..])
    else if |args[0]| > 0 && args[0][0] == '-' then [Unknown(args[0])] + ReadOptions(args[1..])
    else [Output(args[0])] + ReadOptions(args[1..])
  }

  predicate IsFileName(s: string)
  {
    |s| == 0 || s[0] != '-'
  }

  lemma ReadOpt(name: string, value: string, rest: seq<string>)
    requires name in ValueOptions
    ensures ReadOptions([name, value] + rest) == [Opt(name, value)] + ReadOptions(rest)
  {
    assert ([name, value] + rest)[2..] == rest;
  }

  lemma ReadSwitch(name: string, rest: seq<string>)
    requires name in Switches
    ensures ReadOptions([name] + rest) == [Switch(name)] + ReadOptions(rest)
  {
    assert name !in ValueOptions;
    assert ([name] + rest)[1..] == rest;
  }

  /** Three options with their values in a row. */
  lemma ReadThreeOpts(n1: string, v1: string, n2: string, v2: string, n3: string, v3: string, rest: seq<string>)
    requires n1 in ValueOptions && n2 in ValueOptions && n3 in ValueOptions
    ensures ReadOptions([n1, v1, n2, v2, n3, v3] + rest) == [Opt(n1, v1), Opt(n2, v2), Opt(n3, v3)] + ReadOptions(rest)
  {
    ReadOpt(n3, v3, rest);
    ReadOpt(n2, v2, [n3, v3] + rest);
    ReadOpt(n1, v1, [n2, v2] + ([n3, v3] + rest));
    assert [n1, v1] + ([n2, v2] + ([n3, v3] + rest)) == [n1, v1, n2, v2, n3, v3] + rest;
  }

  lemma ReadOutput(file: string)
    requires IsFileName(file)
    ensures ReadOptions([file]) == [Output(file)]
  {
    assert file !in ValueOptions && file !in Switches;
  }
}
