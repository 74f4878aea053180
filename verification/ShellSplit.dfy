/** The command-line splitter of the tlon tool (extensions/tlon/index.ts:51-89): a quote and
    escape automaton.  Unlike section 2.2 of the POSIX Shell Command Language, a backslash
    inside double quotes escapes every character, and empty arguments are dropped. */
module ShellSplit {
  import opened Text

  /** The variables of the loop. */
  datatype State = State(args: seq<string>, cur: string, inDouble: bool, inSingle: bool, escape: bool) {
    predicate IsPlain() {
      !inDouble && !inSingle && !escape
    }
  }

  const START: State := State([], "", false, false, false)

  function Flush(st: State): State {
    if st.cur == "" then st else st.(args := st.args + [st.cur], cur := "")
  }

  function Step(st: State, ch: char): State {
    if st.escape then st.(cur := st.cur + [ch], escape := false)
    else if ch == '\\' && !st.inSingle then st.(escape := true)
    else if ch == '"' && !st.inSingle then st.(inDouble := !st.inDouble)
    else if ch == '\'' && !st.inDouble then st.(inSingle := !st.inSingle)
    else if IsSpace(ch) && !st.inDouble && !st.inSingle then Flush(st)
    else st.(cur := st.cur + [ch])
  }

  function Run(st: State, s: string): State {
    if s == "" then st else Step(Run(st, s[..|s| - 1]), s[|s| - 1])
  }

  /** The arguments a text splits into. */
  function Args(s: string): seq<string> {
    Flush(Run(START, s)).args
  }

  method ShellSplit(str: string) returns (args: seq<string>)
    ensures args == Args(str)
  {
    args := [];
    var cur, inDouble, inSingle, escape := "", false, false, false;
    for i := 0 to |str|
      invariant State(args, cur, inDouble, inSingle, escape) == Run(START, str[..i])
    {
      var ch := str[i];
      assert str[..i + 1][..i] == str[..i];
      if escape {
        cur := cur + [ch];
        escape := false;
        continue;
      }
      if ch == '\\' && !inSingle {
        escape := true;
        continue;
      }
      if ch == '"' && !inSingle {
        inDouble := !inDouble;
        continue;
      }
      if ch == '\'' && !inDouble {
        inSingle := !inSingle;
        continue;
      }
      if IsSpace(ch) && !inDouble && !inSingle {
        if cur != "" {
          args := args + [cur];
          cur := "";
        }
        continue;
      }
      cur := cur + [ch];
    }
    assert str[..|str|] == str;
    if cur != "" {
      args := args + [cur];
    }
  }

  // ---------- running over concatenated text ----------

  lemma {:induction false} RunConcat(st: State, a: string, b: string)
    ensures Run(st, a + b) == Run(Run(st, a), b)
  {
    if b == "" {
      assert a + b == a;
    } else {
      assert (a + b)[..|a + b| - 1] == a + b[..|b| - 1];
      RunConcat(st, a, b[..|b| - 1]);
    }
  }

  /** Arguments already collected are never looked at again. */
  lemma {:induction false} RunAfter(done: seq<string>, st: State, s: string)
    ensures Run(st.(args := done + st.args), s) == Run(st, s).(args := done + Run(st, s).args)
  {
    if s == "" {
    } else {
      RunAfter(done, st, s[..|s| - 1]);
      var r := Run(st, s[..|s| - 1]);
      assert done + (r.args + [r.cur]) == (done + r.args) + [r.cur];
    }
  }

  lemma RunOne(st: State, ch: char)
    ensures Run(st, [ch]) == Step(st, ch)
  {
  }

  lemma SpaceFlushes(a: string, space: char)
    requires IsSpace(space) && Run(START, a).IsPlain()
    ensures Run(START, a + [space]) == START.(args := Args(a))
  {
    RunConcat(START, a, [space]);
    RunOne(Run(START, a), space);
  }

  lemma FlushAfter(done: seq<string>, st: State)
    ensures Flush(st.(args := done + st.args)).args == done + Flush(st).args
  {
    assert done + (st.args + [st.cur]) == (done + st.args) + [st.cur];
  }

  /** Text that ends outside quotes and escapes can be split on its own: splitting it, white
      space and more text gives the arguments of the one followed by those of the other. */
  lemma SplitConcat(a: string, space: char, b: string)
    requires IsSpace(space) && Run(START, a).IsPlain()
    ensures Args(a + [space] + b) == Args(a) + Args(b)
  {
    var done := Args(a);
    SpaceFlushes(a, space);
    RunConcat(START, a + [space], b);
    assert START.(args := done) == START.(args := done + START.args);
    RunAfter(done, START, b);
    FlushAfter(done, Run(START, b));
  }

  // ---------- quoting ----------

  /** Ways to write an argument so that every character of it stands for itself: as it is, between
      single or double quotes, between double quotes with a backslash before every character, and
      with such backslashes alone. */
  datatype Style = Bare | Single | Double | Escaped | Backslash

  predicate IsOrdinary(ch: char) {
    !IsSpace(ch) && ch != '"' && ch != '\'' && ch != '\\'
  }

  /** Only a word without white space, quotes and backslashes can be written as it is. */
  predicate CanWrite(style: Style, arg: string) {
    style == Bare ==> forall i :: 0 <= i < |arg| ==> IsOrdinary(arg[i])
  }

  /** How one character is written inside an argument of the style. */
  function QuoteChar(style: Style, ch: char): string {
    match style
    case Bare => [ch]
    case Single => if ch == '\'' then "'\\''" else [ch]
    case Double => if ch == '"' || ch == '\\' then ['\\', ch] else [ch]
    case Escaped => ['\\', ch]
    case Backslash => ['\\', ch]
  }

  function QuoteBody(style: Style, arg: string): string {
    if arg == "" then "" else QuoteBody(style, arg[..|arg| - 1]) + QuoteChar(style, arg[|arg| - 1])
  }

  function Delimiter(style: Style): string {
    match style
    case Bare => ""
    case Single => "'"
    case Double => "\""
    case Escaped => "\""
    case Backslash => ""
  }

  function Quote(style: Style, arg: string): string {
    Delimiter(style) + QuoteBody(style, arg) + Delimiter(style)
  }

  /** The plain state, or the state between the delimiters of the style. */
  function Inside(style: Style, st: State): State {
    match style
    case Bare => st
    case Single => st.(inSingle := true)
    case Double => st.(inDouble := true)
    case Escaped => st.(inDouble := true)
    case Backslash => st
  }

  lemma RunTwo(st: State, a: char, b: char)
    ensures Run(st, [a, b]) == Step(Step(st, a), b)
  {
    assert [a, b] == [a] + [b];
    RunConcat(st, [a], [b]);
    RunOne(st, a);
    RunOne(Step(st, a), b);
  }

  lemma QuotedChar(style: Style, st: State, ch: char)
    requires st.IsPlain() && CanWrite(style, [ch])
    ensures Run(Inside(style, st), QuoteChar(style, ch)) == Inside(style, st).(cur := st.cur + [ch])
  {
    var q := Inside(style, st);
    match style
    case Bare =>
      assert IsOrdinary([ch][0]);
      RunOne(q, ch);
    case Single =>
      if ch == '\'' {
        assert "'\\''" == ['\'', '\\'] + ['\'', '\''];
        RunConcat(q, ['\'', '\\'], ['\'', '\'']);
        RunTwo(q, '\'', '\\');
        RunTwo(Run(q, ['\'', '\\']), '\'', '\'');
      } else {
        RunOne(q, ch);
      }
    case Double =>
      if ch == '"' || ch == '\\' {
        RunTwo(q, '\\', ch);
      } else {
        RunOne(q, ch);
      }
    case Escaped =>
      RunTwo(q, '\\', ch);
    case Backslash =>
      RunTwo(q, '\\', ch);
  }

  lemma QuotedStep(style: Style, st: State, body: string, init: string, ch: char)
    requires st.IsPlain() && CanWrite(style, [ch])
    requires Run(Inside(style, st), body) == Inside(style, st).(cur := st.cur + init)
    ensures Run(Inside(style, st), body + QuoteChar(style, ch)) == Inside(style, st).(cur := st.cur + (init + [ch]))
  {
    RunConcat(Inside(style, st), body, QuoteChar(style, ch));
    QuotedChar(style, st.(cur := st.cur + init), ch);
    assert st.cur + init + [ch] == st.cur + (init + [ch]);
  }

  lemma QuoteBodyPush(style: Style, init: string, ch: char)
    ensures QuoteBody(style, init + [ch]) == QuoteBody(style, init) + QuoteChar(style, ch)
  {
    assert (init + [ch])[..|init|] == init;
  }

  lemma CanWriteParts(style: Style, arg: string, n: nat)
    requires n < |arg| && CanWrite(style, arg)
    ensures CanWrite(style, arg[..n]) && CanWrite(style, [arg[n]])
  {
  }

  lemma {:induction false} QuotedBody(style: Style, st: State, arg: string)
    requires st.IsPlain() && CanWrite(style, arg)
    ensures Run(Inside(style, st), QuoteBody(style, arg)) == Inside(style, st).(cur := st.cur + arg)
  {
    if arg == "" {
      assert st.cur + arg == st.cur;
    } else {
      var init, ch := arg[..|arg| - 1], arg[|arg| - 1];
      assert init + [ch] == arg;
      CanWriteParts(style, arg, |arg| - 1);
      QuotedBody(style, st, init);
      QuotedStep(style, st, QuoteBody(style, init), init, ch);
      QuoteBodyPush(style, init, ch);
    }
  }

  lemma RunDelimiter(style: Style, st: State)
    requires st.IsPlain()
    ensures Run(st, Delimiter(style)) == Inside(style, st)
    ensures Run(Inside(style, st), Delimiter(style)) == st
  {
  }

  /** A quoted argument adds exactly its characters to the current one. */
  lemma QuotedArgument(style: Style, st: State, arg: string)
    requires st.IsPlain() && CanWrite(style, arg)
    ensures Run(st, Quote(style, arg)) == st.(cur := st.cur + arg)
  {
    var d, body := Delimiter(style), QuoteBody(style, arg);
    RunConcat(st, d, body);
    RunConcat(st, d + body, d);
    RunDelimiter(style, st);
    QuotedBody(style, st, arg);
    RunDelimiter(style, st.(cur := st.cur + arg));
  }

  datatype Quoted = Quoted(style: Style, arg: string)

  predicate AllWritable(words: seq<Quoted>) {
    forall i :: 0 <= i < |words| ==> CanWrite(words[i].style, words[i].arg)
  }

  /** The quoted arguments joined with single spaces. */
  function Join(words: seq<Quoted>): string {
    if words == [] then ""
    else if |words| == 1 then Quote(words[0].style, words[0].arg)
    else Join(words[..|words| - 1]) + " " + Quote(words[|words| - 1].style, words[|words| - 1].arg)
  }

  function NonEmptyArgs(words: seq<Quoted>): seq<string> {
    if words == [] then []
    else
      var arg := words[|words| - 1].arg;
      NonEmptyArgs(words[..|words| - 1]) + if arg == "" then [] else [arg]
  }

  /** Splitting undoes quoting: arguments written bare or quoted in any mix of styles and joined
      with spaces are split back into the same list, except that empty ones are lost. */
  lemma {:induction false} SplitInvertsQuoting(words: seq<Quoted>)
    requires AllWritable(words)
    ensures Args(Join(words)) == NonEmptyArgs(words)
    ensures Run(START, Join(words)).IsPlain()
  {
    if words == [] {
    } else {
      var init, w := words[..|words| - 1], words[|words| - 1];
      var text := Quote(w.style, w.arg);
      QuotedArgument(w.style, START, w.arg);
      assert START.cur + w.arg == w.arg;
      assert Args(text) == if w.arg == "" then [] else [w.arg];
      if |words| == 1 {
        assert init == [] && NonEmptyArgs(init) == [];
      } else {
        SplitInvertsQuoting(init);
        SplitConcat(Join(init), ' ', text);
        assert Join(words) == Join(init) + [' '] + text;
        RunConcat(START, Join(init), [' ']);
        RunOne(Run(START, Join(init)), ' ');
        RunConcat(START, Join(init) + [' '], text);
        QuotedArgument(w.style, Run(START, Join(init) + [' ']), w.arg);
      }
    }
  }

  lemma {:induction false} NonEmptyArgsLength(words: seq<Quoted>)
    ensures |NonEmptyArgs(words)| <= |words|
    ensures |NonEmptyArgs(words)| == |words| <==> forall i :: 0 <= i < |words| ==> words[i].arg != ""
    ensures |NonEmptyArgs(words)| == |words| ==> forall i :: 0 <= i < |words| ==> NonEmptyArgs(words)[i] == words[i].arg
  {
    if words == [] {
    } else {
      NonEmptyArgsLength(words[..|words| - 1]);
      assert forall i :: 0 <= i < |words| - 1 ==> words[i] == words[..|words| - 1][i];
    }
  }

  /** Hence quoting is inverted exactly for the lists without empty arguments. */
  lemma QuotingRoundTripIff(words: seq<Quoted>)
    requires AllWritable(words)
    ensures Args(Join(words)) == seq(|words|, i requires 0 <= i < |words| => words[i].arg)
            <==> forall i :: 0 <= i < |words| ==> words[i].arg != ""
  {
    SplitInvertsQuoting(words);
    NonEmptyArgsLength(words);
  }

  /** A quoted empty argument is such a list: it is lost. */
  lemma EmptyArgumentIsLost(style: Style)
    ensures Args(Join([Quoted(style, "")])) == []
  {
    var words := [Quoted(style, "")];
    SplitInvertsQuoting(words);
    assert words[..0] == [];
    assert NonEmptyArgs(words[..0]) == [];
  }

  /** Nothing in the text needs a backslash in the style. */
  predicate NeedsNoEscape(style: Style, w: string) {
    forall i :: 0 <= i < |w| ==> QuoteChar(style, w[i]) == [w[i]]
  }

  lemma {:induction false} PlainBody(style: Style, w: string)
    requires NeedsNoEscape(style, w)
    ensures QuoteBody(style, w) == w
  {
    if w == "" {
    } else {
      PlainBody(style, w[..|w| - 1]);
      assert w == w[..|w| - 1] + [w[|w| - 1]];
    }
  }

  lemma BareRun(w: string)
    requires forall i :: 0 <= i < |w| ==> IsOrdinary(w[i])
    ensures Run(START, w) == START.(cur := w)
  {
    PlainBody(Bare, w);
    assert Inside(Bare, START) == START && START.cur + w == w;
    QuotedBody(Bare, START, w);
  }

  /** A bare word is its own argument. */
  lemma BareWord(w: string)
    requires w != "" && forall i :: 0 <= i < |w| ==> IsOrdinary(w[i])
    ensures Args(w) == [w]
  {
    BareRun(w);
  }

  // ---------- the end of the text ----------

  lemma OpenBody(style: Style, w: string)
    requires NeedsNoEscape(style, w) && CanWrite(style, w)
    ensures Run(START, Delimiter(style) + w) == Inside(style, START).(cur := START.cur + w)
  {
    PlainBody(style, w);
    QuotedBody(style, START, w);
    RunDelimiter(style, START);
    RunConcat(START, Delimiter(style), w);
  }

  /** A quote that is never closed reaches to the end of the text. */
  lemma OpenQuote(w: string)
    requires w != ""
    ensures '\'' !in w ==> Args("'" + w) == [w]
    ensures '"' !in w && '\\' !in w ==> Args("\"" + w) == [w]
  {
    assert START.cur + w == w;
    if '\'' !in w {
      OpenBody(Single, w);
    }
    if '"' !in w && '\\' !in w {
      OpenBody(Double, w);
    }
  }

  /** A backslash at the end of the text is dropped. */
  lemma LastBackslash(w: string)
    requires w != "" && forall i :: 0 <= i < |w| ==> IsOrdinary(w[i])
    ensures Args(w + "\\") == [w]
  {
    BareRun(w);
    RunConcat(START, w, "\\");
    RunOne(Run(START, w), '\\');
    assert "\\" == ['\\'];
  }
}
