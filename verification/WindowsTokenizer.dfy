/**
 The Windows command-line tokenizer (abicheck/_compiler_options.py): a run of
 backslashes is special only before a double quote, where its parity decides
 whether the quote delimits or is literal.  The specification is an automaton
 that reads one character at a time and carries the number of backslashes it has
 not yet accounted for; the loop that skips whole runs is proved equal to it.
 */
module WindowsTokenizer {
  import opened Options

  predicate IsSpace(ch: char) {
    ch == ' ' || ch == '\t' || ch == '\r' || ch == '\n'
  }

  function Slashes(k: nat): (s: string)
    ensures |s| == k
  {
    seq(k, _ => '\\')
  }

  /** `pending` backslashes have been read but their meaning is still open. */
  datatype Scan = Scan(tokens: seq<string>, current: string, have: bool, quoted: bool, pending: nat) {

    function Flush(): Scan {
      this.(current := current + Slashes(pending), have := have || pending > 0, pending := 0)
    }

    function EndToken(): Scan {
      if have then this.(tokens := tokens + [current], current := "", have := false) else this
    }

    function Step(ch: char): Scan {
      if ch == '\\' then this.(pending := pending + 1)
      else if ch == '"' then
        var s := this.(current := current + Slashes(pending / 2), have := true, pending := 0);
        if pending % 2 == 1 then s.(current := s.current + "\"") else s.(quoted := !quoted)
      else if IsSpace(ch) && !quoted then Flush().EndToken()
      else Flush().(current := Flush().current + [ch], have := true)
    }
  }

  const START := Scan([], "", false, false, 0)

  function Run(s: Scan, text: string): Scan
    decreases |text|
  {
    if text == "" then s else Run(s.Step(text[0]), text[1..])
  }

  function Outcome(s: Scan, text: string): (seq<string>, bool) {
    var end := Run(s, text).Flush().EndToken();
    (end.tokens, end.quoted)
  }

  /** The tokens of a text, and whether it ends inside an unclosed quote. */
  function Tokenize(text: string): (seq<string>, bool) {
    Outcome(START, text)
  }

  // ----- the automaton -----

  lemma {:induction false} RunAppend(s: Scan, a: string, b: string)
    ensures Run(s, a + b) == Run(Run(s, a), b)
    decreases |a|
  {
    if a == "" {
      assert a + b == b;
    } else {
      assert (a + b)[1..] == a[1..] + b;
      RunAppend(s.Step(a[0]), a[1..], b);
    }
  }

  lemma {:induction false} RunSlashes(s: Scan, k: nat)
    ensures Run(s, Slashes(k)) == s.(pending := s.pending + k)
    decreases k
  {
    if k == 0 {
    } else {
      assert Slashes(k)[1..] == Slashes(k - 1);
      RunSlashes(s.Step('\\'), k - 1);
    }
  }

  /** A backslash run that no quote follows is literal. */
  lemma {:induction false} RunIsLiteral(s: Scan, rest: string)
    requires rest == "" || (rest[0] != '\\' && rest[0] != '"')
    ensures Outcome(s, rest) == Outcome(s.Flush(), rest)
  {
    assert s.Flush().Flush() == s.Flush() by { assert s.Flush().current + Slashes(0) == s.Flush().current; }
  }

  /** Before a quote two backslashes stand for one, and an odd one makes the quote itself literal. */
  lemma RunBeforeQuote(s: Scan, k: nat, rest: string)
    requires s.pending == 0
    ensures Outcome(s, Slashes(k) + "\"" + rest)
         == Outcome(s.(current := s.current + Slashes(k / 2) + (if k % 2 == 1 then "\"" else ""), have := true,
                       quoted := if k % 2 == 1 then s.quoted else !s.quoted), rest)
  {
    assert Slashes(k) + "\"" + rest == Slashes(k) + ("\"" + rest);
    RunAppend(s, Slashes(k), "\"" + rest);
    RunSlashes(s, k);
    assert s.current + Slashes(k / 2) + "" == s.current + Slashes(k / 2);
  }

  /** What has been emitted stays, and has no influence on what follows. */
  lemma {:induction false} TokensArePrefix(s: Scan, text: string)
    ensures Run(s, text) == var r := Run(s.(tokens := []), text); r.(tokens := s.tokens + r.tokens)
    decreases |text|
  {
    if text == "" {
      assert s.tokens + [] == s.tokens;
    } else {
      var ch := text[0];
      var bare := s.(tokens := []);
      TokensArePrefix(s.Step(ch), text[1..]);
      TokensArePrefix(bare.Step(ch), text[1..]);
      assert s.Step(ch).(tokens := []) == bare.Step(ch).(tokens := []);
      assert s.Step(ch).tokens == s.tokens + bare.Step(ch).tokens;
      var r := Run(s.Step(ch).(tokens := []), text[1..]);
      assert (s.tokens + bare.Step(ch).tokens) + r.tokens == s.tokens + (bare.Step(ch).tokens + r.tokens);
    }
  }

  lemma {:induction false} QuotedHasToken(s: Scan, text: string)
    requires s.quoted ==> s.have
    requires !s.have ==> s.current == ""
    ensures var r := Run(s, text); (r.quoted ==> r.have) && (!r.have ==> r.current == "")
    decreases |text|
  {
    if text == "" {
    } else {
      QuotedHasToken(s.Step(text[0]), text[1..]);
    }
  }

  /** A token begun is never lost or shortened: it only grows until it is emitted. */
  lemma {:induction false} CurrentGrows(s: Scan, text: string)
    requires s.have
    ensures var tokens := Outcome(s, text).0;
            |s.tokens| < |tokens| && tokens[..|s.tokens|] == s.tokens && s.current <= tokens[|s.tokens|]
    decreases |text|
  {
    if text == "" {
    } else {
      var next := s.Step(text[0]);
      if next.have {
        CurrentGrows(next, text[1..]);
        assert next.tokens == s.tokens && s.current <= next.current;
      } else {
        var end := Run(next, text[1..]).Flush().EndToken();
        TokensArePrefix(next, text[1..]);
        assert next.tokens == s.tokens + [s.Flush().current];
        assert next.tokens <= end.tokens;
        assert end.tokens[|s.tokens|] == next.tokens[|s.tokens|];
        assert end.tokens[..|s.tokens|] == next.tokens[..|s.tokens|];
      }
    }
  }

  // ----- composition -----

  /** Tokenizing distributes over a blank exactly when the first text closes its quotes. */
  lemma Composition(s: string, sp: char, t: string)
    requires sp in " \t\r\n"
    ensures Tokenize(s + [sp] + t).0 == Tokenize(s).0 + Tokenize(t).0 <==> !Tokenize(s).1
    ensures !Tokenize(s).1 ==> Tokenize(s + [sp] + t).1 == Tokenize(t).1
  {
    var mid := Run(START, s);
    RunAppend(START, s + [sp], t);
    RunAppend(START, s, [sp]);
    assert Run(mid, [sp]) == mid.Step(sp);
    QuotedHasToken(START, s);
    if mid.quoted {
      CurrentGrows(mid.Step(sp), t);
      var n := |mid.tokens|;
      assert Tokenize(s).0 == mid.tokens + [mid.Flush().current];
      assert (Tokenize(s).0 + Tokenize(t).0)[n] == mid.Flush().current;
      assert mid.Step(sp).current == mid.Flush().current + [sp];
    } else {
      var after := mid.Flush().EndToken();
      assert mid.Step(sp) == after;
      TokensArePrefix(after, t);
      assert after.(tokens := []) == START;
      var r := Run(START, t).Flush().EndToken();
      assert Tokenize(s).0 == after.tokens;
      assert (after.tokens + Run(START, t).tokens) + [Run(START, t).Flush().current]
          == after.tokens + (Run(START, t).tokens + [Run(START, t).Flush().current]);
    }
  }

  // ----- the quoter, by the same rule -----

  /** `run` backslashes precede `arg`; `closing` says that a delimiting quote follows it. */
  function Escape(arg: string, run: nat, closing: bool): string
    decreases |arg|
  {
    if arg == "" then Slashes(if closing then 2 * run else run)
    else if arg[0] == '\\' then Escape(arg[1..], run + 1, closing)
    else if arg[0] == '"' then Slashes(2 * run + 1) + "\"" + Escape(arg[1..], 0, closing)
    else Slashes(run) + [arg[0]] + Escape(arg[1..], 0, closing)
  }

  /** An argument is written in segments, each bare or between quotes, with nothing between them. */
  datatype Segment = Bare(text: string) | Quoted(text: string)

  /** Only a quoted segment holds blanks; two bare ones in a row are one. */
  predicate Shaped(segments: seq<Segment>) {
    && (forall i, j :: 0 <= i < |segments| && segments[i].Bare? && 0 <= j < |segments[i].text| ==>
          segments[i].text[j] !in " \t\r\n")
    && (forall i :: 0 < i < |segments| ==> segments[i - 1].Quoted? || segments[i].Quoted?)
  }

  /** The text the segments hold. */
  function Meant(segments: seq<Segment>): string {
    if segments == [] then "" else segments[0].text + Meant(segments[1..])
  }

  /** A quote delimits behind a quoted segment, and behind a bare one when a quoted one follows. */
  function Written(segments: seq<Segment>): string {
    if segments == [] then ""
    else if segments[0].Quoted? then "\"" + Escape(segments[0].text, 0, true) + "\"" + Written(segments[1..])
    else Escape(segments[0].text, 0, |segments| > 1) + Written(segments[1..])
  }

  /** Something is there for a token to begin with, if only a pair of quotes. */
  predicate Begins(segments: seq<Segment>) {
    exists i :: 0 <= i < |segments| && (segments[i].Quoted? || segments[i].text != "")
  }

  /** The spellings of an argument: in any segments that hold it. */
  ghost predicate Spells(form: string, arg: string) {
    exists segments :: SpelledIn(form, arg, segments)
  }

  predicate SpelledIn(form: string, arg: string, segments: seq<Segment>) {
    Shaped(segments) && Begins(segments) && Meant(segments) == arg && Written(segments) == form
  }

  /** A segment up to the quote that ends it or, for a bare one, that opens the next. */
  lemma {:induction false} ReadsToQuote(s: Scan, arg: string, run: nat)
    requires s.pending == 0
    requires s.quoted || forall i :: 0 <= i < |arg| ==> arg[i] !in " \t\r\n"
    ensures Run(s, Escape(arg, run, true) + "\"") ==
            s.(current := s.current + Slashes(run) + arg, have := true, quoted := !s.quoted)
    decreases |arg|
  {
    if arg == "" {
      RunAppend(s, Slashes(2 * run), "\"");
      RunSlashes(s, 2 * run);
      assert s.current + Slashes(run) + arg == s.current + Slashes(run);
    } else if arg[0] == '\\' {
      ReadsToQuote(s, arg[1..], run + 1);
      assert s.current + Slashes(run + 1) + arg[1..] == s.current + Slashes(run) + arg;
    } else {
      var lead := ReadsLead(s, arg, run, true);
      var next := s.(current := s.current + Slashes(run) + [arg[0]], have := true);
      var rest := Escape(arg[1..], 0, true) + "\"";
      assert Escape(arg, run, true) + "\"" == lead + rest;
      RunAppend(s, lead, rest);
      ReadsToQuote(next, arg[1..], 0);
      assert next.current + Slashes(0) + arg[1..] == s.current + Slashes(run) + arg;
    }
  }

  lemma {:induction false} ReadsBare(s: Scan, arg: string, run: nat)
    requires !s.quoted && s.pending == 0
    requires forall i :: 0 <= i < |arg| ==> arg[i] !in " \t\r\n"
    ensures Run(s, Escape(arg, run, false)).Flush() ==
            s.(current := s.current + Slashes(run) + arg, have := s.have || run > 0 || arg != "")
    decreases |arg|
  {
    if arg == "" {
      RunSlashes(s, run);
      assert s.current + Slashes(run) + arg == s.current + Slashes(run);
    } else if arg[0] == '\\' {
      ReadsBare(s, arg[1..], run + 1);
      assert s.current + Slashes(run + 1) + arg[1..] == s.current + Slashes(run) + arg;
    } else {
      var lead := ReadsLead(s, arg, run, false);
      var next := s.(current := s.current + Slashes(run) + [arg[0]], have := true);
      var rest := Escape(arg[1..], 0, false);
      assert Escape(arg, run, false) == lead + rest;
      RunAppend(s, lead, rest);
      ReadsBare(next, arg[1..], 0);
      assert next.current + Slashes(0) + arg[1..] == s.current + Slashes(run) + arg;
    }
  }

  /** A backslash run and the character after it, escaped, read back as themselves. */
  lemma ReadsLead(s: Scan, arg: string, run: nat, closing: bool) returns (lead: string)
    requires s.pending == 0 && arg != "" && arg[0] != '\\'
    requires s.quoted || arg[0] !in " \t\r\n"
    ensures Escape(arg, run, closing) == lead + Escape(arg[1..], 0, closing)
    ensures Run(s, lead) == s.(current := s.current + Slashes(run) + [arg[0]], have := true)
  {
    var k := if arg[0] == '"' then 2 * run + 1 else run;
    lead := Slashes(k) + [arg[0]];
    RunAppend(s, Slashes(k), [arg[0]]);
    RunSlashes(s, k);
    assert Run(s.(pending := k), [arg[0]]) == s.(pending := k).Step(arg[0]);
  }

  /** Read outside quotes, segments add what they hold to the current token. */
  lemma {:induction false} ReadsSegments(s: Scan, segments: seq<Segment>)
    requires !s.quoted && s.pending == 0 && Shaped(segments)
    ensures Run(s, Written(segments)).Flush() ==
            s.(current := s.current + Meant(segments), have := s.have || Begins(segments))
    decreases |segments|, 0
  {
    if segments == [] {
      assert s.current + Slashes(0) == s.current == s.current + "";
    } else if segments[0].Quoted? {
      ReadsPair(s, segments[0].text, segments[1..]);
    } else if |segments| == 1 {
      ReadsBare(s, segments[0].text, 0);
      OneBare(segments[0].text);
      assert segments == [Bare(segments[0].text)];
      assert s.current + Slashes(0) == s.current;
    } else {
      assert segments[1].Quoted?;
      ReadsBareThenPair(s, segments[0].text, segments[1].text, segments[2..]);
      assert segments[1..][1..] == segments[2..];
    }
  }

  /** The rest of a quoted segment whose quote is read, and what follows it. */
  lemma {:induction false} ReadsInside(s: Scan, text: string, rest: seq<Segment>)
    requires s.quoted && s.have && s.pending == 0 && Shaped(rest)
    ensures Run(s, Escape(text, 0, true) + "\"" + Written(rest)).Flush() ==
            s.(current := s.current + (text + Meant(rest)), quoted := false)
    decreases |rest|, 1
  {
    ReadsToQuote(s, text, 0);
    RunAppend(s, Escape(text, 0, true) + "\"", Written(rest));
    var next := s.(current := s.current + text, quoted := false);
    assert s.current + Slashes(0) + text == next.current;
    ReadsSegments(next, rest);
    assert next.current + Meant(rest) == s.current + (text + Meant(rest));
  }

  /** A quoted segment and what follows it. */
  lemma {:induction false} ReadsPair(s: Scan, text: string, rest: seq<Segment>)
    requires !s.quoted && s.pending == 0 && Shaped(rest)
    ensures Run(s, "\"" + Escape(text, 0, true) + "\"" + Written(rest)).Flush() ==
            s.(current := s.current + (text + Meant(rest)), have := true)
    decreases |rest|, 2
  {
    var body := Escape(text, 0, true) + "\"" + Written(rest);
    assert s.current + Slashes(0) == s.current;
    assert "\"" + Escape(text, 0, true) + "\"" + Written(rest) == "\"" + body;
    assert s.Step('"') == s.(have := true, quoted := true);
    ReadsInside(s.Step('"'), text, rest);
  }

  /** A bare segment, the quoted one after it, and what follows. */
  lemma {:induction false} ReadsBareThenPair(s: Scan, bare: string, text: string, rest: seq<Segment>)
    requires !s.quoted && s.pending == 0 && Shaped(rest)
    requires forall i :: 0 <= i < |bare| ==> bare[i] !in " \t\r\n"
    ensures Run(s, Escape(bare, 0, true) + ("\"" + Escape(text, 0, true) + "\"" + Written(rest))).Flush() ==
            s.(current := s.current + (bare + (text + Meant(rest))), have := true)
    decreases |rest|, 2
  {
    var first, body := Escape(bare, 0, true) + "\"", Escape(text, 0, true) + "\"" + Written(rest);
    assert first + body == Escape(bare, 0, true) + ("\"" + Escape(text, 0, true) + "\"" + Written(rest));
    ReadsToQuote(s, bare, 0);
    RunAppend(s, first, body);
    var open := s.(current := s.current + bare, have := true, quoted := true);
    assert s.current + Slashes(0) + bare == open.current;
    ReadsInside(open, text, rest);
    assert open.current + (text + Meant(rest)) == s.current + (bare + (text + Meant(rest)));
  }

  lemma EndsAsOne(form: string, arg: string)
    requires Run(START, form).Flush() == Scan([], arg, true, false, 0)
    ensures Tokenize(form) == ([arg], false)
  {
    assert [] + [arg] == [arg];
  }

  /** An argument spelled in any segments is one token, with what they hold. */
  lemma ReadsOne(form: string, arg: string)
    requires Spells(form, arg)
    ensures Tokenize(form) == ([arg], false)
  {
    var segments :| SpelledIn(form, arg, segments);
    ReadsSegments(START, segments);
    assert "" + arg == arg;
    EndsAsOne(form, arg);
  }

  lemma {:induction false} PlainIsBare(text: string, closing: bool)
    requires forall i :: 0 <= i < |text| ==> text[i] != '"' && text[i] != '\\'
    ensures Escape(text, 0, closing) == text
  {
    assert Slashes(0) == "";
    if text == "" {
    } else {
      PlainIsBare(text[1..], closing);
    }
  }

  predicate Plain(text: string) {
    forall i :: 0 <= i < |text| ==> text[i] != '"' && text[i] != '\\'
  }

  /** A quote may open and close anywhere within an argument. */
  lemma QuotesInside(a: string, text: string, b: string)
    requires Plain(a) && Plain(text) && Plain(b)
    requires forall i :: 0 <= i < |a| ==> a[i] !in " \t\r\n"
    requires forall i :: 0 <= i < |b| ==> b[i] !in " \t\r\n"
    ensures Tokenize(a + "\"" + text + "\"" + b) == ([a + text + b], false)
  {
    PlainIsBare(a, true);
    PlainIsBare(text, true);
    PlainIsBare(b, false);
    assert a + ("\"" + text + "\"" + b) == a + "\"" + text + "\"" + b;
    ReadsThree(a, text, b);
    EndsAsOne(a + "\"" + text + "\"" + b, a + text + b);
  }

  lemma ReadsThree(a: string, text: string, b: string)
    requires forall i :: 0 <= i < |a| ==> a[i] !in " \t\r\n"
    requires forall i :: 0 <= i < |b| ==> b[i] !in " \t\r\n"
    ensures Run(START, Escape(a, 0, true) + ("\"" + Escape(text, 0, true) + "\"" + Escape(b, 0, false))).Flush()
         == Scan([], a + text + b, true, false, 0)
  {
    OneBare(b);
    ReadsBareThenPair(START, a, text, [Bare(b)]);
    Concatenated(a, text, b);
  }

  lemma Concatenated(a: string, b: string, c: string)
    ensures "" + (a + (b + c)) == a + b + c
  {
  }

  lemma OneBare(b: string)
    ensures Written([Bare(b)]) == Escape(b, 0, false) && Meant([Bare(b)]) == b
  {
    assert Escape(b, 0, false) + "" == Escape(b, 0, false);
    assert b + "" == b;
  }

  function Join(forms: seq<string>): string {
    if forms == [] then ""
    else if |forms| == 1 then forms[0]
    else forms[0] + " " + Join(forms[1..])
  }

  function TokensOfEach(forms: seq<string>): seq<string> {
    if forms == [] then [] else Tokenize(forms[0]).0 + TokensOfEach(forms[1..])
  }

  lemma {:induction false} JoinTokenizesEach(forms: seq<string>)
    requires forall i :: 0 <= i < |forms| ==> !Tokenize(forms[i]).1
    ensures Tokenize(Join(forms)) == (TokensOfEach(forms), false)
    decreases |forms|
  {
    if |forms| == 1 {
      assert Tokenize(forms[0]).0 + [] == Tokenize(forms[0]).0;
    } else if |forms| > 1 {
      JoinTokenizesEach(forms[1..]);
      Composition(forms[0], ' ', Join(forms[1..]));
    }
  }

  /** Any argument list, spelled by the rule and joined by blanks, reads back as itself. */
  lemma {:induction false} RoundTrip(args: seq<string>, forms: seq<string>)
    requires |forms| == |args|
    requires forall i :: 0 <= i < |args| ==> Spells(forms[i], args[i])
    ensures Tokenize(Join(forms)) == (args, false)
  {
    forall i | 0 <= i < |args| ensures Tokenize(forms[i]) == ([args[i]], false) {
      ReadsOne(forms[i], args[i]);
    }
    JoinTokenizesEach(forms);
    EachIsOneToken(args, forms);
  }

  lemma {:induction false} EachIsOneToken(args: seq<string>, forms: seq<string>)
    requires |forms| == |args|
    requires forall i :: 0 <= i < |args| ==> Tokenize(forms[i]).0 == [args[i]]
    ensures TokensOfEach(forms) == args
  {
    if args == [] {
    } else {
      EachIsOneToken(args[1..], forms[1..]);
      assert args == [args[0]] + args[1..];
    }
  }

  // ----- Python's own quoter -----

  predicate HasBlank(arg: string) {
    exists i :: 0 <= i < |arg| && (arg[i] == ' ' || arg[i] == '\t')
  }

  function Newlines(arg: string): nat {
    if arg == "" then 0
    else (if arg[0] == '\r' || arg[0] == '\n' then 1 else 0) + Newlines(arg[1..])
  }

  /** subprocess.list2cmdline, one argument: only a blank or emptiness earns quotes. */
  function List2CmdLineForm(arg: string): string {
    if HasBlank(arg) || arg == "" then "\"" + Escape(arg, 0, true) + "\""
    else Escape(arg, 0, false)
  }

  function List2CmdLine(args: seq<string>): string {
    Join(seq(|args|, i requires 0 <= i < |args| => List2CmdLineForm(args[i])))
  }

  /** list2cmdline quotes an argument for blanks, the tokenizer also splits at line ends. */
  predicate Survives(arg: string) {
    HasBlank(arg) || Newlines(arg) == 0
  }

  function NewlinesIn(tokens: seq<string>): nat {
    if tokens == [] then 0 else Newlines(tokens[0]) + NewlinesIn(tokens[1..])
  }

  lemma {:induction false} NewlinesAppend(a: string, b: string)
    ensures Newlines(a + b) == Newlines(a) + Newlines(b)
  {
    if a == "" {
      assert a + b == b;
    } else {
      assert (a + b)[1..] == a[1..] + b;
      NewlinesAppend(a[1..], b);
    }
  }

  lemma {:induction false} NewlinesInAppend(a: seq<string>, b: seq<string>)
    ensures NewlinesIn(a + b) == NewlinesIn(a) + NewlinesIn(b)
  {
    if a == [] {
      assert a + b == b;
    } else {
      assert (a + b)[1..] == a[1..] + b;
      NewlinesInAppend(a[1..], b);
    }
  }

  lemma {:induction false} NewlinesOfSlashes(k: nat)
    ensures Newlines(Slashes(k)) == 0
  {
    if k == 0 {
    } else {
      assert Slashes(k)[1..] == Slashes(k - 1);
      NewlinesOfSlashes(k - 1);
    }
  }

  lemma {:induction false} NoNewlineAt(arg: string, i: nat)
    requires Newlines(arg) == 0 && i < |arg|
    ensures arg[i] != '\r' && arg[i] != '\n'
  {
    if i == 0 {
    } else {
      NoNewlineAt(arg[1..], i - 1);
    }
  }

  /** Outside quotes a line end never reaches a token. */
  predicate NoNewlines(s: Scan) {
    !s.quoted && NewlinesIn(s.tokens) == 0 && Newlines(s.current) == 0
  }

  lemma FlushAddsNoNewline(s: Scan)
    requires NoNewlines(s)
    ensures NoNewlines(s.Flush()) && NoNewlines(s.Flush().EndToken())
  {
    NewlinesOfSlashes(s.pending);
    NewlinesAppend(s.current, Slashes(s.pending));
    NewlinesInAppend(s.tokens, [s.Flush().current]);
  }

  lemma StepDropsNewline(s: Scan, ch: char)
    requires NoNewlines(s) && ch != '\\' && (ch == '"' ==> s.pending % 2 == 1)
    ensures NoNewlines(s.Step(ch)) && s.Step(ch).pending == 0
  {
    if ch == '"' {
      var half := s.(pending := s.pending / 2);
      FlushAddsNoNewline(half);
      NewlinesAppend(half.Flush().current, "\"");
    } else {
      FlushAddsNoNewline(s);
      NewlinesAppend(s.Flush().current, [ch]);
    }
  }

  lemma {:induction false} BareDropsNewlines(s: Scan, arg: string, run: nat)
    requires NoNewlines(s) && s.pending == 0
    ensures NoNewlines(Run(s, Escape(arg, run, false)))
    decreases |arg|
  {
    if arg == "" {
      RunSlashes(s, run);
    } else if arg[0] == '\\' {
      BareDropsNewlines(s, arg[1..], run + 1);
    } else {
      var ch := arg[0];
      var k := if ch == '"' then 2 * run + 1 else run;
      var lead, rest := Slashes(k) + [ch], Escape(arg[1..], 0, false);
      assert Escape(arg, run, false) == lead + rest;
      RunAppend(s, lead, rest);
      RunAppend(s, Slashes(k), [ch]);
      RunSlashes(s, k);
      var mid := s.(pending := k);
      assert Run(mid, [ch]) == mid.Step(ch);
      StepDropsNewline(mid, ch);
      BareDropsNewlines(mid.Step(ch), arg[1..], 0);
    }
  }

  /** What survives is spelled in one segment. */
  lemma List2CmdLineSpells(arg: string)
    requires Survives(arg)
    ensures Spells(List2CmdLineForm(arg), arg)
  {
    var quoted := HasBlank(arg) || arg == "";
    if !quoted {
      forall i | 0 <= i < |arg| ensures arg[i] !in " \t\r\n" {
        NoNewlineAt(arg, i);
      }
    }
    var segments := [if quoted then Quoted(arg) else Bare(arg)];
    assert segments[0].Quoted? || segments[0].text != "";
    assert Written(segments) == List2CmdLineForm(arg) + "";
    assert Meant(segments) == arg + "";
    assert SpelledIn(List2CmdLineForm(arg), arg, segments);
  }

  /** One argument's form ends outside quotes and never gains line ends. */
  lemma List2CmdLineForms(arg: string)
    ensures var (tokens, open) := Tokenize(List2CmdLineForm(arg));
            && !open
            && (Survives(arg) ==> tokens == [arg])
            && NewlinesIn(tokens) <= Newlines(arg)
            && (!Survives(arg) ==> NewlinesIn(tokens) < Newlines(arg))
  {
    if Survives(arg) {
      List2CmdLineSpells(arg);
      ReadsOne(List2CmdLineForm(arg), arg);
      assert NewlinesIn([arg]) == Newlines(arg) + NewlinesIn([]);
    } else {
      BareDropsNewlines(START, arg, 0);
      FlushAddsNoNewline(Run(START, Escape(arg, 0, false)));
    }
  }

  lemma {:induction false} LinesAreLost(args: seq<string>, forms: seq<string>)
    requires |forms| == |args|
    requires forall i :: 0 <= i < |args| ==> forms[i] == List2CmdLineForm(args[i])
    ensures NewlinesIn(TokensOfEach(forms)) <= NewlinesIn(args)
    ensures (exists i :: 0 <= i < |args| && !Survives(args[i])) ==>
              NewlinesIn(TokensOfEach(forms)) < NewlinesIn(args)
    decreases |args|
  {
    if args == [] {
    } else {
      List2CmdLineForms(args[0]);
      LinesAreLost(args[1..], forms[1..]);
      NewlinesInAppend(Tokenize(forms[0]).0, TokensOfEach(forms[1..]));
      if i :| 0 <= i < |args| && !Survives(args[i]) {
        assert i > 0 ==> !Survives(args[1..][i - 1]);
      }
    }
  }

  /**
   The round trip through list2cmdline holds exactly when every argument without a
   space or tab is free of line ends: those the quoter leaves bare.
   */
  lemma List2CmdLineRoundTrip(args: seq<string>)
    ensures Tokenize(List2CmdLine(args)) == (args, false) <==>
            forall i :: 0 <= i < |args| ==> Survives(args[i])
  {
    var forms := seq(|args|, i requires 0 <= i < |args| => List2CmdLineForm(args[i]));
    forall i | 0 <= i < |args|
      ensures !Tokenize(forms[i]).1 && (Survives(args[i]) ==> Tokenize(forms[i]).0 == [args[i]])
    {
      List2CmdLineForms(args[i]);
    }
    JoinTokenizesEach(forms);
    if forall i :: 0 <= i < |args| ==> Survives(args[i]) {
      EachIsOneToken(args, forms);
    } else {
      LinesAreLost(args, forms);
    }
  }

  lemma LineEndSplitsTokens()
    ensures Tokenize("a\nb") == (["a", "b"], false)
  {
    var a, b, c := Scan([], "a", true, false, 0), Scan(["a"], "", false, false, 0), Scan(["a"], "b", true, false, 0);
    assert forall s: string :: s + Slashes(0) == s;
    assert START.Step('a') == a && a.Flush() == a && b.Flush() == b && c.Flush() == c;
    assert a.Step('\n') == b && b.Step('b') == c;
    assert Run(START, "a\nb") == Run(a, "\nb") == Run(b, "b") == Run(c, "") == c;
    assert c.Flush().EndToken() == Scan(["a"] + ["b"], "", false, false, 0);
    assert ["a"] + ["b"] == ["a", "b"];
  }

  /** An argument whose only blank is a line end is left bare, and read as two. */
  lemma LineEndSplitsArgument()
    ensures Tokenize(List2CmdLine(["a\nb"])) == (["a", "b"], false)
  {
    assert Slashes(0) == "";
    assert List2CmdLineForm("a\nb") == "a\nb";
    assert List2CmdLine(["a\nb"]) == "a\nb";
    LineEndSplitsTokens();
  }

  // ----- the loop -----

  lemma OneStep(s: Scan, text: string, i: nat)
    requires i < |text|
    ensures Outcome(s, text[i..]) == Outcome(s.Step(text[i]), text[i + 1..])
  {
  }

  lemma SkipRun(s: Scan, text: string, i: nat, j: nat)
    requires s.pending == 0 && i <= j <= |text|
    requires forall k :: i <= k < j ==> text[k] == '\\'
    ensures Outcome(s, text[i..]) == Outcome(s.(pending := j - i), text[j..])
  {
    assert text[i..] == Slashes(j - i) + text[j..];
    RunAppend(s, Slashes(j - i), text[j..]);
    RunSlashes(s, j - i);
  }

  method TokenizeWindows(text: string) returns (tokens: seq<string>, unterminated: bool)
    ensures (tokens, unterminated) == Tokenize(text)
  {
    tokens := [];
    var current, haveCurrent, inQuotes := "", false, false;
    var i, n := 0, |text|;
    assert text[0..] == text;
    while i < n
      invariant 0 <= i <= n
      invariant Outcome(Scan(tokens, current, haveCurrent, inQuotes, 0), text[i..]) == Tokenize(text)
    {
      var ch := text[i];
      ghost var before := Scan(tokens, current, haveCurrent, inQuotes, 0);
      assert Slashes(0) == "" && current + "" == current;
      if ch == '\\' {
        var j := i;
        while j < n && text[j] == '\\'
          invariant i <= j <= n
          invariant forall k :: i <= k < j ==> text[k] == '\\'
        {
          j := j + 1;
        }
        var run := j - i;
        SkipRun(before, text, i, j);
        if j < n && text[j] == '"' {
          OneStep(before.(pending := run), text, j);
          haveCurrent := true;
          current := current + Slashes(run / 2);
          if run % 2 == 1 {
            current := current + "\"";
          } else {
            inQuotes := !inQuotes;
          }
          i := j + 1;
        } else {
          RunIsLiteral(before.(pending := run), text[j..]);
          current := current + Slashes(run);
          haveCurrent := true;
          i := j;
        }
        continue;
      }
      OneStep(before, text, i);
      if ch == '"' {
        inQuotes := !inQuotes;
        haveCurrent := true;
        i := i + 1;
        continue;
      }
      if IsSpace(ch) && !inQuotes {
        if haveCurrent {
          tokens := tokens + [current];
          current := "";
          haveCurrent := false;
        }
        i := i + 1;
        continue;
      }
      current := current + [ch];
      haveCurrent := true;
      i := i + 1;
    }
    assert current + Slashes(0) == current;
    if haveCurrent {
      tokens := tokens + [current];
    }
    return tokens, inQuotes;
  }

  /** None is the ValueError of the strict form. */
  method SplitGccOptionsWindows(text: string, strict: bool) returns (tokens: Option<seq<string>>)
    ensures tokens.None? <==> strict && Tokenize(text).1
    ensures tokens.Some? ==> tokens.value == Tokenize(text).0
  {
    var found, unterminated := TokenizeWindows(text);
    if unterminated && strict {
      return None;
    }
    return Some(found);
  }
}
