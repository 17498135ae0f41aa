/** Line endings, generated comment headers and the aggregate policy text. */
module Sources {
  import opened Text

  // ---- Line endings ----

  datatype Token = Plain(c: char) | Break

  /** One pass over the text: CRLF, CR and LF are each one line break. */
  function Tokens(s: string): seq<Token> {
    if s == "" then []
    else if |s| >= 2 && s[0] == '\r' && s[1] == '\n' then [Break] + Tokens(s[2..])
    else if s[0] == '\r' || s[0] == '\n' then [Break] + Tokens(s[1..])
    else [Plain(s[0])] + Tokens(s[1..])
  }

  function Render(tokens: seq<Token>): (r: string)
    ensures |r| == |tokens|
    ensures forall i :: 0 <= i < |r| ==> r[i] == if tokens[i].Break? then '\n' else tokens[i].c
  {
    seq(|tokens|, i requires 0 <= i < |tokens| => if tokens[i].Break? then '\n' else tokens[i].c)
  }

  function TrimBreaks(tokens: seq<Token>): (r: seq<Token>)
    ensures r <= tokens
    ensures r != [] ==> r[|r| - 1] != Break
    ensures forall i :: |r| <= i < |tokens| ==> tokens[i] == Break
  {
    if tokens != [] && tokens[|tokens| - 1] == Break then TrimBreaks(tokens[..|tokens| - 1]) else tokens
  }

  predicate PlainTokens(tokens: seq<Token>) {
    forall t :: t in tokens && t.Plain? ==> t.c != '\r' && t.c != '\n'
  }

  /** What normalization means: the text's lines, each ended by LF, blank tail removed. */
  function Normalized(source: string): string {
    Render(TrimBreaks(Tokens(source))) + "\n"
  }

  function ReplaceCrLf(s: string): string {
    if |s| < 2 then s
    else if s[0] == '\r' && s[1] == '\n' then "\n" + ReplaceCrLf(s[2..])
    else [s[0]] + ReplaceCrLf(s[1..])
  }

  function ReplaceCr(s: string): (r: string)
    ensures |r| == |s|
    ensures forall i :: 0 <= i < |s| ==> r[i] == if s[i] == '\r' then '\n' else s[i]
  {
    seq(|s|, i requires 0 <= i < |s| => if s[i] == '\r' then '\n' else s[i])
  }

  /** In a text without carriage returns every character is its own token. */
  lemma {:induction false} TokensOfLines(s: string)
    requires '\r' !in s
    ensures |Tokens(s)| == |s|
    ensures forall i :: 0 <= i < |s| ==> Tokens(s)[i] == if s[i] == '\n' then Break else Plain(s[i])
  {
    if s != "" {
      assert s == [s[0]] + s[1..];
      TokensOfLines(s[1..]);
    }
  }

  function TokenOf(c: char): Token { if c == '\r' || c == '\n' then Break else Plain(c) }

  /** The number of characters the first token takes. */
  function FirstWidth(s: string): (k: nat)
    requires s != ""
    ensures 1 <= k <= |s|
  {
    if |s| >= 2 && s[0] == '\r' && s[1] == '\n' then 2 else 1
  }

  lemma {:induction false} FirstToken(s: string)
    requires s != ""
    ensures Tokens(s) == [TokenOf(s[0])] + Tokens(s[FirstWidth(s)..])
  {
  }

  /** The first token of `a` is that of `a + b`, and what follows it is split alike. */
  lemma {:induction false} SplitBehindFirst(a: string, b: string, rest: string)
    requires a != "" && FirstWidth(a + b) == FirstWidth(a) && rest == a[FirstWidth(a)..]
    requires Tokens(rest + b) == Tokens(rest) + Tokens(b)
    ensures Tokens(a + b) == Tokens(a) + Tokens(b)
  {
    var whole, k := a + b, FirstWidth(a);
    assert whole[k..] == rest + b && whole[0] == a[0];
    FirstToken(a);
    FirstToken(whole);
    SeqAssoc([TokenOf(a[0])], Tokens(rest), Tokens(b));
  }

  /** A text can be read in two parts unless the cut splits a CRLF. */
  lemma {:induction false} TokensSplit(a: string, b: string)
    requires a != "" && b != "" ==> !(a[|a| - 1] == '\r' && b[0] == '\n')
    ensures Tokens(a + b) == Tokens(a) + Tokens(b)
    decreases |a|
  {
    if a == "" {
      assert a + b == b;
    } else {
      var rest := a[FirstWidth(a)..];
      assert rest != "" ==> rest[|rest| - 1] == a[|a| - 1];
      TokensSplit(rest, b);
      SplitBehindFirst(a, b, rest);
    }
  }

  /** CRLF is one break, wherever it stands; so are a CR that no LF follows and an LF that no CR
      precedes. */
  lemma {:induction false} TokensAroundBreak(a: string, b: string)
    ensures Tokens(a + ("\r\n" + b)) == Tokens(a) + ([Break] + Tokens(b))
    ensures b == "" || b[0] != '\n' ==> Tokens(a + ("\r" + b)) == Tokens(a) + ([Break] + Tokens(b))
    ensures a == "" || a[|a| - 1] != '\r' ==> Tokens(a + ("\n" + b)) == Tokens(a) + ([Break] + Tokens(b))
  {
    TokensSplit(a, "\r\n" + b);
    TokensSplit(a, "\r" + b);
    assert ("\r\n" + b)[2..] == b && ("\r" + b)[1..] == b && ("\n" + b)[1..] == b;
    if a == "" || a[|a| - 1] != '\r' { TokensSplit(a, "\n" + b); }
  }

  lemma {:induction false} TokensArePlain(s: string)
    ensures PlainTokens(Tokens(s))
  {
    if s != "" {
      TokensArePlain(s[1..]);
      if |s| >= 2 { TokensArePlain(s[2..]); }
    }
  }

  /** Replacing CRLF and then CR is the one-pass scan. */
  lemma {:induction false} TwoPassesAreOneScan(s: string)
    ensures ReplaceCr(ReplaceCrLf(s)) == Render(Tokens(s))
  {
    if |s| >= 2 && s[0] == '\r' && s[1] == '\n' {
      TwoPassesAreOneScan(s[2..]);
      FirstCharacter('\n', ReplaceCrLf(s[2..]), Tokens(s[2..]));
    } else if s != "" {
      TwoPassesAreOneScan(s[1..]);
      if |s| == 1 { assert s[1..] == ""; }
      FirstCharacter(s[0], ReplaceCrLf(s[1..]), Tokens(s[1..]));
    }
  }

  /** The second pass on a first character is the scan's token for it. */
  lemma FirstCharacter(c: char, rest: string, tokens: seq<Token>)
    requires ReplaceCr(rest) == Render(tokens)
    ensures ReplaceCr([c] + rest) == Render([TokenOf(c)] + tokens)
  {
    var head := TokenOf(c);
    assert ReplaceCr([c] + rest) == ReplaceCr([c]) + ReplaceCr(rest);
    assert Render([head] + tokens) == Render([head]) + Render(tokens);
  }

  method NormalizeText(source: string) returns (normalized: string)
    ensures normalized == Normalized(source)
  {
    normalized := ReplaceCr(ReplaceCrLf(source));
    TwoPassesAreOneScan(source);
    TokensArePlain(source);
    ghost var tokens := Tokens(source);
    while normalized != "" && normalized[|normalized| - 1] == '\n'
      invariant normalized == Render(tokens) && PlainTokens(tokens)
      invariant TrimBreaks(tokens) == TrimBreaks(Tokens(source))
      decreases |normalized|
    {
      DropBreak(tokens);
      normalized := normalized[..|normalized| - 1];
      tokens := tokens[..|tokens| - 1];
    }
    assert TrimBreaks(tokens) == tokens;
    normalized := normalized + "\n";
  }

  lemma {:induction false} DropBreak(tokens: seq<Token>)
    requires PlainTokens(tokens) && tokens != [] && Render(tokens)[|tokens| - 1] == '\n'
    ensures PlainTokens(tokens[..|tokens| - 1]) && TrimBreaks(tokens) == TrimBreaks(tokens[..|tokens| - 1])
    ensures Render(tokens[..|tokens| - 1]) == Render(tokens)[..|tokens| - 1]
  {
    assert tokens[|tokens| - 1] in tokens;
  }

  lemma {:induction false} TokensOfRender(tokens: seq<Token>)
    requires PlainTokens(tokens)
    ensures Tokens(Render(tokens)) == tokens
  {
    if tokens != [] {
      var s := Render(tokens);
      assert tokens[0] in tokens;
      assert s[1..] == Render(tokens[1..]);
      TokensOfRender(tokens[1..]);
    }
  }

  lemma {:induction false} NormalizedTokens(source: string)
    ensures var trimmed := TrimBreaks(Tokens(source));
            PlainTokens(trimmed) && Tokens(Normalized(source)) == trimmed + [Break]
  {
    TokensArePlain(source);
    var trimmed := TrimBreaks(Tokens(source));
    assert forall t :: t in trimmed ==> t in Tokens(source);
    TokensOfRender(trimmed + [Break]);
    assert Normalized(source) == Render(trimmed + [Break]);
  }

  /** No carriage return is left, and exactly one newline ends the text. */
  lemma NormalizedShape(source: string)
    ensures var n := Normalized(source);
            && '\r' !in n
            && n[|n| - 1] == '\n'
            && (|n| >= 2 ==> n[|n| - 2] != '\n')
  {
    NormalizedTokens(source);
    var trimmed := TrimBreaks(Tokens(source));
    if trimmed != [] { assert trimmed[|trimmed| - 1] in trimmed; }
    forall i | 0 <= i < |trimmed| ensures Normalized(source)[i] != '\r' { assert trimmed[i] in trimmed; }
  }

  lemma NormalizedIsIdempotent(source: string)
    ensures Normalized(Normalized(source)) == Normalized(source)
  {
    NormalizedTokens(source);
    var trimmed := TrimBreaks(Tokens(source));
    assert (trimmed + [Break])[..|trimmed|] == trimmed;
    assert TrimBreaks(trimmed) == trimmed;
  }

  /** Two sources normalize to the same text exactly when they are the same text up to
      the style of their line breaks and the breaks at the end. */
  lemma {:induction false} SameNormalizedIff(a: string, b: string)
    ensures Normalized(a) == Normalized(b) <==> TrimBreaks(Tokens(a)) == TrimBreaks(Tokens(b))
  {
    NormalizedTokens(a);
    NormalizedTokens(b);
    if Normalized(a) == Normalized(b) {
      var ta, tb := TrimBreaks(Tokens(a)), TrimBreaks(Tokens(b));
      assert ta + [Break] == tb + [Break];
      assert ta == (ta + [Break])[..|ta|] && tb == (tb + [Break])[..|tb|];
    }
  }

  /** The style of a line break makes no difference. */
  lemma BreakStyleIsIrrelevant(a: string, b: string)
    ensures a == "" || a[|a| - 1] != '\r' ==> Normalized(a + ("\r\n" + b)) == Normalized(a + ("\n" + b))
    ensures b == "" || b[0] != '\n' ==> Normalized(a + ("\r\n" + b)) == Normalized(a + ("\r" + b))
  {
    TokensAroundBreak(a, b);
  }

  /** Lines that end in LF stay as they are, up to the blank ones at the end. */
  lemma LinesAreKept(lines: string, blank: string)
    requires '\r' !in lines && (lines == "" || lines[|lines| - 1] != '\n') && forall c :: c in blank ==> c == '\n'
    ensures Normalized(lines + blank) == lines + "\n"
  {
    var s := lines + blank;
    TokensOfLines(s);
    var trimmed := TrimBreaks(Tokens(s));
    assert forall i :: |lines| <= i < |s| ==> s[i] == blank[i - |lines|] && s[i] in blank;
    assert forall i :: |lines| <= i < |s| ==> Tokens(s)[i] == Break;
    assert lines != "" ==> Tokens(s)[|lines| - 1] != Break;
    assert |trimmed| == |lines|;
    assert Render(trimmed) == lines;
  }

  // ---- Aggregate text ----

  function SingleLine(value: string): (r: string)
    ensures |r| == |value| && '\r' !in r && '\n' !in r
    ensures forall i :: 0 <= i < |value| ==> r[i] == if value[i] == '\r' || value[i] == '\n' then ' ' else value[i]
  {
    seq(|value|, i requires 0 <= i < |value| =>
      if value[i] == '\r' || value[i] == '\n' then ' ' else value[i])
  }

  datatype PolicyText = PolicyText(moduleName: string, path: string, text: string)

  /** The text of a header after its two slashes. */
  function Title(moduleName: string, path: string): (r: string)
    ensures '\r' !in r && '\n' !in r
  {
    " treetop-module: " + SingleLine(moduleName) + "; path: " + SingleLine(path)
  }

  function Header(moduleName: string, path: string): (r: string)
    ensures r != "" && r[0] == '/'
  {
    "//" + Title(moduleName, path) + "\n"
  }

  function Entry(file: PolicyText): (r: string)
    ensures r != "" && r[0] == '/'
  {
    Header(file.moduleName, file.path) + file.text
  }

  /** Every file's text under its generated header, in order. */
  function Aggregate(files: seq<PolicyText>): string {
    if files == [] then "" else Aggregate(files[..|files| - 1]) + Entry(files[|files| - 1])
  }

  lemma SingleLineStays(value: string)
    requires '\r' !in value && '\n' !in value
    ensures SingleLine(value) == value
  {
    forall i | 0 <= i < |value| ensures SingleLine(value)[i] == value[i] { assert value[i] in value; }
  }

  /** The aggregate of one file under a name and path without line breaks. */
  lemma AggregateOfOne(file: PolicyText)
    requires '\r' !in file.moduleName && '\n' !in file.moduleName
    requires '\r' !in file.path && '\n' !in file.path
    ensures Aggregate([file])
            == "// treetop-module: " + file.moduleName + "; path: " + file.path + "\n" + file.text
  {
    assert [file][..0] == [];
    var name, path := file.moduleName, file.path;
    SingleLineStays(name);
    SingleLineStays(path);
    assert "//" + (" treetop-module: " + name + "; path: " + path) + "\n"
        == "// treetop-module: " + name + "; path: " + path + "\n";
  }

  /** Line breaks in a name or path count as spaces. */
  lemma AggregateIgnoresBreaks(file: PolicyText)
    ensures Aggregate([file])
            == Aggregate([PolicyText(SingleLine(file.moduleName), SingleLine(file.path), file.text)])
  {
    assert [file][..0] == [];
    SingleLineStays(SingleLine(file.moduleName));
    SingleLineStays(SingleLine(file.path));
  }

  lemma {:induction false} AggregateConcat(a: seq<PolicyText>, b: seq<PolicyText>)
    ensures Aggregate(a + b) == Aggregate(a) + Aggregate(b)
  {
    if b == [] {
      assert a + b == a;
    } else {
      var last := |b| - 1;
      assert (a + b)[..|a + b| - 1] == a + b[..last];
      AggregateConcat(a, b[..last]);
      SeqAssoc(Aggregate(a), Aggregate(b[..last]), Entry(b[last]));
    }
  }

  // ---- What a policy lexer sees: runs of text between comments ----

  datatype Mode = InCode | InSlash | InString | InEscape | InComment

  /** `current` is the run being read; `runs` are the finished, non-empty runs. */
  datatype Scan = Scan(mode: Mode, current: string, runs: seq<string>)

  const START := Scan(InCode, "", [])

  function Flush(current: string): seq<string> {
    if current == "" then [] else [current]
  }

  function Step(s: Scan, c: char): Scan {
    match s.mode
    case InCode =>
      if c == '/' then s.(mode := InSlash)
      else s.(mode := if c == '"' then InString else InCode, current := s.current + [c])
    case InSlash =>
      if c == '/' then Scan(InComment, "", s.runs + Flush(s.current))
      else s.(mode := if c == '"' then InString else InCode, current := s.current + ['/', c])
    case InString =>
      s.(mode := if c == '"' then InCode else if c == '\\' then InEscape else InString,
         current := s.current + [c])
    case InEscape => s.(mode := InString, current := s.current + [c])
    case InComment => if c == '\n' || c == '\r' then s.(mode := InCode) else s
  }

  function Run(s: Scan, text: string): Scan
    decreases |text|
  {
    if text == "" then s else Run(Step(s, text[0]), text[1..])
  }

  function Finish(s: Scan): seq<string> {
    s.runs + Flush(if s.mode == InSlash then s.current + "/" else s.current)
  }

  /** The non-comment content of a text. A comment separates the runs around it. */
  function Content(text: string): seq<string> {
    Finish(Run(START, text))
  }

  predicate EndsOutsideString(text: string) {
    Run(START, text).mode == InCode
  }

  predicate OnlyLastMayBeOpen(files: seq<PolicyText>) {
    forall i :: 0 <= i < |files| - 1 ==> EndsOutsideString(files[i].text)
  }

  function AllContent(files: seq<PolicyText>): seq<string> {
    if files == [] then []
    else AllContent(files[..|files| - 1]) + Content(files[|files| - 1].text)
  }

  lemma {:induction false} OneMoreText(files: seq<PolicyText>, text: PolicyText)
    ensures Aggregate(files + [text]) == Aggregate(files) + Entry(text)
    ensures AllContent(files + [text]) == AllContent(files) + Content(text.text)
  {
    var more := files + [text];
    assert more[..|more| - 1] == files && more[|more| - 1] == text;
  }

  lemma {:induction false} RunConcat(s: Scan, a: string, b: string)
    ensures Run(s, a + b) == Run(Run(s, a), b)
    decreases |a|
  {
    if a == "" {
      assert a + b == b;
    } else {
      assert (a + b)[1..] == a[1..] + b;
      RunConcat(Step(s, a[0]), a[1..], b);
    }
  }

  function After(before: seq<string>, s: Scan): Scan {
    s.(runs := before + s.runs)
  }

  lemma StepKeepsRuns(before: seq<string>, s: Scan, c: char)
    ensures Step(After(before, s), c) == After(before, Step(s, c))
  {
    if s.mode == InSlash {
      assert before + (s.runs + Flush(s.current)) == (before + s.runs) + Flush(s.current);
    }
  }

  /** Runs finished earlier do not influence the scan. */
  lemma {:induction false} RunKeepsRuns(before: seq<string>, s: Scan, text: string)
    ensures Run(After(before, s), text) == After(before, Run(s, text))
    decreases |text|
  {
    if text != "" {
      StepKeepsRuns(before, s, text[0]);
      RunKeepsRuns(before, Step(s, text[0]), text[1..]);
    }
  }

  lemma {:induction false} CommentRunsToBreak(s: Scan, text: string)
    requires s.mode == InComment && '\n' !in text && '\r' !in text
    ensures Run(s, text) == s
  {
    if text != "" {
      assert text == [text[0]] + text[1..];
      CommentRunsToBreak(s, text[1..]);
    }
  }

  /** A comment ends the current run and adds nothing. */
  lemma {:induction false} CommentAddsNothing(s: Scan, body: string)
    requires s.mode == InCode && '\n' !in body && '\r' !in body
    ensures Run(s, "//" + body + "\n") == Scan(InCode, "", s.runs + Flush(s.current))
  {
    var entered := Scan(InComment, "", s.runs + Flush(s.current));
    assert Run(s, "//") == entered by {
      assert "//"[1..] == "/" && "/"[1..] == "";
      assert Run(s, "//") == Run(Step(s, '/'), "/") == Run(entered, "");
    }
    RunConcat(s, "//" + body, "\n");
    RunConcat(s, "//", body);
    CommentRunsToBreak(entered, body);
    assert Run(entered, "\n") == Run(Step(entered, '\n'), "");
  }

  /** Whatever the module name and path hold, a header ends the current run and adds nothing. */
  lemma {:induction false} HeaderAddsNothing(s: Scan, moduleName: string, path: string)
    requires s.mode == InCode
    ensures Run(s, Header(moduleName, path)) == Scan(InCode, "", s.runs + Flush(s.current))
  {
    CommentAddsNothing(s, Title(moduleName, path));
  }

  /** The content of a text is that of the code before a comment and of what follows it. */
  lemma CommentIsDropped(before: string, comment: string, after: string)
    requires EndsOutsideString(before) && '\n' !in comment && '\r' !in comment
    ensures Content(before + (("//" + comment + "\n") + after)) == Content(before) + Content(after)
  {
    var s := Run(START, before);
    RunConcat(START, before, ("//" + comment + "\n") + after);
    RunConcat(s, "//" + comment + "\n", after);
    CommentAddsNothing(s, comment);
    assert Scan(InCode, "", Content(before)) == After(Content(before), START);
    RunKeepsRuns(Content(before), START, after);
    FinishKeepsRuns(Content(before), Run(START, after));
  }

  /** Text without slashes and quotes is content as it stands. */
  lemma {:induction false} CodeIsContent(s: Scan, code: string)
    requires s.mode == InCode && '/' !in code && '"' !in code
    ensures Run(s, code) == s.(current := s.current + code)
    decreases |code|
  {
    if code != "" {
      assert code == [code[0]] + code[1..];
      CodeIsContent(Step(s, code[0]), code[1..]);
      SeqAssoc(s.current, [code[0]], code[1..]);
    }
  }

  /** So are a slash that begins no comment, and an escaped character of a literal. */
  lemma {:induction false} PairIsContent(s: Scan, first: char, second: char)
    requires (s.mode == InCode && first == '/' && second != '/' && second != '"')
             || (s.mode == InString && first == '\\')
    ensures Run(s, [first, second]) == s.(current := s.current + [first, second])
  {
    assert [first, second][1..] == [second] && [second][1..] == "";
    assert Run(s, [first, second]) == Run(Step(s, first), [second]) == Run(Step(Step(s, first), second), "");
  }

  /** Inside a literal everything is content, slashes too, up to a quote or a backslash. */
  lemma {:induction false} LiteralIsContent(s: Scan, body: string)
    requires s.mode == InString && '"' !in body && '\\' !in body
    ensures Run(s, body) == s.(current := s.current + body)
    decreases |body|
  {
    if body != "" {
      assert body == [body[0]] + body[1..];
      LiteralIsContent(Step(s, body[0]), body[1..]);
      SeqAssoc(s.current, [body[0]], body[1..]);
    }
  }

  /** A quote opens a literal in code, also after a slash, and closes it. */
  lemma {:induction false} QuoteIsContent(s: Scan)
    requires s.mode == InCode || s.mode == InString
    ensures Run(s, "\"") == s.(mode := if s.mode == InCode then InString else InCode, current := s.current + "\"")
    ensures s.mode == InCode ==> Run(s, "/\"") == s.(mode := InString, current := s.current + "/\"")
  {
    assert "\""[1..] == "" && "/\""[1..] == "\"";
    assert Run(s, "\"") == Run(Step(s, '"'), "");
    assert Run(s, "/\"") == Run(Step(s, '/'), "\"") == Run(Step(Step(s, '/'), '"'), "");
  }

  /** After a line break the lexer is in code or inside a string. */
  lemma {:induction false} AfterBreak(s: Scan, text: string)
    requires text != "" && text[|text| - 1] == '\n'
    ensures Run(s, text).mode in {InCode, InString}
    ensures Run(s, text).mode == InString ==> Run(s, text).current != ""
  {
    var last := |text| - 1;
    assert text == text[..last] + "\n";
    RunConcat(s, text[..last], "\n");
    var r := Run(s, text[..last]);
    assert "\n"[1..] == "";
    assert Run(s, text) == Step(r, '\n');
  }

  /** State after an aggregate in which every file but the last ends outside strings. */
  lemma {:induction false} RunAggregate(files: seq<PolicyText>)
    requires files != []
    requires forall i :: 0 <= i < |files| - 1 ==> EndsOutsideString(files[i].text)
    ensures var last := Run(START, files[|files| - 1].text);
            Run(START, Aggregate(files)) == After(AllContent(files[..|files| - 1]), last)
    decreases |files|
  {
    var front, last := files[..|files| - 1], files[|files| - 1];
    var before := Run(START, Aggregate(front));
    if front != [] {
      RunAggregate(front);
      assert EndsOutsideString(files[|front| - 1].text);
    }
    assert before.mode == InCode && Finish(before) == AllContent(front);
    var header := Header(last.moduleName, last.path);
    RunConcat(START, Aggregate(front), Entry(last));
    RunConcat(before, header, last.text);
    HeaderAddsNothing(before, last.moduleName, last.path);
    assert Scan(InCode, "", AllContent(front)) == After(AllContent(front), START);
    RunKeepsRuns(AllContent(front), START, last.text);
  }

  lemma FinishKeepsRuns(before: seq<string>, s: Scan)
    ensures Finish(After(before, s)) == before + Finish(s)
  {
  }

  /** Concatenation keeps the files' content, and nothing else is in the aggregate. */
  lemma {:induction false} ConcatenationKeepsContent(files: seq<PolicyText>)
    requires OnlyLastMayBeOpen(files)
    ensures Content(Aggregate(files)) == AllContent(files)
  {
    if files != [] {
      RunAggregate(files);
      FinishKeepsRuns(AllContent(files[..|files| - 1]), Run(START, files[|files| - 1].text));
    }
  }

  /** Everything read so far stays, and the current run only grows. */
  lemma {:induction false} RunsOnlyGrow(s: Scan, text: string)
    requires s.mode == InComment ==> s.current == ""
    ensures s.runs <= Finish(Run(s, text))
    ensures s.current != "" ==>
              |Finish(Run(s, text))| > |s.runs| && s.current <= Finish(Run(s, text))[|s.runs|]
    decreases |text|
  {
    if text != "" {
      RunsOnlyGrow(Step(s, text[0]), text[1..]);
    }
  }

  /** An open string literal is the last run of what has been read. */
  lemma OpenContent(before: seq<string>, last: Scan)
    requires last.mode == InString && last.current != ""
    ensures before + Finish(last) == After(before, last).runs + [last.current]
  {
    assert before + (last.runs + [last.current]) == (before + last.runs) + [last.current];
  }

  /** If a file ends inside a string literal, the next header becomes part of that literal
      and the content of the whole differs from the files' contents. */
  lemma SwallowedHeader(files: seq<PolicyText>, rest: string, tail: seq<string>)
    requires files != [] && rest != "" && rest[0] == '/'
    requires forall i :: 0 <= i < |files| - 1 ==> EndsOutsideString(files[i].text)
    requires var text := files[|files| - 1].text;
             text != "" && text[|text| - 1] == '\n' && !EndsOutsideString(text)
    ensures Content(Aggregate(files) + rest) != AllContent(files) + tail
  {
    RunAggregate(files);
    AfterBreak(START, files[|files| - 1].text);
    var s := Run(START, Aggregate(files));
    OpenContent(AllContent(files[..|files| - 1]), Run(START, files[|files| - 1].text));
    RunConcat(START, Aggregate(files), rest);
    RunsOnlyGrow(Step(s, '/'), rest[1..]);
    var whole := Content(Aggregate(files) + rest);
    assert s.current + "/" <= whole[|s.runs|];
    assert (AllContent(files) + tail)[|s.runs|] == s.current;
  }

  /** The part of an aggregate, and of its content, that comes from files[n..]. */
  function AggregateFrom(files: seq<PolicyText>, n: nat): string
    requires n <= |files|
    decreases |files|
  {
    if n == |files| then "" else AggregateFrom(files[..|files| - 1], n) + Entry(files[|files| - 1])
  }

  function ContentFrom(files: seq<PolicyText>, n: nat): seq<string>
    requires n <= |files|
    decreases |files|
  {
    if n == |files| then [] else ContentFrom(files[..|files| - 1], n) + Content(files[|files| - 1].text)
  }

  lemma {:induction false} AggregateSplits(files: seq<PolicyText>, n: nat)
    requires n <= |files|
    ensures Aggregate(files) == Aggregate(files[..n]) + AggregateFrom(files, n)
    decreases |files|
  {
    if n == |files| {
      assert files[..n] == files;
    } else {
      var front, last := files[..|files| - 1], Entry(files[|files| - 1]);
      AggregateSplits(front, n);
      assert front[..n] == files[..n];
      SeqAssoc(Aggregate(files[..n]), AggregateFrom(front, n), last);
    }
  }

  lemma {:induction false} ContentSplits(files: seq<PolicyText>, n: nat)
    requires n <= |files|
    ensures AllContent(files) == AllContent(files[..n]) + ContentFrom(files, n)
    decreases |files|
  {
    if n == |files| {
      assert files[..n] == files;
    } else {
      var front, last := files[..|files| - 1], Content(files[|files| - 1].text);
      ContentSplits(front, n);
      assert front[..n] == files[..n];
      SeqAssoc(AllContent(files[..n]), ContentFrom(front, n), last);
    }
  }

  lemma {:induction false} RestBeginsWithHeader(files: seq<PolicyText>, n: nat)
    requires n < |files|
    ensures AggregateFrom(files, n) != "" && AggregateFrom(files, n)[0] == '/'
    decreases |files|
  {
    if n < |files| - 1 { RestBeginsWithHeader(files[..|files| - 1], n); }
  }

  lemma {:induction false} OpenFileChangesContent(files: seq<PolicyText>)
    requires forall f :: f in files ==> f.text != "" && f.text[|f.text| - 1] == '\n'
    requires !OnlyLastMayBeOpen(files)
    ensures Content(Aggregate(files)) != AllContent(files)
  {
    var i := FirstOpen(files);
    var upTo := files[..i + 1];
    assert upTo[|upTo| - 1] == files[i] && files[i] in files;
    assert forall k :: 0 <= k < i ==> upTo[k] == files[k];
    AggregateSplits(files, i + 1);
    ContentSplits(files, i + 1);
    RestBeginsWithHeader(files, i + 1);
    SwallowedHeader(upTo, AggregateFrom(files, i + 1), ContentFrom(files, i + 1));
  }

  /** Concatenation keeps the policies' content exactly when every file but the last ends
      outside a string literal. */
  lemma {:induction false} ConcatenationKeepsContentIff(files: seq<PolicyText>)
    requires forall f :: f in files ==> f.text != "" && f.text[|f.text| - 1] == '\n'
    ensures Content(Aggregate(files)) == AllContent(files) <==> OnlyLastMayBeOpen(files)
  {
    if OnlyLastMayBeOpen(files) {
      ConcatenationKeepsContent(files);
    } else {
      OpenFileChangesContent(files);
    }
  }

  lemma FirstOpen(files: seq<PolicyText>) returns (i: nat)
    requires !OnlyLastMayBeOpen(files)
    ensures i < |files| - 1 && !EndsOutsideString(files[i].text)
    ensures forall k :: 0 <= k < i ==> EndsOutsideString(files[k].text)
  {
    i := 0;
    while EndsOutsideString(files[i].text)
      invariant i < |files| - 1
      invariant forall k :: 0 <= k < i ==> EndsOutsideString(files[k].text)
      invariant exists k :: i <= k < |files| - 1 && !EndsOutsideString(files[k].text)
      decreases |files| - i
    {
      i := i + 1;
    }
  }
}
