/** The trees of the shell grammar, parsing as functions on token lists, and what parsing preserves. */
module ShellGrammar {
  import opened Laws
  import opened Tokens

  const PIPE := "|"
  const AMP := "&"
  const SEMI := ";"

  datatype Words = NoWords | Words(word: string, words: Words)

  datatype Command = NoCommand | Command(words: Words)

  datatype Pipeline = NoPipeline | Pipeline(command: Command, pipeline: Pipeline)

  datatype Op = NoOp | Background | Foreground

  datatype Sequence = NoSequence | Sequence(pipeline: Pipeline, op: Op, sequence: Sequence)

  predicate IsOperator(t: string) { t == PIPE || t == AMP || t == SEMI }

  predicate StartsWith(ts: seq<string>, t: string) { ts != [] && ts[0] == t }

  function ParseWords(ts: seq<string>): (r: (Words, seq<string>))
    ensures |r.1| <= |ts| && (r.0.NoWords? <==> ts == []) && (ts != [] ==> |r.1| < |ts|)
    ensures r.1 != [] ==> IsOperator(r.1[0])
  {
    if ts == [] then (NoWords, [])
    else if ts[1..] != [] && IsOperator(ts[1]) then (Words(ts[0], NoWords), ts[1..])
    else
      var (words, rest) := ParseWords(ts[1..]);
      (Words(ts[0], words), rest)
  }

  function ParseCommand(ts: seq<string>): (r: (Command, seq<string>))
    ensures |r.1| <= |ts| && (r.0.NoCommand? <==> ts == []) && (ts != [] ==> |r.1| < |ts|)
    ensures r.1 != [] ==> IsOperator(r.1[0])
  {
    var (words, rest) := ParseWords(ts);
    if words.NoWords? then (NoCommand, rest) else (Command(words), rest)
  }

  function ParsePipeline(ts: seq<string>): (r: (Pipeline, seq<string>))
    ensures |r.1| <= |ts| && (r.0.NoPipeline? <==> ts == []) && (ts != [] ==> |r.1| < |ts|)
    ensures r.1 != [] ==> r.1[0] == AMP || r.1[0] == SEMI
    decreases |ts|
  {
    var (command, rest) := ParseCommand(ts);
    if command.NoCommand? then (NoPipeline, rest)
    else if StartsWith(rest, PIPE) then
      var (pipeline, rest') := ParsePipeline(rest[1..]);
      (Pipeline(command, pipeline), rest')
    else (Pipeline(command, NoPipeline), rest)
  }

  /** The whole-line grammar. */
  function ParseSequence(ts: seq<string>): (r: (Sequence, seq<string>))
    ensures |r.1| <= |ts| && (r.0.NoSequence? <==> ts == [])
    decreases |ts|
  {
    var (pipeline, rest) := ParsePipeline(ts);
    if pipeline.NoPipeline? then (NoSequence, rest)
    else
      var (s, rest') :=
        if StartsWith(rest, AMP) then
          var (next, after) := ParseSequence(rest[1..]);
          (Sequence(pipeline, Background, next), after)
        else (Sequence(pipeline, NoOp, NoSequence), rest);
      if StartsWith(rest', SEMI) then
        var (next, after) := ParseSequence(rest'[1..]);
        (Sequence(pipeline, Foreground, next), after)
      else (s, rest')
  }

  /** One pipeline with its operators, as the interpreting loop takes it. */
  function ParseOne(ts: seq<string>): (r: (Sequence, seq<string>))
    ensures |r.1| <= |ts| && (r.0.NoSequence? <==> ts == []) && (ts != [] ==> |r.1| < |ts|)
  {
    var (pipeline, rest) := ParsePipeline(ts);
    if pipeline.NoPipeline? then (NoSequence, rest)
    else
      var (op, rest') := if StartsWith(rest, AMP) then (Background, rest[1..]) else (NoOp, rest);
      if StartsWith(rest', SEMI) then (Sequence(pipeline, Foreground, NoSequence), rest'[1..])
      else (Sequence(pipeline, op, NoSequence), rest')
  }

  /** What the interpreting loop hands on, one tree a turn, until the tokens are used up. */
  function ParseLine(ts: seq<string>): (r: seq<Sequence>)
    decreases |ts|
  {
    var (s, rest) := ParseOne(ts);
    if s.NoSequence? then [] else [s] + ParseLine(rest)
  }

  // ---------------------------------------------------------------- the loop against the grammar

  /** The pipelines of a tree with their operators, in order. */
  function Flatten(s: Sequence): seq<Sequence> {
    if s.NoSequence? then [] else [s.(sequence := NoSequence)] + Flatten(s.sequence)
  }

  /**
    Whether an ampersand in operator position is followed at once by a semicolon.  The first token of a
    command is a word whatever it is; after it an operator starts the next command.
   */
  predicate Clash(ts: seq<string>, inCommand: bool) {
    if ts == [] then false
    else if !inCommand then Clash(ts[1..], true)
    else if ts[0] == AMP then StartsWith(ts[1..], SEMI) || Clash(ts[1..], false)
    else Clash(ts[1..], !IsOperator(ts[0]))
  }

  lemma {:induction false} WordsKeepClash(ts: seq<string>)
    requires ts != []
    ensures Clash(ts, false) == Clash(ParseWords(ts).1, true)
  {
    assert Clash(ts, false) == Clash(ts[1..], true);
    if ts[1..] != [] && IsOperator(ts[1]) {
    } else if ts[1..] != [] {
      WordsKeepClash(ts[1..]);
      assert Clash(ts[1..], true) == Clash(ts[1..][1..], true);
      assert Clash(ts[1..], false) == Clash(ts[1..][1..], true);
    }
  }

  lemma {:induction false} PipelineKeepsClash(ts: seq<string>)
    requires ts != []
    ensures Clash(ts, false) == Clash(ParsePipeline(ts).1, true)
    decreases |ts|
  {
    WordsKeepClash(ts);
    var rest := ParseCommand(ts).1;
    if StartsWith(rest, PIPE) {
      assert Clash(rest, true) == Clash(rest[1..], false);
      if rest[1..] != [] { PipelineKeepsClash(rest[1..]); }
    }
  }

  /** The whole-line grammar uses up every token. */
  lemma {:induction false} SequenceConsumesAll(ts: seq<string>)
    ensures ParseSequence(ts).1 == []
    decreases |ts|
  {
    if ts != [] {
      var rest := ParsePipeline(ts).1;
      if rest != [] { SequenceConsumesAll(rest[1..]); }
    }
  }

  /** How one step of the grammar and one turn of the loop relate. */
  lemma OneStep(ts: seq<string>)
    requires ts != []
    ensures var (p, rest) := ParsePipeline(ts);
            && (rest == [] ==>
                  && ParseSequence(ts).0 == Sequence(p, NoOp, NoSequence)
                  && ParseOne(ts) == (Sequence(p, NoOp, NoSequence), []))
            && (StartsWith(rest, AMP) ==>
                  && ParseSequence(ts).0 == Sequence(p, Background, ParseSequence(rest[1..]).0)
                  && ParseOne(ts)
                     == if StartsWith(rest[1..], SEMI) then (Sequence(p, Foreground, NoSequence), rest[1..][1..])
                        else (Sequence(p, Background, NoSequence), rest[1..]))
            && (StartsWith(rest, SEMI) ==>
                  && ParseSequence(ts).0 == Sequence(p, Foreground, ParseSequence(rest[1..]).0)
                  && ParseOne(ts) == (Sequence(p, Foreground, NoSequence), rest[1..]))
  {
    var rest := ParsePipeline(ts).1;
    if rest != [] { SequenceConsumesAll(rest[1..]); }
  }

  /**
    On any line the interleaved loop hands on the pipelines and operators of the whole-line grammar
    exactly when no operator ampersand is followed at once by a semicolon.
   */
  lemma {:induction false} LoopMatchesGrammar(ts: seq<string>)
    ensures ParseLine(ts) == Flatten(ParseSequence(ts).0) <==> !Clash(ts, false)
    decreases |ts|
  {
    if ts != [] {
      hide ParsePipeline, ParseSequence, ParseOne;
      var (p, rest) := ParsePipeline(ts);
      PipelineKeepsClash(ts);
      OneStep(ts);
      LineStep(ts);
      if rest != [] {
        var op := if rest[0] == AMP then Background else Foreground;
        LoopMatchesGrammar(rest[1..]);
        FlattenStep(p, op, ParseSequence(rest[1..]).0);
        SameTail(Sequence(p, op, NoSequence), ParseLine(rest[1..]), Flatten(ParseSequence(rest[1..]).0));
        if rest[0] == AMP && StartsWith(rest[1..], SEMI) {
          assert ParseLine(ts)[0].op != Flatten(ParseSequence(ts).0)[0].op;
        }
      } else {
        FlattenStep(p, NoOp, NoSequence);
      }
    }
  }

  lemma SameTail(x: Sequence, a: seq<Sequence>, b: seq<Sequence>)
    ensures [x] + a == [x] + b <==> a == b
  {
    assert ([x] + a)[1..] == a && ([x] + b)[1..] == b;
  }

  lemma LineStep(ts: seq<string>)
    requires ts != []
    ensures ParseLine(ts) == [ParseOne(ts).0] + ParseLine(ParseOne(ts).1)
    ensures ParseLine([]) == []
  {
  }

  /** One turn of the loop: done when there is no tree, otherwise fewer tokens are left. */
  lemma LineTurn(ts: seq<string>)
    ensures var (s, rest) := ParseOne(ts);
            if s == NoSequence then ParseLine(ts) == [] else ParseLine(ts) == [s] + ParseLine(rest) && |rest| < |ts|
  {
    hide ParsePipeline;
  }

  lemma FlattenStep(p: Pipeline, op: Op, s: Sequence)
    ensures Flatten(Sequence(p, op, s)) == [Sequence(p, op, NoSequence)] + Flatten(s)
    ensures Flatten(NoSequence) == []
  {
  }

  // ---------------------------------------------------------------- nothing is lost

  function WordTokens(w: Words): seq<string> {
    if w.NoWords? then [] else [w.word] + WordTokens(w.words)
  }

  function PipelineWords(p: Pipeline): seq<string> {
    if p.NoPipeline? then []
    else (if p.command.NoCommand? then [] else WordTokens(p.command.words)) + PipelineWords(p.pipeline)
  }

  function LineWords(line: seq<Sequence>): seq<string> {
    if line == [] then []
    else (if line[0].NoSequence? then [] else PipelineWords(line[0].pipeline)) + LineWords(line[1..])
  }

  /** The tokens that are not operators, in order. */
  function Plain(ts: seq<string>): seq<string> {
    if ts == [] then [] else (if IsOperator(ts[0]) then [] else [ts[0]]) + Plain(ts[1..])
  }

  lemma {:induction false} PlainConcat(s: seq<string>, t: seq<string>)
    ensures Plain(s + t) == Plain(s) + Plain(t)
  {
    if s == [] {
      assert s + t == t;
    } else {
      hide Plain, IsOperator;
      PlainConcat(s[1..], t);
      PlainFrom(s[0], s[1..]);
      PlainFrom(s[0], s[1..] + t);
      assert s == [s[0]] + s[1..] && s + t == [s[0]] + (s[1..] + t);
      Associate(if IsOperator(s[0]) then [] else [s[0]], Plain(s[1..]), Plain(t));
    }
  }

  lemma PlainFrom(x: string, ts: seq<string>)
    ensures Plain([x] + ts) == (if IsOperator(x) then [] else [x]) + Plain(ts)
  {
    assert ([x] + ts)[1..] == ts;
  }

  lemma PlainStep(ts: seq<string>)
    requires ts != []
    ensures Plain(ts) == if IsOperator(ts[0]) then Plain(ts[1..]) else [ts[0]] + Plain(ts[1..])
  {
  }

  lemma {:induction false} WordsKeepTokens(ts: seq<string>)
    ensures WordTokens(ParseWords(ts).0) + ParseWords(ts).1 == ts
  {
    if ts != [] {
      if ts[1..] != [] && IsOperator(ts[1]) {
        assert WordTokens(Words(ts[0], NoWords)) == [ts[0]];
      } else {
        WordsKeepTokens(ts[1..]);
      }
      assert ts == [ts[0]] + ts[1..];
    }
  }

  lemma {:induction false} PipelineKeepsPlain(ts: seq<string>)
    ensures Plain(PipelineWords(ParsePipeline(ts).0)) + Plain(ParsePipeline(ts).1) == Plain(ts)
    decreases |ts|
  {
    if ts != [] {
      var (words, rest) := ParseWords(ts);
      WordsKeepTokens(ts);
      PlainConcat(WordTokens(words), rest);
      if StartsWith(rest, PIPE) {
        PipelineKeepsPlain(rest[1..]);
        PlainConcat(WordTokens(words), PipelineWords(ParsePipeline(rest[1..]).0));
      } else {
        assert WordTokens(words) + PipelineWords(NoPipeline) == WordTokens(words);
      }
    }
  }

  lemma OneKeepsPlain(ts: seq<string>)
    requires ts != []
    ensures var (s, rest) := ParseOne(ts); s.Sequence? && Plain(PipelineWords(s.pipeline)) + Plain(rest) == Plain(ts)
  {
    hide ParsePipeline, PipelineWords, Plain;
    PipelineKeepsPlain(ts);
    var rest := ParsePipeline(ts).1;
    if rest != [] {
      PlainStep(rest);
      if rest[1..] != [] { PlainStep(rest[1..]); }
    }
  }

  lemma LineWordsStep(s: Sequence, line: seq<Sequence>)
    requires s.Sequence?
    ensures LineWords([s] + line) == PipelineWords(s.pipeline) + LineWords(line)
  {
    assert ([s] + line)[1..] == line;
  }

  /** On any line the words of the trees are, but for operators, the tokens of the line, in order. */
  lemma {:induction false} LineKeepsPlain(ts: seq<string>)
    ensures Plain(LineWords(ParseLine(ts))) == Plain(ts)
    decreases |ts|
  {
    if ts != [] {
      hide ParseLine, Plain, LineWords;
      var (s, rest) := ParseOne(ts);
      OneKeepsPlain(ts);
      LineKeepsPlain(rest);
      LineStep(ts);
      LineWordsStep(s, ParseLine(rest));
      PlainConcat(PipelineWords(s.pipeline), LineWords(ParseLine(rest)));
    }
  }

  // ---------------------------------------------------------------- printing

  function PrintPipeline(p: Pipeline): seq<string> {
    if p.NoPipeline? then []
    else (if p.command.NoCommand? then [] else WordTokens(p.command.words))
         + if p.pipeline.NoPipeline? then [] else ["|"] + PrintPipeline(p.pipeline)
  }

  function PrintOp(op: Op): seq<string> {
    match op
    case NoOp => []
    case Background => ["&"]
    case Foreground => [";"]
  }

  function Print(line: seq<Sequence>): seq<string> {
    if line == [] then []
    else (if line[0].NoSequence? then [] else PrintPipeline(line[0].pipeline) + PrintOp(line[0].op)) + Print(line[1..])
  }

  // ---------------------------------------------------------------- what becomes of every token

  /** A pipe sign in operator position ends the line. */
  predicate EndsInPipe(ts: seq<string>, inCommand: bool) {
    if ts == [] then false
    else if !inCommand then EndsInPipe(ts[1..], true)
    else if ts == [PIPE] then true
    else EndsInPipe(ts[1..], !IsOperator(ts[0]))
  }

  /**
    The tokens of a line without those that the loop passes over: an operator ampersand with a semicolon
    right after it, and an operator pipe sign at the end.
   */
  function Tidy(ts: seq<string>, inCommand: bool): seq<string> {
    if ts == [] then []
    else if !inCommand then [ts[0]] + Tidy(ts[1..], true)
    else if ts[0] == AMP && StartsWith(ts[1..], SEMI) then Tidy(ts[1..], true)
    else if ts == [PIPE] then []
    else [ts[0]] + Tidy(ts[1..], !IsOperator(ts[0]))
  }

  lemma {:induction false} WordsAreTidy(ts: seq<string>)
    requires ts != []
    ensures Tidy(ts, false) == WordTokens(ParseWords(ts).0) + Tidy(ParseWords(ts).1, true)
  {
    assert Tidy(ts, false) == [ts[0]] + Tidy(ts[1..], true);
    if ts[1..] != [] && IsOperator(ts[1]) {
      assert WordTokens(Words(ts[0], NoWords)) == [ts[0]];
    } else if ts[1..] != [] {
      WordsAreTidy(ts[1..]);
      assert Tidy(ts[1..], true) == Tidy(ts[1..], false);
    }
  }

  lemma {:induction false} PipelineIsTidy(ts: seq<string>)
    requires ts != []
    ensures Tidy(ts, false) == PrintPipeline(ParsePipeline(ts).0) + Tidy(ParsePipeline(ts).1, true)
    decreases |ts|
  {
    WordsAreTidy(ts);
    var rest := ParseCommand(ts).1;
    if StartsWith(rest, PIPE) {
      if rest[1..] == [] {
        assert rest == [PIPE];
      } else {
        assert Tidy(rest, true) == [PIPE] + Tidy(rest[1..], false);
        PipelineIsTidy(rest[1..]);
      }
    }
  }

  lemma PrintStep(s: Sequence, line: seq<Sequence>)
    requires s.Sequence?
    ensures Print([s] + line) == PrintPipeline(s.pipeline) + PrintOp(s.op) + Print(line)
    ensures Print([]) == []
  {
    assert ([s] + line)[1..] == line;
  }

  /** What one turn of the loop makes of the tokens it takes. */
  lemma OneIsTidy(ts: seq<string>)
    requires ts != []
    ensures var (s, rest) := ParseOne(ts);
            s.Sequence? && Tidy(ts, false) == PrintPipeline(s.pipeline) + PrintOp(s.op) + Tidy(rest, false)
  {
    hide ParsePipeline, PrintPipeline;
    PipelineIsTidy(ts);
    var rest := ParsePipeline(ts).1;
    if StartsWith(rest, AMP) && StartsWith(rest[1..], SEMI) {
      assert Tidy(rest, true) == Tidy(rest[1..], true) == [SEMI] + Tidy(rest[1..][1..], false);
    } else if rest != [] {
      assert Tidy(rest, true) == [rest[0]] + Tidy(rest[1..], false);
    }
  }

  /** On any line the trees print as the tidied tokens: words and operators, in order, and nothing else. */
  lemma {:induction false} LineIsTidy(ts: seq<string>)
    ensures Print(ParseLine(ts)) == Tidy(ts, false)
    decreases |ts|
  {
    if ts != [] {
      hide ParseOne, ParseLine, Print, Tidy, PrintPipeline, PrintOp;
      var (s, rest) := ParseOne(ts);
      OneIsTidy(ts);
      LineStep(ts);
      LineIsTidy(rest);
      PrintStep(s, ParseLine(rest));
    }
  }

  lemma {:induction false} TidyIsShorter(ts: seq<string>, inCommand: bool)
    ensures |Tidy(ts, inCommand)| <= |ts|
    ensures |Tidy(ts, inCommand)| == |ts| <==> !Clash(ts, inCommand) && !EndsInPipe(ts, inCommand)
    ensures |Tidy(ts, inCommand)| == |ts| ==> Tidy(ts, inCommand) == ts
  {
    if ts != [] {
      assert ts == [ts[0]] + ts[1..];
      if !inCommand {
        TidyIsShorter(ts[1..], true);
      } else if ts[0] == AMP && StartsWith(ts[1..], SEMI) {
        TidyIsShorter(ts[1..], true);
      } else {
        TidyIsShorter(ts[1..], !IsOperator(ts[0]));
      }
    }
  }

  /**
    The loop keeps every token of a line, operators included, if and only if no operator ampersand is
    followed at once by a semicolon and no operator pipe sign ends the line.
   */
  lemma PrintingUndoesParsing(ts: seq<string>)
    ensures Print(ParseLine(ts)) == ts <==> !Clash(ts, false) && !EndsInPipe(ts, false)
  {
    LineIsTidy(ts);
    TidyIsShorter(ts, false);
  }

  // ---------------------------------------------------------------- parsing undoes printing

  /** Words that can be told from operators. */
  ghost predicate GoodWords(w: Words) {
    && w.Words? && w.word != "|" && w.word != "&" && w.word != ";"
    && (w.words.Words? ==> GoodWords(w.words))
  }

  ghost predicate GoodPipeline(p: Pipeline) {
    && p.Pipeline? && p.command.Command? && GoodWords(p.command.words)
    && (p.pipeline.Pipeline? ==> GoodPipeline(p.pipeline))
  }

  /** Pipelines of good words, each but the last with an operator. */
  ghost predicate GoodLine(line: seq<Sequence>) {
    forall i :: 0 <= i < |line| ==>
      && line[i].Sequence? && line[i].sequence.NoSequence? && GoodPipeline(line[i].pipeline)
      && (i < |line| - 1 ==> line[i].op != NoOp)
  }

  lemma {:induction false} WordsRoundTrip(w: Words, rest: seq<string>)
    requires GoodWords(w) && (rest == [] || IsOperator(rest[0]))
    ensures ParseWords(WordTokens(w) + rest) == (w, rest)
    decreases w
  {
    var ts := WordTokens(w) + rest;
    assert ts == [w.word] + (WordTokens(w.words) + rest);
    assert ts[1..] == WordTokens(w.words) + rest;
    if w.words.Words? {
      WordsRoundTrip(w.words, rest);
      assert ts[1] == w.words.word;
    } else {
      assert ts[1..] == rest;
    }
  }

  lemma {:induction false} PipelineRoundTrip(p: Pipeline, rest: seq<string>)
    requires GoodPipeline(p) && (rest == [] || rest[0] == AMP || rest[0] == SEMI)
    ensures ParsePipeline(PrintPipeline(p) + rest) == (p, rest)
    decreases p
  {
    var words := p.command.words;
    if p.pipeline.Pipeline? {
      var after := [PIPE] + (PrintPipeline(p.pipeline) + rest);
      assert PrintPipeline(p) + rest == WordTokens(words) + after;
      WordsRoundTrip(words, after);
      assert after[1..] == PrintPipeline(p.pipeline) + rest;
      PipelineRoundTrip(p.pipeline, rest);
    } else {
      assert PrintPipeline(p) + rest == WordTokens(words) + rest;
      WordsRoundTrip(words, rest);
    }
  }

  lemma GoodPipelineStart(p: Pipeline, rest: seq<string>)
    requires GoodPipeline(p)
    ensures PrintPipeline(p) + rest != [] && !IsOperator((PrintPipeline(p) + rest)[0])
  {
    assert WordTokens(p.command.words)[0] == p.command.words.word;
  }

  /** A printed good line: its first pipeline, its operator, and the rest of the line. */
  lemma PrintedLine(line: seq<Sequence>)
    requires GoodLine(line) && line != []
    ensures var (s, after) := (line[0], Print(line[1..]));
            var rest := PrintOp(s.op) + after;
            && GoodLine(line[1..])
            && Print(line) == PrintPipeline(s.pipeline) + rest && Print(line) != []
            && ParsePipeline(Print(line)) == (s.pipeline, rest)
            && (after != [] ==> s.op != NoOp && !IsOperator(after[0]))
            && (s.op == Background ==> StartsWith(rest, AMP) && rest[1..] == after)
            && (s.op == Foreground ==> StartsWith(rest, SEMI) && rest[1..] == after)
            && (s.op == NoOp ==> rest == [])
  {
    hide ParsePipeline, GoodPipeline, PrintPipeline;
    var s, after := line[0], Print(line[1..]);
    var rest := PrintOp(s.op) + after;
    assert Print(line) == PrintPipeline(s.pipeline) + rest;
    if |line| > 1 {
      var next := PrintOp(line[1].op) + Print(line[1..][1..]);
      assert after == PrintPipeline(line[1].pipeline) + next;
      GoodPipelineStart(line[1].pipeline, next);
    } else {
      assert after == [];
    }
    PipelineRoundTrip(s.pipeline, rest);
    GoodPipelineStart(s.pipeline, rest);
  }

  /** One turn of the loop on a printed good line takes off its first tree. */
  lemma PrintedTurn(line: seq<Sequence>)
    requires GoodLine(line) && line != []
    ensures GoodLine(line[1..]) && Print(line) != []
    ensures ParseOne(Print(line)) == (line[0], Print(line[1..]))
  {
    PrintedLine(line);
    hide ParsePipeline, GoodPipeline, PrintPipeline, Print, PrintOp;
  }

  /** Parsing the printed line gives the same trees back. */
  lemma {:induction false} LineRoundTrip(line: seq<Sequence>)
    requires GoodLine(line)
    ensures ParseLine(Print(line)) == line
  {
    if line != [] {
      PrintedTurn(line);
      hide ParseOne, GoodPipeline, GoodLine, ParseLine, Print;
      LineRoundTrip(line[1..]);
      LineStep(Print(line));
      assert line == [line[0]] + line[1..];
    }
  }

  /** A good line never clashes, so on it the loop and the grammar agree, and give the line back. */
  lemma GoodLinesAgree(line: seq<Sequence>)
    requires GoodLine(line)
    ensures ParseLine(Print(line)) == line && Flatten(ParseSequence(Print(line)).0) == line
  {
    LineRoundTrip(line);
    GoodLineDoesNotClash(line);
    LoopMatchesGrammar(Print(line));
  }

  lemma {:induction false} GoodLineDoesNotClash(line: seq<Sequence>)
    requires GoodLine(line)
    ensures !Clash(Print(line), false)
  {
    if line != [] {
      hide ParsePipeline, GoodPipeline, PrintPipeline, Print, PrintOp;
      PrintedLine(line);
      GoodLineDoesNotClash(line[1..]);
      PipelineKeepsClash(Print(line));
    }
  }

  /**
    Scanning and parsing a good line, whose words are not empty and hold no blanks, printed with any blanks
    between its tokens, gives the same trees back.
   */
  lemma InterpretingUndoesPrinting(line: seq<Sequence>, gaps: seq<string>)
    requires GoodLine(line) && AllTokens(Print(line)) && |gaps| == |Print(line)| + 1 && GapsOk(gaps)
    ensures ParseLine(Split(Layout(Print(line), gaps))) == line
  {
    SplitUndoesLayout(Print(line), gaps);
    LineRoundTrip(line);
  }

  // ---------------------------------------------------------------- what each operator means

  /** None of the tokens is an operator. */
  ghost predicate NoOperators(ts: seq<string>) {
    forall i :: 0 <= i < |ts| ==> ts[i] != "|" && ts[i] != "&" && ts[i] != ";"
  }

  function WordsOf(ts: seq<string>): Words {
    if ts == [] then NoWords else Words(ts[0], WordsOf(ts[1..]))
  }

  lemma {:induction false} WordsOfTokens(ts: seq<string>)
    requires NoOperators(ts)
    ensures WordTokens(WordsOf(ts)) == ts && (ts != [] ==> GoodWords(WordsOf(ts)))
  {
    if ts != [] {
      assert NoOperators(ts[1..]);
      WordsOfTokens(ts[1..]);
    }
  }

  /** One command of the given words, followed by p in its pipeline. */
  function Then(ts: seq<string>, p: Pipeline): Pipeline {
    Pipeline(Command(WordsOf(ts)), p)
  }

  /** A pipe sign makes one pipeline of two commands. */
  lemma PipeSign(w: seq<string>, v: seq<string>)
    requires w != [] && v != [] && NoOperators(w) && NoOperators(v)
    ensures ParseLine(w + ["|"] + v) == [Sequence(Then(w, Then(v, NoPipeline)), NoOp, NoSequence)]
  {
    WordsOfTokens(w);
    WordsOfTokens(v);
    var p := Then(w, Then(v, NoPipeline));
    var line := [Sequence(p, NoOp, NoSequence)];
    assert PrintPipeline(Then(v, NoPipeline)) == v;
    assert PrintPipeline(p) == w + (["|"] + v) == w + ["|"] + v;
    PrintStep(line[0], []);
    assert line == [line[0]] + [];
    assert GoodPipeline(Then(v, NoPipeline)) && GoodLine(line);
    assert Print(line) == w + ["|"] + v;
    hide ParseLine, PrintPipeline, Print;
    LineRoundTrip(line);
  }

  /** An ampersand ends a pipeline that runs in the background, a semicolon one that runs in the foreground. */
  lemma AmpersandAndSemicolon(w: seq<string>, v: seq<string>, op: Op)
    requires w != [] && v != [] && NoOperators(w) && NoOperators(v) && op != NoOp
    ensures ParseLine(w + [if op == Background then "&" else ";"] + v)
            == [Sequence(Then(w, NoPipeline), op, NoSequence), Sequence(Then(v, NoPipeline), NoOp, NoSequence)]
  {
    WordsOfTokens(w);
    WordsOfTokens(v);
    var first, second := Sequence(Then(w, NoPipeline), op, NoSequence), Sequence(Then(v, NoPipeline), NoOp, NoSequence);
    var line := [first, second];
    assert PrintPipeline(first.pipeline) == w && PrintPipeline(second.pipeline) == v;
    PrintStep(second, []);
    PrintStep(first, [second]);
    assert [second] == [second] + [] && line == [first] + [second];
    assert Print(line) == w + [if op == Background then "&" else ";"] + v;
    hide ParseLine, PrintPipeline, Print;
    LineRoundTrip(line);
  }

  /** On "a & ; b" the two differ: the loop sees a foreground pipeline, the grammar a background one. */
  lemma ClashExample()
    ensures ParseLine(["a", "&", ";", "b"]) != Flatten(ParseSequence(["a", "&", ";", "b"]).0)
  {
    var ts := ["a", "&", ";", "b"];
    assert ts[1..] == ["&", ";", "b"] && ts[1..][1..] == [";", "b"];
    assert StartsWith(ts[1..][1..], SEMI);
    assert Clash(ts[1..], true);
    LoopMatchesGrammar(ts);
  }
}

/** The recursive-descent parser, reading tokens from a scanner. */
module ShellParser {
  import opened Options
  import opened Tokens
  import opened ShellScanner
  import opened ShellGrammar

  method ReadWord(scan: Scanner) returns (word: Option<string>)
    requires scan.Valid()
    modifies scan
    ensures scan.Valid()
    ensures word == if old(scan.Remaining()) == [] then None else Some(old(scan.Remaining())[0])
    ensures scan.Remaining() == if word.None? then [] else old(scan.Remaining())[1..]
  {
    word := scan.Current();
    if word == None {
      return None;
    }
    var _ := scan.NextToken();
  }

  method ReadWords(scan: Scanner) returns (words: Words)
    requires scan.Valid()
    modifies scan
    ensures scan.Valid() && (words, scan.Remaining()) == ParseWords(old(scan.Remaining()))
    decreases |scan.Remaining()|
  {
    ghost var ts := scan.Remaining();
    var word := ReadWord(scan);
    if word == None {
      return NoWords;
    }
    var isPipe := scan.Compare(PIPE);
    var isAmp := scan.Compare(AMP);
    var isSemi := scan.Compare(SEMI);
    if isPipe || isAmp || isSemi {
      return Words(word.value, NoWords);
    }
    assert ts == [word.value] + scan.Remaining();
    var rest := ReadWords(scan);
    return Words(word.value, rest);
  }

  method ReadCommand(scan: Scanner) returns (command: Command)
    requires scan.Valid()
    modifies scan
    ensures scan.Valid() && (command, scan.Remaining()) == ParseCommand(old(scan.Remaining()))
  {
    var words := ReadWords(scan);
    if words == NoWords {
      return NoCommand;
    }
    return Command(words);
  }

  method ReadPipeline(scan: Scanner) returns (pipeline: Pipeline)
    requires scan.Valid()
    modifies scan
    ensures scan.Valid() && (pipeline, scan.Remaining()) == ParsePipeline(old(scan.Remaining()))
    decreases |scan.Remaining()|
  {
    var command := ReadCommand(scan);
    if command == NoCommand {
      return NoPipeline;
    }
    pipeline := Pipeline(command, NoPipeline);
    var piped := scan.Eat(PIPE);
    if piped {
      var next := ReadPipeline(scan);
      pipeline := Pipeline(command, next);
    }
  }

  method ReadSequence(scan: Scanner) returns (sequence: Sequence)
    requires scan.Valid()
    modifies scan
    ensures scan.Valid() && (sequence, scan.Remaining()) == ParseSequence(old(scan.Remaining()))
    decreases |scan.Remaining()|
  {
    var pipeline := ReadPipeline(scan);
    if pipeline == NoPipeline {
      return NoSequence;
    }
    sequence := Sequence(pipeline, NoOp, NoSequence);
    var background := scan.Eat(AMP);
    if background {
      var next := ReadSequence(scan);
      sequence := Sequence(pipeline, Background, next);
    }
    var foreground := scan.Eat(SEMI);
    if foreground {
      var next := ReadSequence(scan);
      sequence := Sequence(pipeline, Foreground, next);
    }
  }

  method ReadPipelineAsSequence(scan: Scanner) returns (sequence: Sequence)
    requires scan.Valid()
    modifies scan
    ensures scan.Valid() && (sequence, scan.Remaining()) == ParseOne(old(scan.Remaining()))
  {
    var pipeline := ReadPipeline(scan);
    if pipeline == NoPipeline {
      return NoSequence;
    }
    sequence := Sequence(pipeline, NoOp, NoSequence);
    var background := scan.Eat(AMP);
    if background {
      sequence := sequence.(op := Background);
    }
    var foreground := scan.Eat(SEMI);
    if foreground {
      sequence := sequence.(op := Foreground);
    }
  }

  /** The interpreting loop: the trees handed to the interpreter, one a turn. */
  method Interpret(line: string) returns (executed: seq<Sequence>)
    ensures executed == ParseLine(Split(line))
  {
    hide ParseOne, ParseLine, Split;
    var scan := new Scanner(line);
    executed := [];
    assert [] + ParseLine(scan.Remaining()) == ParseLine(scan.Remaining());
    while true
      invariant fresh(scan) && scan.Valid()
      invariant executed + ParseLine(scan.Remaining()) == ParseLine(Split(line))
      decreases |scan.Remaining()|
    {
      ghost var ts := scan.Remaining();
      LineTurn(ts);
      var sequence := ReadPipelineAsSequence(scan);
      if sequence == NoSequence {
        break;
      }
      assert executed + ([sequence] + ParseLine(scan.Remaining()))
             == executed + [sequence] + ParseLine(scan.Remaining());
      executed := executed + [sequence];
    }
    assert executed + [] == executed;
  }
}
