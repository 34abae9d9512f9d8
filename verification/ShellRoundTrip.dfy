// Printing a pipeline, every word in any of the ways it can be written, and parsing it back.
module ShellRoundTrip {
  import opened CStrings
  import opened ShellGrammar
  import opened ShellExpansion
  import opened ShellSpelling

  // A redirection and a command as they are written.
  datatype File = NoFile | File(kind: RedirKind, name: Word)

  datatype Written = Written(args: seq<Word>, input: File, output: File, error: File, background: bool)

  function PrintArgs(args: seq<Word>): string {
    if args == [] then [] else Text(args[0]) + PrintArgs(args[1..])
  }

  function Operator(kind: RedirKind): string {
    match kind
    case Out => ">"
    case Append => ">>"
    case In => "<"
    case Heredoc => "<<"
    case Err => "2>"
  }

  function PrintFile(f: File): string {
    match f
    case NoFile => []
    case File(kind, name) => Operator(kind) + Text(name)
  }

  function PrintCommand(c: Written): string {
    PrintArgs(c.args) + PrintFile(c.input) + PrintFile(c.output) + PrintFile(c.error) + Background(c)
  }

  function Background(c: Written): string {
    if c.background then "& " else ""
  }

  function PrintPipeline(cmds: seq<Written>): string {
    if cmds == [] then []
    else if |cmds| == 1 then PrintCommand(cmds[0])
    else PrintCommand(cmds[0]) + "|" + PrintPipeline(cmds[1..])
  }

  // What was meant: arguments are expanded however they were quoted, file names are not.
  function MeantArgs(env: Environment, args: seq<Word>): seq<string> {
    if args == [] then [] else [Expand(env, Meaning(args[0].spelling))] + MeantArgs(env, args[1..])
  }

  function MeantFile(f: File): Redirection {
    match f
    case NoFile => NoRedirection
    case File(kind, name) => Redirection(kind, Some(Meaning(name.spelling)))
  }

  // A command whose first word starts with a bare ! goes to the Python bridge.
  predicate Bang(w: Word) {
    w.spelling.Unquoted? && w.spelling.pieces != [] && w.spelling.pieces[0] == Itself('!')
  }

  // At most the first 63 arguments and the first eight commands count.
  function Meant(env: Environment, c: Written): Command
    requires c.args != []
  {
    Command(Cut(MeantArgs(env, c.args), 63), MeantFile(c.input), MeantFile(c.output), MeantFile(c.error), c.background, Bang(c.args[0]))
  }

  // A slot is empty or names a file under one of its own operators.
  predicate Names(f: File, kinds: set<RedirKind>) {
    f.File? ==> f.kind in kinds && IsWord(f.name)
  }

  predicate AreWords(args: seq<Word>) {
    forall i :: 0 <= i < |args| ==> IsWord(args[i])
  }

  predicate Printable(c: Written) {
    && c.args != [] && AreWords(c.args)
    && Names(c.input, {In, Heredoc}) && Names(c.output, {Out, Append}) && Names(c.error, {Err})
  }

  predicate ArePrintable(cmds: seq<Written>) {
    forall i :: 0 <= i < |cmds| ==> Printable(cmds[i])
  }

  function MeantPipeline(env: Environment, cmds: seq<Written>): seq<Command>
    requires ArePrintable(cmds)
  {
    if cmds == [] then [] else [Meant(env, cmds[0])] + MeantPipeline(env, cmds[1..])
  }

  // ----- Comments: printed text has none

  lemma {:induction false} PassesArgs(args: seq<Word>)
    requires AreWords(args)
    ensures Passes(PrintArgs(args))
  {
    hide Passes;
    if args == [] {
      PassesInert([]);
    } else {
      assert IsWord(args[0]);
      PassesWord(args[0]);
      PassesArgs(args[1..]);
      PassesConcat(Text(args[0]), PrintArgs(args[1..]));
    }
  }

  lemma PassesFile(f: File)
    requires f.File? ==> IsWord(f.name)
    ensures Passes(PrintFile(f))
  {
    hide Passes;
    if f.File? {
      PassesInert(Operator(f.kind));
      PassesWord(f.name);
      PassesConcat(Operator(f.kind), Text(f.name));
    } else {
      PassesInert([]);
    }
  }

  lemma PassesCommand(c: Written)
    requires Printable(c)
    ensures Passes(PrintCommand(c))
  {
    hide Passes;
    var a, i, o, e := PrintArgs(c.args), PrintFile(c.input), PrintFile(c.output), PrintFile(c.error);
    PassesArgs(c.args);
    PassesFile(c.input);
    PassesFile(c.output);
    PassesFile(c.error);
    PassesInert(Background(c));
    PassesConcat(a, i);
    PassesConcat(a + i, o);
    PassesConcat(a + i + o, e);
    PassesConcat(a + i + o + e, Background(c));
  }

  lemma {:induction false} PassesPipeline(cmds: seq<Written>)
    requires ArePrintable(cmds)
    ensures Passes(PrintPipeline(cmds))
  {
    hide Passes, Printable;
    if cmds == [] {
      PassesInert([]);
    } else {
      PassesCommand(cmds[0]);
      if |cmds| > 1 {
        PassesInert("|");
        PassesPipeline(cmds[1..]);
        PassesConcat(PrintCommand(cmds[0]), "|");
        PassesConcat(PrintCommand(cmds[0]) + "|", PrintPipeline(cmds[1..]));
      }
    }
  }

  // ----- Words

  lemma SkipOneSpace(r: string)
    ensures SkipSpace([' '] + r) == SkipSpace(r)
  {
    assert ([' '] + r)[1..] == r;
  }

  // ParseSegment does not see leading space.
  lemma SegmentSkipsSpace(env: Environment, r: string, cmd: Command)
    ensures ParseSegment(env, [' '] + r, cmd) == ParseSegment(env, r, cmd)
  {
    SkipOneSpace(r);
  }

  // Nor does it see what stands before the next word or operator.
  lemma SegmentSame(env: Environment, r: string, r': string, cmd: Command)
    requires SkipSpace(r) == SkipSpace(r')
    ensures ParseSegment(env, r, cmd) == ParseSegment(env, r', cmd)
  {
  }

  lemma SegmentArg(env: Environment, w: Word, r: string, cmd: Command)
    requires IsWord(w) && |cmd.args| <= 63
    ensures ParseSegment(env, Text(w) + r, cmd)
            == ParseSegment(env, r, cmd.(args := Cut(cmd.args + [Expand(env, Meaning(w.spelling))], 63)))
  {
    var s := Text(w) + r;
    var args := cmd.args + [Expand(env, Meaning(w.spelling))];
    assert args[..|cmd.args|] == cmd.args;
    WordStart(w, r);
    TokenRead(w, r);
    SegmentSame(env, NextToken(s).1, r, cmd.(args := Cut(args, 63)));
    hide NextToken, Text, IsWord, Meaning, Expand;
  }

  lemma {:induction false} SegmentArgs(env: Environment, args: seq<Word>, r: string, cmd: Command)
    requires AreWords(args) && |cmd.args| <= 63
    ensures ParseSegment(env, PrintArgs(args) + r, cmd) ==
            ParseSegment(env, r, cmd.(args := Cut(cmd.args + MeantArgs(env, args), 63)))
  {
    hide ParseSegment, Text, Expand, Meaning;
    if args == [] {
      assert PrintArgs(args) + r == r && cmd.args + [] == cmd.args;
    } else {
      var r' := PrintArgs(args[1..]) + r;
      var first := Expand(env, Meaning(args[0].spelling));
      assert PrintArgs(args) + r == Text(args[0]) + r';
      assert IsWord(args[0]);
      SegmentArg(env, args[0], r', cmd);
      SegmentArgs(env, args[1..], r, cmd.(args := Cut(cmd.args + [first], 63)));
      CutTwice(cmd.args + [first], MeantArgs(env, args[1..]), 63);
      assert cmd.args + [first] + MeantArgs(env, args[1..]) == cmd.args + MeantArgs(env, args);
    }
  }

  // ----- Redirections

  lemma RedirectionsSkipSpace(r: string, cmd: Command)
    ensures ParseRedirections([' '] + r, cmd) == ParseRedirections(r, cmd)
  {
    SkipOneSpace(r);
  }

  lemma RedirectionsSame(r: string, r': string, cmd: Command)
    requires SkipSpace(r) == SkipSpace(r')
    ensures ParseRedirections(r, cmd) == ParseRedirections(r', cmd)
  {
  }

  // One printed redirection, inside a run of them.
  lemma RedirectionStep(kind: RedirKind, w: Word, r: string, cmd: Command)
    requires IsWord(w)
    ensures ParseRedirections(Operator(kind) + (Text(w) + r), cmd)
            == ParseRedirections(r, Redirect(cmd, kind, Some(Meaning(w.spelling))))
  {
    var s := Operator(kind) + (Text(w) + r);
    OperatorRead(kind, w, r);
    TokenRead(w, r);
    var cmd' := Redirect(cmd, kind, Some(Meaning(w.spelling)));
    RedirectionsSame(NextToken(Text(w) + r).1, r, cmd');
    hide NextToken, Text, Operator, SkipSpace, IsWord, Meaning, RedirOperator, AtRedirection;
  }

  lemma OperatorRead(kind: RedirKind, w: Word, r: string)
    requires IsWord(w)
    ensures var s := Operator(kind) + (Text(w) + r);
            SkipSpace(s) == s && AtRedirection(s) && RedirOperator(s) == (kind, Text(w) + r)
  {
    var s := Operator(kind) + (Text(w) + r);
    assert s[|Operator(kind)|..] == Text(w) + r;
    WordStart(w, r);
    assert s[|Operator(kind)|] == (Text(w) + r)[0];
    hide Text, IsWord;
  }

  // After a segment starts with redirections, parsing it is parsing the run and going on.
  lemma SegmentAfterRedirections(env: Environment, s: string, cmd: Command)
    ensures var (cmd', rest) := ParseRedirections(s, cmd);
            ParseSegment(env, s, cmd) == ParseSegment(env, rest, cmd')
  {
    var t := SkipSpace(s);
    SkipSpaceIdempotent(s);
    if AtRedirection(t) {
      assert ParseRedirections(t, cmd) == ParseRedirections(s, cmd);
    }
  }

  lemma SkipSpaceIdempotent(s: string)
    ensures SkipSpace(SkipSpace(s)) == SkipSpace(s)
  {
  }

  function Redirected(cmd: Command, f: File): Command {
    if f.File? then Redirect(cmd, f.kind, Some(Meaning(f.name.spelling))) else cmd
  }

  lemma SegmentFile(env: Environment, f: File, r: string, cmd: Command)
    requires f.File? ==> IsWord(f.name)
    ensures ParseSegment(env, PrintFile(f) + r, cmd) == ParseSegment(env, r, Redirected(cmd, f))
  {
    hide ParseSegment, Text, IsWord, Meaning, Operator;
    if f.File? {
      assert PrintFile(f) + r == Operator(f.kind) + (Text(f.name) + r);
      RedirectionStep(f.kind, f.name, r, cmd);
      SegmentAfterRedirections(env, PrintFile(f) + r, cmd);
      SegmentAfterRedirections(env, r, Redirected(cmd, f));
    } else {
      assert PrintFile(f) + r == r;
    }
  }

  // ----- Commands and pipelines

  lemma Regroup(a: string, i: string, o: string, e: string, b: string, r: string)
    ensures (a + i + o + e + b) + r == a + (i + (o + (e + (b + r))))
  {
  }

  // Each redirection fills its own slot.
  lemma SlotsFilled(c: Written, cmd: Command)
    requires Printable(c) && cmd == EmptyCommand(cmd.pybridge).(args := cmd.args)
    ensures Redirected(Redirected(Redirected(cmd, c.input), c.output), c.error)
            == cmd.(input := MeantFile(c.input), output := MeantFile(c.output), error := MeantFile(c.error))
  {
    hide Meaning, AreWords, IsWord;
  }

  // The redirections and the background mark.
  lemma SegmentTail(env: Environment, c: Written, r: string, cmd: Command)
    requires Printable(c) && cmd == EmptyCommand(cmd.pybridge).(args := cmd.args)
    ensures ParseSegment(env, PrintFile(c.input) + (PrintFile(c.output) + (PrintFile(c.error) + (Background(c) + r))), cmd)
            == ParseSegment(env, r, Command(cmd.args, MeantFile(c.input), MeantFile(c.output), MeantFile(c.error),
                                            c.background, cmd.pybridge))
  {
    var o, e, b := PrintFile(c.output), PrintFile(c.error), Background(c);
    var c2 := Redirected(cmd, c.input);
    var c3 := Redirected(c2, c.output);
    var c4 := Redirected(c3, c.error);
    SlotsFilled(c, cmd);
    SegmentBackground(env, r, c4.(background := c.background));
    assert c4.(background := c.background).(background := false) == c4;
    hide ParseSegment, PrintFile, Redirected, MeantFile, AreWords, IsWord;
    SegmentFile(env, c.input, o + (e + (b + r)), cmd);
    SegmentFile(env, c.output, e + (b + r), c2);
    SegmentFile(env, c.error, b + r, c3);
  }

  lemma SegmentCommand(env: Environment, c: Written, r: string)
    requires Printable(c)
    ensures ParseSegment(env, PrintCommand(c) + r, EmptyCommand(Bang(c.args[0]))) == ParseSegment(env, r, Meant(env, c))
  {
    var a, i, o, e, b := PrintArgs(c.args), PrintFile(c.input), PrintFile(c.output), PrintFile(c.error), Background(c);
    var bang, args := Bang(c.args[0]), Cut(MeantArgs(env, c.args), 63);
    hide ParseSegment, Cut, PrintArgs, PrintFile, MeantArgs, Bang, AreWords, IsWord, Background, Names;
    Regroup(a, i, o, e, b, r);
    SegmentArgs(env, c.args, i + (o + (e + (b + r))), EmptyCommand(bang));
    assert EmptyCommand(bang).args + MeantArgs(env, c.args) == MeantArgs(env, c.args);
    SegmentTail(env, c, r, EmptyCommand(bang).(args := args));
  }

  lemma SegmentBackground(env: Environment, r: string, c: Command)
    ensures ParseSegment(env, (if c.background then "& " else "") + r, c.(background := false)) == ParseSegment(env, r, c)
  {
    if c.background {
      assert ("& " + r)[1..] == [' '] + r;
      SegmentSkipsSpace(env, r, c);
    } else {
      assert "" + r == r;
    }
  }

  lemma SegmentEnd(env: Environment, rest: string, c: Command)
    ensures ParseSegment(env, [], c) == (c, [])
    ensures ParseSegment(env, ['|'] + rest, c) == (c, rest)
  {
    assert (['|'] + rest)[1..] == rest;
  }

  lemma CommandStart(c: Written, r: string)
    requires Printable(c)
    ensures var s := PrintCommand(c) + r; s != [] && SkipSpace(s) == s && StartsPyBridge(s) == Bang(c.args[0])
  {
    var w := c.args[0];
    var i, o, e, b := PrintFile(c.input), PrintFile(c.output), PrintFile(c.error), Background(c);
    var rest := i + (o + (e + (b + r)));
    assert IsWord(w) && PrintArgs(c.args) == Text(w) + PrintArgs(c.args[1..]);
    Regroup(PrintArgs(c.args), i, o, e, b, r);
    WordStart(w, PrintArgs(c.args[1..]) + rest);
    hide Text, PrintFile, PrintArgs, IsWord, Background;
    SeqAssociates(Text(w), PrintArgs(c.args[1..]), rest);
  }

  // One printed command, at the end of the line or before a pipe.
  lemma CommandsStep(env: Environment, c: Written, last: bool, rest: string, done: seq<Command>)
    requires Printable(c) && |done| < MAX_PIPES
    requires last ==> rest == []
    ensures ParseCommands(env, PrintCommand(c) + (if last then [] else ['|'] + rest), done)
            == ParseCommands(env, rest, done + [Meant(env, c)])
  {
    var r := if last then [] else ['|'] + rest;
    assert Meant(env, c).args != [];
    CommandStart(c, r);
    SegmentCommand(env, c, r);
    SegmentEnd(env, rest, Meant(env, c));
    hide ParseSegment, PrintCommand, Printable, SkipSpace, ParseCommands, Meant, StartsPyBridge, Bang;
    UnfoldCommands(env, PrintCommand(c) + r, done);
  }

  lemma UnfoldCommands(env: Environment, s: string, done: seq<Command>)
    requires s != [] && |done| < MAX_PIPES
    ensures var (cmd, rest) := ParseSegment(env, s, EmptyCommand(StartsPyBridge(s)));
            ParseCommands(env, s, done) == ParseCommands(env, rest, if cmd.args == [] then done else done + [cmd])
  {
    hide ParseSegment, StartsPyBridge;
  }

  lemma {:induction false} CommandsRoundTrip(env: Environment, cmds: seq<Written>, done: seq<Command>)
    requires ArePrintable(cmds) && |done| <= 8
    ensures ParseCommands(env, PrintPipeline(cmds), done) == Cut(done + MeantPipeline(env, cmds), 8)
    decreases |cmds|
  {
    if cmds == [] {
      NoCommands(env, done);
    } else if |done| == 8 {
      assert Cut(done + MeantPipeline(env, cmds), 8) == done;
    } else {
      var c, rest := cmds[0], PrintPipeline(cmds[1..]);
      assert Printable(c);
      hide ParseCommands, PrintCommand, Printable, Meant;
      CommandsStep(env, c, |cmds| == 1, rest, done);
      CommandsRoundTrip(env, cmds[1..], done + [Meant(env, c)]);
      PipelineUnfolds(cmds);
      SeqAssociates(done, [Meant(env, c)], MeantPipeline(env, cmds[1..]));
    }
  }

  lemma PipelineUnfolds(cmds: seq<Written>)
    requires cmds != []
    ensures PrintPipeline(cmds) == PrintCommand(cmds[0]) + (if |cmds| == 1 then [] else ['|'] + PrintPipeline(cmds[1..]))
  {
    hide PrintCommand;
    assert |cmds| == 1 ==> cmds[1..] == [] && PrintCommand(cmds[0]) + [] == PrintCommand(cmds[0]);
  }

  lemma NoCommands(env: Environment, done: seq<Command>)
    ensures ParseCommands(env, [], done) == done + []
  {
  }

  // Parsing a printed pipeline gives the pipeline that was meant, whichever way its words are written.
  lemma RoundTrip(env: Environment, cmds: seq<Written>)
    requires cmds != [] && ArePrintable(cmds)
    ensures ParseLine(env, PrintPipeline(cmds)) == Some(Cut(MeantPipeline(env, cmds), 8))
  {
    var s := PrintPipeline(cmds);
    assert Printable(cmds[0]);
    hide ParseCommands, PrintCommand, Meant, Printable;
    PassesPipeline(cmds);
    assert StripComments([], false, false) == [];
    hide StripComments;
    assert s + [] == s;
    assert StripComments(s, false, false) == s;
    PipelineUnfolds(cmds);
    CommandStart(cmds[0], if |cmds| == 1 then [] else ['|'] + PrintPipeline(cmds[1..]));
    CommandsRoundTrip(env, cmds, []);
    assert [] + MeantPipeline(env, cmds) == MeantPipeline(env, cmds);
  }

  // and a comment after it changes nothing.
  lemma CommentedRoundTrip(env: Environment, cmds: seq<Written>, comment: string)
    requires cmds != [] && ArePrintable(cmds)
    ensures ParseLine(env, PrintPipeline(cmds) + ("#" + comment)) == Some(Cut(MeantPipeline(env, cmds), 8))
  {
    hide ParseLine, Passes, PrintPipeline, MeantPipeline, ArePrintable;
    PassesPipeline(cmds);
    CommentCut(env, PrintPipeline(cmds), comment);
    RoundTrip(env, cmds);
  }

  // ----- Any pipeline can be printed

  // The word w in double quotes.
  function Quote(w: string, breaks: bool): (q: Word)
    ensures IsWord(q)
  {
    Word(Double(QuotePieces(w, breaks)), " ")
  }

  function QuoteArgs(args: seq<string>, breaks: bool): (q: seq<Word>)
    ensures AreWords(q) && |q| == |args|
  {
    if args == [] then [] else [Quote(args[0], breaks)] + QuoteArgs(args[1..], breaks)
  }

  function QuoteFile(r: Redirection, breaks: bool): File {
    if r.Redirection? && r.filename.Some? then File(r.kind, Quote(r.filename.value, breaks)) else NoFile
  }

  function QuoteCommand(c: Command, breaks: bool): Written {
    Written(QuoteArgs(c.args, breaks), QuoteFile(c.input, breaks), QuoteFile(c.output, breaks), QuoteFile(c.error, breaks),
            c.background)
  }

  function QuotePipeline(cmds: seq<Command>, breaks: bool): seq<Written> {
    if cmds == [] then [] else [QuoteCommand(cmds[0], breaks)] + QuotePipeline(cmds[1..], breaks)
  }

  function ExpandArgs(env: Environment, args: seq<string>): seq<string> {
    if args == [] then [] else [Expand(env, args[0])] + ExpandArgs(env, args[1..])
  }

  function Expanded(env: Environment, c: Command): Command {
    c.(args := ExpandArgs(env, c.args))
  }

  function ExpandedPipeline(env: Environment, cmds: seq<Command>): seq<Command> {
    if cmds == [] then [] else [Expanded(env, cmds[0])] + ExpandedPipeline(env, cmds[1..])
  }

  // Redirections as the parser can store them.
  predicate Redirects(r: Redirection, kinds: set<RedirKind>) {
    r.Redirection? ==> r.kind in kinds && r.filename.Some?
  }

  predicate Parsable(c: Command) {
    && 0 < |c.args| <= 63 && !c.pybridge
    && Redirects(c.input, {In, Heredoc}) && Redirects(c.output, {Out, Append}) && Redirects(c.error, {Err})
  }

  predicate ParsablePipeline(cmds: seq<Command>) {
    forall i :: 0 <= i < |cmds| ==> Parsable(cmds[i])
  }

  lemma {:induction false} QuotedArgs(env: Environment, args: seq<string>, breaks: bool)
    ensures MeantArgs(env, QuoteArgs(args, breaks)) == ExpandArgs(env, args) && |ExpandArgs(env, args)| == |args|
  {
    if args != [] {
      QuoteMeans(args[0], breaks);
      QuotedArgs(env, args[1..], breaks);
      hide QuotePieces, QuotedMeaning, Expand;
    }
  }

  lemma QuotedFile(r: Redirection, kinds: set<RedirKind>, breaks: bool)
    requires Redirects(r, kinds)
    ensures MeantFile(QuoteFile(r, breaks)) == r && Names(QuoteFile(r, breaks), kinds)
  {
    if r.Redirection? {
      QuoteMeans(r.filename.value, breaks);
    }
  }

  lemma QuotedCommand(env: Environment, c: Command, breaks: bool)
    requires Parsable(c)
    ensures Printable(QuoteCommand(c, breaks)) && Meant(env, QuoteCommand(c, breaks)) == Expanded(env, c)
  {
    QuotedArgs(env, c.args, breaks);
    QuotedFile(c.input, {In, Heredoc}, breaks);
    QuotedFile(c.output, {Out, Append}, breaks);
    QuotedFile(c.error, {Err}, breaks);
    hide MeantArgs, ExpandArgs, MeantFile, QuoteFile, Names, AreWords;
  }

  lemma {:induction false} QuotedPipeline(env: Environment, cmds: seq<Command>, breaks: bool)
    requires ParsablePipeline(cmds)
    ensures var q := QuotePipeline(cmds, breaks);
            |q| == |cmds| == |ExpandedPipeline(env, cmds)| && ArePrintable(q)
            && MeantPipeline(env, q) == ExpandedPipeline(env, cmds)
  {
    if cmds != [] {
      assert Parsable(cmds[0]);
      QuotedCommand(env, cmds[0], breaks);
      QuotedPipeline(env, cmds[1..], breaks);
      hide Parsable, Printable, Meant, QuoteCommand, Expanded;
    }
  }

  // For every pipeline: printed in double quotes, with line breaks and tabs as they are or as \n
  // and \t, it comes back with its arguments expanded.
  lemma QuotedRoundTrip(env: Environment, cmds: seq<Command>, breaks: bool)
    requires 0 < |cmds| <= 8 && ParsablePipeline(cmds)
    ensures ParseLine(env, PrintPipeline(QuotePipeline(cmds, breaks))) == Some(ExpandedPipeline(env, cmds))
  {
    QuotedPipeline(env, cmds, breaks);
    RoundTrip(env, QuotePipeline(cmds, breaks));
  }

  // Words that no environment can change.
  predicate Plain(w: string) {
    '$' !in w && (w == "" || w[0] != '~')
  }

  lemma {:induction false} PlainArgs(env: Environment, args: seq<string>)
    requires forall i :: 0 <= i < |args| ==> Plain(args[i])
    ensures ExpandArgs(env, args) == args
  {
    if args != [] {
      assert Plain(args[0]);
      PlainArgs(env, args[1..]);
    }
  }

  lemma {:induction false} PlainPipeline(env: Environment, cmds: seq<Command>)
    requires forall i, j :: 0 <= i < |cmds| && 0 <= j < |cmds[i].args| ==> Plain(cmds[i].args[j])
    ensures ExpandedPipeline(env, cmds) == cmds
  {
    if cmds != [] {
      PlainArgs(env, cmds[0].args);
      PlainPipeline(env, cmds[1..]);
    }
  }

  // Without words to expand, the very same pipeline comes back.
  lemma PlainRoundTrip(env: Environment, cmds: seq<Command>, breaks: bool)
    requires 0 < |cmds| <= 8 && ParsablePipeline(cmds)
    requires forall i, j :: 0 <= i < |cmds| && 0 <= j < |cmds[i].args| ==> Plain(cmds[i].args[j])
    ensures ParseLine(env, PrintPipeline(QuotePipeline(cmds, breaks))) == Some(cmds)
  {
    QuotedRoundTrip(env, cmds, breaks);
    PlainPipeline(env, cmds);
  }

  // ----- Unquoted words are not always delimited

  predicate Simple(w: string) {
    forall i :: 0 <= i < |w| ==> !IsSpace(w[i]) && !IsOperator(w[i]) && w[i] !in {'"', '\'', '\\'}
  }

  lemma {:induction false} BareWord(w: string, r: string)
    requires Simple(w) && (r != [] ==> IsSpace(r[0]) || IsOperator(r[0]))
    ensures Bare(w + r) == (w, r)
  {
    if w == [] {
      assert w + r == r;
    } else {
      assert (w + r)[1..] == w[1..] + r;
      BareWord(w[1..], r);
      assert w == [w[0]] + w[1..];
    }
  }

  // A word is read as itself exactly when no operator stands directly after it.
  lemma UnquotedDelimited(w: string, r: string)
    requires w != [] && Simple(w) && (r != [] ==> IsSpace(r[0]) || IsOperator(r[0]))
    ensures NextToken(w + r).0 == Some(w) <==> r == [] || IsSpace(r[0])
  {
    BareWord(w, r);
    assert (w + r)[0] == w[0] && |w + r| == |w| + |r|;
  }

  // In "ls|wc" the first word is "ls|wc" and the pipe is read again after it; in "ls |wc" it is "ls".
  lemma WordRunsOn(w: string, r: string)
    requires w != [] && Simple(w) && r != [] && IsOperator(r[0])
    ensures NextToken(w + r) == (Some(w + r), r)
    ensures NextToken(w + ([' '] + r)) == (Some(w), r)
  {
    BareWord(w, r);
    BareWord(w, [' '] + r);
    assert ([' '] + r)[1..] == r;
    assert Simple(w) && (w + r)[0] == w[0] && (w + ([' '] + r))[0] == w[0];
  }
}
