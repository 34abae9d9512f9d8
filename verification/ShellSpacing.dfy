// Lines typed without quotes: what the parser makes of a word that runs into an operator, and when
// it reads the pipeline that was meant.
module ShellSpacing {
  import opened CStrings
  import opened ShellGrammar
  import opened ShellExpansion
  import opened ShellSpelling
  import opened ShellRoundTrip

  // A redirection as typed; the flags say whether a space is typed after a word.
  datatype Target = Target(kind: RedirKind, file: string, spaced: bool)

  datatype Segment = Segment(args: seq<string>, spaced: bool, targets: seq<Target>, background: bool)

  // Characters that stand for themselves wherever they are.
  predicate IsWord(w: string) {
    w != [] && forall i :: 0 <= i < |w| ==> IsLetter(w[i])
  }

  predicate IsLetter(c: char) {
    !IsSpace(c) && !IsOperator(c) && c !in {'"', '\'', '\\', '#', '$'}
  }

  function Slot(kind: RedirKind): RedirKind {
    if kind.Heredoc? then In else if kind.Append? then Out else kind
  }

  // Each slot is redirected at most once.
  predicate DistinctSlots(targets: seq<Target>) {
    targets != [] ==>
      && (forall i :: 0 < i < |targets| ==> Slot(targets[i].kind) != Slot(targets[0].kind))
      && DistinctSlots(targets[1..])
  }

  predicate WordFiles(targets: seq<Target>) {
    forall i :: 0 <= i < |targets| ==> IsWord(targets[i].file)
  }

  predicate IsSegment(s: Segment) {
    && 0 < |s.args| < MAX_ARGS && (forall i :: 0 <= i < |s.args| ==> IsWord(s.args[i]) && s.args[i][0] != '~')
    && WordFiles(s.targets) && DistinctSlots(s.targets)
  }

  // ----- Typing

  function Gap(spaced: bool): string {
    if spaced then " " else ""
  }

  // A space is always typed before the operator that starts with a digit.
  function Symbol(kind: RedirKind): string {
    if kind.Err? then " 2>" else Operator(kind)
  }

  // What is typed after the last argument and its gap.
  function TypeTail(targets: seq<Target>, background: bool, rest: string): string
    decreases |targets|, 0
  {
    if targets == [] then (if background then "&" else "") + rest
    else Symbol(targets[0].kind) + (targets[0].file + AfterWord(targets[0].spaced, targets[1..], background, rest))
  }

  function AfterWord(spaced: bool, targets: seq<Target>, background: bool, rest: string): string
    decreases |targets|, 1
  {
    Gap(spaced) + TypeTail(targets, background, rest)
  }

  function TypeArgs(args: seq<string>, after: string): string
    requires args != []
  {
    if |args| == 1 then args[0] + after else args[0] + ([' '] + TypeArgs(args[1..], after))
  }

  function TypeSegment(s: Segment, rest: string): string
    requires IsSegment(s)
  {
    TypeArgs(s.args, AfterWord(s.spaced, s.targets, s.background, rest))
  }

  predicate AreSegments(segs: seq<Segment>) {
    forall i :: 0 <= i < |segs| ==> IsSegment(segs[i])
  }

  // What is typed after the first segment.
  function Later(segs: seq<Segment>): string
    requires segs != [] && AreSegments(segs)
    decreases |segs|, 0
  {
    if |segs| == 1 then "" else ['|'] + TypeLine(segs[1..])
  }

  function TypeLine(segs: seq<Segment>): string
    requires AreSegments(segs)
    decreases |segs|, 1
  {
    if segs == [] then "" else TypeSegment(segs[0], Later(segs))
  }

  // ----- What is meant

  function MeantTail(cmd: Command, targets: seq<Target>, background: bool): Command
    decreases |targets|
  {
    if targets == [] then cmd.(background := background)
    else MeantTail(Redirect(cmd, targets[0].kind, Some(targets[0].file)), targets[1..], background)
  }

  function Start(s: Segment): Command
    requires IsSegment(s)
  {
    EmptyCommand(s.args[0][0] == '!')
  }

  function Meant(s: Segment): Command
    requires IsSegment(s)
  {
    MeantTail(Start(s).(args := s.args), s.targets, s.background)
  }

  function MeantLine(segs: seq<Segment>): seq<Command>
    requires AreSegments(segs)
  {
    if segs == [] then [] else [Meant(segs[0])] + MeantLine(segs[1..])
  }

  // ----- What is read

  // A word that runs into an operator is read together with all that follows.
  function Seen(w: string, after: string): string {
    if after != [] && IsOperator(after[0]) then w + after else w
  }

  function ReadTail(cmd: Command, targets: seq<Target>, background: bool, rest: string): Command
    decreases |targets|
  {
    if targets == [] then cmd.(background := background)
    else
      var t, later := targets[0], targets[1..];
      ReadTail(Redirect(cmd, t.kind, Some(Seen(t.file, AfterWord(t.spaced, later, background, rest)))), later, background, rest)
  }

  // A last argument 2 that runs into > is taken for the operator of standard error.
  predicate TakenForError(s: Segment)
    requires IsSegment(s)
  {
    s.args[|s.args| - 1] == "2" && !s.spaced && s.targets != [] && Slot(s.targets[0].kind) == Out
  }

  function AsKind(targets: seq<Target>, kind: RedirKind): seq<Target>
    requires targets != []
  {
    [targets[0].(kind := kind)] + targets[1..]
  }

  function ReadSegment(s: Segment, rest: string): Command
    requires IsSegment(s)
  {
    var cmd, last := Start(s).(args := s.args[..|s.args| - 1]), s.args[|s.args| - 1];
    if !TakenForError(s) then
      ReadTail(cmd.(args := cmd.args + [Seen(last, AfterWord(s.spaced, s.targets, s.background, rest))]), s.targets, s.background, rest)
    else if s.targets[0].kind == Out then ReadTail(cmd, AsKind(s.targets, Err), s.background, rest)
    else
      // of >> the second character starts the file name and is then read again
      var later := AsKind(s.targets, Out);
      ReadTail(Redirect(cmd, Err, Some(TypeTail(later, s.background, rest))), later, s.background, rest)
  }

  // A segment that is left without arguments is dropped.
  function ReadLine(segs: seq<Segment>): seq<Command>
    requires AreSegments(segs)
  {
    if segs == [] then []
    else
      var c := ReadSegment(segs[0], Later(segs));
      (if c.args == [] then [] else [c]) + ReadLine(segs[1..])
  }

  // ----- One word

  // What may follow a word.
  predicate Ends(after: string) {
    after == [] || after[0] == ' ' || IsOperator(after[0])
  }

  // Nothing for the comment stripper or for expansion to act on.
  predicate Harmless(s: string) {
    forall i :: 0 <= i < |s| ==> Inert(s[i]) && s[i] != '$'
  }

  predicate IsRest(rest: string) {
    (rest == [] || rest[0] == '|') && Harmless(rest)
  }

  lemma WordHarmless(w: string)
    requires IsWord(w)
    ensures Harmless(w)
  {
    assert forall i :: 0 <= i < |w| ==> IsLetter(w[i]);
  }

  lemma HarmlessConcat(s: string, t: string)
    requires Harmless(s) && Harmless(t)
    ensures Harmless(s + t)
  {
  }

  lemma TokenOf(w: string, after: string)
    requires IsWord(w) && Ends(after)
    ensures SkipSpace(w + after) == w + after
    ensures NextToken(w + after) == (Some(Seen(w, after)), if after != [] && after[0] == ' ' then after[1..] else after)
  {
    assert Simple(w) by {
      assert forall i :: 0 <= i < |w| ==> IsLetter(w[i]);
    }
    assert IsLetter(w[0]) && (w + after)[0] == w[0];
    BareWord(w, after);
  }

  lemma {:induction false} TailEnds(targets: seq<Target>, background: bool, rest: string)
    requires IsRest(rest) && WordFiles(targets)
    ensures Ends(TypeTail(targets, background, rest)) && Harmless(TypeTail(targets, background, rest))
    ensures forall spaced :: Ends(AfterWord(spaced, targets, background, rest)) && Harmless(AfterWord(spaced, targets, background, rest))
    decreases |targets|
  {
    if targets != [] {
      var t := targets[0];
      TailEnds(targets[1..], background, rest);
      WordHarmless(t.file);
      var after := AfterWord(t.spaced, targets[1..], background, rest);
      HarmlessConcat(t.file, after);
      HarmlessConcat(Symbol(t.kind), t.file + after);
    }
    forall spaced ensures Ends(AfterWord(spaced, targets, background, rest)) && Harmless(AfterWord(spaced, targets, background, rest)) {
      HarmlessConcat(Gap(spaced), TypeTail(targets, background, rest));
    }
  }

  lemma {:induction false} ArgsHarmless(args: seq<string>, after: string)
    requires args != [] && (forall i :: 0 <= i < |args| ==> IsWord(args[i])) && Harmless(after)
    ensures Harmless(TypeArgs(args, after))
    decreases |args|
  {
    WordHarmless(args[0]);
    if |args| > 1 {
      var more := TypeArgs(args[1..], after);
      ArgsHarmless(args[1..], after);
      HarmlessConcat(" ", more);
      HarmlessConcat(args[0], " " + more);
    } else {
      HarmlessConcat(args[0], after);
    }
  }

  lemma {:induction false} LineHarmless(segs: seq<Segment>)
    requires AreSegments(segs)
    ensures Harmless(TypeLine(segs))
    ensures segs != [] ==> IsRest(Later(segs))
    decreases |segs|
  {
    if segs != [] {
      var s, rest := segs[0], Later(segs);
      LineHarmless(segs[1..]);
      HarmlessConcat("|", TypeLine(segs[1..]));
      assert IsSegment(s);
      TailEnds(s.targets, s.background, rest);
      ArgsHarmless(s.args, AfterWord(s.spaced, s.targets, s.background, rest));
    }
  }

  // ----- Redirections

  lemma TargetStep(kind: RedirKind, w: string, after: string, cmd: Command)
    requires IsWord(w) && Ends(after)
    ensures ParseRedirections(Symbol(kind) + (w + after), cmd) == ParseRedirections(after, Redirect(cmd, kind, Some(Seen(w, after))))
  {
    var s := Operator(kind) + (w + after);
    SymbolRead(kind, w, after);
    TokenOf(w, after);
    hide NextToken, Seen, IsLetter, IsWord, Symbol, Operator, AtRedirection, RedirOperator;
    if kind.Err? {
      RedirectionsSkipSpace(s, cmd);
    }
    if after != [] && after[0] == ' ' {
      assert after == [' '] + after[1..];
      RedirectionsSkipSpace(after[1..], Redirect(cmd, kind, Some(Seen(w, after))));
    }
  }

  lemma SymbolRead(kind: RedirKind, w: string, after: string)
    requires IsWord(w)
    ensures var s := Operator(kind) + (w + after);
            && Symbol(kind) + (w + after) == (if kind.Err? then [' '] + s else s)
            && SkipSpace(s) == s && AtRedirection(s) && RedirOperator(s) == (kind, w + after)
  {
    var s := Operator(kind) + (w + after);
    assert kind.Err? ==> Symbol(kind) + (w + after) == [' '] + s;
    assert IsLetter(w[0]) && (w + after)[0] == w[0];
    assert s[|Operator(kind)|..] == w + after;
  }

  lemma SegmentTarget(env: Environment, kind: RedirKind, w: string, after: string, cmd: Command)
    requires IsWord(w) && Ends(after)
    ensures ParseSegment(env, Symbol(kind) + (w + after), cmd)
            == ParseSegment(env, after, Redirect(cmd, kind, Some(Seen(w, after))))
  {
    TargetStep(kind, w, after, cmd);
    SegmentAfterRedirections(env, Symbol(kind) + (w + after), cmd);
    SegmentAfterRedirections(env, after, Redirect(cmd, kind, Some(Seen(w, after))));
  }

  lemma SegmentGap(env: Environment, spaced: bool, s: string, cmd: Command)
    ensures ParseSegment(env, Gap(spaced) + s, cmd) == ParseSegment(env, s, cmd)
  {
    if spaced {
      SegmentSkipsSpace(env, s, cmd);
    } else {
      assert Gap(spaced) + s == s;
    }
  }

  lemma {:induction false} TailReads(env: Environment, targets: seq<Target>, background: bool, rest: string, cmd: Command)
    requires IsRest(rest) && WordFiles(targets) && !cmd.background
    ensures ParseSegment(env, TypeTail(targets, background, rest), cmd)
            == ParseSegment(env, rest, ReadTail(cmd, targets, background, rest))
    decreases |targets|
  {
    if targets == [] {
      if background {
        assert ("&" + rest)[1..] == rest;
      } else {
        assert "" + rest == rest;
      }
    } else {
      var t, later := targets[0], targets[1..];
      var after := AfterWord(t.spaced, later, background, rest);
      var cmd' := Redirect(cmd, t.kind, Some(Seen(t.file, after)));
      TailEnds(later, background, rest);
      hide ParseSegment, IsWord;
      SegmentTarget(env, t.kind, t.file, after, cmd);
      SegmentGap(env, t.spaced, TypeTail(later, background, rest), cmd');
      TailReads(env, later, background, rest, cmd');
    }
  }

  // ----- Arguments

  lemma SegmentWord(env: Environment, w: string, after: string, cmd: Command)
    requires IsWord(w) && w[0] != '~' && Ends(after) && Harmless(after) && |cmd.args| < MAX_ARGS - 1
    requires !(w == "2" && after != [] && after[0] == '>')
    ensures ParseSegment(env, w + after, cmd) == ParseSegment(env, after, cmd.(args := cmd.args + [Seen(w, after)]))
  {
    var s, token, cmd' := w + after, Seen(w, after), cmd.(args := cmd.args + [Seen(w, after)]);
    TokenOf(w, after);
    assert IsLetter(w[0]) && s[0] == w[0];
    assert !AtRedirection(s) by {
      if |w| > 1 {
        assert IsLetter(w[1]) && s[1] == w[1];
      }
    }
    assert Expand(env, token) == token by {
      assert forall i :: 0 <= i < |w| ==> IsLetter(w[i]);
    }
    hide NextToken, Seen, Expand, IsLetter, AtRedirection;
    if after != [] && after[0] == ' ' {
      assert after == [' '] + after[1..];
      SegmentSkipsSpace(env, after[1..], cmd');
    }
  }

  lemma ArgsUnfold(args: seq<string>, after: string)
    requires args != []
    ensures TypeArgs(args, after) == args[0] + (if |args| == 1 then after else " " + TypeArgs(args[1..], after))
    ensures Harmless(" ")
  {
  }

  lemma {:induction false} ArgsRead(env: Environment, args: seq<string>, after: string, cmd: Command)
    requires args != [] && (forall i :: 0 <= i < |args| ==> IsWord(args[i]) && args[i][0] != '~')
    requires Ends(after) && Harmless(after) && |cmd.args| + |args| < MAX_ARGS
    ensures ParseSegment(env, TypeArgs(args, after), cmd) ==
            ParseSegment(env, args[|args| - 1] + after, cmd.(args := cmd.args + args[..|args| - 1]))
    decreases |args|
  {
    hide ParseSegment, IsWord, TypeArgs, Harmless;
    ArgsUnfold(args, after);
    if |args| == 1 {
      assert cmd.args + args[..0] == cmd.args;
    } else {
      var cmd' := cmd.(args := cmd.args + [args[0]]);
      var more := TypeArgs(args[1..], after);
      ArgsRead(env, args[1..], after, cmd');
      ArgsHarmless(args[1..], after);
      HarmlessConcat(" ", more);
      SegmentWord(env, args[0], " " + more, cmd);
      SegmentGap(env, true, more, cmd');
      assert cmd'.args + args[1..][..|args| - 2] == cmd.args + args[..|args| - 1];
    }
  }

  lemma KindTyped(targets: seq<Target>, kind: RedirKind, background: bool, rest: string)
    requires targets != []
    ensures TypeTail(AsKind(targets, kind), background, rest) ==
            Symbol(kind) + (targets[0].file + AfterWord(targets[0].spaced, targets[1..], background, rest))
  {
  }

  lemma DigitText(file: string)
    ensures " 2>" + file == [' '] + ("2" + (">" + file))
    ensures "2" + (">>" + file) == "2>" + (">" + file)
  {
  }

  // "2>file" is the operator of standard error and its file,
  lemma TakenOut(env: Environment, targets: seq<Target>, background: bool, rest: string, cmd: Command)
    requires targets != [] && targets[0].kind == Out && IsRest(rest) && !cmd.background && WordFiles(targets)
    ensures ParseSegment(env, "2" + TypeTail(targets, background, rest), cmd)
            == ParseSegment(env, rest, ReadTail(cmd, AsKind(targets, Err), background, rest))
  {
    var s, later := "2" + TypeTail(targets, background, rest), AsKind(targets, Err);
    assert AsKind(targets, Out) == targets && WordFiles(later);
    KindTyped(targets, Out, background, rest);
    KindTyped(targets, Err, background, rest);
    DigitText(targets[0].file + AfterWord(targets[0].spaced, targets[1..], background, rest));
    hide ParseSegment, ReadTail, TypeTail, AfterWord, IsRest, WordFiles, AsKind;
    TailReads(env, later, background, rest, cmd);
    SegmentSkipsSpace(env, s, cmd);
  }

  // and in "2>>file" that operator takes the second > for the start of its file.
  lemma TakenAppend(env: Environment, targets: seq<Target>, background: bool, rest: string, cmd: Command)
    requires targets != [] && targets[0].kind == Append && IsRest(rest) && !cmd.background && WordFiles(targets)
    ensures var later := AsKind(targets, Out);
            ParseSegment(env, "2" + TypeTail(targets, background, rest), cmd) == ParseSegment(env, rest,
              ReadTail(Redirect(cmd, Err, Some(TypeTail(later, background, rest))), later, background, rest))
  {
    var s, later := "2" + TypeTail(targets, background, rest), AsKind(targets, Out);
    assert AsKind(targets, Append) == targets && WordFiles(later);
    KindTyped(targets, Out, background, rest);
    KindTyped(targets, Append, background, rest);
    DigitText(targets[0].file + AfterWord(targets[0].spaced, targets[1..], background, rest));
    var x := TypeTail(later, background, rest);
    var cmd' := Redirect(cmd, Err, Some(x));
    hide ParseSegment, ReadTail, TypeTail, AfterWord, IsRest, WordFiles, AsKind;
    TailReads(env, later, background, rest, cmd');
    ErrorTakesOperator(x, cmd);
    SegmentAfterRedirections(env, s, cmd);
    SegmentAfterRedirections(env, x, cmd');
  }

  lemma ErrorTakesOperator(x: string, cmd: Command)
    requires x != [] && x[0] == '>'
    ensures ParseRedirections("2>" + x, cmd) == ParseRedirections(x, Redirect(cmd, Err, Some(x)))
  {
    var s := "2>" + x;
    assert s[2..] == x;
    assert SkipSpace(s) == s && AtRedirection(s) && RedirOperator(s) == (Err, x);
    assert SkipSpace(x) == x && Bare(x) == ([], x) && [] + x == x;
    assert NextToken(x) == (Some(x), x);
  }

  // The last argument and the redirections.
  lemma LastReads(env: Environment, w: string, s: Segment, rest: string, cmd: Command)
    requires IsSegment(s) && IsRest(rest) && w == s.args[|s.args| - 1] && !TakenForError(s)
    requires |cmd.args| < MAX_ARGS - 1 && !cmd.background
    ensures var after := AfterWord(s.spaced, s.targets, s.background, rest);
            ParseSegment(env, w + after, cmd) ==
            ParseSegment(env, rest, ReadTail(cmd.(args := cmd.args + [Seen(w, after)]), s.targets, s.background, rest))
  {
    var after, tail := AfterWord(s.spaced, s.targets, s.background, rest), TypeTail(s.targets, s.background, rest);
    var cmd' := cmd.(args := cmd.args + [Seen(w, after)]);
    TailEnds(s.targets, s.background, rest);
    AfterStarts(s, rest);
    assert IsWord(w) && w[0] != '~' && WordFiles(s.targets);
    hide ParseSegment, ReadTail, TypeTail, IsSegment, IsWord, WordFiles, IsRest, Harmless, Seen;
    SegmentWord(env, w, after, cmd);
    SegmentGap(env, s.spaced, tail, cmd');
    TailReads(env, s.targets, s.background, rest, cmd');
  }

  lemma TakenReads(env: Environment, s: Segment, rest: string, cmd: Command)
    requires IsSegment(s) && IsRest(rest) && TakenForError(s) && !cmd.background
    ensures ParseSegment(env, "2" + AfterWord(s.spaced, s.targets, s.background, rest), cmd) == ParseSegment(env, rest,
              if s.targets[0].kind == Out then ReadTail(cmd, AsKind(s.targets, Err), s.background, rest)
              else
                var later := AsKind(s.targets, Out);
                ReadTail(Redirect(cmd, Err, Some(TypeTail(later, s.background, rest))), later, s.background, rest))
  {
    assert AfterWord(s.spaced, s.targets, s.background, rest) == TypeTail(s.targets, s.background, rest);
    hide ParseSegment, ReadTail, TypeTail, AfterWord, IsRest;
    if s.targets[0].kind == Out {
      TakenOut(env, s.targets, s.background, rest, cmd);
    } else {
      TakenAppend(env, s.targets, s.background, rest, cmd);
    }
  }

  lemma SegmentArguments(env: Environment, s: Segment, rest: string)
    requires IsSegment(s) && IsRest(rest)
    ensures var n := |s.args| - 1;
            ParseSegment(env, TypeSegment(s, rest), Start(s)) ==
            ParseSegment(env, s.args[n] + AfterWord(s.spaced, s.targets, s.background, rest), Start(s).(args := s.args[..n]))
  {
    TailEnds(s.targets, s.background, rest);
    hide ParseSegment, TypeArgs, AfterWord;
    ArgsRead(env, s.args, AfterWord(s.spaced, s.targets, s.background, rest), Start(s));
    assert Start(s).args + s.args[..|s.args| - 1] == s.args[..|s.args| - 1];
  }

  lemma SegmentReads(env: Environment, s: Segment, rest: string)
    requires IsSegment(s) && IsRest(rest)
    ensures ParseSegment(env, TypeSegment(s, rest), Start(s)) == ParseSegment(env, rest, ReadSegment(s, rest))
  {
    SegmentShape(s);
    hide ParseSegment, TypeSegment, AfterWord, TypeTail, ReadTail, IsRest, AsKind, Seen, TakenForError, Start, IsSegment;
    var n := |s.args| - 1;
    var cmd := Start(s).(args := s.args[..n]);
    SegmentArguments(env, s, rest);
    if TakenForError(s) {
      TakenReads(env, s, rest, cmd);
    } else {
      LastReads(env, s.args[n], s, rest, cmd);
    }
  }

  lemma SegmentShape(s: Segment)
    requires IsSegment(s)
    ensures 0 < |s.args| < MAX_ARGS && !Start(s).background && (TakenForError(s) ==> s.args[|s.args| - 1] == "2")
  {
  }

  lemma AfterStarts(s: Segment, rest: string)
    requires IsSegment(s) && IsRest(rest)
    ensures var after := AfterWord(s.spaced, s.targets, s.background, rest);
            after != [] && after[0] == '>' <==> !s.spaced && s.targets != [] && Slot(s.targets[0].kind) == Out
  {
  }

  // ----- Lines

  lemma SegmentStart(s: Segment, rest: string)
    requires IsSegment(s)
    ensures var line := TypeSegment(s, rest);
            line != [] && SkipSpace(line) == line && EmptyCommand(StartsPyBridge(line)) == Start(s)
  {
    assert IsWord(s.args[0]) && IsLetter(s.args[0][0]);
  }

  lemma FirstReads(env: Environment, segs: seq<Segment>, done: seq<Command>)
    requires AreSegments(segs) && segs != [] && |done| < MAX_PIPES
    ensures var c := ReadSegment(segs[0], Later(segs));
            ParseCommands(env, TypeLine(segs), done)
            == ParseCommands(env, TypeLine(segs[1..]), if c.args == [] then done else done + [c])
  {
    var s, rest := segs[0], Later(segs);
    LineHarmless(segs);
    SegmentReads(env, s, rest);
    SegmentEnd(env, TypeLine(segs[1..]), ReadSegment(s, rest));
    SegmentStart(s, rest);
    UnfoldCommands(env, TypeLine(segs), done);
    hide ParseCommands, ParseSegment, ReadSegment, TypeSegment, IsSegment, IsRest, StartsPyBridge;
  }

  lemma ReadLineUnfold(segs: seq<Segment>)
    requires AreSegments(segs) && segs != []
    ensures var c := ReadSegment(segs[0], Later(segs));
            ReadLine(segs) == (if c.args == [] then [] else [c]) + ReadLine(segs[1..])
  {
    hide ReadSegment, Later;
  }

  lemma {:induction false} LineReads(env: Environment, segs: seq<Segment>, done: seq<Command>)
    requires AreSegments(segs) && |done| + |segs| <= MAX_PIPES
    ensures ParseCommands(env, TypeLine(segs), done) == done + ReadLine(segs)
    decreases |segs|
  {
    if segs != [] {
      var c := ReadSegment(segs[0], Later(segs));
      var own := if c.args == [] then [] else [c];
      FirstReads(env, segs, done);
      ReadLineUnfold(segs);
      hide ParseCommands, ReadSegment, ReadLine, Later, TypeLine, IsSegment;
      assert (if c.args == [] then done else done + [c]) == done + own;
      LineReads(env, segs[1..], done + own);
      SeqAssociates(done, own, ReadLine(segs[1..]));
    } else {
      NoCommands(env, done);
    }
  }

  // Exactly what the parser makes of such a line, however it is spaced.
  lemma TypedLine(env: Environment, segs: seq<Segment>)
    requires AreSegments(segs) && 0 < |segs| <= MAX_PIPES
    ensures ParseLine(env, TypeLine(segs)) == if ReadLine(segs) == [] then None else Some(ReadLine(segs))
  {
    var line := TypeLine(segs);
    LineHarmless(segs);
    PassesInert(line);
    assert StripComments([], false, false) == [];
    hide StripComments, ParseCommands, ReadLine, TypeSegment;
    assert line + [] == line;
    assert StripComments(line + [], false, false) == line + [];
    SegmentStart(segs[0], Later(segs));
    LineReads(env, segs, []);
    assert [] + ReadLine(segs) == ReadLine(segs);
  }

  // ----- When it is what was meant

  // The next thing typed after a word is an operator character.
  predicate OperatorNext(targets: seq<Target>, background: bool, last: bool) {
    if targets != [] then !targets[0].kind.Err? else background || !last
  }

  predicate TailSpaced(targets: seq<Target>, background: bool, last: bool) {
    targets != [] ==>
      && (OperatorNext(targets[1..], background, last) ==> targets[0].spaced)
      && TailSpaced(targets[1..], background, last)
  }

  // A space is typed between every word and an operator after it.
  predicate IsSpaced(s: Segment, last: bool) {
    (OperatorNext(s.targets, s.background, last) ==> s.spaced) && TailSpaced(s.targets, s.background, last)
  }

  predicate LineSpaced(segs: seq<Segment>) {
    forall i :: 0 <= i < |segs| ==> IsSpaced(segs[i], i == |segs| - 1)
  }

  lemma SeenIs(w: string, spaced: bool, targets: seq<Target>, background: bool, rest: string)
    requires IsRest(rest)
    ensures Seen(w, AfterWord(spaced, targets, background, rest)) == w <==>
            (OperatorNext(targets, background, rest == []) ==> spaced)
  {
    var after := AfterWord(spaced, targets, background, rest);
    assert after != [] ==> |w + after| > |w|;
  }

  function At(cmd: Command, slot: RedirKind): Redirection {
    if slot == In then cmd.input else if slot == Out then cmd.output else cmd.error
  }

  lemma {:induction false} TailKeeps(cmd: Command, targets: seq<Target>, background: bool, rest: string, slot: RedirKind)
    requires forall i :: 0 <= i < |targets| ==> Slot(targets[i].kind) != slot
    requires slot in {In, Out, Err}
    ensures At(ReadTail(cmd, targets, background, rest), slot) == At(cmd, slot)
    ensures At(MeantTail(cmd, targets, background), slot) == At(cmd, slot)
    decreases |targets|
  {
    if targets != [] {
      var t, later := targets[0], targets[1..];
      TailKeeps(Redirect(cmd, t.kind, Some(Seen(t.file, AfterWord(t.spaced, later, background, rest)))), later, background, rest, slot);
      TailKeeps(Redirect(cmd, t.kind, Some(t.file)), later, background, rest, slot);
    }
  }

  lemma {:induction false} TailKeepsArgs(cmd: Command, targets: seq<Target>, background: bool, rest: string)
    ensures ReadTail(cmd, targets, background, rest).args == cmd.args
    ensures MeantTail(cmd, targets, background).args == cmd.args
    decreases |targets|
  {
    if targets != [] {
      var t, later := targets[0], targets[1..];
      TailKeepsArgs(Redirect(cmd, t.kind, Some(Seen(t.file, AfterWord(t.spaced, later, background, rest)))), later, background, rest);
      TailKeepsArgs(Redirect(cmd, t.kind, Some(t.file)), later, background, rest);
    }
  }

  lemma {:induction false} TailMeant(cmd: Command, targets: seq<Target>, background: bool, rest: string)
    requires DistinctSlots(targets) && IsRest(rest)
    ensures ReadTail(cmd, targets, background, rest) == MeantTail(cmd, targets, background) <==>
            TailSpaced(targets, background, rest == [])
    decreases |targets|
  {
    if targets != [] {
      var t, later := targets[0], targets[1..];
      var token := Seen(t.file, AfterWord(t.spaced, later, background, rest));
      var read, meant := Redirect(cmd, t.kind, Some(token)), Redirect(cmd, t.kind, Some(t.file));
      SeenIs(t.file, t.spaced, later, background, rest);
      TailKeeps(read, later, background, rest, Slot(t.kind));
      TailKeeps(meant, later, background, rest, Slot(t.kind));
      assert At(read, Slot(t.kind)) == Redirection(t.kind, Some(token)) && At(meant, Slot(t.kind)) == Redirection(t.kind, Some(t.file));
      TailMeant(meant, later, background, rest);
      hide Seen, AfterWord, OperatorNext, At, Redirect;
    }
  }

  lemma SegmentMeant(s: Segment, rest: string)
    requires IsSegment(s) && IsRest(rest)
    ensures ReadSegment(s, rest) == Meant(s) <==> IsSpaced(s, rest == [])
    ensures Meant(s).args != []
  {
    var n := |s.args| - 1;
    var init, token := s.args[..n], Seen(s.args[n], AfterWord(s.spaced, s.targets, s.background, rest));
    var cmd := Start(s).(args := init);
    SeenIs(s.args[n], s.spaced, s.targets, s.background, rest);
    TailKeepsArgs(Start(s).(args := s.args), s.targets, s.background, rest);
    assert s.args == init + [s.args[n]];
    hide AfterWord, Seen;
    if TakenForError(s) {
      TailKeepsArgs(cmd, AsKind(s.targets, Err), s.background, rest);
      var later := AsKind(s.targets, Out);
      TailKeepsArgs(Redirect(cmd, Err, Some(TypeTail(later, s.background, rest))), later, s.background, rest);
    } else {
      TailKeepsArgs(cmd.(args := init + [token]), s.targets, s.background, rest);
      assert (init + [token])[n] == token;
      TailMeant(Start(s).(args := s.args), s.targets, s.background, rest);
    }
  }

  lemma LineSpacedUnfold(segs: seq<Segment>)
    requires segs != []
    ensures LineSpaced(segs) <==> IsSpaced(segs[0], |segs| == 1) && LineSpaced(segs[1..])
  {
    var tail := segs[1..];
    hide IsSpaced;
    if LineSpaced(segs) {
      forall i | 0 <= i < |tail| ensures IsSpaced(tail[i], i == |tail| - 1) {
        assert IsSpaced(segs[i + 1], i + 1 == |segs| - 1);
      }
    }
    if LineSpaced(tail) && IsSpaced(segs[0], |segs| == 1) {
      forall i | 0 <= i < |segs| ensures IsSpaced(segs[i], i == |segs| - 1) {
        assert i > 0 ==> IsSpaced(tail[i - 1], i - 1 == |tail| - 1);
      }
    }
  }

  lemma {:induction false} LineMeant(segs: seq<Segment>)
    requires AreSegments(segs)
    ensures |ReadLine(segs)| <= |segs| == |MeantLine(segs)|
    ensures ReadLine(segs) == MeantLine(segs) <==> LineSpaced(segs)
  {
    if segs != [] {
      var rest := Later(segs);
      var c, m, read, meant := ReadSegment(segs[0], rest), Meant(segs[0]), ReadLine(segs[1..]), MeantLine(segs[1..]);
      LineHarmless(segs);
      LineMeant(segs[1..]);
      SegmentMeant(segs[0], rest);
      LineSpacedUnfold(segs);
      hide ReadSegment, Meant, LineSpaced, IsSpaced;
      assert MeantLine(segs) == [m] + meant && [m] + meant == MeantLine(segs);
      if c.args == [] {
        assert ReadLine(segs) == read;
      } else {
        assert ReadLine(segs) == [c] + read;
        assert ([c] + read)[0] == c && ([c] + read)[1..] == read && ([m] + meant)[0] == m && ([m] + meant)[1..] == meant;
      }
    }
  }

  // For every such line and every environment: the parser reads the pipeline that was meant if and
  // only if a space stands between every word and an operator after it.
  lemma ReadAsMeant(env: Environment, segs: seq<Segment>)
    requires AreSegments(segs) && 0 < |segs| <= MAX_PIPES
    ensures ParseLine(env, TypeLine(segs)) == Some(MeantLine(segs)) <==> LineSpaced(segs)
  {
    TypedLine(env, segs);
    LineMeant(segs);
    hide ParseLine, ReadLine, MeantLine, LineSpaced;
  }
}
