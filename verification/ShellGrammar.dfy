// What shell/src/parser.c computes, as functions on the unread text: the reference that the
// in-place tokenizer of ShellParser is proved against.
module ShellGrammar {
  import opened CStrings
  import opened ShellExpansion

  const MAX_ARGS := 64
  const MAX_PIPES := 8

  datatype RedirKind = Out | Append | In | Err | Heredoc

  datatype Redirection = NoRedirection | Redirection(kind: RedirKind, filename: Option<string>)

  datatype Command = Command(args: seq<string>, input: Redirection, output: Redirection, error: Redirection,
                             background: bool, pybridge: bool)

  // Characters that end an unquoted token without being consumed.
  predicate IsOperator(c: char) {
    c == '|' || c == '>' || c == '<' || c == '&'
  }

  // The text up to the first '#' outside quotes; an escaped character never counts.
  function StripComments(s: string, inSingle: bool, inDouble: bool): (t: string)
    ensures |t| <= |s|
  {
    if s == [] then []
    else if s[0] == '\'' && !inDouble then [s[0]] + StripComments(s[1..], !inSingle, inDouble)
    else if s[0] == '"' && !inSingle then [s[0]] + StripComments(s[1..], inSingle, !inDouble)
    else if s[0] == '\\' && !inSingle then
      if |s| > 1 then s[..2] + StripComments(s[2..], inSingle, inDouble) else s
    else if s[0] == '#' && !inSingle && !inDouble then []
    else [s[0]] + StripComments(s[1..], inSingle, inDouble)
  }

  function Unescape(c: char): char {
    if c == 'n' then '\n' else if c == 't' then '\t' else c
  }

  // After an opening double quote: the token and what follows the closing quote.
  function DoubleQuoted(s: string): (r: (string, string))
    ensures |r.0| + |r.1| <= |s|
  {
    if s == [] then ([], [])
    else if s[0] == '"' then ([], s[1..])
    else if s[0] == '\\' && |s| > 1 then
      var (token, rest) := DoubleQuoted(s[2..]);
      ([Unescape(s[1])] + token, rest)
    else
      var (token, rest) := DoubleQuoted(s[1..]);
      ([s[0]] + token, rest)
  }

  // After an opening single quote.
  function SingleQuoted(s: string): (r: (string, string))
    ensures |r.0| + |r.1| <= |s|
  {
    if s == [] then ([], [])
    else if s[0] == '\'' then ([], s[1..])
    else
      var (token, rest) := SingleQuoted(s[1..]);
      ([s[0]] + token, rest)
  }

  // An unquoted token with its backslashes removed, and what stopped it.
  function Bare(s: string): (r: (string, string))
    ensures |r.0| + |r.1| <= |s|
    ensures s != [] && !IsSpace(s[0]) && !IsOperator(s[0]) ==> |r.1| < |s|
    ensures r.1 != [] ==> IsSpace(r.1[0]) || IsOperator(r.1[0])
  {
    if s == [] || IsSpace(s[0]) || IsOperator(s[0]) then ([], s)
    else if s[0] == '\\' && |s| > 1 then
      var (token, rest) := Bare(s[2..]);
      ([s[1]] + token, rest)
    else
      var (token, rest) := Bare(s[1..]);
      ([s[0]] + token, rest)
  }

  // An unquoted token is only terminated by a space or the end of the line: one that runs into
  // an operator is read together with all the text that follows.
  function Unquoted(s: string): (r: (string, string))
    ensures |r.1| <= |s|
    ensures s != [] && !IsSpace(s[0]) && !IsOperator(s[0]) ==> |r.1| < |s|
  {
    var (token, rest) := Bare(s);
    if rest == [] then (token, [])
    else if IsSpace(rest[0]) then (token, rest[1..])
    else (token + rest, rest)
  }

  // next_token: the token, or None at the end of the line, and the unread text.
  function NextToken(s: string): (r: (Option<string>, string))
    ensures |r.1| <= |s|
    ensures s != [] && !IsSpace(s[0]) && !IsOperator(s[0]) ==> r.0.Some? && |r.1| < |s|
  {
    var t := SkipSpace(s);
    if t == [] then (None, s)
    else if t[0] == '"' then
      var (token, rest) := DoubleQuoted(t[1..]);
      (Some(token), rest)
    else if t[0] == '\'' then
      var (token, rest) := SingleQuoted(t[1..]);
      (Some(token), rest)
    else
      var (token, rest) := Unquoted(t);
      (Some(token), rest)
  }

  // s starts with a redirection operator.
  predicate AtRedirection(s: string) {
    s != [] && (s[0] == '>' || s[0] == '<' || (s[0] == '2' && |s| > 1 && s[1] == '>'))
  }

  // The operator at the start of s and the text after it.
  function RedirOperator(s: string): (r: (RedirKind, string))
    requires AtRedirection(s)
    ensures |r.1| < |s|
  {
    if s[0] == '>' then (if |s| > 1 && s[1] == '>' then (Append, s[2..]) else (Out, s[1..]))
    else if s[0] == '<' then (if |s| > 1 && s[1] == '<' then (Heredoc, s[2..]) else (In, s[1..]))
    else (Err, s[2..])
  }

  function Redirect(cmd: Command, kind: RedirKind, filename: Option<string>): Command {
    match kind
    case Out => cmd.(output := Redirection(Out, filename))
    case Append => cmd.(output := Redirection(Append, filename))
    case In => cmd.(input := Redirection(In, filename))
    case Heredoc => cmd.(input := Redirection(Heredoc, filename))
    case Err => cmd.(error := Redirection(Err, filename))
  }

  // parse_redirections: a run of redirections.
  function ParseRedirections(s: string, cmd: Command): (r: (Command, string))
    ensures |r.1| <= |s|
    ensures AtRedirection(s) ==> |r.1| < |s|
    ensures r.0.args == cmd.args
    decreases |s|
  {
    var t := SkipSpace(s);
    if !AtRedirection(t) then (cmd, t)
    else
      var (kind, rest) := RedirOperator(t);
      var (filename, rest') := NextToken(rest);
      ParseRedirections(rest', Redirect(cmd, kind, filename))
  }

  function AddArgument(cmd: Command, arg: string): Command {
    if |cmd.args| < MAX_ARGS - 1 then cmd.(args := cmd.args + [arg]) else cmd
  }

  // One pipeline segment: up to a pipe or the end of the line.
  function ParseSegment(env: Environment, s: string, cmd: Command): (r: (Command, string))
    ensures |r.1| <= |s| && (s != [] ==> |r.1| < |s|)
    ensures |cmd.args| < MAX_ARGS ==> |r.0.args| < MAX_ARGS
    decreases |s|
  {
    var t := SkipSpace(s);
    if t == [] then (cmd, t)
    else if t[0] == '|' then (cmd, t[1..])
    else if t[0] == '&' then ParseSegment(env, t[1..], cmd.(background := true))
    else if AtRedirection(t) then
      var (cmd', rest) := ParseRedirections(t, cmd);
      ParseSegment(env, rest, cmd')
    else
      var (token, rest) := NextToken(t);
      ParseSegment(env, rest, AddArgument(cmd, Expand(env, token.value)))
  }

  function EmptyCommand(pybridge: bool): Command {
    Command([], NoRedirection, NoRedirection, NoRedirection, false, pybridge)
  }

  predicate StartsPyBridge(s: string) {
    var t := SkipSpace(s);
    t != [] && t[0] == '!'
  }

  // The segments that have arguments, as long as there is room for another command.
  function ParseCommands(env: Environment, s: string, done: seq<Command>): (cmds: seq<Command>)
    decreases |s|
  {
    if s == [] || |done| >= MAX_PIPES then done
    else
      var (cmd, rest) := ParseSegment(env, s, EmptyCommand(StartsPyBridge(s)));
      ParseCommands(env, rest, if cmd.args == [] then done else done + [cmd])
  }

  // parser_parse_line: the pipeline, or None when the line holds no command.
  function ParseLine(env: Environment, input: string): Option<seq<Command>> {
    var s := StripComments(input, false, false);
    if SkipSpace(s) == [] then None
    else
      var cmds := ParseCommands(env, s, []);
      if cmds == [] then None else Some(cmds)
  }

  // The limits of pipeline_t: at most eight commands, each with 1 to 63 arguments.
  ghost predicate WithinLimits(cmds: seq<Command>) {
    |cmds| <= MAX_PIPES && forall i :: 0 <= i < |cmds| ==> 0 < |cmds[i].args| < MAX_ARGS
  }

  lemma {:induction false} ParseCommandsLimits(env: Environment, s: string, done: seq<Command>)
    requires WithinLimits(done)
    ensures WithinLimits(ParseCommands(env, s, done))
    decreases |s|
  {
    if s != [] && |done| < MAX_PIPES {
      var (cmd, rest) := ParseSegment(env, s, EmptyCommand(StartsPyBridge(s)));
      ParseCommandsLimits(env, rest, if cmd.args == [] then done else done + [cmd]);
    }
  }

  // For every line: a successful parse has 1 to 8 commands of 1 to 63 arguments each.
  lemma ParseLineLimits(env: Environment, input: string)
    ensures var r := ParseLine(env, input); r.Some? ==> r.value != [] && WithinLimits(r.value)
  {
    ParseCommandsLimits(env, StripComments(input, false, false), []);
  }
}
