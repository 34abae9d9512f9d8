// The in-place command parser of shell/src/parser.c: it rewrites the line buffer while reading it.
module ShellParser {
  import opened CStrings
  import opened ShellGrammar
  import opened ShellExpansion

  // buf[pos..end] is unread text and end its terminator.
  ghost predicate Unread(buf: seq<char>, pos: int, end: int) {
    0 <= pos <= end < |buf| && buf[end] == NUL && NUL !in buf[pos..end]
  }

  lemma UnreadSuffix(buf: seq<char>, pos: int, end: int, next: int)
    requires Unread(buf, pos, end) && pos <= next <= end
    ensures Unread(buf, next, end)
  {
  }

  lemma UnreadAt(buf: seq<char>, pos: int, end: int)
    requires Unread(buf, pos, end)
    ensures buf[pos] == NUL <==> pos == end
    ensures pos < end ==> buf[pos..end] == [buf[pos]] + buf[pos + 1..end]
  {
    if pos < end {
      assert buf[pos..end][0] == buf[pos];
    }
  }

  method SkipWhitespace(buf: array<char>, pos: int, ghost end: int) returns (p: int)
    requires Unread(buf[..], pos, end)
    ensures pos <= p <= end && Unread(buf[..], p, end)
    ensures buf[p..end] == SkipSpace(buf[pos..end])
  {
    p := pos;
    while buf[p] != NUL && IsSpace(buf[p])
      invariant pos <= p <= end && Unread(buf[..], p, end)
      invariant SkipSpace(buf[p..end]) == SkipSpace(buf[pos..end])
      decreases end - p
    {
      UnreadAt(buf[..], p, end);
      UnreadSuffix(buf[..], p, end, p + 1);
      p := p + 1;
    }
    UnreadAt(buf[..], p, end);
  }

  // How far the comment stripper moves at a character.
  function StripWidth(t: string, inSingle: bool): nat {
    if |t| > 1 && t[0] == '\\' && !inSingle then 2 else 1
  }

  predicate AtComment(t: string, inSingle: bool, inDouble: bool) {
    t != [] && t[0] == '#' && !inSingle && !inDouble
  }

  lemma StripStep(buf: seq<char>, s: int, end: int, inSingle: bool, inDouble: bool)
    requires Unread(buf, s, end) && s < end
    ensures var t := buf[s..end];
            var next := s + StripWidth(t, inSingle);
            && next <= end
            && StripComments(t, inSingle, inDouble) ==
               if AtComment(t, inSingle, inDouble) then []
               else buf[s..next] + StripComments(buf[next..end],
                                                 if t[0] == '\'' && !inDouble then !inSingle else inSingle,
                                                 if t[0] == '"' && !inSingle then !inDouble else inDouble)
  {
    var t := buf[s..end];
    var n := StripWidth(t, inSingle);
    assert t[n..] == buf[s + n..end] && t[..n] == buf[s..s + n];
    assert n == 1 ==> t[..1] == [t[0]];
    if |t| == 1 {
      assert t == [t[0]] + [];
    }
  }

  method StripInPlace(buf: array<char>, ghost end: int) returns (ghost end': int)
    requires Unread(buf[..], 0, end)
    modifies buf
    ensures Unread(buf[..], 0, end') && buf[..end'] == StripComments(old(buf[..end]), false, false)
  {
    hide StripComments;
    var inSingle, inDouble := false, false;
    var s := 0;
    end' := end;
    ghost var line, kept := buf[..], StripComments(buf[..end], false, false);
    assert buf[0..end] == buf[..end];
    while buf[s] != NUL
      invariant 0 <= s <= end && Unread(line, s, end) && buf[..] == line
      invariant kept == line[..s] + StripComments(line[s..end], inSingle, inDouble)
      decreases end - s
    {
      ghost var here := s;
      UnreadAt(line, s, end);
      StripStep(line, s, end, inSingle, inDouble);
      UnreadSuffix(line, s, end, s + 1);
      UnreadAt(line, s + 1, end);
      if buf[s] == '\'' && !inDouble {
        inSingle := !inSingle;
      } else if buf[s] == '"' && !inSingle {
        inDouble := !inDouble;
      } else if buf[s] == '\\' && !inSingle {
        if buf[s + 1] != NUL {
          s := s + 1;
        }
      } else if buf[s] == '#' && !inSingle && !inDouble {
        buf[s] := NUL;
        end' := s;
        return;
      }
      s := s + 1;
      UnreadSuffix(line, here, end, s);
      Join(line, here, s, StripComments(line[s..end], inSingle, inDouble));
    }
    UnreadAt(line, s, end);
    assert StripComments([], inSingle, inDouble) == [] by { StripNothing(inSingle, inDouble); }
  }

  lemma StripNothing(inSingle: bool, inDouble: bool)
    ensures StripComments([], inSingle, inDouble) == []
  {
  }

  lemma Join(line: string, i: int, j: int, rest: string)
    requires 0 <= i <= j <= |line|
    ensures line[..i] + (line[i..j] + rest) == line[..j] + rest
  {
    assert line[..j] == line[..i] + line[i..j];
  }

  // ----- Tokens

  lemma DoubleQuotedStep(buf: seq<char>, s: int, end: int)
    requires Unread(buf, s, end) && s < end
    ensures var t := buf[s..end];
            if t[0] == '"' then DoubleQuoted(t) == ([], buf[s + 1..end])
            else if t[0] == '\\' && |t| > 1 then
              var (token, rest) := DoubleQuoted(buf[s + 2..end]);
              DoubleQuoted(t) == ([Unescape(buf[s + 1])] + token, rest)
            else
              var (token, rest) := DoubleQuoted(buf[s + 1..end]);
              DoubleQuoted(t) == ([buf[s]] + token, rest)
  {
    var t := buf[s..end];
    assert t[1..] == buf[s + 1..end];
    if |t| > 1 {
      assert t[2..] == buf[s + 2..end];
    }
  }

  // What the quoted-token loops keep: the token so far and the rest make up the whole.
  ghost predicate Splits(whole: (string, string), token: string, rest: (string, string)) {
    whole == (token + rest.0, rest.1)
  }

  lemma SplitsStart(whole: (string, string))
    ensures Splits(whole, [], whole)
  {
    assert [] + whole.0 == whole.0;
  }

  lemma SplitsEnd(whole: (string, string), token: string, rest: string)
    requires Splits(whole, token, ([], rest))
    ensures whole == (token, rest)
  {
    assert token + [] == token;
  }

  lemma SplitsMore(whole: (string, string), token: string, c: char, rest: (string, string), rest': (string, string))
    requires Splits(whole, token, rest) && rest == ([c] + rest'.0, rest'.1)
    ensures Splits(whole, token + [c], rest')
  {
    assert token + ([c] + rest'.0) == (token + [c]) + rest'.0;
  }

  // Unescapes in place up to the closing quote; the write position never passes the read position.
  method UnescapeInPlace(buf: array<char>, pos: int, ghost end: int) returns (s: int, dst: int)
    requires Unread(buf[..], pos, end)
    modifies buf
    ensures pos <= dst <= s <= end && buf[s..] == old(buf[s..]) && (s == end || buf[s] == '"')
    ensures var (token, rest) := DoubleQuoted(old(buf[pos..end]));
            buf[pos..dst] == token && NUL !in token && DoubleQuoted(buf[s..end]) == ([], rest)
  {
    ghost var line, whole := buf[..], DoubleQuoted(buf[pos..end]);
    ghost var now, token := line, [];
    s, dst := pos, pos;
    SplitsStart(whole);
    assert line[pos..end] == buf[pos..end];
    UnreadAt(line, s, end);
    hide DoubleQuoted, Splits, Unescape, Rewritten;
    RewrittenStart(line, pos);
    while buf[s] != NUL && buf[s] != '"'
      invariant buf[..] == now && s <= end && Unread(line, s, end) && Rewritten(line, now, pos, dst, s, token)
      invariant pos <= dst <= s && now[s] == line[s] && (line[s] == NUL <==> s == end)
      invariant Splits(whole, token, DoubleQuoted(line[s..end]))
      decreases end - s
    {
      hide Unread;
      QuotedMore(line, s, end, whole, token);
      RewrittenAt(line, now, pos, dst, s, token);
      var c, next := QuotedChar(buf, s);
      UnreadAt(line, next, end);
      RewrittenMore(line, now, pos, dst, s, next, token, c);
      s := next;
      token := token + [c];
      buf[dst] := c;
      now := now[dst := c];
      dst := dst + 1;
    }
    RewrittenEnd(line, now, pos, dst, s, token);
    assert now[s..end] == line[s..end];
    DoubleQuotedEnd(line, s, end);
    SplitsEnd(whole, token, DoubleQuoted(line[s..end]).1);
  }

  // The next character of a double-quoted token, and the read position after it.
  method QuotedChar(buf: array<char>, s: int) returns (c: char, next: int)
    requires 0 <= s < buf.Length - 1
    ensures (c, next) == if buf[s] == '\\' && buf[s + 1] != NUL then (Unescape(buf[s + 1]), s + 2) else (buf[s], s + 1)
  {
    c, next := buf[s], s;
    if buf[s] == '\\' && buf[s + 1] != NUL {
      next := next + 1;
      c := Unescape(buf[next]);
    }
    next := next + 1;
  }

  // Before dst stands the token, from s on the original line.
  ghost predicate Rewritten(line: seq<char>, now: seq<char>, pos: int, dst: int, s: int, token: string) {
    && 0 <= pos <= dst <= s <= |now| == |line|
    && now[pos..dst] == token && NUL !in token && now[s..] == line[s..]
  }

  lemma RewrittenStart(line: seq<char>, pos: int)
    requires 0 <= pos <= |line|
    ensures Rewritten(line, line, pos, pos, pos, [])
  {
  }

  lemma RewrittenAt(line: seq<char>, now: seq<char>, pos: int, dst: int, s: int, token: string)
    requires Rewritten(line, now, pos, dst, s, token)
    ensures |now| == |line| && forall k :: s <= k < |line| ==> now[k] == line[k]
  {
    forall k | s <= k < |line| ensures now[k] == line[k] {
      assert now[s..][k - s] == line[s..][k - s];
    }
  }

  // One write behind the read position.
  lemma RewrittenMore(line: seq<char>, now: seq<char>, pos: int, dst: int, s: int, next: int, token: string, c: char)
    requires Rewritten(line, now, pos, dst, s, token) && s < next <= |line| && c != NUL
    ensures Rewritten(line, now[dst := c], pos, dst + 1, next, token + [c])
    ensures next < |line| ==> now[dst := c][next] == line[next]
  {
    RewrittenAt(line, now, pos, dst, s, token);
  }

  lemma RewrittenEnd(line: seq<char>, now: seq<char>, pos: int, dst: int, s: int, token: string)
    requires Rewritten(line, now, pos, dst, s, token)
    ensures now[pos..dst] == token && NUL !in token && now[s..] == line[s..]
  {
  }

  // One more character of a double-quoted token.
  lemma QuotedMore(line: seq<char>, s: int, end: int, whole: (string, string), token: string)
    requires Unread(line, s, end) && s < end && line[s] != '"'
    requires Splits(whole, token, DoubleQuoted(line[s..end]))
    ensures var escaped := line[s] == '\\' && line[s + 1] != NUL;
            var next, c := if escaped then s + 2 else s + 1, if escaped then Unescape(line[s + 1]) else line[s];
            && next <= end && Unread(line, next, end) && c != NUL
            && Splits(whole, token + [c], DoubleQuoted(line[next..end]))
  {
    hide DoubleQuoted, Splits;
    DoubleQuotedStep(line, s, end);
    UnreadSuffix(line, s, end, s + 1);
    UnreadAt(line, s, end);
    UnreadAt(line, s + 1, end);
    var escaped := line[s] == '\\' && line[s + 1] != NUL;
    var next, c := if escaped then s + 2 else s + 1, if escaped then Unescape(line[s + 1]) else line[s];
    UnreadSuffix(line, s, end, next);
    SplitsMore(whole, token, c, DoubleQuoted(line[s..end]), DoubleQuoted(line[next..end]));
  }

  method ReadDoubleQuoted(buf: array<char>, pos: int, ghost end: int) returns (next: int)
    requires Unread(buf[..], pos, end)
    modifies buf
    ensures pos <= next <= end && Unread(buf[..], next, end)
    ensures var (token, rest) := DoubleQuoted(old(buf[pos..end]));
            IsCString(buf[..], pos, token) && buf[next..end] == rest
  {
    hide DoubleQuoted;
    ghost var line := buf[..];
    var s, dst := UnescapeInPlace(buf, pos, end);
    assert Unread(buf[..], s, end) by {
      UnreadSuffix(line, pos, end, s);
      assert buf[s..] == line[s..];
      SameTail(line, buf[..], s, end);
    }
    DoubleQuotedEnd(buf[..], s, end);
    if buf[s] == '"' {
      s := s + 1;
    }
    buf[dst] := NUL;
    next := s;
  }

  lemma SameTail(before: seq<char>, after: seq<char>, s: int, end: int)
    requires Unread(before, s, end) && |after| == |before| && after[s..] == before[s..]
    ensures Unread(after, s, end) && after[s..end] == before[s..end]
  {
    assert after[s..end] == after[s..][..end - s];
    assert after[end] == after[s..][end - s];
  }

  lemma DoubleQuotedEnd(buf: seq<char>, s: int, end: int)
    requires Unread(buf, s, end) && (s == end || buf[s] == '"')
    ensures DoubleQuoted(buf[s..end]) == ([], if s == end then [] else buf[s + 1..end])
  {
    if s < end {
      DoubleQuotedStep(buf, s, end);
    }
  }

  lemma SingleQuotedStep(buf: seq<char>, s: int, end: int)
    requires Unread(buf, s, end)
    ensures if s == end then SingleQuoted(buf[s..end]) == ([], [])
            else if buf[s] == '\'' then SingleQuoted(buf[s..end]) == ([], buf[s + 1..end])
            else
              var (token, rest) := SingleQuoted(buf[s + 1..end]);
              SingleQuoted(buf[s..end]) == ([buf[s]] + token, rest)
  {
    var t := buf[s..end];
    if s < end {
      assert t[1..] == buf[s + 1..end];
    }
  }

  method ReadSingleQuoted(buf: array<char>, pos: int, ghost end: int) returns (next: int)
    requires Unread(buf[..], pos, end)
    modifies buf
    ensures pos <= next <= end && Unread(buf[..], next, end)
    ensures var (token, rest) := SingleQuoted(old(buf[pos..end]));
            IsCString(buf[..], pos, token) && buf[next..end] == rest
  {
    hide SingleQuoted;
    ghost var line, whole := buf[..], SingleQuoted(buf[pos..end]);
    var s := pos;
    SplitsStart(whole);
    assert line[pos..end] == buf[pos..end] && line[pos..pos] == [];
    while buf[s] != NUL && buf[s] != '\''
      invariant buf[..] == line
      invariant pos <= s <= end && Unread(line, s, end) && NUL !in line[pos..s]
      invariant Splits(whole, line[pos..s], SingleQuoted(line[s..end]))
      decreases end - s
    {
      UnreadAt(line, s, end);
      SingleQuotedStep(line, s, end);
      UnreadSuffix(line, s, end, s + 1);
      SplitsMore(whole, line[pos..s], line[s], SingleQuoted(line[s..end]), SingleQuoted(line[s + 1..end]));
      assert line[pos..s + 1] == line[pos..s] + [line[s]];
      s := s + 1;
    }
    UnreadAt(line, s, end);
    SingleQuotedStep(line, s, end);
    assert line[pos..s] + [] == line[pos..s];
    if buf[s] == '\'' {
      buf[s] := NUL;
      s := s + 1;
    }
    next := s;
  }

  // memmove(s, s + 1, strlen(s)): drops the character at s, terminator included in the move.
  method RemoveAt(buf: array<char>, s: int, ghost end: int)
    requires Unread(buf[..], s, end) && s < end
    modifies buf
    ensures buf[..s] == old(buf[..s]) && buf[s..end] == old(buf[s + 1..end + 1])
  {
    ghost var line := buf[..];
    var i := s;
    while buf[i] != NUL
      invariant s <= i <= end
      invariant forall k :: 0 <= k < s || i <= k < buf.Length ==> buf[k] == line[k]
      invariant forall k :: s <= k < i ==> buf[k] == line[k + 1]
      decreases end - i
    {
      UnreadSuffix(line, s, end, i);
      UnreadAt(line, i, end);
      buf[i] := buf[i + 1];
      i := i + 1;
    }
    UnreadSuffix(line, s, end, i);
    UnreadAt(line, i, end);
  }

  lemma BareStep(buf: seq<char>, s: int, end: int)
    requires Unread(buf, s, end)
    ensures if s == end || IsSpace(buf[s]) || IsOperator(buf[s]) then Bare(buf[s..end]) == ([], buf[s..end])
            else if buf[s] == '\\' && s + 1 < end then
              var (token, rest) := Bare(buf[s + 2..end]);
              Bare(buf[s..end]) == ([buf[s + 1]] + token, rest)
            else
              var (token, rest) := Bare(buf[s + 1..end]);
              Bare(buf[s..end]) == ([buf[s]] + token, rest)
  {
    var t := buf[s..end];
    if s < end {
      assert t[1..] == buf[s + 1..end];
      if |t| > 1 {
        assert t[2..] == buf[s + 2..end];
      }
    }
  }

  // Reads up to a space or operator; each removed backslash pulls the rest of the line one place left.
  method ReadBare(buf: array<char>, pos: int, ghost end: int) returns (s: int, ghost end': int)
    requires Unread(buf[..], pos, end)
    modifies buf
    ensures pos <= s && Unread(buf[..], s, end') && end' <= end
    ensures (buf[pos..s], buf[s..end']) == Bare(old(buf[pos..end])) && NUL !in buf[pos..s]
  {
    hide Bare;
    ghost var whole := Bare(buf[pos..end]);
    s := pos;
    end' := end;
    SplitsStart(whole);
    while buf[s] != NUL && !IsSpace(buf[s]) && !IsOperator(buf[s])
      invariant pos <= s <= end' <= end && Unread(buf[..], s, end') && NUL !in buf[pos..s]
      invariant Splits(whole, buf[pos..s], Bare(buf[s..end']))
      decreases end' - s
    {
      ghost var line, e := buf[..], end';
      UnreadAt(line, s, e);
      BareStep(line, s, e);
      UnreadSuffix(line, s, e, s + 1);
      UnreadAt(line, s + 1, e);
      if buf[s] == '\\' && buf[s + 1] != NUL {
        RemoveAt(buf, s, end');
        end' := end' - 1;
        Shifted(line, buf[..], pos, s, e);
      } else {
        assert line[pos..s + 1] == line[pos..s] + [line[s]];
      }
      SplitsMore(whole, line[pos..s], buf[s], Bare(line[s..e]), Bare(buf[s + 1..end']));
      s := s + 1;
    }
    UnreadAt(buf[..], s, end');
    BareStep(buf[..], s, end');
    assert buf[pos..s] + [] == buf[pos..s];
  }

  method ReadUnquoted(buf: array<char>, pos: int, ghost end: int) returns (next: int, ghost end': int)
    requires Unread(buf[..], pos, end)
    modifies buf
    ensures pos <= next && Unread(buf[..], next, end') && end' <= end
    ensures var (token, rest) := Unquoted(old(buf[pos..end]));
            IsCString(buf[..], pos, token) && buf[next..end'] == rest
  {
    hide Bare;
    var s;
    s, end' := ReadBare(buf, pos, end);
    ghost var line := buf[..];
    UnreadAt(line, s, end');
    if buf[s] != NUL && !IsSpace(buf[s]) {
      assert line[pos..end'] == line[pos..s] + line[s..end'];
    } else if buf[s] != NUL {
      UnreadSuffix(line, s, end', s + 1);
      assert line[s..end'][1..] == line[s + 1..end'];
      buf[s] := NUL;
      s := s + 1;
    }
    next := s;
  }

  // The text read and unread after a backslash at s was removed.
  lemma Shifted(before: seq<char>, after: seq<char>, pos: int, s: int, end: int)
    requires 0 <= pos <= s && Unread(before, s, end) && s + 1 < end && |after| == |before|
    requires after[..s] == before[..s] && after[s..end] == before[s + 1..end + 1]
    ensures Unread(after, s, end - 1) && Unread(after, s + 1, end - 1)
    ensures after[s] == before[s + 1] && after[s] != NUL
    ensures after[s + 1..end - 1] == before[s + 2..end]
    ensures after[pos..s + 1] == before[pos..s] + [after[s]]
  {
    forall i | s <= i < end ensures after[i] == before[i + 1] {
      assert after[s..end][i - s] == before[s + 1..end + 1][i - s];
    }
    forall i | s + 1 <= i < end ensures before[i] != NUL {
      assert before[i] == before[s..end][i - s];
    }
    forall i | pos <= i < s ensures after[i] == before[i] {
      assert after[..s][i] == before[..s][i];
    }
  }

  // next_token; start is -1 where the code returns NULL.
  method ReadToken(buf: array<char>, pos: int, ghost end: int) returns (start: int, next: int, ghost end': int)
    requires Unread(buf[..], pos, end)
    modifies buf
    ensures pos <= next && Unread(buf[..], next, end') && end' <= end
    ensures var (token, rest) := NextToken(old(buf[pos..end]));
            && buf[next..end'] == rest
            && (if token.None? then start == -1 else IsCString(buf[..], start, token.value))
  {
    hide DoubleQuoted, SingleQuoted, Unquoted, SkipSpace;
    var s := SkipWhitespace(buf, pos, end);
    UnreadAt(buf[..], s, end);
    end' := end;
    if buf[s] == NUL {
      return -1, pos, end;
    }
    ghost var t := buf[s..end];
    assert t[1..] == buf[s + 1..end];
    UnreadSuffix(buf[..], s, end, s + 1);
    if buf[s] == '"' {
      start := s + 1;
      next := ReadDoubleQuoted(buf, start, end);
    } else if buf[s] == '\'' {
      start := s + 1;
      next := ReadSingleQuoted(buf, start, end);
    } else {
      start := s;
      next, end' := ReadUnquoted(buf, start, end);
    }
  }

  // strdup
  method Duplicate(buf: array<char>, start: int, ghost token: string) returns (copy: string)
    requires IsCString(buf[..], start, token)
    ensures copy == token
  {
    copy := [];
    var i := start;
    assert buf[start..start + |token|] == token;
    while buf[i] != NUL
      invariant start <= i <= start + |token| && copy == token[..i - start]
      invariant i < start + |token| ==> buf[i] == buf[start..start + |token|][i - start]
      decreases start + |token| - i
    {
      copy := copy + [buf[i]];
      i := i + 1;
    }
  }

  // ----- The line

  // The first two unread characters, as the code peeks at them.
  lemma Peek(buf: seq<char>, pos: int, end: int)
    requires Unread(buf, pos, end)
    ensures pos < end ==> pos + 1 < |buf| && Unread(buf, pos + 1, end) && buf[pos..end][1..] == buf[pos + 1..end]
    ensures pos < end ==> buf[pos..end][0] == buf[pos]
    ensures pos + 1 < end ==> Unread(buf, pos + 2, end) && buf[pos..end][1] == buf[pos + 1] && buf[pos..end][2..] == buf[pos + 2..end]
    ensures pos + 1 < |buf| && pos + 1 == end ==> buf[pos + 1] == NUL
    ensures pos == end <==> buf[pos] == NUL
  {
    UnreadAt(buf, pos, end);
  }

  // The operator at pos; None when there is none.
  method ReadOperator(buf: array<char>, pos: int, ghost end: int) returns (kind: Option<RedirKind>, next: int)
    requires Unread(buf[..], pos, end)
    ensures pos <= next <= end && Unread(buf[..], next, end)
    ensures kind.Some? <==> AtRedirection(buf[pos..end])
    ensures kind.None? ==> next == pos
    ensures kind.Some? ==> RedirOperator(buf[pos..end]) == (kind.value, buf[next..end])
  {
    Peek(buf[..], pos, end);
    if buf[pos] == '>' && buf[pos + 1] == '>' {
      return Some(Append), pos + 2;
    } else if buf[pos] == '>' {
      return Some(Out), pos + 1;
    } else if buf[pos] == '<' && buf[pos + 1] == '<' {
      return Some(Heredoc), pos + 2;
    } else if buf[pos] == '<' {
      return Some(In), pos + 1;
    } else if buf[pos] == '2' && buf[pos + 1] == '>' {
      return Some(Err), pos + 2;
    }
    return None, pos;
  }

  // next_token and strdup: the token as a value of its own.
  method TakeToken(buf: array<char>, pos: int, ghost end: int) returns (token: Option<string>, next: int, ghost end': int)
    requires Unread(buf[..], pos, end)
    modifies buf
    ensures pos <= next && Unread(buf[..], next, end') && end' <= end
    ensures (token, buf[next..end']) == NextToken(old(buf[pos..end]))
    ensures token.Some? ==> NUL !in token.value
  {
    hide NextToken;
    ghost var expected := NextToken(buf[pos..end]).0;
    var start;
    start, next, end' := ReadToken(buf, pos, end);
    if start == -1 {
      token := None;
    } else {
      var copy := Duplicate(buf, start, expected.value);
      token := Some(copy);
    }
  }

  method ReadRedirections(buf: array<char>, pos: int, cmd: Command, ghost end: int)
    returns (cmd': Command, next: int, ghost end': int)
    requires Unread(buf[..], pos, end)
    modifies buf
    ensures pos <= next && Unread(buf[..], next, end') && end' <= end
    ensures (cmd', buf[next..end']) == ParseRedirections(old(buf[pos..end]), cmd)
  {
    hide NextToken, AtRedirection, SkipSpace;
    cmd', next, end' := cmd, pos, end;
    while true
      invariant pos <= next && Unread(buf[..], next, end') && end' <= end
      invariant ParseRedirections(buf[next..end'], cmd') == ParseRedirections(old(buf[pos..end]), cmd)
      decreases end' - next
    {
      ghost var t, c, here := buf[next..end'], cmd', next;
      next := SkipWhitespace(buf, next, end');
      var kind, s := ReadOperator(buf, next, end');
      if kind.None? {
        break;
      }
      var filename;
      filename, next, end' := TakeToken(buf, s, end');
      cmd' := Redirect(cmd', kind.value, filename);
      assert ParseRedirections(t, c) == ParseRedirections(buf[next..end'], cmd');
    }
  }

  method ReadSegment(env: Environment, buf: array<char>, pos: int, pybridge: bool, ghost end: int)
    returns (cmd: Command, next: int, ghost end': int)
    requires Unread(buf[..], pos, end)
    modifies buf
    ensures pos <= next && Unread(buf[..], next, end') && end' <= end
    ensures pos < end ==> end' - next < end - pos
    ensures (cmd, buf[next..end']) == ParseSegment(env, old(buf[pos..end]), EmptyCommand(pybridge))
  {
    hide NextToken, SkipSpace, ParseRedirections, Expand;
    cmd, next, end' := EmptyCommand(pybridge), pos, end;
    while buf[next] != NUL
      invariant pos <= next && Unread(buf[..], next, end') && end' <= end
      invariant ParseSegment(env, buf[next..end'], cmd) == ParseSegment(env, old(buf[pos..end]), EmptyCommand(pybridge))
      decreases end' - next
    {
      ghost var t, c := buf[next..end'], cmd;
      next := SkipWhitespace(buf, next, end');
      if buf[next] == NUL {
        break;
      }
      Peek(buf[..], next, end');
      if buf[next] == '|' {
        next := next + 1;
        break;
      }
      if buf[next] == '&' {
        cmd := cmd.(background := true);
        next := next + 1;
        continue;
      }
      var kind, _ := ReadOperator(buf, next, end');
      if kind.Some? {
        cmd, next, end' := ReadRedirections(buf, next, cmd, end');
        continue;
      }
      var token;
      token, next, end' := TakeToken(buf, next, end');
      if token.None? {
        break;
      }
      var arg := ExpandToken(env, token.value);
      cmd := AddArgument(cmd, arg);
    }
  }

  // parser_parse_line on a buffer holding a C string: what it returns is what the grammar says,
  // every index is in bounds, and it terminates on every line.
  method ParseInPlace(env: Environment, buf: array<char>, ghost input: string) returns (result: Option<seq<Command>>)
    requires IsCString(buf[..], 0, input)
    modifies buf
    ensures result == ParseLine(env, input)
    ensures result.Some? ==> result.value != [] && WithinLimits(result.value)
  {
    hide StripComments, ParseSegment, ParseCommands, SkipSpace, WithinLimits;
    ParseLineLimits(env, input);
    assert buf[..|input|] == input && buf[0..|input|] == input;
    ghost var end := StripInPlace(buf, |input|);
    ghost var text := buf[0..end];
    assert text == buf[..end] == StripComments(input, false, false);
    var first := SkipWhitespace(buf, 0, end);
    UnreadAt(buf[..], first, end);
    if buf[first] == NUL {
      return None;
    }
    var pos, cmds := 0, [];
    while buf[pos] != NUL && |cmds| < MAX_PIPES
      invariant Unread(buf[..], pos, end)
      invariant ParseCommands(env, buf[pos..end], cmds) == ParseCommands(env, text, [])
      decreases end - pos
    {
      UnreadAt(buf[..], pos, end);
      ghost var rest := buf[pos..end];
      var check := SkipWhitespace(buf, pos, end);
      UnreadAt(buf[..], check, end);
      var cmd;
      cmd, pos, end := ReadSegment(env, buf, pos, buf[check] == '!', end);
      OneMoreCommand(env, rest, cmds);
      if |cmd.args| > 0 {
        cmds := cmds + [cmd];
      }
    }
    UnreadAt(buf[..], pos, end);
    NoMoreCommands(env, buf[pos..end], cmds);
    result := if |cmds| > 0 then Some(cmds) else None;
  }

  lemma OneMoreCommand(env: Environment, s: string, done: seq<Command>)
    requires s != [] && |done| < MAX_PIPES
    ensures var (cmd, rest) := ParseSegment(env, s, EmptyCommand(StartsPyBridge(s)));
            ParseCommands(env, s, done) == ParseCommands(env, rest, if |cmd.args| > 0 then done + [cmd] else done)
  {
    hide ParseSegment, StartsPyBridge;
  }

  lemma NoMoreCommands(env: Environment, s: string, done: seq<Command>)
    requires s == [] || |done| >= MAX_PIPES
    ensures ParseCommands(env, s, done) == done
  {
  }
}
