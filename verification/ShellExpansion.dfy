// Tilde and variable expansion of shell/src/parser.c, and what it does to a word.
module ShellExpansion {
  import opened CStrings

  // g_expand_buf holds 4095 characters and a terminator.
  const EXPAND_BUF_SIZE := 4096
  const NAME_MAX := 255

  type CString = s: string | NUL !in s witness ""

  // What getenv answers.
  datatype Environment = Environment(getenv: string -> Option<CString>)

  function Home(env: Environment): CString {
    match env.getenv("HOME")
    case Some(home) => home
    case None => "/root"
  }

  function ExpandTilde(env: Environment, token: string): string {
    if token != "" && token[0] == '~' && (|token| == 1 || token[1] == '/') then
      Cut(Home(env) + token[1..], EXPAND_BUF_SIZE - 1)
    else token
  }

  predicate IsNameChar(c: char) {
    'a' <= c <= 'z' || 'A' <= c <= 'Z' || '0' <= c <= '9' || c == '_'
  }

  // The longest prefix of at most n characters that all belong to a name, and the rest.
  function NamePrefix(s: string, n: nat, braced: bool): (r: (string, string))
    ensures |r.1| <= |s|
  {
    if s != "" && n > 0 && (if braced then s[0] != '}' else IsNameChar(s[0])) then
      var (name, rest) := NamePrefix(s[1..], n - 1, braced);
      ([s[0]] + name, rest)
    else ("", s)
  }

  // After a dollar sign: the name of the variable and what follows.
  function Reference(s: string): (r: (string, string))
    ensures |r.1| <= |s|
  {
    if s != "" && s[0] == '{' then
      var (name, rest) := NamePrefix(s[1..], NAME_MAX, true);
      (name, if rest != "" && rest[0] == '}' then rest[1..] else rest)
    else if s != "" && s[0] == '?' then ("?", s[1..])
    else NamePrefix(s, NAME_MAX, false)
  }

  function Value(env: Environment, name: string): CString {
    match env.getenv(name)
    case Some(value) => value
    case None => ""
  }

  function Substituted(env: Environment, s: string): string
    decreases |s|
  {
    if s == "" then ""
    else if s[0] == '\\' && |s| > 1 && s[1] == '$' then "$" + Substituted(env, s[2..])
    else if s[0] != '$' then [s[0]] + Substituted(env, s[1..])
    else
      var (name, rest) := Reference(s[1..]);
      Value(env, name) + Substituted(env, rest)
  }

  function ExpandVariables(env: Environment, token: string): string {
    if '$' in token then Cut(Substituted(env, Cut(token, EXPAND_BUF_SIZE - 1)), EXPAND_BUF_SIZE - 1) else token
  }

  function Expand(env: Environment, token: string): string {
    ExpandVariables(env, ExpandTilde(env, token))
  }

  // ----- What a word means

  // A character by itself, an escaped dollar sign, or a variable in one of its three forms.
  datatype Part = Character(c: char) | Dollar | Variable(name: string) | Braced(name: string) | Status

  function PartText(p: Part): string {
    match p
    case Character(c) => [c]
    case Dollar => "\\$"
    case Variable(name) => "$" + name
    case Braced(name) => "${" + name + "}"
    case Status => "$?"
  }

  function NameOf(p: Part): string
    requires !p.Character? && !p.Dollar?
  {
    if p.Status? then "?" else p.name
  }

  function PartMeaning(env: Environment, p: Part): string {
    match p
    case Character(c) => [c]
    case Dollar => "$"
    case _ => match env.getenv(NameOf(p)) case Some(value) => value case None => ""
  }

  function PartsText(parts: seq<Part>): string {
    if parts == [] then "" else PartText(parts[0]) + PartsText(parts[1..])
  }

  function PartsMeaning(env: Environment, parts: seq<Part>): string {
    if parts == [] then "" else PartMeaning(env, parts[0]) + PartsMeaning(env, parts[1..])
  }

  // p ends where the text after it starts.
  predicate Separate(p: Part, after: string) {
    match p
    case Character(c) => c != '$' && (c == '\\' ==> after == "" || after[0] != '$')
    case Variable(name) => 0 < |name| <= 255 && AreNameChars(name) && (after == "" || !IsWordChar(after[0]))
    case Braced(name) => |name| <= 255 && '}' !in name
    case _ => true
  }

  // The letters, digits and the underscore of ASCII, by their codes.
  predicate IsWordChar(c: char) {
    48 <= c as int < 58 || 65 <= c as int < 91 || c as int == 95 || 97 <= c as int < 123
  }

  predicate AreNameChars(name: string) {
    forall i :: 0 <= i < |name| ==> IsWordChar(name[i])
  }

  predicate AreParts(parts: seq<Part>) {
    parts != [] ==> Separate(parts[0], PartsText(parts[1..])) && AreParts(parts[1..])
  }

  lemma {:induction false} NameRead(name: string, after: string, n: nat, braced: bool)
    requires |name| <= n && (if braced then '}' !in name else AreNameChars(name))
    requires after == "" || (if braced then after[0] == '}' else !IsWordChar(after[0]))
    ensures NamePrefix(name + after, n, braced) == (name, after)
  {
    if name == "" {
      assert name + after == after;
    } else {
      assert (name + after)[1..] == name[1..] + after;
      NameRead(name[1..], after, n - 1, braced);
      assert [name[0]] + name[1..] == name && name[0] in name;
    }
  }

  // What follows the dollar sign of a variable.
  function AfterDollar(p: Part): string
    requires !p.Character? && !p.Dollar?
  {
    match p case Variable(name) => name case Braced(name) => ['{'] + (name + ['}']) case Status => ['?']
  }

  lemma ReferenceRead(p: Part, after: string)
    requires Separate(p, after) && !p.Character? && !p.Dollar?
    ensures Reference(AfterDollar(p) + after) == (NameOf(p), after)
  {
    match p {
      case Variable(name) => VariableRead(name, after);
      case Braced(name) => BracedRead(name, after);
      case Status => assert (['?'] + after)[1..] == after;
    }
  }

  lemma VariableRead(name: string, after: string)
    requires Separate(Variable(name), after)
    ensures Reference(name + after) == (name, after)
  {
    assert (name + after)[0] == name[0] && IsNameChar(name[0]);
    NameRead(name, after, NAME_MAX, false);
    hide NamePrefix;
  }

  lemma BracedRead(name: string, after: string)
    requires Separate(Braced(name), after)
    ensures Reference((['{'] + (name + ['}'])) + after) == (name, after)
  {
    var s, rest := (['{'] + (name + ['}'])) + after, ['}'] + after;
    assert s[1..] == name + rest && rest[1..] == after;
    NameRead(name, rest, NAME_MAX, true);
    hide NamePrefix;
  }

  lemma SubstitutedOne(env: Environment, c: char, s: string)
    ensures c != '$' && (c == '\\' ==> s == "" || s[0] != '$') ==> Substituted(env, [c] + s) == [c] + Substituted(env, s)
    ensures Substituted(env, ['\\'] + (['$'] + s)) == "$" + Substituted(env, s)
    ensures Substituted(env, ['$'] + s) == Value(env, Reference(s).0) + Substituted(env, Reference(s).1)
  {
    assert ([c] + s)[1..] == s && (['$'] + s)[1..] == s && (['\\'] + (['$'] + s))[2..] == s;
    hide Reference, Value;
  }

  lemma PartRead(env: Environment, p: Part, after: string)
    requires Separate(p, after)
    ensures Substituted(env, PartText(p) + after) == PartMeaning(env, p) + Substituted(env, after)
  {
    PartSplit(p, after);
    if p.Character? || p.Dollar? {
      SubstitutedOne(env, if p.Character? then p.c else '$', after);
    } else {
      SubstitutedOne(env, '$', AfterDollar(p) + after);
      ReferenceRead(p, after);
    }
    hide Substituted, Reference, PartText, AfterDollar;
  }

  lemma PartSplit(p: Part, after: string)
    ensures PartText(p) + after == match p case Character(c) => [c] + after
                                           case Dollar => ['\\'] + (['$'] + after)
                                           case _ => ['$'] + (AfterDollar(p) + after)
  {
    if p.Braced? {
      assert "${" + p.name + "}" == ['$'] + AfterDollar(p);
    }
  }

  lemma {:induction false} PartsRead(env: Environment, parts: seq<Part>)
    requires AreParts(parts)
    ensures Substituted(env, PartsText(parts)) == PartsMeaning(env, parts)
  {
    if parts != [] {
      PartRead(env, parts[0], PartsText(parts[1..]));
      PartsRead(env, parts[1..]);
    }
  }

  lemma {:induction false} NoVariables(env: Environment, parts: seq<Part>)
    requires AreParts(parts) && '$' !in PartsText(parts)
    ensures PartsMeaning(env, parts) == PartsText(parts)
  {
    if parts != [] {
      var p := parts[0];
      assert p.Character? by {
        assert !p.Character? ==> '$' in PartText(p);
      }
      NoVariables(env, parts[1..]);
    }
  }

  // For every environment: each variable of a word is replaced by its value or, when it has none,
  // by nothing; the rest stands; the result is cut at 4095 characters. Values are not expanded again.
  lemma WordExpands(env: Environment, parts: seq<Part>)
    requires AreParts(parts) && |PartsText(parts)| < 4096 && (PartsText(parts) == "" || PartsText(parts)[0] != '~')
    ensures Expand(env, PartsText(parts)) == Cut(PartsMeaning(env, parts), 4095)
  {
    PartsRead(env, parts);
    if '$' !in PartsText(parts) {
      NoVariables(env, parts);
    }
  }

  // A tilde alone or before a slash is the home directory, in which variables are then expanded as
  // they are in the rest of the word.
  lemma HomeExpands(env: Environment, home: seq<Part>, parts: seq<Part>)
    requires PartsText(home) == (match env.getenv("HOME") case Some(h) => h case None => "/root")
    requires AreParts(home + parts) && |PartsText(home)| + |PartsText(parts)| < 4096
    requires PartsText(parts) == "" || PartsText(parts)[0] == '/'
    ensures Expand(env, "~" + PartsText(parts)) == Cut(PartsMeaning(env, home) + PartsMeaning(env, parts), 4095)
  {
    var all := home + parts;
    PartsConcat(env, home, parts);
    PartsRead(env, all);
    assert ("~" + PartsText(parts))[1..] == PartsText(parts);
    assert ExpandTilde(env, "~" + PartsText(parts)) == PartsText(all);
    if '$' !in PartsText(all) {
      NoVariables(env, all);
    }
  }

  lemma {:induction false} PartsConcat(env: Environment, a: seq<Part>, b: seq<Part>)
    ensures PartsText(a + b) == PartsText(a) + PartsText(b) && PartsMeaning(env, a + b) == PartsMeaning(env, a) + PartsMeaning(env, b)
  {
    if a == [] {
      assert a + b == b;
    } else {
      assert (a + b)[1..] == a[1..] + b && (a + b)[0] == a[0];
      hide PartText, PartMeaning;
      PartsConcat(env, a[1..], b);
      SeqAssociates(PartText(a[0]), PartsText(a[1..]), PartsText(b));
      SeqAssociates(PartMeaning(env, a[0]), PartsMeaning(env, a[1..]), PartsMeaning(env, b));
    }
  }

  // Any other word with a tilde is left alone, such as ~user.
  lemma OtherTildes(env: Environment, token: string)
    requires '$' !in token && (token != "" && token[0] == '~' ==> |token| > 1 && token[1] != '/')
    ensures Expand(env, token) == token
  {
  }

  // ----- The shared buffer: tilde expansion may leave there the word that variable expansion reads

  lemma CharOf(buf: seq<char>, at: int, s: string, k: int)
    requires IsCString(buf, at, s) && 0 <= k <= |s|
    ensures buf[at + k] == NUL <==> k == |s|
    ensures k < |s| ==> buf[at + k] == s[k]
  {
    if k < |s| {
      assert buf[at..at + |s|][k] == s[k] && s[k] in s;
    }
  }

  // strchr
  method Contains(src: array<char>, at: int, c: char, ghost s: string) returns (found: bool)
    requires IsCString(src[..], at, s) && c != NUL
    ensures found <==> c in s
  {
    var i := at;
    CharOf(src[..], at, s, 0);
    while src[i] != NUL && src[i] != c
      invariant at <= i <= at + |s| && c !in s[..i - at]
      invariant src[i] == NUL <==> i == at + |s|
      invariant i < at + |s| ==> src[i] == s[i - at]
      decreases at + |s| - i
    {
      i := i + 1;
      CharOf(src[..], at, s, i - at);
    }
    found := src[i] == c;
  }

  // The string at an address, cut as strncpy and snprintf cut it.
  method CopyCString(src: array<char>, at: int, n: nat, ghost s: string) returns (t: string)
    requires IsCString(src[..], at, s)
    ensures t == Cut(s, n)
  {
    t := "";
    CharOf(src[..], at, s, 0);
    while |t| < n && src[at + |t|] != NUL
      invariant |t| <= |s| && |t| <= n && t == s[..|t|]
      invariant src[at + |t|] == NUL <==> |t| == |s|
      invariant |t| < |s| ==> src[at + |t|] == s[|t|]
      decreases |s| - |t|
    {
      t := t + [src[at + |t|]];
      CharOf(src[..], at, s, |t|);
    }
  }

  // Characters are added as long as there is room.
  method AddText(shared: array<char>, n: int, s: string) returns (n': int)
    requires shared.Length == EXPAND_BUF_SIZE && 0 <= n < EXPAND_BUF_SIZE
    modifies shared
    ensures 0 <= n' < EXPAND_BUF_SIZE && shared[..n'] == Cut(old(shared[..n]) + s, EXPAND_BUF_SIZE - 1)
  {
    n' := n;
    var i := 0;
    ghost var before := shared[..n];
    while i < |s| && n' < EXPAND_BUF_SIZE - 1
      invariant 0 <= i <= |s| && n' == n + i < EXPAND_BUF_SIZE
      invariant shared[..n'] == before + s[..i]
    {
      shared[n'] := s[i];
      n', i := n' + 1, i + 1;
    }
    assert shared[..n'] == (before + s)[..n'];
  }

  method Terminate(shared: array<char>, n: int, ghost s: string)
    requires 0 <= n < shared.Length && shared[..n] == s && NUL !in s
    modifies shared
    ensures IsCString(shared[..], 0, s)
  {
    shared[n] := NUL;
    assert shared[..][0..n] == s;
  }

  method TildeInPlace(env: Environment, src: array<char>, at: int, shared: array<char>, ghost token: string) returns (moved: bool)
    requires IsCString(src[..], at, token) && shared.Length == EXPAND_BUF_SIZE && src != shared
    modifies shared
    ensures moved ==> IsCString(shared[..], 0, ExpandTilde(env, token))
    ensures !moved ==> ExpandTilde(env, token) == token
  {
    CharOf(src[..], at, token, 0);
    if src[at] != '~' {
      return false;
    }
    CharOf(src[..], at, token, 1);
    if src[at + 1] != NUL && src[at + 1] != '/' {
      return false;
    }
    TokenTail(src[..], at, token);
    var rest := CopyCString(src, at + 1, EXPAND_BUF_SIZE - 1, token[1..]);
    PutBoth(shared, Home(env), rest);
    CutTwice(Home(env), token[1..], EXPAND_BUF_SIZE - 1);
    moved := true;
  }

  lemma TokenTail(buf: seq<char>, at: int, token: string)
    requires IsCString(buf, at, token) && token != ""
    ensures IsCString(buf, at + 1, token[1..])
  {
    assert buf[at + 1..at + |token|] == buf[at..at + |token|][1..];
  }

  // Two strings, one after the other.
  method PutBoth(shared: array<char>, s: string, t: string)
    requires shared.Length == EXPAND_BUF_SIZE && NUL !in s && NUL !in t
    modifies shared
    ensures IsCString(shared[..], 0, Cut(s + t, EXPAND_BUF_SIZE - 1))
  {
    assert shared[..0] + s == s;
    var n := AddText(shared, 0, s);
    n := AddText(shared, n, t);
    CutTwice(s, t, EXPAND_BUF_SIZE - 1);
    CutKeeps(s + t, EXPAND_BUF_SIZE - 1);
    hide Cut;
    Terminate(shared, n, Cut(s + t, EXPAND_BUF_SIZE - 1));
  }

  lemma CutKeeps(s: string, n: nat)
    requires NUL !in s
    ensures NUL !in Cut(s, n)
  {
  }

  // The name after a dollar sign, at most 255 characters of it.
  method ReadName(s: string, from: nat, braced: bool) returns (name: string, next: nat)
    requires from <= |s|
    ensures from <= next <= |s| && (name, s[next..]) == NamePrefix(s[from..], NAME_MAX, braced)
  {
    name, next := "", from;
    ghost var all := NamePrefix(s[from..], NAME_MAX, braced);
    assert name + all.0 == all.0;
    while next < |s| && |name| < NAME_MAX && (if braced then s[next] != '}' else IsNameChar(s[next]))
      invariant from <= next <= |s| && |name| <= NAME_MAX
      invariant var (more, rest) := NamePrefix(s[next..], NAME_MAX - |name|, braced);
                (name + more, rest) == all
    {
      assert s[next..][1..] == s[next + 1..];
      ghost var more := NamePrefix(s[next + 1..], NAME_MAX - |name| - 1, braced).0;
      assert name + ([s[next]] + more) == (name + [s[next]]) + more;
      name, next := name + [s[next]], next + 1;
    }
    assert name + "" == name;
  }

  method ReadReference(s: string, from: nat) returns (name: string, next: nat)
    requires from <= |s|
    ensures from <= next <= |s| && (name, s[next..]) == Reference(s[from..])
  {
    if from < |s| && s[from] == '{' {
      assert s[from..][1..] == s[from + 1..];
      name, next := ReadName(s, from + 1, true);
      if next < |s| && s[next] == '}' {
        assert s[next..][1..] == s[next + 1..];
        next := next + 1;
      }
    } else if from < |s| && s[from] == '?' {
      name, next := "?", from + 1;
    } else {
      name, next := ReadName(s, from, false);
    }
  }

  // One step of the loop: a character, an escaped dollar sign or a variable.
  method ReadPiece(env: Environment, s: string, i: nat) returns (piece: string, next: nat)
    requires i < |s| && NUL !in s
    ensures i < next <= |s| && Substituted(env, s[i..]) == piece + Substituted(env, s[next..]) && NUL !in piece
  {
    if s[i] == '\\' && i + 1 < |s| && s[i + 1] == '$' {
      assert s[i..][2..] == s[i + 2..];
      piece, next := "$", i + 2;
    } else {
      assert s[i..][1..] == s[i + 1..];
      if s[i] != '$' {
        piece, next := [s[i]], i + 1;
      } else {
        var name;
        name, next := ReadReference(s, i + 1);
        piece := Value(env, name);
      }
    }
  }

  // The word may stand in the buffer it is expanded into, for it is copied first.
  method VariablesInPlace(env: Environment, src: array<char>, at: int, shared: array<char>, ghost token: string) returns (moved: bool)
    requires IsCString(src[..], at, token) && shared.Length == EXPAND_BUF_SIZE
    modifies shared
    ensures moved ==> IsCString(shared[..], 0, ExpandVariables(env, token))
    ensures !moved ==> ExpandVariables(env, token) == token && shared[..] == old(shared[..])
  {
    moved := Contains(src, at, '$', token);
    if moved {
      var temp := CopyCString(src, at, EXPAND_BUF_SIZE - 1, token);
      CutKeeps(token, EXPAND_BUF_SIZE - 1);
      var n := Substitute(env, temp, shared);
      Terminate(shared, n, ExpandVariables(env, token));
    }
  }

  method Substitute(env: Environment, temp: string, shared: array<char>) returns (n: int)
    requires NUL !in temp && shared.Length == EXPAND_BUF_SIZE
    modifies shared
    ensures 0 <= n < EXPAND_BUF_SIZE && shared[..n] == Cut(Substituted(env, temp), EXPAND_BUF_SIZE - 1) && NUL !in shared[..n]
  {
    var i := 0;
    n := 0;
    assert shared[..0] + Substituted(env, temp) == Substituted(env, temp) && temp[0..] == temp;
    while i < |temp| && n < EXPAND_BUF_SIZE - 1
      invariant 0 <= i <= |temp| && 0 <= n < EXPAND_BUF_SIZE
      invariant NUL !in shared[..n]
      invariant Cut(shared[..n] + Substituted(env, temp[i..]), EXPAND_BUF_SIZE - 1) == Cut(Substituted(env, temp), EXPAND_BUF_SIZE - 1)
      decreases |temp| - i
    {
      hide Substituted;
      var piece, next := ReadPiece(env, temp, i);
      PieceAdded(shared[..n], piece, Substituted(env, temp[next..]), EXPAND_BUF_SIZE - 1);
      CutKeeps(shared[..n] + piece, EXPAND_BUF_SIZE - 1);
      n := AddText(shared, n, piece);
      i := next;
    }
    CutDone(shared[..n], Substituted(env, temp[i..]), EXPAND_BUF_SIZE - 1);
  }

  lemma PieceAdded(done: string, piece: string, rest: string, n: nat)
    ensures Cut(Cut(done + piece, n) + rest, n) == Cut(done + (piece + rest), n)
  {
    assert done + (piece + rest) == (done + piece) + rest;
    CutTwice(done + piece, rest, n);
  }

  lemma CutDone(done: string, rest: string, n: nat)
    requires |done| <= n && (rest == "" || |done| == n)
    ensures Cut(done + rest, n) == done
  {
  }

  // expand_tilde and then expand_variables, and the duplicate of what they leave.
  method ExpandToken(env: Environment, token: string) returns (arg: string)
    requires NUL !in token
    ensures arg == Expand(env, token)
  {
    var line := new char[|token| + 1](i requires 0 <= i <= |token| => if i < |token| then token[i] else NUL);
    assert line[..][0..|token|] == token;
    var shared := new char[EXPAND_BUF_SIZE];
    ghost var tilded := ExpandTilde(env, token);
    var moved := TildeInPlace(env, line, 0, shared, token);
    var src := if moved then shared else line;
    var again := VariablesInPlace(env, src, 0, shared, tilded);
    src := if again then shared else src;
    var n := |token| + EXPAND_BUF_SIZE;
    arg := CopyCString(src, 0, n, Expand(env, token));
  }
}
