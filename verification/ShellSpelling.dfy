// How a word may be written in a command line, and that the tokenizer reads what was meant.
module ShellSpelling {
  import opened CStrings
  import opened ShellGrammar
  import opened ShellExpansion

  // A character by itself or after a backslash.
  datatype Piece = Itself(c: char) | Escaped(c: char)

  datatype Spelling = Double(pieces: seq<Piece>) | Single(text: string) | Unquoted(pieces: seq<Piece>)

  function PieceText(p: Piece): string {
    match p
    case Itself(c) => [c]
    case Escaped(c) => ['\\', c]
  }

  function Flat(pieces: seq<Piece>): string {
    if pieces == [] then [] else PieceText(pieces[0]) + Flat(pieces[1..])
  }

  // What stands by itself in double quotes, and outside quotes.
  predicate QuotedPieces(pieces: seq<Piece>) {
    forall i :: 0 <= i < |pieces| && pieces[i].Itself? ==> pieces[i].c !in "\"\\"
  }

  predicate UnquotedPieces(pieces: seq<Piece>) {
    forall i :: 0 <= i < |pieces| && pieces[i].Itself? ==> pieces[i].c !in " \t\n\U{0B}\U{0C}\r|><&\\\"'#"
  }

  predicate IsSpelling(s: Spelling) {
    match s
    case Double(pieces) => QuotedPieces(pieces)
    case Single(text) => '\'' !in text
    case Unquoted(pieces) => pieces != [] && UnquotedPieces(pieces)
  }

  // In double quotes a backslash makes n a line break and t a tab; before anything else, and
  // everywhere outside quotes, it only goes away.
  function InQuotes(p: Piece): char {
    match p
    case Itself(c) => c
    case Escaped('n') => '\n'
    case Escaped('t') => '\t'
    case Escaped(c) => c
  }

  function QuotedMeaning(pieces: seq<Piece>): string {
    if pieces == [] then [] else [InQuotes(pieces[0])] + QuotedMeaning(pieces[1..])
  }

  function UnquotedMeaning(pieces: seq<Piece>): string {
    if pieces == [] then [] else [pieces[0].c] + UnquotedMeaning(pieces[1..])
  }

  function Meaning(s: Spelling): string {
    match s
    case Double(pieces) => QuotedMeaning(pieces)
    case Single(text) => text
    case Unquoted(pieces) => UnquotedMeaning(pieces)
  }

  function Spell(s: Spelling): string {
    match s
    case Double(pieces) => "\"" + Flat(pieces) + "\""
    case Single(text) => "'" + text + "'"
    case Unquoted(pieces) => Flat(pieces)
  }

  // ----- The three ways of reading, on any text

  lemma FlatUnfold(pieces: seq<Piece>, r: string)
    requires pieces != []
    ensures var head := PieceText(pieces[0]);
            Flat(pieces) + r == head + (Flat(pieces[1..]) + r) && (Flat(pieces) + r)[|head|..] == Flat(pieces[1..]) + r
  {
    hide PieceText;
    SeqAssociates(PieceText(pieces[0]), Flat(pieces[1..]), r);
  }

  lemma QuotedPiece(p: Piece, s: string)
    requires p.Itself? ==> p.c !in "\"\\"
    ensures var (token, rest) := DoubleQuoted(s);
            DoubleQuoted(PieceText(p) + s) == ([InQuotes(p)] + token, rest)
  {
    assert (PieceText(p) + s)[|PieceText(p)|..] == s;
  }

  lemma UnquotedPiece(p: Piece, s: string)
    requires p.Itself? ==> p.c !in " \t\n\U{0B}\U{0C}\r|><&\\\"'#"
    ensures var (token, rest) := Bare(s);
            Bare(PieceText(p) + s) == ([p.c] + token, rest)
  {
    assert (PieceText(p) + s)[|PieceText(p)|..] == s;
  }

  // After an opening double quote, whole pieces are read as they are meant, whatever follows.
  lemma {:induction false} QuotedReads(pieces: seq<Piece>, r: string)
    requires QuotedPieces(pieces)
    ensures var (token, rest) := DoubleQuoted(r);
            DoubleQuoted(Flat(pieces) + r) == (QuotedMeaning(pieces) + token, rest)
  {
    hide DoubleQuoted, InQuotes;
    var token := DoubleQuoted(r).0;
    if pieces == [] {
      assert [] + r == r && [] + token == token;
    } else {
      FlatUnfold(pieces, r);
      QuotedPiece(pieces[0], Flat(pieces[1..]) + r);
      QuotedReads(pieces[1..], r);
      assert QuotedMeaning(pieces) + token == [InQuotes(pieces[0])] + (QuotedMeaning(pieces[1..]) + token);
    }
  }

  lemma {:induction false} SingleReads(text: string, r: string)
    requires '\'' !in text
    ensures var (token, rest) := SingleQuoted(r);
            SingleQuoted(text + r) == (text + token, rest)
  {
    var token := SingleQuoted(r).0;
    if text == [] {
      assert [] + r == r && [] + token == token;
    } else {
      assert (text + r)[1..] == text[1..] + r;
      SingleReads(text[1..], r);
      assert text + token == [text[0]] + (text[1..] + token);
    }
  }

  lemma {:induction false} UnquotedReads(pieces: seq<Piece>, r: string)
    requires UnquotedPieces(pieces)
    ensures var (token, rest) := Bare(r);
            Bare(Flat(pieces) + r) == (UnquotedMeaning(pieces) + token, rest)
  {
    hide Bare;
    var token := Bare(r).0;
    if pieces == [] {
      assert [] + r == r && [] + token == token;
    } else {
      FlatUnfold(pieces, r);
      UnquotedPiece(pieces[0], Flat(pieces[1..]) + r);
      UnquotedReads(pieces[1..], r);
      assert UnquotedMeaning(pieces) + token == [pieces[0].c] + (UnquotedMeaning(pieces[1..]) + token);
    }
  }

  // A double-quoted word ends at its quote or at the end of the line; a lone backslash there stays.
  lemma QuotedEnds(pieces: seq<Piece>, r: string)
    requires QuotedPieces(pieces)
    ensures NextToken("\"" + (Flat(pieces) + ("\"" + r))) == (Some(QuotedMeaning(pieces)), r)
    ensures NextToken("\"" + Flat(pieces)) == (Some(QuotedMeaning(pieces)), "")
    ensures NextToken("\"" + (Flat(pieces) + "\\")) == (Some(QuotedMeaning(pieces) + "\\"), "")
  {
    var m := QuotedMeaning(pieces);
    QuotedReads(pieces, "\"" + r);
    QuotedReads(pieces, "");
    QuotedReads(pieces, "\\");
    LoneBackslash();
    assert ("\"" + r)[1..] == r;
    assert m + "" == m && Flat(pieces) + "" == Flat(pieces);
    AfterQuote('"', Flat(pieces) + ("\"" + r));
    AfterQuote('"', Flat(pieces));
    AfterQuote('"', Flat(pieces) + "\\");
  }

  lemma LoneBackslash()
    ensures DoubleQuoted("\\") == ("\\", "") && Bare("\\") == ("\\", "")
  {
    assert "\\"[1..] == "" && ['\\'] + "" == "\\";
  }

  lemma SingleEnds(text: string, r: string)
    requires '\'' !in text
    ensures NextToken("'" + (text + ("'" + r))) == (Some(text), r)
    ensures NextToken("'" + text) == (Some(text), "")
  {
    SingleReads(text, "'" + r);
    SingleReads(text, "");
    assert ("'" + r)[1..] == r && text + "" == text;
    AfterQuote('\'', text + ("'" + r));
    AfterQuote('\'', text);
  }

  lemma AfterQuote(q: char, s: string)
    requires q == '"' || q == '\''
    ensures SkipSpace([q] + s) == [q] + s && ([q] + s)[1..] == s
  {
  }

  // An unquoted word ends at each of the six blanks, which is dropped, or at the end of the line;
  // a lone backslash there stays.
  lemma UnquotedEnds(pieces: seq<Piece>, blank: char, r: string)
    requires pieces != [] && UnquotedPieces(pieces) && blank in " \t\n\U{0B}\U{0C}\r"
    ensures NextToken(Flat(pieces) + ([blank] + r)) == (Some(UnquotedMeaning(pieces)), r)
    ensures NextToken(Flat(pieces)) == (Some(UnquotedMeaning(pieces)), "")
    ensures NextToken(Flat(pieces) + "\\") == (Some(UnquotedMeaning(pieces) + "\\"), "")
  {
    var m := UnquotedMeaning(pieces);
    UnquotedReads(pieces, [blank] + r);
    UnquotedReads(pieces, "");
    UnquotedReads(pieces, "\\");
    LoneBackslash();
    assert ([blank] + r)[1..] == r;
    assert m + "" == m && Flat(pieces) + "" == Flat(pieces);
    UnquotedStart(pieces, [blank] + r);
    UnquotedStart(pieces, "");
    UnquotedStart(pieces, "\\");
  }

  // An unquoted word is not mistaken for anything else.
  lemma UnquotedStart(pieces: seq<Piece>, r: string)
    requires pieces != [] && UnquotedPieces(pieces) && (r == "" || r[0] != '>')
    ensures var s := Flat(pieces) + r;
            s != [] && SkipSpace(s) == s && s[0] !in "\"'|&" && !AtRedirection(s)
            && (s[0] == '!' <==> pieces[0] == Itself('!'))
  {
    FlatUnfold(pieces, r);
    assert pieces[0].Itself? ==> pieces[0].c !in " \t\n\U{0B}\U{0C}\r|><&\\\"'#";
    if |pieces| > 1 {
      FlatUnfold(pieces[1..], r);
      assert pieces[1].Itself? ==> pieces[1].c !in " \t\n\U{0B}\U{0C}\r|><&\\\"'#";
    }
  }

  // ----- Words

  // A word and the blanks after it, which only a quoted one can do without.
  datatype Word = Word(spelling: Spelling, gap: string)

  predicate IsGap(gap: string) {
    forall i :: 0 <= i < |gap| ==> gap[i] in " \t\n\U{0B}\U{0C}\r"
  }

  predicate IsWord(w: Word) {
    IsSpelling(w.spelling) && IsGap(w.gap) && (w.spelling.Unquoted? ==> w.gap != [])
  }

  function Text(w: Word): string {
    Spell(w.spelling) + w.gap
  }

  lemma {:induction false} SkipGap(gap: string, r: string)
    requires IsGap(gap)
    ensures SkipSpace(gap + r) == SkipSpace(r)
  {
    if gap == [] {
      assert [] + r == r;
    } else {
      assert (gap + r)[1..] == gap[1..] + r;
      SkipGap(gap[1..], r);
    }
  }

  // Every word is read as it is meant, in whichever way it is written and whatever follows it.
  lemma TokenRead(w: Word, r: string)
    requires IsWord(w)
    ensures var (token, rest) := NextToken(Text(w) + r);
            token == Some(Meaning(w.spelling)) && SkipSpace(rest) == SkipSpace(r)
  {
    match w.spelling {
      case Double(pieces) =>
        TextAround('"', Flat(pieces), w.gap, r);
        QuotedEnds(pieces, w.gap + r);
        SkipGap(w.gap, r);
      case Single(text) =>
        TextAround('\'', text, w.gap, r);
        SingleEnds(text, w.gap + r);
        SkipGap(w.gap, r);
      case Unquoted(pieces) =>
        UnquotedRead(pieces, w.gap, r);
    }
    hide NextToken, SkipSpace, Flat, QuotedMeaning, UnquotedMeaning, QuotedPieces, UnquotedPieces, IsGap;
  }

  lemma TextAround(q: char, s: string, gap: string, r: string)
    ensures (([q] + s + [q]) + gap) + r == [q] + (s + ([q] + (gap + r)))
  {
    SeqAssociates([q] + s + [q], gap, r);
    SeqAssociates([q], s, [q]);
    SeqAssociates([q], s + [q], gap + r);
    SeqAssociates(s, [q], gap + r);
  }

  lemma UnquotedRead(pieces: seq<Piece>, gap: string, r: string)
    requires pieces != [] && UnquotedPieces(pieces) && gap != [] && IsGap(gap)
    ensures var (token, rest) := NextToken((Flat(pieces) + gap) + r);
            token == Some(UnquotedMeaning(pieces)) && SkipSpace(rest) == SkipSpace(r)
  {
    assert (Flat(pieces) + gap) + r == Flat(pieces) + ([gap[0]] + (gap[1..] + r));
    UnquotedEnds(pieces, gap[0], gap[1..] + r);
    SkipGap(gap[1..], r);
    hide NextToken, SkipSpace, Flat, UnquotedMeaning, UnquotedPieces;
  }

  // No word is mistaken for anything else, and ! only starts an unquoted one.
  lemma WordStart(w: Word, r: string)
    requires IsWord(w)
    ensures var s := Text(w) + r;
            s != [] && SkipSpace(s) == s && s[0] !in "|&" && !AtRedirection(s)
            && (s[0] == '!' <==> w.spelling.Unquoted? && w.spelling.pieces[0] == Itself('!'))
  {
    var s := Text(w) + r;
    match w.spelling {
      case Double(pieces) => assert s[0] == '"';
      case Single(text) => assert s[0] == '\'';
      case Unquoted(pieces) =>
        assert s == Flat(pieces) + (w.gap + r);
        UnquotedStart(pieces, w.gap + r);
    }
  }

  // ----- Quoting any word

  // Quotes and backslashes escaped; the rest by itself, or with line breaks and tabs as \n and \t.
  function QuotePieces(w: string, breaks: bool): (pieces: seq<Piece>)
    ensures QuotedPieces(pieces)
  {
    if w == [] then []
    else
      [if w[0] in "\"\\" then Escaped(w[0])
       else if breaks && w[0] == '\n' then Escaped('n')
       else if breaks && w[0] == '\t' then Escaped('t')
       else Itself(w[0])]
      + QuotePieces(w[1..], breaks)
  }

  // Either way every word can be written.
  lemma {:induction false} QuoteMeans(w: string, breaks: bool)
    ensures QuotedMeaning(QuotePieces(w, breaks)) == w
  {
    if w != [] {
      QuoteMeans(w[1..], breaks);
      assert w == [w[0]] + w[1..];
    }
  }

  // ----- Comments

  // Stripping passes over s without touching it.
  ghost predicate Passes(s: string) {
    forall r :: StripComments(s + r, false, false) == s + StripComments(r, false, false)
  }

  lemma PassesConcat(s: string, t: string)
    requires Passes(s) && Passes(t)
    ensures Passes(s + t)
  {
    forall r ensures StripComments((s + t) + r, false, false) == (s + t) + StripComments(r, false, false) {
      assert (s + t) + r == s + (t + r);
      assert s + (t + StripComments(r, false, false)) == (s + t) + StripComments(r, false, false);
    }
  }

  // Characters that mean nothing to the comment stripper.
  predicate Inert(c: char) {
    c != '"' && c != '\'' && c != '\\' && c != '#'
  }

  lemma {:induction false} PassesInert(s: string)
    requires forall i :: 0 <= i < |s| ==> Inert(s[i])
    ensures Passes(s)
  {
    forall r ensures StripComments(s + r, false, false) == s + StripComments(r, false, false) {
      if s == [] {
        assert s + r == r;
      } else {
        PassesInert(s[1..]);
        assert (s + r)[1..] == s[1..] + r;
      }
    }
  }

  lemma StripEscaped(c: char, r: string, inDouble: bool)
    ensures StripComments(['\\', c] + r, false, inDouble) == ['\\', c] + StripComments(r, false, inDouble)
  {
    var s := ['\\', c] + r;
    assert s[2..] == r && s[..2] == ['\\', c];
  }

  lemma StripItself(c: char, r: string, inSingle: bool, inDouble: bool)
    requires !(inSingle && inDouble)
    requires if inSingle then c != '\'' else if inDouble then c !in "\"\\" else Inert(c)
    ensures StripComments([c] + r, inSingle, inDouble) == [c] + StripComments(r, inSingle, inDouble)
  {
    assert ([c] + r)[1..] == r;
  }

  lemma {:induction false} StripPieces(pieces: seq<Piece>, r: string, inDouble: bool)
    requires if inDouble then QuotedPieces(pieces) else UnquotedPieces(pieces)
    ensures StripComments(Flat(pieces) + r, false, inDouble) == Flat(pieces) + StripComments(r, false, inDouble)
  {
    if pieces == [] {
      assert [] + r == r && [] + StripComments(r, false, inDouble) == StripComments(r, false, inDouble);
    } else {
      var p, rest := pieces[0], Flat(pieces[1..]) + r;
      FlatUnfold(pieces, r);
      FlatUnfold(pieces, StripComments(r, false, inDouble));
      assert p.Itself? && inDouble ==> p.c !in "\"\\";
      assert p.Itself? && !inDouble ==> p.c !in " \t\n\U{0B}\U{0C}\r|><&\\\"'#";
      if p.Itself? {
        StripItself(p.c, rest, false, inDouble);
      } else {
        StripEscaped(p.c, rest, inDouble);
      }
      hide StripComments;
      StripPieces(pieces[1..], r, inDouble);
    }
  }

  lemma {:induction false} StripSingle(text: string, r: string)
    requires '\'' !in text
    ensures StripComments(text + r, true, false) == text + StripComments(r, true, false)
  {
    if text == [] {
      assert [] + r == r && [] + StripComments(r, true, false) == StripComments(r, true, false);
    } else {
      StripItself(text[0], text[1..] + r, true, false);
      hide StripComments;
      StripSingle(text[1..], r);
      assert text + r == [text[0]] + (text[1..] + r);
      assert text + StripComments(r, true, false) == [text[0]] + (text[1..] + StripComments(r, true, false));
    }
  }

  // An opening and a closing quote.
  lemma StripQuote(q: char, s: string)
    requires q == '"' || q == '\''
    ensures StripComments([q] + s, false, false) == [q] + StripComments(s, q == '\'', q == '"')
    ensures StripComments([q] + s, q == '\'', q == '"') == [q] + StripComments(s, false, false)
  {
    assert ([q] + s)[1..] == s;
  }

  lemma Around(q: char, s: string, r: string)
    ensures ([q] + s + [q]) + r == [q] + (s + ([q] + r))
  {
  }

  lemma PassesSpelling(s: Spelling)
    requires IsSpelling(s)
    ensures Passes(Spell(s))
  {
    forall r ensures StripComments(Spell(s) + r, false, false) == Spell(s) + StripComments(r, false, false) {
      match s {
        case Double(pieces) => StripAround('"', Flat(pieces), r) by { StripPieces(pieces, "\"" + r, true); }
        case Single(text) => StripAround('\'', text, r) by { StripSingle(text, "'" + r); }
        case Unquoted(pieces) => StripPieces(pieces, r, false);
      }
    }
  }

  lemma StripAround(q: char, s: string, r: string)
    requires q == '"' || q == '\''
    requires StripComments(s + ([q] + r), q == '\'', q == '"') == s + StripComments([q] + r, q == '\'', q == '"')
    ensures StripComments(([q] + s + [q]) + r, false, false) == ([q] + s + [q]) + StripComments(r, false, false)
  {
    hide StripComments;
    StripQuote(q, s + ([q] + r));
    StripQuote(q, r);
    Around(q, s, r);
    Around(q, s, StripComments(r, false, false));
  }

  lemma PassesWord(w: Word)
    requires IsWord(w)
    ensures Passes(Text(w))
  {
    PassesSpelling(w.spelling);
    PassesInert(w.gap);
    PassesConcat(Spell(w.spelling), w.gap);
  }

  // A line ends at a hash sign that is neither quoted nor after a backslash.
  lemma CommentCut(env: Environment, s: string, comment: string)
    requires Passes(s)
    ensures ParseLine(env, s + ("#" + comment)) == ParseLine(env, s)
  {
    assert StripComments("#" + comment, false, false) == [] && StripComments([], false, false) == [];
    assert s + [] == s;
    assert StripComments(s + ("#" + comment), false, false) == s + [] == StripComments(s + [], false, false);
  }

  // A line of blanks, or of blanks and a comment, holds no command.
  lemma BlankLine(env: Environment, gap: string, comment: string)
    requires IsGap(gap)
    ensures ParseLine(env, gap) == None && ParseLine(env, gap + ("#" + comment)) == None
  {
    PassesInert(gap);
    CommentCut(env, gap, comment);
    SkipGap(gap, []);
    assert StripComments([], false, false) == [] && gap + [] == gap;
    assert StripComments(gap + [], false, false) == gap + [];
  }
}
