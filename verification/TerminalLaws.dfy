// What a program's output does to the tape of Terminal, said without the functions it is computed
// by: where every character goes, what every control character moves, which colours are chosen.
module TerminalLaws {
  import opened CStrings
  import opened Terminal

  // The cursor's row on the tape.
  function Line(t: Tape): int {
    Top(t) + t.row
  }

  // Cells are counted through the tape, row after row.
  function Position(t: Tape): int {
    80 * Line(t) + t.col
  }

  ghost predicate Awaiting(t: Tape) {
    WellFormed(t) && t.esc == Plain
  }

  // t' has the rows of t, and perhaps blank ones below them.
  ghost predicate OnlyAddsBlank(t: Tape, t': Tape) {
    && |t.rows| <= |t'.rows|
    && (forall i :: 0 <= i < |t.rows| ==> t'.rows[i] == t.rows[i])
    && (forall i, j :: |t.rows| <= i < |t'.rows| && 0 <= j < |t'.rows[i]| ==> t'.rows[i][j] == Cell(' ', t.color))
  }

  // ----- Control characters

  // A line feed goes down one row of the tape and adds a row exactly when it was on the last.
  lemma LineFeedGoesDown(t: Tape)
    requires Awaiting(t)
    ensures var t' := Feed(t, '\n');
            && Line(t') == Line(t) + 1 && t'.col == t.col && t'.color == t.color && Awaiting(t')
            && OnlyAddsBlank(t, t') && |t'.rows| == |t.rows| + (if Line(t) == |t.rows| - 1 then 1 else 0)
  {
  }

  lemma ReturnGoesLeft(t: Tape)
    requires Awaiting(t)
    ensures Feed(t, '\r') == t.(col := 0)
  {
  }

  // Backspace and delete step left, but never to the row above, and rub nothing out.
  lemma BackspaceStepsLeft(t: Tape, c: char)
    requires Awaiting(t) && (c as int == 8 || c as int == 127)
    ensures t.col > 0 ==> Feed(t, c) == t.(col := t.col - 1)
    ensures t.col == 0 ==> Feed(t, c) == t
  {
  }

  // A tab goes to the next multiple of eight, or to the last column.
  lemma TabStops(t: Tape)
    requires Awaiting(t)
    ensures var t' := Feed(t, '\t');
            && t' == t.(col := t'.col)
            && (t.col < 72 ==> t'.col % 8 == 0 && t.col < t'.col <= t.col + 8)
            && (t.col >= 72 ==> t'.col == 79)
  {
  }

  // Every other control character, and every one beyond ASCII, does nothing.
  lemma OthersDoNothing(t: Tape, c: char)
    requires Awaiting(t) && (c as int < 32 || c as int > 127)
    requires c as int !in {8, 9, 10, 13, 27}
    ensures Feed(t, c) == t
  {
  }

  // ----- Text

  predicate IsPrintable(c: char) {
    ' ' <= c <= '~'
  }

  predicate IsText(s: string) {
    forall i :: 0 <= i < |s| ==> IsPrintable(s[i])
  }

  // What t holds, on its own rows and the blank ones that may follow.
  function Held(t: Tape, i: int, j: int): Cell
    requires WellFormed(t) && 0 <= i && 0 <= j < 80
  {
    if i < |t.rows| then t.rows[i][j] else Cell(' ', t.color)
  }

  // t' is t with s written from position p on, in the colour of t.
  ghost predicate Written(t: Tape, t': Tape, p: int, s: string) {
    && WellFormed(t) && WellFormed(t') && |t.rows| <= |t'.rows|
    && forall i, j :: 0 <= i < |t'.rows| && 0 <= j < 80 ==>
         t'.rows[i][j] == if p <= 80 * i + j < p + |s| then Cell(s[80 * i + j - p], t.color) else Held(t, i, j)
  }

  lemma OneWritten(t: Tape, c: char)
    requires Awaiting(t) && IsPrintable(c)
    ensures var t' := Feed(t, c);
            && Written(t, t', Position(t), [c]) && Position(t') == Position(t) + 1
            && t'.color == t.color && Awaiting(t')
            && |t'.rows| == (if Line(t') < |t.rows| then |t.rows| else Line(t') + 1)
  {
  }

  lemma WrittenOnto(t: Tape, t': Tape, t'': Tape, p: int, s: string, c: char)
    requires WellFormed(t) && WellFormed(t') && WellFormed(t'') && t'.color == t.color
    requires Written(t, t', p, s) && Written(t', t'', p + |s|, [c]) && p + |s| <= 80 * |t'.rows|
    ensures Written(t, t'', p, s + [c])
  {
  }

  // Text of any length fills the cells from the cursor on, wrapping from row to row, and nothing else changes.
  lemma {:induction false} TextWritten(t: Tape, s: string)
    requires Awaiting(t) && IsText(s)
    ensures var t' := FeedAll(t, s);
            && Written(t, t', Position(t), s) && Position(t') == Position(t) + |s|
            && t'.color == t.color && Awaiting(t')
            && |t'.rows| == (if Line(t') < |t.rows| then |t.rows| else Line(t') + 1)
  {
    if s != "" {
      var init, c := s[..|s| - 1], s[|s| - 1];
      var t', t'' := FeedAll(t, init), FeedAll(t, s);
      assert t'' == Feed(t', c);
      TextWritten(t, init);
      OneWritten(t', c);
      hide FeedAll, Feed, Written;
      WrittenOnto(t, t', t'', Position(t), init, c);
      assert init + [c] == s;
      assert Line(t') <= Line(t'');
    } else {
      assert FeedAll(t, s) == t;
    }
  }

  // ----- Lines

  lemma {:induction false} FeedAllConcat(t: Tape, s: string, r: string)
    requires WellFormed(t)
    ensures FeedAll(t, s + r) == FeedAll(FeedAll(t, s), r)
  {
    if r == "" {
      assert s + r == s;
    } else {
      assert (s + r)[..|s + r| - 1] == s + r[..|r| - 1];
      FeedAllConcat(t, s, r[..|r| - 1]);
    }
  }

  lemma FeedOne(t: Tape, c: char)
    requires WellFormed(t)
    ensures FeedAll(t, [c]) == Feed(t, c)
  {
    assert FeedAll(t, [c][..0]) == t;
  }

  function Joined(lines: seq<string>): string {
    if lines == [] then ""
    else if |lines| == 1 then lines[0]
    else Joined(lines[..|lines| - 1]) + OnNext(lines[|lines| - 1])
  }

  function OnNext(line: string): string {
    "\r\n" + line
  }

  predicate AreLines(lines: seq<string>) {
    forall k :: 0 <= k < |lines| ==> IsText(lines[k]) && |lines[k]| < 80
  }

  // t' is t with one line to a row from row n on, in the colour of t.
  ghost predicate Listed(t: Tape, t': Tape, n: int, lines: seq<string>) {
    && WellFormed(t) && WellFormed(t') && |t.rows| <= |t'.rows|
    && forall i, j :: 0 <= i < |t'.rows| && 0 <= j < 80 ==>
         t'.rows[i][j] == if n <= i < n + |lines| && j < |lines[i - n]| then Cell(lines[i - n][j], t.color) else Held(t, i, j)
  }

  // w starts row n.
  ghost predicate OnRow(t: Tape, t': Tape, n: int, w: string) {
    Written(t, t', 80 * n, w)
  }

  lemma ReturnAndFeed(t: Tape)
    requires Awaiting(t)
    ensures var t' := FeedAll(t, "\r\n");
            && Line(t') == Line(t) + 1 && t'.col == 0 && t'.color == t.color && Awaiting(t') && OnlyAddsBlank(t, t')
            && |t'.rows| == |t.rows| + (if Line(t) == |t.rows| - 1 then 1 else 0)
  {
    var t1 := Feed(t, '\r');
    FeedAllConcat(t, "\r", "\n");
    FeedOne(t, '\r');
    FeedOne(t1, '\n');
    ReturnGoesLeft(t);
    LineFeedGoesDown(t1);
    assert "\r" + "\n" == "\r\n";
  }

  lemma ListedOnto(t: Tape, t1: Tape, t2: Tape, t3: Tape, n: int, lines: seq<string>, w: string)
    requires WellFormed(t) && WellFormed(t1) && WellFormed(t2) && WellFormed(t3)
    requires Listed(t, t1, n, lines) && OnlyAddsBlank(t1, t2) && OnRow(t2, t3, n + |lines|, w)
    requires t1.color == t.color && t2.color == t.color && |w| < 80 && n + |lines| <= |t1.rows|
    ensures Listed(t, t3, n, lines + [w])
  {
    var all := lines + [w];
    forall i, j | 0 <= i < |t3.rows| && 0 <= j < 80
      ensures Held(t2, i, j) == Held(t1, i, j)
      ensures t3.rows[i][j] == if n <= i < n + |all| && j < |all[i - n]| then Cell(all[i - n][j], t.color) else Held(t, i, j) {
      if i < |t1.rows| {
        assert t2.rows[i] == t1.rows[i];
      } else if i < |t2.rows| {
        assert t2.rows[i][j] == Cell(' ', t.color);
      }
      RowSpan(i, j, n + |lines|, |w|);
    }
  }

  lemma RowSpan(i: int, j: int, n: int, length: int)
    requires 0 <= j < 80 && 0 <= length < 80
    ensures 80 * n <= 80 * i + j < 80 * n + length <==> i == n && j < length
  {
  }

  // t' awaits output at the given row and column; rows were added down to there and no further.
  ghost predicate Reached(t: Tape, t': Tape, row: int, col: int) {
    && Awaiting(t') && t'.color == t.color && Line(t') == row && t'.col == col
    && |t'.rows| == (if row < |t.rows| then |t.rows| else row + 1)
  }

  // A line of text on a row of its own.
  lemma RowWritten(t: Tape, w: string)
    requires Awaiting(t) && t.col == 0 && IsText(w) && |w| < 80
    ensures var t' := FeedAll(t, w); Reached(t, t', Line(t), |w|) && OnRow(t, t', Line(t), w)
  {
    var t' := FeedAll(t, w);
    hide FeedAll, Written, IsText;
    TextWritten(t, w);
    RowSpan(Line(t'), t'.col, Line(t), |w|);
    assert Line(t') == Line(t) && t'.col == |w|;
  }

  // One more line.
  lemma NextReached(t: Tape, t1: Tape, row: int, col: int, w: string)
    requires WellFormed(t) && Reached(t, t1, row, col) && IsText(w) && |w| < 80
    ensures Reached(t, FeedAll(t1, OnNext(w)), row + 1, |w|)
  {
    hide FeedAll, Written, OnlyAddsBlank, IsText;
    ReturnAndFeed(t1);
    RowWritten(FeedAll(t1, "\r\n"), w);
    FeedAllConcat(t1, "\r\n", w);
  }

  lemma NextRow(t1: Tape, w: string) returns (t2: Tape)
    requires Awaiting(t1) && IsText(w) && |w| < 80
    ensures var t3 := FeedAll(t1, OnNext(w));
            && WellFormed(t2) && WellFormed(t3) && OnlyAddsBlank(t1, t2) && t2.color == t1.color
            && OnRow(t2, t3, Line(t1) + 1, w)
  {
    t2 := FeedAll(t1, "\r\n");
    hide FeedAll, OnRow, OnlyAddsBlank, IsText;
    ReturnAndFeed(t1);
    RowWritten(t2, w);
    FeedAllConcat(t1, "\r\n", w);
  }

  lemma NextListed(t: Tape, t1: Tape, t3: Tape, init: seq<string>, w: string)
    requires WellFormed(t) && Awaiting(t1) && WellFormed(t3) && t3 == FeedAll(t1, OnNext(w)) && IsText(w) && |w| < 80
    requires Listed(t, t1, Line(t), init) && t1.color == t.color && Line(t1) + 1 == Line(t) + |init|
    ensures Listed(t, t3, Line(t), init + [w])
  {
    assert Line(t) + |init| <= |t1.rows|;
    hide OnNext, FeedAll, Listed, OnRow, OnlyAddsBlank, IsText, WellFormed;
    var t2 := NextRow(t1, w);
    ListedOnto(t, t1, t2, t3, Line(t), init, w);
  }

  // Lines that each fit a row appear one to a row, however many there are, and scrolling keeps them all.
  lemma {:induction false} LinesListed(t: Tape, lines: seq<string>)
    requires Awaiting(t) && t.col == 0 && lines != [] && AreLines(lines)
    ensures var t' := FeedAll(t, Joined(lines));
            Reached(t, t', Line(t) + |lines| - 1, |lines[|lines| - 1]|) && Listed(t, t', Line(t), lines)
  {
    var init, w := lines[..|lines| - 1], lines[|lines| - 1];
    assert init + [w] == lines;
    if |lines| == 1 {
      FirstLine(t, w);
      assert lines == [w];
    } else {
      assert Joined(lines) == Joined(init) + OnNext(w);
      hide OnNext, FeedAll, Joined, Listed, IsText;
      LinesListed(t, init);
      FeedAllConcat(t, Joined(init), OnNext(w));
      NextReached(t, FeedAll(t, Joined(init)), Line(t) + |init| - 1, |init[|init| - 1]|, w);
      NextListed(t, FeedAll(t, Joined(init)), FeedAll(t, Joined(lines)), init, w);
    }
  }

  lemma FirstLine(t: Tape, w: string)
    requires Awaiting(t) && t.col == 0 && IsText(w) && |w| < 80
    ensures var t' := FeedAll(t, w); Reached(t, t', Line(t), |w|) && Listed(t, t', Line(t), [w])
  {
    hide FeedAll, Listed, Written, IsText;
    RowWritten(t, w);
    FirstListed(t, FeedAll(t, w), w);
  }

  lemma FirstListed(t: Tape, t': Tape, w: string)
    requires WellFormed(t) && WellFormed(t') && t.col == 0 && Written(t, t', Position(t), w) && |w| < 80
    ensures Listed(t, t', Line(t), [w])
  {
    forall i, j | 0 <= i < |t'.rows| && 0 <= j < 80
      ensures t'.rows[i][j] == if i == Line(t) && j < |w| then Cell(w[j], t.color) else Held(t, i, j) {
      RowSpan(i, j, Line(t), |w|);
    }
  }

  // A line of text as a whole row.
  function Padded(w: string, color: Color): Row
    requires |w| <= 80
  {
    seq(80, j requires 0 <= j < 80 => Cell(if j < |w| then w[j] else ' ', color))
  }

  // On a screen just opened, row i of the output is line i, padded with blanks.
  lemma FreshListing(lines: seq<string>, i: nat)
    requires lines != [] && AreLines(lines) && i < |lines|
    ensures var t' := FeedAll(Fresh(), Joined(lines));
            && |t'.rows| == (if |lines| <= 25 then 25 else |lines|)
            && t'.rows[i] == Padded(lines[i], Default)
            && Line(t') == |lines| - 1 && t'.col == |lines[|lines| - 1]|
  {
    LinesListed(Fresh(), lines);
    var t' := FeedAll(Fresh(), Joined(lines));
    assert |t'.rows[i]| == 80;
    forall j | 0 <= j < 80 ensures t'.rows[i][j] == Padded(lines[i], Default)[j] {
    }
  }

  // What the constructor of Terminal.Screen shows.
  function Fresh(): (t: Tape)
    ensures Awaiting(t)
  {
    Tape(seq(ROWS, _ => BlankRow(Default)), 0, 0, Plain, "", Default)
  }

  // ----- Escape sequences

  // The same picture: the rows, the cursor and the colour.
  predicate Alike(t: Tape, t': Tape) {
    t' == t.(esc := t'.esc, escBuf := t'.escBuf)
  }

  // ESC and any other character than [ show nothing.
  lemma OtherEscapes(t: Tape, c: char)
    requires Awaiting(t) && c != '['
    ensures var t' := FeedAll(t, ['\U{1B}', c]); Alike(t, t') && t'.esc == Plain
  {
    FeedAllConcat(t, "\U{1B}", [c]);
    FeedOne(t, '\U{1B}');
    FeedOne(Feed(t, '\U{1B}'), c);
    assert "\U{1B}" + [c] == ['\U{1B}', c];
  }

  predicate IsParameters(p: string) {
    forall i :: 0 <= i < |p| ==> '0' <= p[i] <= '9' || p[i] == ';'
  }

  // An escape sequence with the given parameters, ended by c.
  function Csi(p: string, c: char): string {
    "\U{1B}[" + (p + [c])
  }

  lemma {:induction false} ParametersKept(t: Tape, p: string)
    requires WellFormed(t) && t.esc == Sequence && IsParameters(p)
    ensures FeedAll(t, p) == t.(escBuf := Cut(t.escBuf + p, 31))
  {
    if p != "" {
      var init, c := p[..|p| - 1], p[|p| - 1];
      ParametersKept(t, init);
      assert t.escBuf + p == (t.escBuf + init) + [c];
    } else {
      assert t.escBuf + p == t.escBuf;
    }
  }

  lemma CsiFeeds(t: Tape, p: string, c: char)
    requires Awaiting(t) && IsParameters(p)
    ensures FeedAll(t, Csi(p, c)) == Feed(t.(esc := Sequence, escBuf := Cut(p, 31)), c)
  {
    var t0 := t.(esc := Sequence, escBuf := "");
    FeedAllConcat(t, "\U{1B}[", p + [c]);
    FeedAllConcat(t, "\U{1B}", "[");
    FeedOne(t, '\U{1B}');
    FeedOne(Feed(t, '\U{1B}'), '[');
    assert "\U{1B}" + "[" == "\U{1B}[";
    assert FeedAll(t, "\U{1B}[") == t0;
    FeedAllConcat(t0, p, [c]);
    ParametersKept(t0, p);
    assert "" + p == p;
    FeedOne(FeedAll(t0, p), c);
  }

  // J blanks the screen and brings the cursor home; the rows above and the colour stay.
  lemma ClearBlanks(t: Tape, p: string)
    requires Awaiting(t) && IsParameters(p)
    ensures var t' := FeedAll(t, Csi(p, 'J'));
            && |t'.rows| == |t.rows| && Awaiting(t') && Line(t') == |t.rows| - 25 && t'.col == 0 && t'.color == t.color
            && (forall i :: 0 <= i < |t.rows| - 25 ==> t'.rows[i] == t.rows[i])
            && (forall i, j :: |t.rows| - 25 <= i < |t.rows| && 0 <= j < 80 ==> t'.rows[i][j] == Cell(' ', Default))
  {
    CsiFeeds(t, p, 'J');
  }

  // Any other letter than m ends the sequence and shows nothing.
  lemma OtherSequences(t: Tape, p: string, c: char)
    requires Awaiting(t) && IsParameters(p) && ('a' <= c <= 'z' || 'A' <= c <= 'Z') && c != 'm' && c != 'J'
    ensures var t' := FeedAll(t, Csi(p, c)); Alike(t, t') && t'.esc == Plain
  {
    CsiFeeds(t, p, c);
  }

  // Inside a sequence, what is neither a digit, a semicolon nor a letter is passed over.
  lemma InsideSequence(t: Tape, c: char)
    requires WellFormed(t) && t.esc == Sequence
    requires !('0' <= c <= '9') && c != ';' && !('a' <= c <= 'z') && !('A' <= c <= 'Z')
    ensures Feed(t, c) == t
  {
  }

  // ----- Colours

  // m changes nothing but the colour, and reads no more than 31 characters of parameters.
  lemma ColorSequence(t: Tape, p: string)
    requires Awaiting(t) && IsParameters(p)
    ensures var t' := FeedAll(t, Csi(p, 'm')); Alike(t, t'.(color := t.color)) && t'.esc == Plain
    ensures FeedAll(t, Csi(p, 'm')) == FeedAll(t, Csi(Cut(p, 31), 'm'))
  {
    CsiFeeds(t, p, 'm');
    CsiFeeds(t, Cut(p, 31), 'm');
  }

  function Decimal(n: nat): (s: string)
    ensures s != ""
  {
    if n < 10 then [(n + '0' as int) as char] else Decimal(n / 10) + [(n % 10 + '0' as int) as char]
  }

  lemma {:induction false} DecimalReads(n: nat)
    ensures IsParameters(Decimal(n)) && ';' !in Decimal(n) && Number(Decimal(n)) == n
  {
    var last := [(n % 10 + '0' as int) as char];
    assert Number([]) == 0;
    if n >= 10 {
      DecimalReads(n / 10);
      assert Decimal(n)[..|Decimal(n)| - 1] == Decimal(n / 10);
    } else {
      assert Decimal(n)[..0] == [];
    }
  }

  lemma {:induction false} ColoredDigits(color: Color, pending: string, d: string)
    requires ';' !in d
    ensures Colored(color, pending, d) == Colored(color, pending + d, "")
    decreases |d|
  {
    if d == "" {
      assert pending + d == pending;
    } else {
      ColoredDigits(color, pending + [d[0]], d[1..]);
      assert pending + [d[0]] + d[1..] == pending + d;
    }
  }

  lemma {:induction false} ColoredConcat(color: Color, pending: string, p: string, q: string)
    ensures Colored(color, pending, p + (";" + q)) == Colored(Colored(color, pending, p), "", q)
    decreases |p|
  {
    var s := p + (";" + q);
    if p == "" {
      assert s == ";" + q && s[1..] == q;
    } else {
      assert s[1..] == p[1..] + (";" + q);
      var applied := if pending == "" then color else ColorOf(color, Number(pending));
      if p[0] == ';' {
        ColoredConcat(applied, "", p[1..], q);
      } else {
        ColoredConcat(color, pending + [p[0]], p[1..], q);
      }
    }
  }

  // One number: 0 is the default colour, 30 to 37 are the first eight of the palette, 90 to 97 the
  // other eight, and every other number leaves the colour.
  lemma OneColor(t: Tape, n: nat)
    requires Awaiting(t) && |Decimal(n)| <= 31
    ensures var color := FeedAll(t, Csi(Decimal(n), 'm')).color;
            && (n == 0 ==> color == Default)
            && (30 <= n <= 37 ==> color == Ansi(n - 30))
            && (90 <= n <= 97 ==> color == Ansi(n - 82))
            && (n != 0 && !(30 <= n <= 37) && !(90 <= n <= 97) ==> color == t.color)
  {
    DecimalReads(n);
    CsiFeeds(t, Decimal(n), 'm');
    ColoredDigits(t.color, "", Decimal(n));
    assert "" + Decimal(n) == Decimal(n);
  }

  // No number at all leaves the colour, too.
  lemma NoColor(t: Tape)
    requires Awaiting(t)
    ensures FeedAll(t, Csi("", 'm')).color == t.color
  {
    CsiFeeds(t, "", 'm');
  }

  // Parameters after a semicolon act as a sequence of their own would, after the first.
  lemma ColorsCompose(t: Tape, p: string, q: string)
    requires Awaiting(t) && IsParameters(p) && IsParameters(q) && |p| + 1 + |q| <= 31
    ensures FeedAll(t, Csi(p + (";" + q), 'm')).color == FeedAll(t, Csi(p, 'm') + Csi(q, 'm')).color
  {
    var t' := FeedAll(t, Csi(p, 'm'));
    FeedAllConcat(t, Csi(p, 'm'), Csi(q, 'm'));
    ColorSequence(t, p);
    CsiFeeds(t, p, 'm');
    CsiFeeds(t', q, 'm');
    CsiFeeds(t, p + (";" + q), 'm');
    ColoredConcat(t.color, "", p, q);
  }
}
