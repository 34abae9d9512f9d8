// The screen of the terminal emulator, apps/botterm/src/botterm.c, against a terminal that keeps
// every row it ever had on one growing tape.
module Terminal {
  const COLS := 80
  const ROWS := 25
  const SCROLLBACK_MAX := 1000
  const ESC_MAX := 31

  // The default colour, or one of the 16 of the palette.
  datatype Color = Default | Ansi(n: int)

  datatype Cell = Cell(ch: char, color: Color)

  type Row = seq<Cell>

  // Outside an escape sequence, after ESC, after ESC [
  datatype EscState = Plain | Escape | Sequence

  function BlankRow(color: Color): (r: Row)
    ensures |r| == COLS
  {
    seq(COLS, _ => Cell(' ', color))
  }

  // ----- The reference: nothing ever scrolls away

  // The last ROWS rows are the screen; scrolling adds a blank row.
  datatype Tape = Tape(rows: seq<Row>, row: int, col: int, esc: EscState, escBuf: string, color: Color)

  ghost predicate WellFormed(t: Tape) {
    && |t.rows| >= ROWS && (forall i :: 0 <= i < |t.rows| ==> |t.rows[i]| == COLS)
    && 0 <= t.row < ROWS && 0 <= t.col < COLS
    && |t.escBuf| <= ESC_MAX
  }

  function Top(t: Tape): int {
    |t.rows| - ROWS
  }

  function LineFeed(t: Tape): Tape {
    if t.row + 1 < ROWS then t.(row := t.row + 1) else t.(rows := t.rows + [BlankRow(t.color)], row := ROWS - 1)
  }

  function PutCell(t: Tape, cell: Cell): Tape
    requires WellFormed(t)
  {
    var at := Top(t) + t.row;
    t.(rows := t.rows[at := t.rows[at][t.col := cell]])
  }

  function Cleared(t: Tape): Tape
    requires WellFormed(t)
  {
    t.(rows := t.rows[..Top(t)] + seq(ROWS, _ => BlankRow(Default)), row := 0, col := 0)
  }

  // The number a run of digits denotes.
  function Number(digits: string): int {
    if digits == "" then 0
    else 10 * Number(digits[..|digits| - 1]) + (digits[|digits| - 1] as int - '0' as int)
  }

  function ColorOf(color: Color, val: int): Color {
    if val == 0 then Default
    else if 30 <= val <= 37 then Ansi(val - 30)
    else if 90 <= val <= 97 then Ansi(val - 90 + 8)
    else color
  }

  // The parameters of a colour sequence, applied in order; empty ones are skipped.
  function Colored(color: Color, pending: string, params: string): Color
    decreases |params|
  {
    var applied := if pending == "" then color else ColorOf(color, Number(pending));
    if params == "" then applied
    else if params[0] == ';' then Colored(applied, "", params[1..])
    else Colored(color, pending + [params[0]], params[1..])
  }

  predicate IsLetter(c: char) {
    'a' <= c <= 'z' || 'A' <= c <= 'Z'
  }

  function FeedPlain(t: Tape, c: char): Tape
    requires WellFormed(t)
  {
    if c == '\U{1B}' then t.(esc := Escape, escBuf := "")
    else if c == '\n' then LineFeed(t)
    else if c == '\r' then t.(col := 0)
    else if c == '\U{08}' || c == '\U{7F}' then t.(col := if t.col > 0 then t.col - 1 else 0)
    else if c == '\t' then t.(col := if (t.col + 8) / 8 * 8 >= COLS then COLS - 1 else (t.col + 8) / 8 * 8)
    else if 32 <= c as int <= 126 then Printed(t, c)
    else t
  }

  // A printed character, wrapping at the right margin.
  function Printed(t: Tape, c: char): Tape
    requires WellFormed(t)
  {
    var t' := PutCell(t, Cell(c, t.color));
    if t.col + 1 < COLS then t'.(col := t.col + 1) else LineFeed(t'.(col := 0))
  }

  function FeedSequence(t: Tape, c: char): Tape
    requires WellFormed(t)
  {
    if ('0' <= c <= '9') || c == ';' then
      if |t.escBuf| < ESC_MAX then t.(escBuf := t.escBuf + [c]) else t
    else if c == 'm' then t.(color := Colored(t.color, "", t.escBuf), esc := Plain)
    else if c == 'J' then Cleared(t).(esc := Plain)
    else if IsLetter(c) then t.(esc := Plain)
    else t
  }

  // One character of output.
  function Feed(t: Tape, c: char): Tape
    requires WellFormed(t)
  {
    match t.esc
    case Plain => FeedPlain(t, c)
    case Escape => t.(esc := if c == '[' then Sequence else Plain)
    case Sequence => FeedSequence(t, c)
  }

  // The cursor never leaves the screen.
  lemma FeedWellFormed(t: Tape, c: char)
    requires WellFormed(t)
    ensures WellFormed(Feed(t, c))
  {
  }

  function FeedAll(t: Tape, s: string): (t': Tape)
    requires WellFormed(t)
    ensures WellFormed(t')
  {
    if s == "" then t
    else
      var t' := FeedAll(t, s[..|s| - 1]);
      FeedWellFormed(t', s[|s| - 1]);
      Feed(t', s[|s| - 1])
  }

  // Rows above the screen are never touched again.
  lemma FeedKeepsHistory(t: Tape, c: char)
    requires WellFormed(t)
    ensures Top(t) <= Top(Feed(t, c)) <= Top(t) + 1
    ensures Feed(t, c).rows[..Top(t)] == t.rows[..Top(t)]
  {
  }

  lemma {:induction false} FeedAllKeepsHistory(t: Tape, s: string)
    requires WellFormed(t)
    ensures Top(t) <= Top(FeedAll(t, s))
    ensures FeedAll(t, s).rows[..Top(t)] == t.rows[..Top(t)]
  {
    if s != "" {
      var init := FeedAll(t, s[..|s| - 1]);
      FeedAllKeepsHistory(t, s[..|s| - 1]);
      FeedKeepsHistory(init, s[|s| - 1]);
      var after := FeedAll(t, s);
      assert after.rows[..Top(t)] == after.rows[..Top(init)][..Top(t)];
      assert init.rows[..Top(t)] == init.rows[..Top(init)][..Top(t)];
    }
  }

  // The newest n rows.
  function Newest(rows: seq<Row>, n: nat): seq<Row> {
    if |rows| <= n then rows else rows[|rows| - n..]
  }

  // ----- Characters and colours apart, as the emulator keeps them

  function Chars(rows: seq<Row>): (chars: seq<string>)
    ensures |chars| == |rows|
  {
    seq(|rows|, i requires 0 <= i < |rows| => seq(|rows[i]|, j requires 0 <= j < |rows[i]| => rows[i][j].ch))
  }

  function Colors(rows: seq<Row>): (colors: seq<seq<Color>>)
    ensures |colors| == |rows|
  {
    seq(|rows|, i requires 0 <= i < |rows| => seq(|rows[i]|, j requires 0 <= j < |rows[i]| => rows[i][j].color))
  }

  lemma RowAt(rows: seq<Row>, i: int)
    requires 0 <= i < |rows|
    ensures |Chars(rows)[i]| == |rows[i]| == |Colors(rows)[i]|
    ensures forall j :: 0 <= j < |rows[i]| ==> Chars(rows)[i][j] == rows[i][j].ch && Colors(rows)[i][j] == rows[i][j].color
  {
  }

  // Dropping the first rows and adding some at the end.
  lemma RowsShift(rows: seq<Row>, n: int, more: seq<Row>)
    requires 0 <= n <= |rows|
    ensures Chars(rows[n..] + more) == Chars(rows)[n..] + Chars(more)
    ensures Colors(rows[n..] + more) == Colors(rows)[n..] + Colors(more)
  {
  }

  lemma RowsStore(rows: seq<Row>, r: int, c: int, cell: Cell)
    requires 0 <= r < |rows| && 0 <= c < |rows[r]|
    ensures |Chars(rows)[r]| == |Colors(rows)[r]| == |rows[r]|
    ensures Chars(rows[r := rows[r][c := cell]]) == Chars(rows)[r := Chars(rows)[r][c := cell.ch]]
    ensures Colors(rows[r := rows[r][c := cell]]) == Colors(rows)[r := Colors(rows)[r][c := cell.color]]
  {
    var rows' := rows[r := rows[r][c := cell]];
    RowAt(rows, r);
    RowAt(rows', r);
    assert Chars(rows')[r] == Chars(rows)[r][c := cell.ch];
    assert Colors(rows')[r] == Colors(rows)[r][c := cell.color];
  }

  // A row of spaces, and a row of one colour.
  function Spaces(): string {
    seq(COLS, _ => ' ')
  }

  function Shades(color: Color): seq<Color> {
    seq(COLS, _ => color)
  }

  lemma BlankRows(n: nat, color: Color)
    ensures Chars(seq(n, _ => BlankRow(color))) == seq(n, _ => Spaces())
    ensures Colors(seq(n, _ => BlankRow(color))) == seq(n, _ => Shades(color))
  {
    var rows := seq(n, _ => BlankRow(color));
    forall i | 0 <= i < n ensures Chars(rows)[i] == Spaces() && Colors(rows)[i] == Shades(color) {
      RowAt(rows, i);
    }
  }

  lemma BlankOne(color: Color)
    ensures Chars([BlankRow(color)]) == [Spaces()] && Colors([BlankRow(color)]) == [Shades(color)]
  {
    BlankRows(1, color);
    assert seq(1, _ => BlankRow(color)) == [BlankRow(color)];
  }

  // ----- The emulator

  // One row more below the screen: its top row becomes the newest of the history.
  lemma HistoryGrows(rows: seq<Row>, top: int, row: Row)
    requires 0 <= top < |rows|
    ensures (rows + [row])[top + 1..] == rows[top..][1..] + [row]
    ensures Newest((rows + [row])[..top + 1], SCROLLBACK_MAX) ==
            var history := Newest(rows[..top], SCROLLBACK_MAX);
            (if |history| < SCROLLBACK_MAX then history else history[1..]) + [rows[top..][0]]
  {
    assert (rows + [row])[..top + 1] == rows[..top] + [rows[top]];
  }

  // What scrolling does to characters and colours.
  lemma ScrollRows(screen: seq<Row>, history: seq<Row>, color: Color)
    requires screen != []
    ensures Chars(screen[1..] + [BlankRow(color)]) == Chars(screen)[1..] + [Spaces()]
    ensures Colors(screen[1..] + [BlankRow(color)]) == Colors(screen)[1..] + [Shades(color)]
    ensures var kept := if |history| < SCROLLBACK_MAX then history else history[1..];
            && Chars(kept + [screen[0]])
               == (if |history| < SCROLLBACK_MAX then Chars(history) else Chars(history)[1..]) + [Chars(screen)[0]]
            && Colors(kept + [screen[0]])
               == (if |history| < SCROLLBACK_MAX then Colors(history) else Colors(history)[1..]) + [Colors(screen)[0]]
  {
    RowsShift(screen, 1, [BlankRow(color)]);
    BlankOne(color);
    TopRow(screen);
    hide Chars, Colors, BlankRow, Spaces, Shades;
    if |history| < SCROLLBACK_MAX {
      RowsShift(history, 0, [screen[0]]);
      assert history[0..] == history && Chars(history)[0..] == Chars(history) && Colors(history)[0..] == Colors(history);
    } else {
      RowsShift(history, 1, [screen[0]]);
    }
  }

  lemma TopRow(screen: seq<Row>)
    requires screen != []
    ensures Chars([screen[0]]) == [Chars(screen)[0]] && Colors([screen[0]]) == [Colors(screen)[0]]
  {
  }

  // The screen and the history of a tape with one row more.
  lemma TapeScrolls(t: Tape)
    requires WellFormed(t)
    ensures var t' := t.(rows := t.rows + [BlankRow(t.color)]);
            var history := Newest(t.rows[..Top(t)], SCROLLBACK_MAX);
            && WellFormed(t')
            && Chars(t'.rows[Top(t')..]) == Chars(t.rows[Top(t)..])[1..] + [Spaces()]
            && Colors(t'.rows[Top(t')..]) == Colors(t.rows[Top(t)..])[1..] + [Shades(t.color)]
            && Chars(Newest(t'.rows[..Top(t')], SCROLLBACK_MAX))
               == (if |history| < SCROLLBACK_MAX then Chars(history) else Chars(history)[1..]) + [Chars(t.rows[Top(t)..])[0]]
            && Colors(Newest(t'.rows[..Top(t')], SCROLLBACK_MAX))
               == (if |history| < SCROLLBACK_MAX then Colors(history) else Colors(history)[1..]) + [Colors(t.rows[Top(t)..])[0]]
  {
    HistoryGrows(t.rows, Top(t), BlankRow(t.color));
    ScrollRows(t.rows[Top(t)..], Newest(t.rows[..Top(t)], SCROLLBACK_MAX), t.color);
    hide Chars, Colors, BlankRow, Spaces, Shades, Newest;
  }

  class Screen {
    var grid: seq<string>
    var colorGrid: seq<seq<Color>>
    var cursorRow: int
    var cursorCol: int
    var escState: EscState
    var escBuf: string
    var color: Color
    var scrollback: seq<string>
    var scrollbackColors: seq<seq<Color>>
    var scrollOffset: int

    // All that was ever written, for specification.
    ghost var tape: Tape

    // What is on the screen and what is kept of the rows above it.
    ghost predicate Shows(screen: seq<Row>, history: seq<Row>)
      reads this
    {
      && grid == Chars(screen) && colorGrid == Colors(screen)
      && scrollback == Chars(history) && scrollbackColors == Colors(history)
    }

    ghost predicate Valid()
      reads this
    {
      && WellFormed(tape)
      && Shows(tape.rows[Top(tape)..], Newest(tape.rows[..Top(tape)], SCROLLBACK_MAX))
      && cursorRow == tape.row && cursorCol == tape.col
      && escState == tape.esc && escBuf == tape.escBuf && color == tape.color
      && 0 <= scrollOffset <= |scrollback|
    }

    constructor ()
      ensures Valid() && tape == Tape(seq(ROWS, _ => BlankRow(Default)), 0, 0, Plain, "", Default)
    {
      grid, colorGrid := seq(ROWS, _ => Spaces()), seq(ROWS, _ => Shades(Default));
      cursorRow, cursorCol := 0, 0;
      escState, escBuf, color := Plain, "", Default;
      scrollback, scrollbackColors, scrollOffset := [], [], 0;
      tape := Tape(seq(ROWS, _ => BlankRow(Default)), 0, 0, Plain, "", Default);
      new;
      BlankRows(ROWS, Default);
      assert tape.rows[0..] == tape.rows && tape.rows[..0] == [];
    }

    // scroll_grid
    method ScrollGrid()
      requires Valid()
      modifies `grid, `colorGrid, `scrollback, `scrollbackColors, `tape
      ensures Valid() && tape == old(tape).(rows := old(tape).rows + [BlankRow(color)])
    {
      ghost var tape' := tape.(rows := tape.rows + [BlankRow(color)]);
      TapeScrolls(tape);
      assert tape'.row == tape.row && |grid| == |colorGrid| == ROWS && |scrollback| == |scrollbackColors|;
      hide WellFormed, Top, Newest, Chars, Colors, BlankRow, Spaces, Shades;
      SaveTopRow();
      grid := grid[1..] + [Spaces()];
      colorGrid := colorGrid[1..] + [Shades(color)];
      tape := tape';
    }

    // The top row goes to the scrollback; the oldest row goes when that is full.
    method SaveTopRow()
      requires |grid| == |colorGrid| == ROWS && |scrollback| == |scrollbackColors|
      modifies `scrollback, `scrollbackColors
      ensures scrollback == (if |old(scrollback)| < SCROLLBACK_MAX then old(scrollback) else old(scrollback)[1..]) + [grid[0]]
      ensures scrollbackColors ==
              (if |old(scrollback)| < SCROLLBACK_MAX then old(scrollbackColors) else old(scrollbackColors)[1..]) + [colorGrid[0]]
    {
      if |scrollback| < SCROLLBACK_MAX {
        scrollback := scrollback + [grid[0]];
        scrollbackColors := scrollbackColors + [colorGrid[0]];
      } else {
        scrollback := scrollback[1..] + [grid[0]];
        scrollbackColors := scrollbackColors[1..] + [colorGrid[0]];
      }
    }

    method MoveDown()
      requires Valid()
      modifies `grid, `colorGrid, `scrollback, `scrollbackColors, `cursorRow, `tape
      ensures Valid() && tape == LineFeed(old(tape))
    {
      if cursorRow + 1 >= ROWS {
        ScrollGrid();
        cursorRow := ROWS - 1;
      } else {
        cursorRow := cursorRow + 1;
      }
      tape := tape.(row := cursorRow);
    }

    // write_char_to_grid
    method WriteChar(c: char)
      requires Valid()
      modifies this
      ensures Valid() && tape == Feed(old(tape), c)
    {
      match escState {
        case Plain => WritePlain(c);
        case Escape =>
          escState := if c == '[' then Sequence else Plain;
          tape := tape.(esc := escState);
        case Sequence => WriteSequence(c);
      }
    }

    method WritePlain(c: char)
      requires Valid() && escState == Plain
      modifies this
      ensures Valid() && tape == FeedPlain(old(tape), c)
    {
      if c == '\U{1B}' {
        escState, escBuf := Escape, "";
        tape := tape.(esc := Escape, escBuf := "");
      } else if c == '\n' {
        MoveDown();
      } else if c == '\r' {
        cursorCol := 0;
        tape := tape.(col := 0);
      } else if c == '\U{08}' || c == '\U{7F}' {
        if cursorCol > 0 {
          cursorCol := cursorCol - 1;
        }
        tape := tape.(col := cursorCol);
      } else if c == '\t' {
        cursorCol := (cursorCol + 8) / 8 * 8;
        if cursorCol >= COLS {
          cursorCol := COLS - 1;
        }
        tape := tape.(col := cursorCol);
      } else if 32 <= c as int <= 126 {
        WritePrintable(c);
      }
    }

    method WritePrintable(c: char)
      requires Valid()
      modifies this
      ensures Valid() && tape == Printed(old(tape), c)
    {
      hide PutCell, LineFeed;
      StoreCell(c);
      cursorCol := cursorCol + 1;
      if cursorCol >= COLS {
        cursorCol := 0;
        tape := tape.(col := 0);
        MoveDown();
      } else {
        tape := tape.(col := cursorCol);
      }
    }

    method StoreCell(c: char)
      requires Valid()
      modifies `grid, `colorGrid, `tape
      ensures Valid() && tape == PutCell(old(tape), Cell(c, color))
    {
      ghost var before, top := tape, Top(tape);
      RowsStore(before.rows[top..], cursorRow, cursorCol, Cell(c, color));
      hide Chars, Colors;
      grid := grid[cursorRow := grid[cursorRow][cursorCol := c]];
      colorGrid := colorGrid[cursorRow := colorGrid[cursorRow][cursorCol := color]];
      tape := PutCell(tape, Cell(c, color));
      assert tape.rows[..Top(tape)] == before.rows[..top];
      assert tape.rows[top..] == before.rows[top..][cursorRow := before.rows[top..][cursorRow][cursorCol := Cell(c, color)]];
    }

    method WriteSequence(c: char)
      requires Valid() && escState == Sequence
      modifies this
      ensures Valid() && tape == FeedSequence(old(tape), c)
    {
      hide Chars, Colors, Newest, Cleared, Colored;
      if ('0' <= c <= '9') || c == ';' {
        if |escBuf| < ESC_MAX {
          escBuf := escBuf + [c];
        }
        tape := tape.(escBuf := escBuf);
      }
      if IsLetter(c) {
        if c == 'm' {
          ApplyColors();
        } else if c == 'J' {
          ClearScreen();
        }
        escState := Plain;
        tape := tape.(esc := Plain);
      }
    }

    method ClearScreen()
      requires Valid()
      modifies `grid, `colorGrid, `cursorRow, `cursorCol, `scrollOffset, `tape
      ensures Valid() && tape == Cleared(old(tape))
    {
      ghost var before := tape;
      BlankRows(ROWS, Default);
      hide Chars, Colors, Spaces, Shades, BlankRow;
      grid, colorGrid := seq(ROWS, _ => Spaces()), seq(ROWS, _ => Shades(Default));
      cursorRow, cursorCol, scrollOffset := 0, 0, 0;
      tape := Cleared(tape);
      assert tape.rows[..Top(tape)] == before.rows[..Top(before)];
      assert tape.rows[Top(tape)..] == seq(ROWS, _ => BlankRow(Default));
    }

    // The strtok loop over the parameters.
    method ApplyColors()
      requires Valid()
      modifies `color, `tape
      ensures Valid() && tape == old(tape).(color := Colored(old(tape).color, "", old(tape).escBuf))
    {
      hide Number, ColorOf;
      ghost var whole := Colored(color, "", escBuf);
      var i, pending := 0, "";
      while i < |escBuf|
        invariant 0 <= i <= |escBuf|
        invariant tape == old(tape) && Colored(color, pending, escBuf[i..]) == whole
      {
        ghost var rest := escBuf[i..];
        assert rest[1..] == escBuf[i + 1..];
        if escBuf[i] == ';' {
          if pending != "" {
            color := ColorOf(color, Number(pending));
          }
          pending := "";
        } else {
          pending := pending + [escBuf[i]];
        }
        i := i + 1;
      }
      if pending != "" {
        color := ColorOf(color, Number(pending));
      }
      tape := tape.(color := color);
    }

    // A whole stretch of output.
    method WriteAll(s: string)
      requires Valid()
      modifies this
      ensures Valid() && tape == FeedAll(old(tape), s)
    {
      for i := 0 to |s|
        invariant Valid() && tape == FeedAll(old(tape), s[..i])
      {
        assert s[..i + 1][..i] == s[..i];
        WriteChar(s[i]);
      }
      assert s[..|s|] == s;
    }

    // on_scroll
    method Scroll(dy: int)
      requires Valid()
      modifies `scrollOffset
      ensures Valid()
      ensures scrollOffset == if dy > 0 && old(scrollOffset) < |scrollback| then old(scrollOffset) + 1
                              else if dy < 0 && old(scrollOffset) > 0 then old(scrollOffset) - 1
                              else old(scrollOffset)
    {
      if dy > 0 {
        if scrollOffset < |scrollback| {
          scrollOffset := scrollOffset + 1;
        }
      } else if dy < 0 {
        if scrollOffset > 0 {
          scrollOffset := scrollOffset - 1;
        }
      }
    }

    // What render_term draws at (r, c): scrolled up by k rows, the tape k rows further up.
    method Shown(r: int, c: int) returns (ch: char, shade: Color)
      requires Valid() && 0 <= r < ROWS && 0 <= c < COLS
      ensures 0 <= Top(tape) - scrollOffset + r < |tape.rows|
      ensures Cell(ch, shade) == tape.rows[Top(tape) - scrollOffset + r][c]
    {
      ch, shade := ' ', color;
      if scrollOffset > 0 {
        var virtualRow := |scrollback| - scrollOffset + r;
        if virtualRow >= 0 {
          if virtualRow < |scrollback| {
            RowAt(Newest(tape.rows[..Top(tape)], SCROLLBACK_MAX), virtualRow);
            ch, shade := scrollback[virtualRow][c], scrollbackColors[virtualRow][c];
          } else {
            RowAt(tape.rows[Top(tape)..], virtualRow - |scrollback|);
            ch, shade := grid[virtualRow - |scrollback|][c], colorGrid[virtualRow - |scrollback|][c];
          }
        }
      } else {
        RowAt(tape.rows[Top(tape)..], r);
        ch, shade := grid[r][c], colorGrid[r][c];
      }
    }
  }

  // The scrollback holds, newest last, what scrolled off: all of it up to 1000 rows, else the last 1000.
  lemma ScrollbackHolds(s: Screen, k: int, c: int)
    requires s.Valid() && 0 <= k < |s.scrollback| && 0 <= c < COLS
    ensures |s.scrollback| == |s.scrollbackColors| == (if Top(s.tape) < 1000 then Top(s.tape) else 1000)
    ensures |s.scrollback[k]| == |s.scrollbackColors[k]| == 80
    ensures Cell(s.scrollback[k][c], s.scrollbackColors[k][c]) == s.tape.rows[Top(s.tape) - |s.scrollback| + k][c]
  {
    RowAt(Newest(s.tape.rows[..Top(s.tape)], SCROLLBACK_MAX), k);
  }
}
