// The text buffer of apps/editor/src/editor.c: an array of lines with a (row, column) cursor,
// against one flat text with a cursor offset.
module Editor {
  import opened Arithmetic

  const MAX_LINES := 8192
  const LINE_MAX := 512

  datatype Buffer = Buffer(lines: seq<string>, cx: int, cy: int)

  // What the editor keeps: at least one line, no line break inside a line, room for the
  // terminator in every row, and the cursor on a character or at the end of its line.
  predicate WellFormed(b: Buffer) {
    && 1 <= |b.lines| <= MAX_LINES
    && (forall i :: 0 <= i < |b.lines| ==> |b.lines[i]| < LINE_MAX && '\n' !in b.lines[i])
    && 0 <= b.cy < |b.lines| && 0 <= b.cx <= |b.lines[b.cy]|
  }

  // The file as editor_save writes it.
  function Text(lines: seq<string>): string {
    if lines == [] then "" else Text(lines[..|lines| - 1]) + lines[|lines| - 1] + "\n"
  }

  // That file up to the cursor, and from it on.
  function Left(b: Buffer): string
    requires WellFormed(b)
  {
    Text(b.lines[..b.cy]) + b.lines[b.cy][..b.cx]
  }

  function Right(b: Buffer): string
    requires WellFormed(b)
  {
    b.lines[b.cy][b.cx..] + "\n" + Text(b.lines[b.cy + 1..])
  }

  // ----- The operations on lines

  function Line(b: Buffer): string
    requires WellFormed(b)
  {
    b.lines[b.cy]
  }

  function Inserted(b: Buffer, ch: char): Buffer
    requires WellFormed(b)
  {
    if |Line(b)| >= LINE_MAX - 2 then b
    else b.(lines := b.lines[b.cy := Line(b)[..b.cx] + [ch] + Line(b)[b.cx..]], cx := b.cx + 1)
  }

  function Broken(b: Buffer): Buffer
    requires WellFormed(b)
  {
    if |b.lines| >= MAX_LINES - 1 then b
    else Buffer(b.lines[..b.cy] + [Line(b)[..b.cx], Line(b)[b.cx..]] + b.lines[b.cy + 1..], 0, b.cy + 1)
  }

  // What strncat leaves of two joined lines.
  function Joined(prev: string, cur: string): string {
    if |prev| + |cur| < LINE_MAX then prev + cur
    else if |prev| < LINE_MAX then prev + cur[..LINE_MAX - 1 - |prev|]
    else prev
  }

  function Deleted(b: Buffer): Buffer
    requires WellFormed(b)
  {
    if b.cx > 0 then
      b.(lines := b.lines[b.cy := Line(b)[..b.cx - 1] + Line(b)[b.cx..]], cx := b.cx - 1)
    else if b.cy > 0 then
      var prev := b.lines[b.cy - 1];
      Buffer(b.lines[..b.cy - 1] + [Joined(prev, Line(b))] + b.lines[b.cy + 1..], |prev|, b.cy - 1)
    else b
  }

  // The same character typed n times.
  function Repeated(b: Buffer, ch: char, n: nat): (r: Buffer)
    requires WellFormed(b) && ch != '\n'
    ensures WellFormed(r)
  {
    if n == 0 then b
    else
      var r := Repeated(b, ch, n - 1);
      InsertRefines(r, ch);
      Inserted(r, ch)
  }

  // The nearest position the cursor can stand on: first the row, then the column in that row.
  function Clamped(b: Buffer): (r: Buffer)
    requires |b.lines| > 0
    ensures 0 <= r.cy < |r.lines| && 0 <= r.cx <= |r.lines[r.cy]|
  {
    var cy := Max(0, Min(b.cy, |b.lines| - 1));
    Buffer(b.lines, Max(0, Min(b.cx, |b.lines[cy]|)), cy)
  }

  // ----- The same operations on flat text

  lemma {:induction false} TextConcat(a: seq<string>, b: seq<string>)
    ensures Text(a + b) == Text(a) + Text(b)
  {
    if b == [] {
      assert a + b == a;
    } else {
      var init, last := b[..|b| - 1], b[|b| - 1];
      assert (a + b)[..|a + b| - 1] == a + init;
      TextConcat(a, init);
      assert Text(a) + (Text(init) + last + "\n") == (Text(a) + Text(init)) + last + "\n";
    }
  }

  lemma TextOfOne(line: string)
    ensures Text([line]) == line + "\n"
  {
    assert [line][..0] == [];
    assert "" + line == line;
  }

  lemma TextSnoc(lines: seq<string>, line: string)
    ensures Text(lines + [line]) == Text(lines) + line + "\n"
  {
    assert (lines + [line])[..|lines|] == lines;
  }

  // The two sides of the cursor are the file.
  lemma SidesAreText(b: Buffer)
    requires WellFormed(b)
    ensures Left(b) + Right(b) == Text(b.lines)
  {
    var before, line, after := b.lines[..b.cy], b.lines[b.cy], b.lines[b.cy + 1..];
    assert b.lines == (before + [line]) + after;
    TextConcat(before + [line], after);
    TextSnoc(before, line);
    assert line == line[..b.cx] + line[b.cx..];
    hide Text, WellFormed;
    SidesRegroup(Text(before), line[..b.cx], line[b.cx..], Text(after));
  }

  lemma SidesRegroup(before: string, left: string, right: string, after: string)
    ensures (before + left) + (right + "\n" + after) == before + (left + right) + "\n" + after
  {
  }

  // Typing a character is insertion at the cursor, unless the line is full.
  lemma InsertRefines(b: Buffer, ch: char)
    requires WellFormed(b) && ch != '\n'
    ensures WellFormed(Inserted(b, ch))
    ensures if |Line(b)| >= LINE_MAX - 2 then Inserted(b, ch) == b
            else Left(Inserted(b, ch)) == Left(b) + [ch] && Right(Inserted(b, ch)) == Right(b)
  {
    if |Line(b)| < LINE_MAX - 2 {
      var b' := Inserted(b, ch);
      assert b'.lines[..b.cy] == b.lines[..b.cy] && b'.lines[b.cy + 1..] == b.lines[b.cy + 1..];
      assert Line(b')[..b'.cx] == Line(b)[..b.cx] + [ch] && Line(b')[b'.cx..] == Line(b)[b.cx..];
    }
  }

  // Enter is insertion of a line break, unless the buffer is full.
  lemma BreakRefines(b: Buffer)
    requires WellFormed(b)
    ensures WellFormed(Broken(b))
    ensures if |b.lines| >= MAX_LINES - 1 then Broken(b) == b
            else Left(Broken(b)) == Left(b) + "\n" && Right(Broken(b)) == Right(b)
  {
    if |b.lines| < MAX_LINES - 1 {
      var b', left := Broken(b), Line(b)[..b.cx];
      assert b'.lines[..b'.cy] == b.lines[..b.cy] + [left];
      TextSnoc(b.lines[..b.cy], left);
      assert b'.lines[b'.cy + 1..] == b.lines[b.cy + 1..];
      assert Line(b')[..0] == "" && Line(b')[0..] == Line(b)[b.cx..];
    }
  }

  // Backspace removes the character before the cursor. Joining two rows removes the line break
  // exactly when the joined line fits; otherwise the text also loses what strncat cuts off.
  lemma DeleteRefines(b: Buffer)
    requires WellFormed(b)
    ensures WellFormed(Deleted(b))
    ensures Left(b) == "" ==> Deleted(b) == b
    ensures Left(b) != "" ==> Left(Deleted(b)) == Left(b)[..|Left(b)| - 1]
    ensures Left(b) != "" ==>
              (Right(Deleted(b)) == Right(b) <==> b.cx > 0 || |b.lines[b.cy - 1]| + |Line(b)| < LINE_MAX)
  {
    if b.cx > 0 {
      DeleteInRow(b);
    } else if b.cy > 0 {
      DeleteBreak(b);
    }
  }

  lemma DeleteInRow(b: Buffer)
    requires WellFormed(b) && b.cx > 0
    ensures WellFormed(Deleted(b)) && Left(b) != ""
    ensures Left(Deleted(b)) == Left(b)[..|Left(b)| - 1] && Right(Deleted(b)) == Right(b)
  {
    var b' := Deleted(b);
    assert b'.lines[..b.cy] == b.lines[..b.cy] && b'.lines[b.cy + 1..] == b.lines[b.cy + 1..];
    assert Line(b')[..b'.cx] == Line(b)[..b.cx - 1] && Line(b')[b'.cx..] == Line(b)[b.cx..];
    assert Line(b)[..b.cx] == Line(b)[..b.cx - 1] + [Line(b)[b.cx - 1]];
  }

  lemma DeleteBreak(b: Buffer)
    requires WellFormed(b) && b.cx == 0 && b.cy > 0
    ensures WellFormed(Deleted(b)) && Left(b) != ""
    ensures Left(Deleted(b)) == Left(b)[..|Left(b)| - 1]
    ensures Right(Deleted(b)) == Right(b) <==> |b.lines[b.cy - 1]| + |Line(b)| < LINE_MAX
  {
    var b', prev, cur, before := Deleted(b), b.lines[b.cy - 1], Line(b), b.lines[..b.cy - 1];
    assert b.lines[..b.cy] == before + [prev];
    TextSnoc(before, prev);
    assert b'.lines[..b'.cy] == before && b'.lines[b'.cy + 1..] == b.lines[b.cy + 1..];
    assert Line(b') == Joined(prev, cur) && Joined(prev, cur)[..|prev|] == prev;
    assert cur[0..] == cur && Line(b)[..0] == "";
    var kept := Joined(prev, cur)[|prev|..];
    assert kept <= cur && (|kept| == |cur| <==> |prev| + |cur| < LINE_MAX);
    hide Text;
  }

  // Of two joined rows the first 511 characters stay, in the text too.
  lemma JoinKeeps(b: Buffer)
    requires WellFormed(b) && b.cx == 0 && b.cy > 0
    ensures var room := 511 - |b.lines[b.cy - 1]|;
            Right(Deleted(b)) == Line(b)[..if |Line(b)| <= room then |Line(b)| else room] + "\n" + Text(b.lines[b.cy + 1..])
  {
    DeleteRefines(b);
    var b', prev := Deleted(b), b.lines[b.cy - 1];
    assert b'.lines[b'.cy + 1..] == b.lines[b.cy + 1..];
    assert Joined(prev, Line(b))[|prev|..] == Line(b)[..if |Line(b)| <= 511 - |prev| then |Line(b)| else 511 - |prev|];
  }

  function Run(ch: char, n: nat): string {
    seq(n, _ => ch)
  }

  // How many of n characters the cursor's line has room for: it takes no more at 510.
  function Fitting(b: Buffer, n: nat): nat
    requires WellFormed(b)
  {
    if |Line(b)| + n <= 510 then n else if |Line(b)| < 510 then 510 - |Line(b)| else 0
  }

  // A character typed n times is inserted as often as there is room for it.
  lemma {:induction false} RepeatRefines(b: Buffer, ch: char, n: nat)
    requires WellFormed(b) && ch != '\n'
    ensures var r, k := Repeated(b, ch, n), Fitting(b, n);
            Left(r) == Left(b) + Run(ch, k) && Right(r) == Right(b) && |Line(r)| == |Line(b)| + k
  {
    hide Left, Right, Line, Inserted, WellFormed, Run;
    if n == 0 {
      NoRun(Left(b), ch);
    } else {
      var r, k := Repeated(b, ch, n - 1), Fitting(b, n - 1);
      var next := Inserted(r, ch);
      assert Repeated(b, ch, n) == next;
      hide Repeated, Fitting;
      RepeatRefines(b, ch, n - 1);
      InsertRefines(r, ch);
      InsertedLength(r, ch);
      FittingStep(b, n);
      RunAdds(Left(b), ch, k);
      assert |Line(r)| >= 510 ==> next == r;
    }
  }

  lemma NoRun(s: string, ch: char)
    ensures s + Run(ch, 0) == s
  {
  }

  lemma FittingStep(b: Buffer, n: nat)
    requires WellFormed(b) && n > 0
    ensures Fitting(b, n) == Fitting(b, n - 1) + if |Line(b)| + Fitting(b, n - 1) < 510 then 1 else 0
  {
  }

  lemma RunAdds(s: string, ch: char, k: nat)
    ensures s + Run(ch, k + 1) == (s + Run(ch, k)) + [ch]
  {
  }

  lemma InsertedLength(b: Buffer, ch: char)
    requires WellFormed(b) && ch != '\n' && WellFormed(Inserted(b, ch))
    ensures |Line(Inserted(b, ch))| == if |Line(b)| < 510 then |Line(b)| + 1 else |Line(b)|
  {
  }

  // ----- Moving

  // Wherever a key sends the cursor, it comes to stand in the nearest row and, of that row's
  // positions, on the nearest.
  lemma ClampedNearest(b: Buffer, row: int, col: int)
    requires 0 <= row < |b.lines|
    ensures var r := Clamped(b);
            && r.lines == b.lines && Abs(r.cy - b.cy) <= Abs(row - b.cy)
            && (0 <= col <= |b.lines[r.cy]| ==> Abs(r.cx - b.cx) <= Abs(col - b.cx))
  {
  }

  // ----- Undoing

  // Backspace undoes a typed character, unless a full line swallowed it.
  lemma BackspaceUndoesInsert(b: Buffer, ch: char)
    requires WellFormed(b) && ch != '\n'
    ensures WellFormed(Inserted(b, ch))
    ensures Deleted(Inserted(b, ch)) == b <==> |Line(b)| < LINE_MAX - 2 || Left(b) == ""
  {
    InsertRefines(b, ch);
    if |Line(b)| < LINE_MAX - 2 {
      var b' := Inserted(b, ch);
      assert Line(b')[..b.cx] + Line(b')[b.cx + 1..] == Line(b);
      assert b'.lines[b.cy := Line(b)] == b.lines;
    } else {
      DeleteRefines(b);
    }
  }

  // Backspace undoes Enter, unless a full buffer swallowed it.
  lemma BackspaceUndoesEnter(b: Buffer)
    requires WellFormed(b)
    ensures WellFormed(Broken(b))
    ensures Deleted(Broken(b)) == b <==> |b.lines| < MAX_LINES - 1 || Left(b) == ""
  {
    BreakRefines(b);
    hide Text;
    if |b.lines| < MAX_LINES - 1 {
      var b' := Broken(b);
      assert Line(b)[..b.cx] + Line(b)[b.cx..] == Line(b);
      assert b'.lines[..b'.cy - 1] == b.lines[..b.cy] && b'.lines[b'.cy + 1..] == b.lines[b.cy + 1..];
    } else {
      DeleteRefines(b);
    }
  }

  // ----- Nothing is lost in the flat view

  // A text with no break inside its lines can be read off in only one way.
  lemma {:induction false} TextDetermines(a: seq<string>, b: seq<string>)
    requires forall i :: 0 <= i < |a| ==> '\n' !in a[i]
    requires forall i :: 0 <= i < |b| ==> '\n' !in b[i]
    requires Text(a) == Text(b)
    ensures a == b
  {
    if a != [] && b != [] {
      FirstLine(a);
      FirstLine(b);
      SameFirstLine(a[0], b[0], Text(a[1..]), Text(b[1..]));
      TextDetermines(a[1..], b[1..]);
      assert a == [a[0]] + a[1..] && b == [b[0]] + b[1..];
    }
  }

  lemma FirstLine(lines: seq<string>)
    requires lines != []
    ensures Text(lines) == lines[0] + "\n" + Text(lines[1..])
  {
    assert lines == [lines[0]] + lines[1..];
    TextConcat([lines[0]], lines[1..]);
    TextOfOne(lines[0]);
  }

  lemma SameFirstLine(a: string, b: string, rest: string, rest': string)
    requires '\n' !in a && '\n' !in b && a + "\n" + rest == b + "\n" + rest'
    ensures a == b && rest == rest'
  {
    var t := a + "\n" + rest;
    assert t[|a|] == '\n' && t[|b|] == '\n';
    assert a == t[..|a|] == b && rest == t[|a| + 1..] == rest';
  }

  // The buffer is the text and the cursor's place in it: two buffers that agree on both sides
  // of the cursor are the same.
  lemma BufferDetermined(b: Buffer, c: Buffer)
    requires WellFormed(b) && WellFormed(c)
    requires Left(b) == Left(c) && Right(b) == Right(c)
    ensures b == c
  {
    SidesAreText(b);
    SidesAreText(c);
    TextDetermines(b.lines, c.lines);
    if b.cy < c.cy {
      LaterRow(b, c);
    } else if c.cy < b.cy {
      LaterRow(c, b);
    }
  }

  lemma LaterRow(b: Buffer, c: Buffer)
    requires WellFormed(b) && WellFormed(c) && b.lines == c.lines && b.cy < c.cy
    ensures |Left(b)| < |Left(c)|
  {
    assert c.lines[..c.cy] == (b.lines[..b.cy] + [Line(b)]) + c.lines[b.cy + 1..c.cy];
    TextConcat(b.lines[..b.cy] + [Line(b)], c.lines[b.cy + 1..c.cy]);
    TextSnoc(b.lines[..b.cy], Line(b));
  }

  // ----- The editor

  datatype Key = Up | Down | Backward | Forward | Enter | Backspace | Tab | Typed(ch: char)

  class TextEditor {
    var lines: seq<string>
    var cx: int
    var cy: int
    var scrollY: int

    constructor ()
      ensures Buf() == Buffer([""], 0, 0) && WellFormed(Buf())
    {
      lines, cx, cy, scrollY := [""], 0, 0, 0;
    }

    function Buf(): Buffer
      reads this
    {
      Buffer(lines, cx, cy)
    }

    // insert_char
    method InsertChar(ch: char)
      requires WellFormed(Buf()) && ch != '\n'
      modifies `lines, `cx
      ensures Buf() == Inserted(old(Buf()), ch) && WellFormed(Buf())
    {
      InsertRefines(Buf(), ch);
      var len := |lines[cy]|;
      if len >= LINE_MAX - 2 {
        return;
      }
      lines := lines[cy := lines[cy][..cx] + [ch] + lines[cy][cx..]];
      cx := cx + 1;
    }

    // insert_newline
    method InsertNewline()
      requires WellFormed(Buf())
      modifies this
      ensures Buf() == Broken(old(Buf())) && WellFormed(Buf())
    {
      BreakRefines(Buf());
      if |lines| >= MAX_LINES - 1 {
        return;
      }
      // the rows below move down one place, then the tail of the current row is copied
      lines := lines[..cy + 1] + [lines[cy][cx..]] + lines[cy + 1..];
      lines := lines[cy := lines[cy][..cx]];
      cy, cx := cy + 1, 0;
      assert lines == Broken(old(Buf())).lines;
    }

    // delete_char
    method DeleteChar()
      requires WellFormed(Buf())
      modifies this
      ensures Buf() == Deleted(old(Buf())) && WellFormed(Buf())
    {
      DeleteRefines(Buf());
      if cx > 0 {
        lines := lines[cy := lines[cy][..cx - 1] + lines[cy][cx..]];
        cx := cx - 1;
      } else if cy > 0 {
        var prevLen := |lines[cy - 1]|;
        cx := prevLen;
        lines := lines[cy - 1 := Joined(lines[cy - 1], lines[cy])];
        lines := lines[..cy] + lines[cy + 1..];
        cy := cy - 1;
        assert lines == Deleted(old(Buf())).lines;
      }
    }

    // clamp_cursor; the visible rows depend on the window height.
    method ClampCursor(visibleRows: int)
      requires |lines| > 0
      modifies `cx, `cy, `scrollY
      ensures Buf() == Clamped(old(Buf()))
      ensures 0 < visibleRows ==> scrollY <= cy < scrollY + visibleRows
    {
      if cy < 0 {
        cy := 0;
      }
      if cy >= |lines| {
        cy := |lines| - 1;
      }
      var len := |lines[cy]|;
      if cx > len {
        cx := len;
      }
      if cx < 0 {
        cx := 0;
      }
      if cy < scrollY {
        scrollY := cy;
      }
      if cy >= scrollY + visibleRows {
        scrollY := cy - visibleRows + 1;
      }
    }

    // on_key, the keys that edit or move: every key keeps the buffer well formed.
    method OnKey(key: Key, visibleRows: int)
      requires WellFormed(Buf())
      modifies this
      ensures WellFormed(Buf())
      ensures key.Up? ==> Buf() == Clamped(Buffer(old(lines), old(cx), old(cy) - 1))
      ensures key.Down? ==> Buf() == Clamped(Buffer(old(lines), old(cx), old(cy) + 1))
      ensures key.Backward? ==> Buf() == Clamped(Buffer(old(lines), old(cx) - 1, old(cy)))
      ensures key.Forward? ==> Buf() == Clamped(Buffer(old(lines), old(cx) + 1, old(cy)))
      ensures key.Tab? ==> Buf() == Repeated(old(Buf()), ' ', 4)
      ensures key.Typed? ==> Buf() == if 32 <= key.ch as int < 127 then Inserted(old(Buf()), key.ch) else old(Buf())
      ensures key.Enter? ==> Buf() == Broken(old(Buf()))
      ensures key.Backspace? ==> Buf() == Deleted(old(Buf()))
      ensures 0 < visibleRows ==> scrollY <= cy < scrollY + visibleRows
    {
      match key {
        case Up => cy := cy - 1;
        case Down => cy := cy + 1;
        case Backward => cx := cx - 1;
        case Forward => cx := cx + 1;
        case Enter => InsertNewline();
        case Backspace => DeleteChar();
        case Tab =>
          for i := 0 to 4
            invariant Buf() == Repeated(old(Buf()), ' ', i)
          {
            InsertChar(' ');
          }
        case Typed(ch) =>
          if 32 <= ch as int < 127 {
            InsertChar(ch);
          }
      }
      ClampCursor(visibleRows);
    }
  }
}
