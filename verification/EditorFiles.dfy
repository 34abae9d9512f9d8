// editor_load of apps/editor/src/editor.c against what editor_save writes.
module EditorFiles {
  import opened CStrings
  import opened Editor

  // How much one fgets into a row takes: up to a line break, at most LINE_MAX - 1 characters.
  function Taken(content: string, room: nat): (k: nat)
    ensures k <= |content| && k <= room
    ensures content != "" && room > 0 ==> k > 0
  {
    if content == "" || room == 0 then 0
    else if content[0] == '\n' then 1
    else 1 + Taken(content[1..], room - 1)
  }

  // A row without its trailing line-break characters.
  function Chopped(row: string): (r: string)
    ensures r <= row
  {
    if row != "" && (row[|row| - 1] == '\n' || row[|row| - 1] == '\r') then Chopped(row[..|row| - 1]) else row
  }

  function Loaded(content: string, room: nat): seq<string> {
    if content == "" || room == 0 then []
    else
      var k := Taken(content, LINE_MAX - 1);
      [Chopped(content[..k])] + Loaded(content[k..], room - 1)
  }

  // The read loop.
  method Load(content: string) returns (lines: seq<string>)
    ensures lines == Loaded(content, MAX_LINES)
  {
    lines := [];
    var rest := content;
    while |lines| < MAX_LINES && rest != ""
      invariant |lines| <= MAX_LINES
      invariant lines + Loaded(rest, MAX_LINES - |lines|) == Loaded(content, MAX_LINES)
      decreases |rest|
    {
      var k := Taken(rest, LINE_MAX - 1);
      var row := rest[..k];
      while row != "" && (row[|row| - 1] == '\n' || row[|row| - 1] == '\r')
        invariant Chopped(row) == Chopped(rest[..k])
        decreases |row|
      {
        row := row[..|row| - 1];
      }
      assert lines + ([row] + Loaded(rest[k..], MAX_LINES - |lines| - 1)) == (lines + [row]) + Loaded(rest[k..], MAX_LINES - |lines| - 1);
      lines, rest := lines + [row], rest[k..];
    }
  }

  lemma {:induction false} TakenHasNoInnerBreak(content: string, room: nat)
    ensures forall i :: 0 <= i < Taken(content, room) - 1 ==> content[i] != '\n'
  {
    if content != "" && room > 0 && content[0] != '\n' {
      TakenHasNoInnerBreak(content[1..], room - 1);
      assert forall i :: 0 < i < Taken(content, room) - 1 ==> content[i] == content[1..][i - 1];
    }
  }

  lemma {:induction false} ChoppedHasNoBreak(row: string)
    requires forall i :: 0 <= i < |row| - 1 ==> row[i] != '\n'
    ensures '\n' !in Chopped(row)
  {
    if row != "" && (row[|row| - 1] == '\n' || row[|row| - 1] == '\r') {
      ChoppedHasNoBreak(row[..|row| - 1]);
    }
  }

  lemma {:induction false} LoadedRows(content: string, room: nat)
    ensures |Loaded(content, room)| <= room
    ensures forall i :: 0 <= i < |Loaded(content, room)| ==>
              |Loaded(content, room)[i]| < LINE_MAX && '\n' !in Loaded(content, room)[i]
    ensures Loaded(content, room) == [] <==> content == "" || room == 0
  {
    if content != "" && room > 0 {
      var k := Taken(content, LINE_MAX - 1);
      TakenHasNoInnerBreak(content, LINE_MAX - 1);
      ChoppedHasNoBreak(content[..k]);
      LoadedRows(content[k..], room - 1);
    }
  }

  // Loading gives a usable buffer for every file but the empty one, which leaves no line at all.
  lemma LoadWellFormed(content: string)
    ensures WellFormed(Buffer(Loaded(content, MAX_LINES), 0, 0)) <==> content != ""
  {
    LoadedRows(content, MAX_LINES);
  }

  // What one saved line is read back as: a line that fills the row is split from its line break.
  function Pieces(line: string): seq<string> {
    if |line| < LINE_MAX - 1 then [Chopped(line)] else [Chopped(line), ""]
  }

  function AllPieces(lines: seq<string>): seq<string> {
    if lines == [] then [] else Pieces(lines[0]) + AllPieces(lines[1..])
  }

  lemma {:induction false} TakenLine(line: string, rest: string, room: nat)
    requires '\n' !in line
    ensures Taken(line + "\n" + rest, room) == if |line| < room then |line| + 1 else room
  {
    var s := line + "\n" + rest;
    if line != "" && room > 0 {
      assert s[1..] == line[1..] + "\n" + rest;
      TakenLine(line[1..], rest, room - 1);
    }
  }

  lemma ChoppedBreak(line: string)
    ensures Chopped(line + "\n") == Chopped(line)
  {
    assert (line + "\n")[..|line|] == line;
  }

  // One saved line is read back as its pieces, as far as there is room.
  lemma LoadedLine(line: string, rest: string, room: nat)
    requires |line| < LINE_MAX && '\n' !in line
    ensures Loaded(line + "\n" + rest, room) ==
            if room < |Pieces(line)| then Cut(Pieces(line), room) else Pieces(line) + Loaded(rest, room - |Pieces(line)|)
  {
    hide Taken, Chopped;
    var s := line + "\n" + rest;
    TakenLine(line, rest, LINE_MAX - 1);
    if room == 0 {
    } else if |line| < LINE_MAX - 1 {
      assert s[..|line| + 1] == line + "\n" && s[|line| + 1..] == rest;
      ChoppedBreak(line);
    } else {
      assert s[..|line|] == line && s[|line|..] == "\n" + rest;
      if 1 < room {
        LoadedBreak(rest, room - 1);
        assert [Chopped(line)] + ([""] + Loaded(rest, room - 2)) == Pieces(line) + Loaded(rest, room - 2);
      }
    }
  }

  lemma LoadedBreak(rest: string, room: nat)
    requires 0 < room
    ensures Loaded("\n" + rest, room) == [""] + Loaded(rest, room - 1)
  {
    assert ("\n" + rest)[..1] == "\n" && ("\n" + rest)[1..] == rest;
    assert "\n"[..0] == "";
  }

  lemma {:induction false} LoadedText(lines: seq<string>, room: nat)
    requires forall i :: 0 <= i < |lines| ==> |lines[i]| < LINE_MAX && '\n' !in lines[i]
    ensures Loaded(Text(lines), room) == Cut(AllPieces(lines), room)
  {
    if lines != [] {
      FirstLine(lines);
      LoadedLine(lines[0], Text(lines[1..]), room);
      hide Loaded, Text, Pieces;
      if |Pieces(lines[0])| <= room {
        LoadedText(lines[1..], room - |Pieces(lines[0])|);
      }
    }
  }

  predicate Stable(line: string) {
    |line| < LINE_MAX - 1 && (line == "" || line[|line| - 1] != '\r')
  }

  // A line that fills its row, with nothing but empty lines after it, in a buffer that is full: the
  // row the extra line break would make is the one that no longer fits.
  predicate FullThenEmpty(lines: seq<string>) {
    && lines != [] && |lines[0]| == LINE_MAX - 1 && lines[0][|lines[0]| - 1] != '\r'
    && forall i :: 0 < i < |lines| ==> lines[i] == ""
  }

  // Line k is the first that does not leave room, and such a line.
  predicate FullAt(lines: seq<string>, k: int) {
    0 <= k < |lines| && (forall i :: 0 <= i < k ==> Stable(lines[i])) && FullThenEmpty(lines[k..])
  }

  // An extra empty row in front shows unless all rows are empty and the last is dropped.
  lemma {:induction false} EmptyShifts(lines: seq<string>)
    requires forall i :: 0 <= i < |lines| ==> '\n' !in lines[i]
    ensures |lines| <= |AllPieces(lines)|
    ensures Cut([""] + AllPieces(lines), |lines|) == lines <==> forall i :: 0 <= i < |lines| ==> lines[i] == ""
  {
    if lines != [] {
      var tail := lines[1..];
      EmptyShifts(tail);
      assert lines == [lines[0]] + tail && (forall i :: 0 < i < |lines| ==> lines[i] == tail[i - 1]);
      if lines[0] == "" {
        assert AllPieces(lines) == [""] + AllPieces(tail);
        assert Cut([""] + AllPieces(lines), |lines|) == [""] + Cut(AllPieces(lines), |tail|);
        assert Cut([""] + AllPieces(lines), |lines|)[1..] == Cut([""] + AllPieces(tail), |tail|);
      } else {
        assert Cut([""] + AllPieces(lines), |lines|)[0] == "";
      }
    }
  }

  // Reading the lines back gives the same lines exactly when all are stable, or when the first that
  // is not fills its row and ends a full buffer.
  lemma {:induction false} PiecesMatch(lines: seq<string>, room: nat)
    requires |lines| <= room && forall i :: 0 <= i < |lines| ==> |lines[i]| < LINE_MAX && '\n' !in lines[i]
    ensures Cut(AllPieces(lines), room) == lines <==>
            || (forall i :: 0 <= i < |lines| ==> Stable(lines[i]))
            || (|lines| == room && exists k :: FullAt(lines, k))
  {
    if lines != [] {
      var line, tail := lines[0], lines[1..];
      assert lines == [line] + tail && (forall i :: 0 < i < |lines| ==> lines[i] == tail[i - 1]);
      if Stable(line) {
        assert Pieces(line) == [line];
        PiecesMatch(tail, room - 1);
        assert Cut(AllPieces(lines), room) == [line] + Cut(AllPieces(tail), room - 1);
        LaterFull(lines);
      } else {
        UnstableFirst(lines, room);
      }
    }
  }

  lemma LaterFull(lines: seq<string>)
    requires lines != [] && Stable(lines[0])
    ensures var tail := lines[1..];
            (exists k :: FullAt(lines, k)) <==> (exists k :: FullAt(tail, k))
  {
    var tail := lines[1..];
    if k :| FullAt(lines, k) {
      assert lines[k..] == tail[k - 1..];
      assert FullAt(tail, k - 1);
    }
    if k :| FullAt(tail, k) {
      assert lines[k + 1..] == tail[k..];
      assert FullAt(lines, k + 1);
    }
  }

  lemma UnstableFirst(lines: seq<string>, room: nat)
    requires lines != [] && !Stable(lines[0]) && |lines| <= room
    requires forall i :: 0 <= i < |lines| ==> |lines[i]| < LINE_MAX && '\n' !in lines[i]
    ensures Cut(AllPieces(lines), room) == lines <==> |lines| == room && FullThenEmpty(lines)
    ensures FullThenEmpty(lines) <==> exists k :: FullAt(lines, k)
  {
    assert lines[0..] == lines;
    assert FullThenEmpty(lines) ==> FullAt(lines, 0);
    if lines[0] != "" && lines[0][|lines[0]| - 1] == '\r' {
      assert Cut(AllPieces(lines), room)[0] == Chopped(lines[0]);
    } else {
      FullFirst(lines, room);
    }
  }

  lemma FullFirst(lines: seq<string>, room: nat)
    requires lines != [] && |lines[0]| == LINE_MAX - 1 && lines[0][|lines[0]| - 1] != '\r' && |lines| <= room
    requires forall i :: 0 <= i < |lines| ==> '\n' !in lines[i]
    ensures Cut(AllPieces(lines), room) == lines <==> |lines| == room && FullThenEmpty(lines)
  {
    var line, tail := lines[0], lines[1..];
    var pieces := [""] + AllPieces(tail);
    EmptyShifts(tail);
    FullPieces(lines);
    TakeFirst(line, pieces, room - 1);
    FullEmpties(lines);
    hide AllPieces, Cut, FullThenEmpty;
    assert lines == [line] + tail;
    if |lines| < room {
      TakeLength(pieces, room - 1);
    }
  }

  lemma FullPieces(lines: seq<string>)
    requires lines != [] && |lines[0]| == LINE_MAX - 1 && lines[0][|lines[0]| - 1] != '\r' && '\n' !in lines[0]
    ensures AllPieces(lines) == [lines[0]] + ([""] + AllPieces(lines[1..]))
  {
    hide AllPieces;
    assert Chopped(lines[0]) == lines[0];
    AllPiecesUnfold(lines);
  }

  lemma AllPiecesUnfold(lines: seq<string>)
    requires lines != []
    ensures AllPieces(lines) == Pieces(lines[0]) + AllPieces(lines[1..])
  {
  }

  lemma FullEmpties(lines: seq<string>)
    requires lines != [] && |lines[0]| == LINE_MAX - 1 && lines[0][|lines[0]| - 1] != '\r'
    ensures FullThenEmpty(lines) <==> forall i :: 0 <= i < |lines[1..]| ==> lines[1..][i] == ""
  {
    assert forall i :: 0 < i < |lines| ==> lines[i] == lines[1..][i - 1];
  }

  lemma TakeFirst(row: string, rows: seq<string>, room: nat)
    ensures Cut([row] + rows, room + 1) == [row] + Cut(rows, room)
  {
  }

  lemma TakeLength(rows: seq<string>, room: nat)
    ensures |Cut(rows, room)| == if |rows| <= room then |rows| else room
  {
  }

  // Saving and loading gives the same lines exactly when every line leaves room for its break and
  // does not end in a carriage return, or in the one state of a full buffer described above.
  lemma SaveLoad(lines: seq<string>)
    requires forall i :: 0 <= i < |lines| ==> |lines[i]| < LINE_MAX && '\n' !in lines[i]
    requires |lines| <= MAX_LINES
    ensures Loaded(Text(lines), MAX_LINES) == lines <==>
            || (forall i :: 0 <= i < |lines| ==> Stable(lines[i]))
            || (|lines| == MAX_LINES && exists k :: FullAt(lines, k))
  {
    LoadedText(lines, MAX_LINES);
    PiecesMatch(lines, MAX_LINES);
  }
}
