// When the array loop of services/botpkg/src/manifest.c ends: for every text, exactly when the
// text is made of spaces, commas and strings up to where the loop stops looking.
module ManifestArrays {
  import opened CStrings
  import opened ManifestFormat
  import opened ManifestRoundTrip

  // A character of a string literal: itself, or a backslash and what it escapes.
  predicate IsUnit(u: string) {
    (|u| == 1 && u[0] != '"' && u[0] != '\\') || (|u| == 2 && u[0] == '\\')
  }

  function Flat(units: seq<string>): string {
    if units == [] then [] else units[0] + Flat(units[1..])
  }

  // What a unit stands for: a backslash makes n a line break, t a tab and r a carriage return, and
  // before anything else it only goes away.
  function UnitMeaning(u: string): char
    requires IsUnit(u)
  {
    if |u| == 1 then u[0]
    else match u[1] case 'n' => '\n' case 't' => '\t' case 'r' => '\r' case _ => u[1]
  }

  predicate AreUnits(units: seq<string>) {
    forall i :: 0 <= i < |units| ==> IsUnit(units[i])
  }

  function UnitsMeaning(units: seq<string>): (s: string)
    requires AreUnits(units)
    ensures |s| == |units|
  {
    if units == [] then [] else [UnitMeaning(units[0])] + UnitsMeaning(units[1..])
  }

  // What an array may be made of.
  datatype Piece = Gap(c: char) | Quoted(units: seq<string>, end: string)

  function Spelled(p: Piece): string {
    match p
    case Gap(c) => [c]
    case Quoted(units, end) => ['"'] + (Flat(units) + end)
  }

  function Spell(pieces: seq<Piece>, rest: string): string {
    if pieces == [] then rest else Spelled(pieces[0]) + Spell(pieces[1..], rest)
  }

  function Strings(pieces: seq<Piece>): nat {
    if pieces == [] then 0 else (if pieces[0].Quoted? then 1 else 0) + Strings(pieces[1..])
  }

  // A space, a comma, a closed string that fits, one that is cut after 63 characters, or one that
  // the end of the text cuts short.
  predicate IsPiece(p: Piece, next: string) {
    match p
    case Gap(c) => IsSpace(c) || c == ','
    case Quoted(units, end) =>
      && AreUnits(units)
      && (|| (|units| < DEP_SIZE && end == "\"")
          || (|units| == DEP_SIZE - 1 && end == "" && !StartsWith(next, '"'))
          || (|units| < DEP_SIZE - 1 && next == "" && (end == "" || end == "\\")))
  }

  predicate ArePieces(pieces: seq<Piece>, rest: string) {
    pieces != [] ==> IsPiece(pieces[0], Spell(pieces[1..], rest)) && ArePieces(pieces[1..], rest)
  }

  // val is made of such pieces up to the end of the text, a closing bracket, or the last string
  // there is room for.
  ghost predicate WellSpelled(val: string, pieces: seq<Piece>, rest: string, room: nat) {
    && val == Spell(pieces, rest) && ArePieces(pieces, rest) && Strings(pieces) <= room
    && (rest == "" || rest[0] == ']' || Strings(pieces) == room)
  }

  // ----- The loop, one piece at a time

  lemma ReadsGap(c: char, next: string, room: nat)
    requires IsSpace(c) || c == ','
    ensures ReadItems([c] + next, room) == ReadItems(next, room)
  {
    var val := [c] + next;
    assert val[1..] == next;
    if room > 0 && IsSpace(c) {
      var t := SkipSpace(next);
      assert SkipSpace(val) == t;
      if next == [] || next[0] == ']' {
        assert t == next;
      } else if !StartsWith(t, '"') && |SkipComma(t)| == |next| {
        SkipsNothing(next);
      }
    }
  }

  lemma SkipsNothing(s: string)
    requires |SkipComma(SkipSpace(s))| == |s|
    ensures SkipSpace(s) == s && SkipComma(s) == s
  {
  }

  lemma {:induction false} ReadsSpaces(s: string, room: nat)
    ensures ReadItems(SkipSpace(s), room) == ReadItems(s, room)
  {
    if s != [] && IsSpace(s[0]) {
      assert s == [s[0]] + s[1..];
      ReadsGap(s[0], s[1..], room);
      ReadsSpaces(s[1..], room);
    }
  }

  lemma ReadsComma(s: string, room: nat)
    ensures ReadItems(SkipComma(s), room) == ReadItems(s, room)
  {
    if StartsWith(s, ',') {
      assert s == [s[0]] + s[1..];
      ReadsGap(s[0], s[1..], room);
    }
  }

  // Spaces and a comma after a string are looked at again, so a string is just read and passed.
  lemma ReadsQuoted(val: string, room: nat)
    requires StartsWith(val, '"') && 0 < room
    ensures var (item, rest) := ReadString(val, DEP_SIZE);
            ReadItems(val, room) == Prepend(item, ReadItems(rest, room - 1))
  {
    assert SkipSpace(val) == val;
    var (item, rest) := ReadString(val, DEP_SIZE);
    ReadsSpaces(rest, room - 1);
    ReadsComma(SkipSpace(rest), room - 1);
    hide ReadString, SkipSpace, SkipComma;
  }

  lemma ReadsOther(val: string, room: nat)
    requires val != [] && 0 < room && !IsSpace(val[0]) && val[0] != ',' && val[0] != '"' && val[0] != ']'
    ensures ReadItems(val, room) == Stuck
  {
  }

  // ----- Strings

  lemma ReadsUnit(u: string, s: string, room: nat)
    requires IsUnit(u) && 0 < room
    ensures var (value, rest) := ReadBody(s, room - 1);
            ReadBody(u + s, room) == ([UnitMeaning(u)] + value, rest)
  {
    assert (u + s)[|u|..] == s && u + s != "\\";
  }

  lemma {:induction false} ReadsUnits(units: seq<string>, next: string, room: nat)
    requires AreUnits(units) && |units| <= room
    ensures var (value, rest) := ReadBody(next, room - |units|);
            ReadBody(Flat(units) + next, room) == (UnitsMeaning(units) + value, rest)
  {
    hide ReadBody, IsUnit, UnitMeaning;
    var value := ReadBody(next, room - |units|).0;
    if units == [] {
      assert Flat(units) + next == next && [] + value == value;
    } else {
      var u, more := units[0], Flat(units[1..]) + next;
      assert Flat(units) + next == u + more;
      ReadsUnit(u, more, room);
      ReadsUnits(units[1..], next, room - 1);
      assert [UnitMeaning(u)] + (UnitsMeaning(units[1..]) + value) == UnitsMeaning(units) + value;
    }
  }

  lemma {:induction false} BodyMeans(units: seq<string>, rest: string, room: nat)
    requires AreUnits(units)
    ensures var (value, left) := ReadBody(Flat(units) + (['"'] + rest), room);
            value == Cut(UnitsMeaning(units), room) && (|units| <= room ==> left == ['"'] + rest)
  {
    var s := Flat(units) + (['"'] + rest);
    hide ReadBody, IsUnit, UnitMeaning;
    BodyStops(s, room);
    if units == [] {
      assert s == ['"'] + rest;
    } else if room > 0 {
      var more := Flat(units[1..]) + (['"'] + rest);
      assert s == units[0] + more;
      ReadsUnit(units[0], more, room);
      BodyMeans(units[1..], rest, room - 1);
      CutCons(UnitMeaning(units[0]), UnitsMeaning(units[1..]), room);
    }
  }

  lemma CutCons(c: char, s: string, n: nat)
    requires n > 0
    ensures Cut([c] + s, n) == [c] + Cut(s, n - 1)
  {
  }

  lemma BodyStops(s: string, room: nat)
    ensures room == 0 || StartsWith(s, '"') ==> ReadBody(s, room) == ([], s)
  {
  }

  // A closed string of any length is read as what its units stand for, as many as fit.
  lemma StringMeans(units: seq<string>, rest: string, size: nat)
    requires AreUnits(units) && size > 0
    ensures var s := ['"'] + (Flat(units) + (['"'] + rest));
            && ReadString(s, size).0 == Cut(UnitsMeaning(units), size - 1)
            && (|units| < size ==> ReadString(s, size).1 == rest)
  {
    hide ReadBody, ReadString, Flat, UnitsMeaning, AreUnits, Cut;
    var t := Flat(units) + (['"'] + rest);
    assert StartsWith(['"'] + t, '"') && StartsWith(['"'] + rest, '"') && (['"'] + rest)[1..] == rest;
    var (value, left) := ReadBody(t, size - 1);
    BodyMeans(units, rest, size - 1);
    AfterOpening(t, size);
    assert ReadString(['"'] + t, size).0 == value;
    assert value == Cut(UnitsMeaning(units), size - 1);
  }

  lemma AfterOpening(t: string, size: nat)
    requires size > 0
    ensures var (value, rest) := ReadBody(t, size - 1);
            ReadString(['"'] + t, size) == (value, if StartsWith(rest, '"') then rest[1..] else rest)
  {
    assert (['"'] + t)[1..] == t;
  }

  // A string the end of the text cuts off may end in a lone backslash, which stays.
  function PieceMeaning(p: Piece): string
    requires p.Quoted? && AreUnits(p.units)
  {
    UnitsMeaning(p.units) + (if p.end == "\\" then "\\" else "")
  }

  lemma PieceEnd(p: Piece, next: string)
    requires p.Quoted? && IsPiece(p, next)
    ensures |p.units| < DEP_SIZE
    ensures ReadBody(p.end + next, DEP_SIZE - 1 - |p.units|)
            == (if p.end == "\\" then "\\" else "", if p.end == "\"" then p.end + next else next)
    ensures p.end != "\"" ==> !StartsWith(next, '"')
  {
    if p.end == "" {
      assert p.end + next == next;
    } else if p.end == "\\" {
      assert p.end + next == "\\" && (p.end + next)[1..] == "" && ['\\'] + "" == "\\";
    }
  }

  lemma SpelledThen(p: Piece, next: string)
    requires p.Quoted?
    ensures Spelled(p) + next == ['"'] + (Flat(p.units) + (p.end + next))
    ensures (Spelled(p) + next)[1..] == Flat(p.units) + (p.end + next)
  {
    hide Flat;
    var f, tail := Flat(p.units), p.end + next;
    assert (['"'] + (f + p.end)) + next == ['"'] + (f + tail);
  }

  // A string piece is exactly what the reader consumes.
  lemma ReadsPiece(p: Piece, next: string)
    requires p.Quoted? && IsPiece(p, next)
    ensures StartsWith(Spelled(p) + next, '"')
    ensures ReadString(Spelled(p) + next, DEP_SIZE) == (PieceMeaning(p), next)
  {
    var tail := p.end + next;
    PieceEnd(p, next);
    ReadsUnits(p.units, tail, DEP_SIZE - 1);
    SpelledThen(p, next);
    hide ReadBody, Flat, IsUnit, IsPiece, Spelled;
    if p.end == "\"" {
      assert tail[1..] == next;
    }
  }

  lemma BodyStep(s: string, room: nat)
    requires s != [] && s[0] != '"' && s != "\\" && 0 < room
    ensures var n := if s[0] == '\\' then 2 else 1;
            n <= |s| && IsUnit(s[..n]) && ReadBody(s, room).1 == ReadBody(s[n..], room - 1).1
  {
  }

  // What the reader consumes of any text is units and an end.
  lemma {:induction false} BodyIsUnits(s: string, room: nat) returns (units: seq<string>, end: string)
    ensures AreUnits(units)
    ensures s == Flat(units) + (end + ReadBody(s, room).1)
    ensures (|units| <= room && end == "") || (|units| < room && end == "\\" && ReadBody(s, room).1 == "")
    ensures var rest := ReadBody(s, room).1; rest == "" || rest[0] == '"' || |units| == room
  {
    if s == [] || s[0] == '"' || room == 0 {
      units, end := [], "";
      assert s == [] + ("" + s);
    } else if s == "\\" {
      units, end := [], "\\";
      assert s[1..] == "" && ReadBody(s[1..], room - 1).1 == "";
      assert s == [] + (s + "");
    } else {
      var n := if s[0] == '\\' then 2 else 1;
      BodyStep(s, room);
      hide ReadBody, IsUnit;
      units, end := BodyIsUnits(s[n..], room - 1);
      UnitThen(s[..n], units, end + ReadBody(s, room).1);
      units := [s[..n]] + units;
    }
  }

  lemma UnitThen(u: string, units: seq<string>, rest: string)
    ensures Flat([u] + units) + rest == u + (Flat(units) + rest)
  {
    assert ([u] + units)[1..] == units;
  }

  lemma StringIsPiece(val: string) returns (p: Piece)
    requires StartsWith(val, '"')
    ensures var rest := ReadString(val, DEP_SIZE).1;
            p.Quoted? && val == Spelled(p) + rest && IsPiece(p, rest)
  {
    var units, end := BodyIsUnits(val[1..], DEP_SIZE - 1);
    var left, rest := ReadBody(val[1..], DEP_SIZE - 1).1, ReadString(val, DEP_SIZE).1;
    assert rest == if StartsWith(left, '"') then left[1..] else left;
    hide ReadBody, ReadString, Flat, IsUnit;
    p := Quoted(units, if StartsWith(left, '"') then "\"" else end);
    assert end + left == p.end + rest;
    SpelledThen(p, rest);
    hide Spelled;
    assert val == ['"'] + val[1..];
  }

  // ----- The theorem

  // The strings among the pieces, as they are meant.
  function Meanings(pieces: seq<Piece>, rest: string): (items: seq<string>)
    requires ArePieces(pieces, rest)
    ensures |items| == Strings(pieces)
  {
    if pieces == [] then []
    else (if pieces[0].Quoted? then [PieceMeaning(pieces[0])] else []) + Meanings(pieces[1..], rest)
  }

  // A well-spelled array is read as the strings it holds.
  lemma {:induction false} SpelledReads(pieces: seq<Piece>, rest: string, room: nat)
    requires WellSpelled(Spell(pieces, rest), pieces, rest, room)
    ensures ReadItems(Spell(pieces, rest), room) == Items(Meanings(pieces, rest))
    decreases |pieces|
  {
    if pieces != [] && 0 < room {
      var p, next := pieces[0], Spell(pieces[1..], rest);
      hide ReadItems, PieceMeaning;
      if p.Gap? {
        ReadsGap(p.c, next, room);
        SpelledReads(pieces[1..], rest, room);
      } else {
        ReadsPiece(p, next);
        ReadsQuoted(Spelled(p) + next, room);
        SpelledReads(pieces[1..], rest, room - 1);
      }
    }
  }

  lemma {:induction false} EndsSpelled(val: string, room: nat) returns (pieces: seq<Piece>, rest: string)
    requires ReadItems(val, room) != Stuck
    ensures WellSpelled(val, pieces, rest, room)
    decreases |val|
  {
    if val == [] || val[0] == ']' || room == 0 {
      pieces, rest := [], val;
    } else if StartsWith(val, '"') {
      ReadsQuoted(val, room);
      var p := StringIsPiece(val);
      hide ReadItems;
      pieces, rest := EndsSpelled(ReadString(val, DEP_SIZE).1, room - 1);
      pieces := AddPiece(p, val, pieces, rest);
    } else if IsSpace(val[0]) || val[0] == ',' {
      assert val == [val[0]] + val[1..];
      ReadsGap(val[0], val[1..], room);
      hide ReadItems;
      pieces, rest := EndsSpelled(val[1..], room);
      pieces := AddPiece(Gap(val[0]), val, pieces, rest);
    } else {
      ReadsOther(val, room);
      assert false;
    }
  }

  lemma AddPiece(p: Piece, val: string, pieces: seq<Piece>, rest: string) returns (more: seq<Piece>)
    requires ArePieces(pieces, rest) && IsPiece(p, Spell(pieces, rest)) && val == Spelled(p) + Spell(pieces, rest)
    ensures Spell(more, rest) == val && ArePieces(more, rest)
    ensures Strings(more) == Strings(pieces) + if p.Quoted? then 1 else 0
  {
    more := [p] + pieces;
    assert more[1..] == pieces;
  }

  // For every text after an opening bracket the loop ends if and only if the text is well spelled,
  // and then the items are the strings spelled there.
  lemma ArrayLoopEnds(val: string, room: nat)
    ensures ReadItems(val, room) != Stuck <==> exists pieces, rest :: WellSpelled(val, pieces, rest, room)
    ensures forall pieces, rest :: WellSpelled(val, pieces, rest, room) ==> ReadItems(val, room) == Items(Meanings(pieces, rest))
  {
    forall pieces, rest | WellSpelled(val, pieces, rest, room) ensures ReadItems(val, room) == Items(Meanings(pieces, rest)) {
      SpelledReads(pieces, rest, room);
    }
    if ReadItems(val, room) != Stuck {
      var pieces, rest := EndsSpelled(val, room);
    }
  }

  // So parsing never ends exactly on a named manifest with a dependency array that is not.
  lemma ParseEnds(s: string)
    ensures Parse(s) == Diverges <==>
            && GetString(s, "name", NAME_SIZE) != ""
            && var at := FindKey(s, "dependencies");
               at.Some? && StartsWith(at.value, '[') && forall pieces, rest :: !WellSpelled(at.value[1..], pieces, rest, MAX_DEPS)
  {
    var at := FindKey(s, "dependencies");
    if at.Some? && StartsWith(at.value, '[') {
      ArrayLoopEnds(at.value[1..], MAX_DEPS);
    }
    hide FindKey, ReadItems, WellSpelled, GetString;
  }

  lemma OtherListSticks(c: char, rest: string)
    requires !IsSpace(c) && c !in {',', '"', ']'}
    ensures GetArray(Pattern("dependencies") + (": [" + ([c] + rest)), "dependencies") == Stuck
  {
    var val := [c] + rest;
    assert (": [" + val)[1..] == " [" + val && (" [" + val)[1..] == "[" + val && ("[" + val)[1..] == val;
    FindHits(": [" + val, "dependencies");
    ReadsOther(val, MAX_DEPS);
    hide ReadItems;
  }

  // A manifest whose first dependency starts with anything else, say the number of [1] or the
  // brace of [{}], is never parsed to the end.
  lemma OtherElementSticks(c: char, rest: string)
    requires !IsSpace(c) && c !in {',', '"', ']'}
    ensures Parse("{" + (Entry("name", "a") + (Pattern("dependencies") + (": [" + ([c] + rest))))) == Diverges
  {
    var list := Pattern("dependencies") + (": [" + ([c] + rest));
    var entries := Entry("name", "a") + list;
    assert StartsWith(list, '"');
    FindSkips("{", entries, "name");
    FindSkips("{", entries, "dependencies");
    FindHitsEntry("a", list, "name");
    ReadsString("a", ",\n  " + list, NAME_SIZE);
    FindPassesEntry("name", "a", list, "dependencies");
    OtherListSticks(c, rest);
    hide FindKey, ReadItems, ReadString, Entry, Pattern;
  }
}
