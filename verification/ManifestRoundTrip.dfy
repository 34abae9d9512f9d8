// Reading back a written manifest.
module ManifestRoundTrip {
  import opened CStrings
  import opened ManifestFormat

  // Text the writer does not have to escape, which it never does.
  predicate Clean(s: string) {
    '"' !in s && '\\' !in s
  }

  // A package in clean text, whose dependencies are names that fit their places.
  predicate Writable(p: Package) {
    && Clean(p.name) && Clean(p.version) && Clean(p.description) && Clean(p.author) && Clean(p.checksum)
    && forall i :: 0 <= i < |p.deps| ==> Clean(p.deps[i]) && |p.deps[i]| <= 63
  }

  // A package as the reader stores one.
  predicate Storable(p: Package) {
    && Writable(p) && 0 < |p.name| <= 63 && 0 < |p.version| <= 31 && |p.description| <= 255
    && |p.author| <= 63 && |p.checksum| <= 64 && |p.deps| <= 32
  }

  // ----- The key search

  // The search passes over text without quotes.
  lemma {:induction false} FindSkips(t: string, rest: string, key: string)
    requires '"' !in t
    ensures FindKey(t + rest, key) == FindKey(rest, key)
  {
    if t == [] {
      assert t + rest == rest;
    } else {
      var s := t + rest;
      assert s[1..] == t[1..] + rest;
      assert s[0] == t[0] && Pattern(key)[0] == '"';
      FindSkips(t[1..], rest, key);
      if |s| < |Pattern(key)| {
        FindShort(rest, key);
      }
    }
  }

  lemma FindShort(s: string, key: string)
    requires |s| < |Pattern(key)|
    ensures FindKey(s, key) == None
  {
  }

  lemma {:induction false} FindSkipsSpace(s: string, key: string)
    ensures FindKey(SkipSpace(s), key) == FindKey(s, key)
  {
    if s != [] && IsSpace(s[0]) {
      assert s == [s[0]] + s[1..];
      FindSkips([s[0]], s[1..], key);
      FindSkipsSpace(s[1..], key);
    }
  }

  // A quoted text is the pattern only if it is the key.
  lemma PatternHere(t: string, rest: string, key: string)
    requires '"' !in t && '"' !in key
    ensures Pattern(key) <= Pattern(t) + rest <==> t == key
  {
    var s := Pattern(t) + rest;
    if Pattern(key) <= s {
      assert s[|t| + 1] == '"' && s[|key| + 1] == Pattern(key)[|key| + 1] == '"';
      assert t == s[1..|t| + 1] && key == Pattern(key)[1..|key| + 1] == s[1..|key| + 1];
    }
  }

  // Past a quoted text that is not the key, the search stands at its closing quote.
  lemma FindMisses(t: string, rest: string, key: string)
    requires '"' !in t && '"' !in key && t != key
    ensures FindKey(Pattern(t) + rest, key) == FindKey(['"'] + rest, key)
  {
    var s := Pattern(t) + rest;
    PatternHere(t, rest, key);
    assert s[1..] == t + (['"'] + rest);
    FindSkips(t, ['"'] + rest, key);
    if |s| < |Pattern(key)| {
      FindShort(s[1..], key);
    }
  }

  // The key itself, not followed by a colon, is passed over whole.
  lemma FindPasses(rest: string, key: string)
    requires '"' !in key && !StartsWith(SkipSpace(rest), ':')
    ensures FindKey(Pattern(key) + rest, key) == FindKey(rest, key)
  {
    assert (Pattern(key) + rest)[|Pattern(key)|..] == rest;
    FindSkipsSpace(rest, key);
  }

  lemma FindHits(rest: string, key: string)
    requires '"' !in key && StartsWith(SkipSpace(rest), ':')
    ensures FindKey(Pattern(key) + rest, key) == Some(SkipSpace(SkipSpace(rest)[1..]))
  {
    assert (Pattern(key) + rest)[|Pattern(key)|..] == rest;
  }

  // Keys the reader asks for.
  predicate IsKey(key: string) {
    key in {"name", "version", "description", "author", "sha256", "dependencies"}
  }

  lemma KeysAreClean(key: string)
    requires IsKey(key)
    ensures '"' !in key && key != ": " && key != ",\n  "
  {
  }

  // A value is passed over even when it is spelled like the key, for no colon follows it.
  lemma FindPassesValue(value: string, rest: string, key: string)
    requires '"' !in value && '"' !in key && key != ",\n  " && StartsWith(rest, '"')
    ensures FindKey(Pattern(value) + (",\n  " + rest), key) == FindKey(rest, key)
  {
    hide FindKey;
    var tail := ",\n  " + rest;
    if value == key {
      FindPasses(tail, key);
      FindSkips(",\n  ", rest, key);
    } else {
      FindMisses(value, tail, key);
      var rest' := rest[1..];
      assert ['"'] + tail == Pattern(",\n  ") + rest';
      assert ['"'] + rest' == rest;
      FindMisses(",\n  ", rest', key);
    }
  }

  lemma EntryThen(k: string, value: string, rest: string)
    ensures Entry(k, value) + rest == Pattern(k) + (": " + (Pattern(value) + (",\n  " + rest)))
  {
  }

  lemma FindPassesEntry(k: string, value: string, rest: string, key: string)
    requires IsKey(key) && IsKey(k) && k != key && '"' !in value && StartsWith(rest, '"')
    ensures FindKey(Entry(k, value) + rest, key) == FindKey(rest, key)
  {
    KeysAreClean(key);
    KeysAreClean(k);
    EntryThen(k, value, rest);
    hide FindKey, Entry, IsKey, StartsWith, Pattern;
    FindPassesKey(k, value, ",\n  " + rest, key);
    FindPassesValue(value, rest, key);
  }

  // Another key and its colon are passed over.
  lemma FindPassesKey(k: string, value: string, rest: string, key: string)
    requires '"' !in k && '"' !in key && k != key && key != ": "
    ensures FindKey(Pattern(k) + (": " + (Pattern(value) + rest)), key) == FindKey(Pattern(value) + rest, key)
  {
    hide FindKey;
    var tail := Pattern(value) + rest;
    FindMisses(k, ": " + tail, key);
    assert tail == ['"'] + tail[1..];
    assert ['"'] + (": " + tail) == Pattern(": ") + tail[1..];
    FindMisses(": ", tail[1..], key);
  }

  lemma FindHitsEntry(value: string, rest: string, key: string)
    requires IsKey(key)
    ensures FindKey(Entry(key, value) + rest, key) == Some(Pattern(value) + (",\n  " + rest))
  {
    KeysAreClean(key);
    var tail := Pattern(value) + (",\n  " + rest);
    EntryThen(key, value, rest);
    assert SkipSpace(": " + tail) == ": " + tail && (": " + tail)[1..] == [' '] + tail;
    assert ([' '] + tail)[1..] == tail && tail[0] == '"';
    FindHits(": " + tail, key);
  }

  // ----- Strings

  lemma {:induction false} ReadsClean(v: string, rest: string, room: nat)
    requires Clean(v)
    ensures var (value, left) := ReadBody(v + (['"'] + rest), room);
            value == Cut(v, room) && (|v| <= room ==> left == ['"'] + rest)
  {
    var s := v + (['"'] + rest);
    if v == [] {
      assert s == ['"'] + rest;
    } else if room > 0 {
      assert s[1..] == v[1..] + (['"'] + rest);
      ReadsClean(v[1..], rest, room - 1);
      assert [v[0]] + Cut(v[1..], room - 1) == Cut(v, room);
    }
  }

  lemma ReadsString(v: string, rest: string, size: nat)
    requires Clean(v) && size > 0
    ensures StartsWith(Pattern(v) + rest, '"')
    ensures var (value, left) := ReadString(Pattern(v) + rest, size);
            value == Cut(v, size - 1) && (|v| < size ==> left == rest)
  {
    assert (Pattern(v) + rest)[1..] == v + (['"'] + rest);
    ReadsClean(v, rest, size - 1);
    assert (['"'] + rest)[1..] == rest;
  }

  lemma {:induction false} EntriesStart(fields: seq<(string, string)>, rest: string)
    requires StartsWith(rest, '"')
    ensures StartsWith(Entries(fields, rest), '"')
  {
  }

  predicate AreFields(fields: seq<(string, string)>) {
    forall j :: 0 <= j < |fields| ==> IsKey(fields[j].0) && Clean(fields[j].1)
  }

  // A field is read back from among the entries, cut to its place, whatever the other values are.
  lemma {:induction false} GetsField(fields: seq<(string, string)>, rest: string, i: nat, size: nat)
    requires i < |fields| && StartsWith(rest, '"') && AreFields(fields)
    requires forall j :: 0 <= j < i ==> fields[j].0 != fields[i].0
    requires size > 0
    ensures GetString(Entries(fields, rest), fields[i].0, size) == Cut(fields[i].1, size - 1)
  {
    hide FindKey, ReadString, Entry;
    var tail := Entries(fields[1..], rest);
    EntriesStart(fields[1..], rest);
    if i == 0 {
      FindHitsEntry(fields[0].1, tail, fields[0].0);
      ReadsString(fields[0].1, ",\n  " + tail, size);
    } else {
      FindPassesEntry(fields[0].0, fields[0].1, tail, fields[i].0);
      GetsField(fields[1..], rest, i - 1, size);
    }
  }

  lemma {:induction false} FindPassesEntries(fields: seq<(string, string)>, rest: string, key: string)
    requires StartsWith(rest, '"') && IsKey(key)
    requires forall j :: 0 <= j < |fields| ==> IsKey(fields[j].0) && Clean(fields[j].1) && fields[j].0 != key
    ensures FindKey(Entries(fields, rest), key) == FindKey(rest, key)
  {
    if fields != [] {
      EntriesStart(fields[1..], rest);
      FindPassesEntry(fields[0].0, fields[0].1, Entries(fields[1..], rest), key);
      FindPassesEntries(fields[1..], rest, key);
    }
  }

  // ----- The dependency array

  // One quoted item that fits, and what follows it.
  lemma ReadsOne(item: string, tail: string, room: nat)
    requires Clean(item) && |item| < DEP_SIZE && 0 < room
    ensures ReadItems("\n    " + (Pattern(item) + tail), room)
            == Prepend(item, ReadItems(SkipComma(SkipSpace(tail)), room - 1))
  {
    SkipsIndent(Pattern(item) + tail);
    ReadsString(item, tail, DEP_SIZE);
    hide ReadString, SkipSpace, SkipComma;
  }

  // The written array after its opening bracket, one dependency at a time.
  lemma DepLinesStep(deps: seq<string>, end: string)
    requires deps != []
    ensures DepLines(deps) + end ==
            "\n    " + (Pattern(deps[0]) + (Separator(deps) + (DepLines(deps[1..]) + end)))
  {
    Reassociate("\n    ", Pattern(deps[0]), Separator(deps), DepLines(deps[1..]), end);
  }

  lemma Reassociate(a: string, b: string, c: string, d: string, e: string)
    ensures (a + (b + (c + d))) + e == a + (b + (c + (d + e)))
  {
  }

  lemma {:induction false} ReadsItems(deps: seq<string>, room: nat)
    requires forall i :: 0 <= i < |deps| ==> Clean(deps[i]) && |deps[i]| < DEP_SIZE
    ensures ReadItems(DepLines(deps) + "]\n}\n", room) == Items(Cut(deps, room))
  {
    if deps == [] {
      assert DepLines(deps) + "]\n}\n" == "]\n}\n";
    } else if room > 0 {
      assert Clean(deps[0]) && |deps[0]| < DEP_SIZE;
      hide ReadItems, DepLines, Clean, Cut;
      CutFirst(deps, room);
      ReadsFirst(deps, room);
      ReadsItems(deps[1..], room - 1);
    }
  }

  lemma CutFirst<T>(s: seq<T>, n: nat)
    requires s != [] && n > 0
    ensures Cut(s, n) == [s[0]] + Cut(s[1..], n - 1)
  {
  }

  lemma ReadsFirst(deps: seq<string>, room: nat)
    requires deps != [] && 0 < room && Clean(deps[0]) && |deps[0]| < DEP_SIZE
    ensures ReadItems(DepLines(deps) + "]\n}\n", room)
            == Prepend(deps[0], ReadItems(DepLines(deps[1..]) + "]\n}\n", room - 1))
  {
    hide ReadItems, SkipSpace, SkipComma, DepLines, Separator, Clean, Prepend;
    var more := DepLines(deps[1..]) + "]\n}\n";
    DepLinesStep(deps, "]\n}\n");
    ReadsOne(deps[0], Separator(deps) + more, room);
    SkipsSeparator(deps, more);
  }

  lemma SkipsSeparator(deps: seq<string>, more: string)
    requires deps != [] && more == DepLines(deps[1..]) + "]\n}\n"
    ensures SkipComma(SkipSpace(Separator(deps) + more)) == more
  {
    if |deps| > 1 {
      assert ("," + more)[1..] == more;
    } else {
      assert more == "]\n}\n";
      hide DepLines;
      SkipsBreak(more);
    }
  }

  lemma SkipsBreak(rest: string)
    requires rest != [] && !IsSpace(rest[0])
    ensures SkipSpace("\n  " + rest) == rest
  {
    var s := "\n  " + rest;
    assert s[1..][1..][1..] == rest;
    assert SkipSpace(s) == SkipSpace(s[1..]) == SkipSpace(s[1..][1..]) == SkipSpace(s[1..][1..][1..]);
  }

  lemma SkipsIndent(rest: string)
    requires StartsWith(rest, '"')
    ensures SkipSpace("\n    " + rest) == rest
  {
    var s := "\n    " + rest;
    assert s[1..][1..][1..][1..][1..] == rest;
    assert SkipSpace(s) == SkipSpace(s[1..]) == SkipSpace(s[1..][1..]) == SkipSpace(s[1..][1..][1..])
        == SkipSpace(s[1..][1..][1..][1..]) == SkipSpace(rest);
  }

  lemma GetsDeps(deps: seq<string>)
    requires forall i :: 0 <= i < |deps| ==> Clean(deps[i]) && |deps[i]| < DEP_SIZE
    ensures GetArray(DepArray(deps), "dependencies") == Items(Cut(deps, MAX_DEPS))
  {
    var tail := DepLines(deps) + "]\n}\n";
    assert DepArray(deps) == Pattern("dependencies") + (": [" + tail);
    assert (": [" + tail)[1..] == " [" + tail && (" [" + tail)[1..] == "[" + tail && ("[" + tail)[1..] == tail;
    FindHits(": [" + tail, "dependencies");
    ReadsItems(deps, MAX_DEPS);
  }

  // Each field keeps what fits it, and a package without a version gets the version 0.0.0.
  function AsRead(p: Package): Package {
    Package(Cut(p.name, 63), if p.version == "" then "0.0.0" else Cut(p.version, 31), Cut(p.description, 255),
            Cut(p.author, 63), Cut(p.checksum, 64), Cut(p.deps, 32))
  }

  // What any written package is read as, whatever the lengths and even when values are spelled like keys.
  lemma WrittenReadsAs(p: Package)
    requires Writable(p)
    ensures Parse(ToJson(p)) == if p.name == "" then MissingName else Parsed(AsRead(p))
  {
    var s := Entries(Fields(p), DepArray(p.deps));
    hide FindKey, ReadItems, ReadBody, Entries, DepArray;
    SameSearch(s);
    FieldsRead(p);
    DepArrayStart(p.deps);
    FindPassesEntries(Fields(p), DepArray(p.deps), "dependencies");
    GetsDeps(p.deps);
    SameFields(s, "{\n  " + s);
  }

  lemma FieldsRead(p: Package)
    requires Writable(p)
    ensures var s := Entries(Fields(p), DepArray(p.deps));
            && GetString(s, "name", NAME_SIZE) == Cut(p.name, 63) && GetString(s, "version", VERSION_SIZE) == Cut(p.version, 31)
            && GetString(s, "description", DESCRIPTION_SIZE) == Cut(p.description, 255)
            && GetString(s, "author", AUTHOR_SIZE) == Cut(p.author, 63) && GetString(s, "sha256", CHECKSUM_SIZE) == Cut(p.checksum, 64)
  {
    var f, rest := Fields(p), DepArray(p.deps);
    DepArrayStart(p.deps);
    assert AreFields(f);
    hide GetString, Entries, DepArray, Cut, AreFields;
    GetsField(f, rest, 0, NAME_SIZE);
    GetsField(f, rest, 1, VERSION_SIZE);
    GetsField(f, rest, 2, DESCRIPTION_SIZE);
    GetsField(f, rest, 3, AUTHOR_SIZE);
    GetsField(f, rest, 4, CHECKSUM_SIZE);
  }

  // Every storable package comes back from its text unchanged, and no other does.
  lemma RoundTrip(p: Package)
    requires Writable(p)
    ensures Parse(ToJson(p)) == Parsed(p) <==> Storable(p)
  {
    WrittenReadsAs(p);
  }

  lemma DepArrayStart(deps: seq<string>)
    ensures StartsWith(DepArray(deps), '"')
  {
  }

  lemma SameFields(s: string, s': string)
    requires forall key :: FindKey(s', key) == FindKey(s, key)
    ensures Parse(s') == Parse(s)
  {
    hide FindKey, ReadItems, ReadBody;
  }

  // The opening brace does not matter to any search.
  lemma SameSearch(s: string)
    ensures forall key :: FindKey("{\n  " + s, key) == FindKey(s, key)
  {
    forall key ensures FindKey("{\n  " + s, key) == FindKey(s, key) {
      FindSkips("{\n  ", s, key);
    }
  }

  // ----- Where the array loop never ends

  // Text in which the loop cannot move on where a string that does not fit is cut.
  predicate Plain(s: string) {
    Clean(s) && (|s| >= DEP_SIZE ==> var c := s[DEP_SIZE - 1]; !IsSpace(c) && c != ',' && c != ']')
  }

  lemma {:induction false} ReadsPrefix(v: string, rest: string, room: nat)
    requires Clean(v) && room <= |v|
    ensures ReadBody(v + rest, room) == (v[..room], v[room..] + rest)
  {
    if room > 0 {
      assert (v + rest)[1..] == v[1..] + rest;
      ReadsPrefix(v[1..], rest, room - 1);
      assert v[..room] == [v[0]] + v[1..][..room - 1];
    } else {
      assert v[0..] == v;
    }
  }

  // An item that does not fit leaves the loop in the middle of it, where it cannot move, unless it
  // took the last place.
  lemma LongItemSticks(item: string, tail: string, room: nat)
    requires Plain(item) && |item| >= DEP_SIZE && 0 < room
    ensures ReadItems("\n    " + (Pattern(item) + tail), room) == Stuck <==> 1 < room
  {
    var s, kept := Pattern(item) + tail, DEP_SIZE - 1;
    var rest := item[kept..] + (['"'] + tail);
    SkipsIndent(s);
    assert s[1..] == item + (['"'] + tail);
    ReadsPrefix(item, ['"'] + tail, kept);
    assert ReadString(s, DEP_SIZE) == (item[..kept], rest);
    assert rest[0] == item[kept];
    assert SkipComma(SkipSpace(rest)) == rest;
    assert ReadItems(rest, room - 1) == if 1 < room then Stuck else Items([]);
    hide ReadString, SkipSpace, SkipComma;
  }

  // Reading back the dependencies a writer printed ends exactly when every name before the last
  // place fits its slot.
  lemma {:induction false} ArrayReadEnds(deps: seq<string>, room: nat)
    requires forall i :: 0 <= i < |deps| ==> Plain(deps[i])
    ensures ReadItems(DepLines(deps) + "]\n}\n", room) != Stuck <==>
            forall i :: 0 <= i < |deps| && i < room - 1 ==> |deps[i]| < DEP_SIZE
  {
    if deps == [] || room == 0 {
      assert deps == [] ==> DepLines(deps) + "]\n}\n" == "]\n}\n";
    } else {
      assert Plain(deps[0]);
      hide ReadItems, SkipSpace, SkipComma, DepLines, Plain, Separator;
      ArrayReadStep(deps, room);
      ArrayReadEnds(deps[1..], room - 1);
      assert forall i :: 0 < i < |deps| ==> deps[i] == deps[1..][i - 1];
    }
  }

  lemma ArrayReadStep(deps: seq<string>, room: nat)
    requires deps != [] && 0 < room && Plain(deps[0])
    ensures var items := ReadItems(DepLines(deps) + "]\n}\n", room);
            if |deps[0]| < DEP_SIZE then items == Prepend(deps[0], ReadItems(DepLines(deps[1..]) + "]\n}\n", room - 1))
            else items == Stuck <==> 1 < room
  {
    assert Clean(deps[0]);
    hide ReadItems, DepLines, Plain, Separator;
    if |deps[0]| < DEP_SIZE {
      ReadsFirst(deps, room);
    } else {
      DepLinesStep(deps, "]\n}\n");
      LongItemSticks(deps[0], Separator(deps) + (DepLines(deps[1..]) + "]\n}\n"), room);
    }
  }

  // ----- The writer's buffer

  function TotalLength(ss: seq<string>): nat {
    if ss == [] then 0 else |ss[0]| + TotalLength(ss[1..])
  }

  lemma {:induction false} DepLinesLength(deps: seq<string>)
    ensures |DepLines(deps)| == TotalLength(deps) + 8 * |deps| + (if deps == [] then 0 else 2)
  {
    if deps != [] {
      DepLinesLength(deps[1..]);
    }
  }

  function FieldsTotal(p: Package): nat {
    |p.name| + |p.version| + |p.description| + |p.author| + |p.checksum|
  }

  // The text and its terminator fit what the writer allocates exactly up to this total.
  lemma FitsExactly(p: Package)
    ensures |ToJson(p)| < Allocated(p) <==>
            FieldsTotal(p) + TotalLength(p.deps) + (if p.deps == [] then 0 else 2) < 403 + 72 * |p.deps|
  {
    DepLinesLength(p.deps);
    FieldsLength(p, DepArray(p.deps));
    hide Fields, Entries, DepLines;
  }

  lemma {:induction false} ShortTotal(ss: seq<string>)
    requires forall i :: 0 <= i < |ss| ==> |ss[i]| < DEP_SIZE
    ensures TotalLength(ss) <= 63 * |ss|
  {
    if ss != [] {
      ShortTotal(ss[1..]);
    }
  }

  // So they fit, whatever the dependencies are, when the five fields total at most 402 bytes.
  lemma Fits(p: Package)
    requires forall i :: 0 <= i < |p.deps| ==> |p.deps[i]| < DEP_SIZE
    requires FieldsTotal(p) <= 402
    ensures |ToJson(p)| < Allocated(p)
  {
    FitsExactly(p);
    ShortTotal(p.deps);
  }

  // A package with a long description, name, author and checksum is storable and does not fit.
  lemma FullPackageOverflows() returns (p: Package)
    ensures Storable(p) && p.deps == [] && FieldsTotal(p) == 403 && !(|ToJson(p)| < Allocated(p))
  {
    p := Package(Letters(63), "1", Letters(255), Letters(20), Letters(64), []);
    FitsExactly(p);
  }

  function Letters(n: nat): (s: string)
    ensures |s| == n && Clean(s)
  {
    seq(n, _ => 'a')
  }

  // A package that fits is written whole and read back unchanged.
  lemma WrittenReadsBack(p: Package)
    requires Storable(p)
    requires FieldsTotal(p) + TotalLength(p.deps) + (if p.deps == [] then 0 else 2) < 403 + 72 * |p.deps|
    ensures |ToJson(p)| < Allocated(p) && Parse(ToJson(p)) == Parsed(p)
  {
    hide TotalLength, FieldsTotal, ToJson;
    FitsExactly(p);
    RoundTrip(p);
  }

  lemma FieldsLength(p: Package, rest: string)
    ensures |Entries(Fields(p), rest)| == |rest| + 84 + |p.name| + |p.version| + |p.description| + |p.author| + |p.checksum|
  {
    hide Entries;
    var f := Fields(p);
    EntriesLength(f, rest);
    EntriesLength(f[1..], rest);
    EntriesLength(f[2..], rest);
    EntriesLength(f[3..], rest);
    EntriesLength(f[4..], rest);
    EntriesLength(f[5..], rest);
  }

  lemma EntriesLength(f: seq<(string, string)>, rest: string)
    ensures |Entries(f, rest)| == if f == [] then |rest| else |f[0].0| + |f[0].1| + 10 + |Entries(f[1..], rest)|
  {
  }
}
