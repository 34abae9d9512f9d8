// The manifest reader and writer of services/botpkg/src/manifest.c, over positions in the text.
module Manifest {
  import opened CStrings
  import opened ManifestFormat

  // json_skip_ws
  method SkipSpaceAt(s: string, p: nat) returns (q: nat)
    requires p <= |s|
    ensures p <= q <= |s| && s[q..] == SkipSpace(s[p..])
  {
    q := p;
    while q < |s| && IsSpace(s[q])
      invariant p <= q <= |s| && SkipSpace(s[q..]) == SkipSpace(s[p..])
    {
      assert s[q..][1..] == s[q + 1..];
      q := q + 1;
    }
  }

  lemma ReadBodyStep(s: string, p: nat, room: nat)
    requires p < |s| && s[p] != '"' && 0 < room
    ensures var escaped := s[p] == '\\' && p + 1 < |s|;
            var c, next := if escaped then Unescape(s[p + 1]) else s[p], if escaped then p + 2 else p + 1;
            var (value, rest) := ReadBody(s[next..], room - 1);
            ReadBody(s[p..], room) == ([c] + value, rest)
  {
    assert s[p..][1..] == s[p + 1..];
    if p + 1 < |s| {
      assert s[p..][2..] == s[p + 2..];
    }
  }

  // json_read_string, at an opening quote.
  method ReadStringAt(s: string, p: nat, size: nat) returns (value: string, next: nat)
    requires p < |s| && s[p] == '"' && 0 < size
    ensures p < next <= |s|
    ensures (value, s[next..]) == ReadString(s[p..], size)
  {
    hide ReadBody;
    var q := p + 1;
    value := [];
    ghost var whole := ReadBody(s[q..], size - 1);
    assert s[p..][1..] == s[q..] && [] + whole.0 == whole.0;
    while q < |s| && s[q] != '"' && |value| < size - 1
      invariant p < q <= |s| && |value| <= size - 1
      invariant var (more, rest) := ReadBody(s[q..], size - 1 - |value|); whole == (value + more, rest)
      decreases |s| - q
    {
      ReadBodyStep(s, q, size - 1 - |value|);
      var c := s[q];
      ghost var next' := if s[q] == '\\' && q + 1 < |s| then q + 2 else q + 1;
      if s[q] == '\\' && q + 1 < |s| {
        q := q + 1;
        c := Unescape(s[q]);
      }
      ghost var (more, rest) := ReadBody(s[q + 1..], size - 2 - |value|);
      assert value + ([c] + more) == (value + [c]) + more;
      value := value + [c];
      q := q + 1;
    }
    ReadBodyEnd(s[q..], size - 1 - |value|);
    assert value + [] == value;
    ghost var stop := q;
    if q < |s| && s[q] == '"' {
      assert s[q..][1..] == s[q + 1..];
      q := q + 1;
    }
    next := q;
  }

  lemma ReadBodyEnd(p: string, room: nat)
    requires p == [] || p[0] == '"' || room == 0
    ensures ReadBody(p, room) == ([], p)
  {
  }

  lemma FindKeyStep(s: string, pos: nat, key: string)
    requires pos <= |s|
    ensures var width := |Pattern(key)|;
            if pos + width > |s| then FindKey(s[pos..], key) == None
            else if s[pos..pos + width] == Pattern(key) then
              var t := SkipSpace(s[pos + width..]);
              FindKey(s[pos..], key) == if StartsWith(t, ':') then Some(SkipSpace(t[1..])) else FindKey(t, key)
            else FindKey(s[pos..], key) == FindKey(s[pos + 1..], key)
  {
    var p, pattern := s[pos..], Pattern(key);
    if pos + |pattern| <= |s| {
      assert p[1..] == s[pos + 1..] && p[|pattern|..] == s[pos + |pattern|..];
      assert p[..|pattern|] == s[pos..pos + |pattern|];
    }
  }

  // strstr: the first place from pos on where the quoted key stands.
  method Strstr(s: string, pos: nat, key: string) returns (at: Option<nat>)
    requires pos <= |s|
    ensures at.None? ==> FindKey(s[pos..], key) == None
    ensures at.Some? ==> pos <= at.value && at.value + |Pattern(key)| <= |s|
                         && s[at.value..at.value + |Pattern(key)|] == Pattern(key)
                         && FindKey(s[pos..], key) == FindKey(s[at.value..], key)
  {
    hide FindKey, Pattern;
    var pattern := Pattern(key);
    var q := pos;
    while q + |pattern| <= |s| && s[q..q + |pattern|] != pattern
      invariant pos <= q <= |s| && FindKey(s[q..], key) == FindKey(s[pos..], key)
    {
      FindKeyStep(s, q, key);
      PatternLength(key);
      q := q + 1;
    }
    FindKeyStep(s, q, key);
    at := if q + |pattern| <= |s| then Some(q) else None;
  }

  lemma PatternLength(key: string)
    ensures |Pattern(key)| == |key| + 2
  {
  }

  // json_find_key; None where the code returns NULL.
  method FindKeyAt(s: string, key: string) returns (at: Option<nat>)
    ensures match FindKey(s, key)
            case None => at == None
            case Some(val) => at.Some? && at.value <= |s| && s[at.value..] == val
  {
    hide FindKey, Pattern, SkipSpace;
    var pos := 0;
    assert s[0..] == s;
    while true
      invariant 0 <= pos <= |s| && FindKey(s[pos..], key) == FindKey(s, key)
      decreases |s| - pos
    {
      var found := Strstr(s, pos, key);
      if found.None? {
        return None;
      }
      FindKeyStep(s, found.value, key);
      PatternLength(key);
      pos := SkipSpaceAt(s, found.value + |Pattern(key)|);
      if pos < |s| && s[pos] == ':' {
        assert s[pos..][1..] == s[pos + 1..];
        pos := SkipSpaceAt(s, pos + 1);
        return Some(pos);
      }
    }
  }

  // json_get_string, with the field left empty when the key is missing.
  method GetStringOf(s: string, key: string, size: nat) returns (value: string)
    requires 0 < size
    ensures value == GetString(s, key, size)
  {
    hide FindKey, ReadString;
    var at := FindKeyAt(s, key);
    if at.None? || at.value >= |s| || s[at.value] != '"' {
      return "";
    }
    var next;
    value, next := ReadStringAt(s, at.value, size);
  }

  // json_get_string_array. The code repeats a pass that does not move forever; here that pass
  // reports `stuck` instead.
  method GetArrayOf(s: string, key: string) returns (items: seq<string>, stuck: bool)
    ensures GetArray(s, key) == if stuck then Stuck else Items(items)
  {
    hide FindKey, ReadString, SkipSpace, SkipComma, ReadItems;
    items, stuck := [], false;
    var at := FindKeyAt(s, key);
    if at.None? || at.value >= |s| || s[at.value] != '[' {
      return;
    }
    var val := at.value + 1;
    assert s[at.value..][1..] == s[val..];
    ghost var whole := ReadItems(s[val..], MAX_DEPS);
    AppendNothing(whole);
    while val < |s| && s[val] != ']' && |items| < MAX_DEPS
      invariant 0 <= val <= |s| && |items| <= MAX_DEPS
      invariant whole == Append(items, ReadItems(s[val..], MAX_DEPS - |items|))
      decreases |s| - val
    {
      var here := val;
      ReadItemsStep(s[val..], MAX_DEPS - |items|);
      val := SkipSpaceAt(s, val);
      if val < |s| && s[val] == '"' {
        var item;
        item, val := ReadStringAt(s, val, DEP_SIZE);
        AppendOne(items, item, ReadItems(SkipComma(SkipSpace(s[val..])), MAX_DEPS - |items| - 1));
        items := items + [item];
      } else {
        SpaceSkipped(s, here, val);
      }
      val := SkipSpaceAt(s, val);
      val := SkipCommaAt(s, val);
      if val == here {
        stuck := true;
        return;
      }
    }
    ReadItemsEnd(s[val..], MAX_DEPS - |items|);
    assert items + [] == items;
  }

  method SkipCommaAt(s: string, p: nat) returns (q: nat)
    requires p <= |s|
    ensures p <= q <= |s| && s[q..] == SkipComma(s[p..])
  {
    q := p;
    if q < |s| && s[q] == ',' {
      assert s[p..][1..] == s[p + 1..];
      q := q + 1;
    }
  }

  lemma ReadItemsStep(val: string, room: nat)
    requires val != [] && val[0] != ']' && 0 < room
    ensures var t := SkipSpace(val);
            if StartsWith(t, '"') then
              var (item, rest) := ReadString(t, DEP_SIZE);
              ReadItems(val, room) == Prepend(item, ReadItems(SkipComma(SkipSpace(rest)), room - 1))
            else ReadItems(val, room) == if |SkipComma(t)| < |val| then ReadItems(SkipComma(t), room) else Stuck
  {
    hide ReadString, SkipSpace, SkipComma;
  }

  lemma ReadItemsEnd(val: string, room: nat)
    requires val == [] || val[0] == ']' || room == 0
    ensures ReadItems(val, room) == Items([])
  {
  }

  // Items already read, and what the rest of the array gives.
  function Append(items: seq<string>, rest: Items): Items {
    if rest.Items? then Items(items + rest.items) else Stuck
  }

  lemma AppendNothing(rest: Items)
    ensures Append([], rest) == rest
  {
    if rest.Items? {
      assert [] + rest.items == rest.items;
    }
  }

  lemma AppendOne(items: seq<string>, item: string, rest: Items)
    ensures Append(items, Prepend(item, rest)) == Append(items + [item], rest)
  {
    if rest.Items? {
      assert items + ([item] + rest.items) == (items + [item]) + rest.items;
    }
  }

  lemma SpaceSkipped(s: string, p: nat, q: nat)
    requires p <= q <= |s| && s[q..] == SkipSpace(s[p..])
    ensures SkipSpace(s[q..]) == s[q..]
  {
  }

  // manifest_parse_string
  method ParseString(s: string) returns (result: ParseResult)
    ensures result == Parse(s)
  {
    hide GetString, GetArray;
    var name := GetStringOf(s, "name", NAME_SIZE);
    var version := GetStringOf(s, "version", VERSION_SIZE);
    var description := GetStringOf(s, "description", DESCRIPTION_SIZE);
    var author := GetStringOf(s, "author", AUTHOR_SIZE);
    var checksum := GetStringOf(s, "sha256", CHECKSUM_SIZE);
    if name == "" {
      return MissingName;
    }
    if version == "" {
      version := "0.0.0";
    }
    var deps, stuck := GetArrayOf(s, "dependencies");
    result := if stuck then Diverges else Parsed(Package(name, version, description, author, checksum, deps));
  }

  // What is still to be written before dependency i.
  function Closing(deps: seq<string>, i: nat): string
    requires i <= |deps|
  {
    (if i == 0 then "" else Separator(deps[i - 1..])) + (DepLines(deps[i..]) + "]\n}\n")
  }

  lemma ClosingStep(deps: seq<string>, i: nat)
    requires i < |deps|
    ensures Closing(deps, i) == (if i == 0 then "" else ",") + (("\n    " + Pattern(deps[i])) + Closing(deps, i + 1))
  {
    assert deps[i..][1..] == deps[i + 1..];
  }

  lemma ClosingEnd(deps: seq<string>)
    ensures Closing(deps, |deps|) == (if deps == [] then "" else "\n  ") + "]\n}\n"
  {
  }

  lemma {:induction false} EntriesThen(fields: seq<(string, string)>, a: string, b: string)
    ensures Entries(fields, a + b) == Entries(fields, a) + b
  {
    if fields != [] {
      EntriesThen(fields[1..], a, b);
    }
  }

  // The opening part and the rest are the text.
  lemma OpeningThenClosing(p: Package)
    ensures ToJson(p) == ("{\n  " + Entries(Fields(p), Pattern("dependencies") + ": [")) + Closing(p.deps, 0)
  {
    var open := Pattern("dependencies") + ": [";
    assert p.deps[0..] == p.deps;
    assert DepArray(p.deps) == open + Closing(p.deps, 0);
    EntriesThen(Fields(p), open, Closing(p.deps, 0));
  }

  // manifest_to_json: appending to a buffer of the allocated size. None where the text and its
  // terminator do not fit it. The code does not test for that: a closing piece that does not fit is
  // cut short, and what follows any other such piece is written past the allocation.
  method Write(p: Package) returns (json: Option<string>)
    ensures json == if |ToJson(p)| < Allocated(p) then Some(ToJson(p)) else None
  {
    hide Closing, Entries, DepLines, ToJson;
    var needed := 512;
    if |p.deps| > 0 {
      needed := needed + |p.deps| * 80;
    }
    var text := "{\n  " + Entries(Fields(p), Pattern("dependencies") + ": [");
    OpeningThenClosing(p);
    for i := 0 to |p.deps|
      invariant ToJson(p) == text + Closing(p.deps, i)
    {
      ClosingStep(p.deps, i);
      if i > 0 {
        text := text + ",";
      }
      text := text + ("\n    " + Pattern(p.deps[i]));
    }
    ClosingEnd(p.deps);
    ghost var body := text;
    if |p.deps| > 0 {
      text := text + "\n  ";
    }
    text := text + "]\n}\n";
    assert text == body + ((if p.deps == [] then "" else "\n  ") + "]\n}\n");
    json := if |text| < needed then Some(text) else None;
  }
}
