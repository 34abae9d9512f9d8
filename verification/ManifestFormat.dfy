// The manifest text of services/botpkg/src/manifest.c: what its reader extracts and what its
// writer produces, as functions.
module ManifestFormat {
  import opened CStrings

  const MAX_DEPS := 32

  // sizeof of the fields of bot_package_t
  const NAME_SIZE := 64
  const VERSION_SIZE := 32
  const DESCRIPTION_SIZE := 256
  const AUTHOR_SIZE := 64
  const CHECKSUM_SIZE := 65
  const DEP_SIZE := 64

  datatype Package = Package(name: string, version: string, description: string, author: string,
                             checksum: string, deps: seq<string>)

  predicate StartsWith(s: string, c: char) {
    s != [] && s[0] == c
  }

  function Unescape(c: char): char {
    if c == 'n' then '\n' else if c == 't' then '\t' else if c == 'r' then '\r' else c
  }

  // The characters of a string literal after its opening quote, as many as there is room for, and
  // what is left where reading stopped.
  function ReadBody(p: string, room: nat): (r: (string, string))
    ensures |r.0| <= room && |r.1| <= |p|
  {
    if p == [] || p[0] == '"' || room == 0 then ([], p)
    else if p[0] == '\\' && |p| > 1 then
      var (value, rest) := ReadBody(p[2..], room - 1);
      ([Unescape(p[1])] + value, rest)
    else
      var (value, rest) := ReadBody(p[1..], room - 1);
      ([p[0]] + value, rest)
  }

  // json_read_string, at an opening quote.
  function ReadString(p: string, size: nat): (r: (string, string))
    requires StartsWith(p, '"') && size > 0
    ensures |r.0| < size && |r.1| < |p|
  {
    var (value, rest) := ReadBody(p[1..], size - 1);
    (value, if StartsWith(rest, '"') then rest[1..] else rest)
  }

  function Pattern(key: string): string {
    ['"'] + key + ['"']
  }

  // json_find_key: the text at the value of the first occurrence of the quoted key that a colon follows.
  function FindKey(s: string, key: string): (r: Option<string>)
    ensures r.Some? ==> |r.value| < |s|
    decreases |s|
  {
    if |s| < |Pattern(key)| then None
    else if Pattern(key) <= s then
      var t := SkipSpace(s[|Pattern(key)|..]);
      if StartsWith(t, ':') then Some(SkipSpace(t[1..])) else FindKey(t, key)
    else FindKey(s[1..], key)
  }

  // json_get_string; the field stays empty when there is no such string.
  function GetString(s: string, key: string, size: nat): (v: string)
    requires size > 0
    ensures |v| < size
  {
    match FindKey(s, key)
    case Some(val) => if StartsWith(val, '"') then ReadString(val, size).0 else ""
    case None => ""
  }

  // The items of an array, or Stuck where the loop stops moving and never ends.
  datatype Items = Items(items: seq<string>) | Stuck

  function Prepend(item: string, rest: Items): Items {
    if rest.Items? then Items([item] + rest.items) else Stuck
  }

  function SkipComma(s: string): (t: string)
    ensures |t| <= |s|
  {
    if StartsWith(s, ',') then s[1..] else s
  }

  // The loop of json_get_string_array, after the opening bracket.
  function ReadItems(val: string, room: nat): Items
    decreases |val|
  {
    if val == [] || val[0] == ']' || room == 0 then Items([])
    else
      var t := SkipSpace(val);
      if StartsWith(t, '"') then
        var (item, rest) := ReadString(t, DEP_SIZE);
        Prepend(item, ReadItems(SkipComma(SkipSpace(rest)), room - 1))
      else if |SkipComma(t)| < |val| then ReadItems(SkipComma(t), room)
      else Stuck
  }

  function GetArray(s: string, key: string): Items {
    match FindKey(s, key)
    case Some(val) => if StartsWith(val, '[') then ReadItems(val[1..], MAX_DEPS) else Items([])
    case None => Items([])
  }

  datatype ParseResult = Parsed(pkg: Package) | MissingName | Diverges

  // manifest_parse_string
  function Parse(s: string): ParseResult {
    var name := GetString(s, "name", NAME_SIZE);
    var version := GetString(s, "version", VERSION_SIZE);
    if name == "" then MissingName
    else
      match GetArray(s, "dependencies")
      case Stuck => Diverges
      case Items(deps) =>
        Parsed(Package(name, if version == "" then "0.0.0" else version,
                       GetString(s, "description", DESCRIPTION_SIZE), GetString(s, "author", AUTHOR_SIZE),
                       GetString(s, "sha256", CHECKSUM_SIZE), deps))
  }

  // ----- The writer

  function Entry(key: string, value: string): string {
    Pattern(key) + ": " + Pattern(value) + ",\n  "
  }

  // What follows the first of the remaining dependencies.
  function Separator(deps: seq<string>): string {
    if |deps| > 1 then "," else "\n  "
  }

  function DepLines(deps: seq<string>): string {
    if deps == [] then ""
    else "\n    " + (Pattern(deps[0]) + (Separator(deps) + DepLines(deps[1..])))
  }

  function DepArray(deps: seq<string>): string {
    Pattern("dependencies") + ": [" + DepLines(deps) + "]\n}\n"
  }

  // A list of entries before the closing part.
  function Entries(fields: seq<(string, string)>, rest: string): string {
    if fields == [] then rest else Entry(fields[0].0, fields[0].1) + Entries(fields[1..], rest)
  }

  function Fields(p: Package): seq<(string, string)> {
    [("name", p.name), ("version", p.version), ("description", p.description), ("author", p.author), ("sha256", p.checksum)]
  }

  // manifest_to_json
  function ToJson(p: Package): string {
    "{\n  " + Entries(Fields(p), DepArray(p.deps))
  }

  // What the writer allocates.
  function Allocated(p: Package): nat {
    512 + 80 * |p.deps|
  }
}
