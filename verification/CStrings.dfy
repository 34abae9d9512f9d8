// Helpers for text as C code reads it.
module CStrings {
  datatype Option<T> = None | Some(value: T)

  // isspace in the C locale.
  predicate IsSpace(c: char) {
    c == ' ' || 9 <= c as int <= 13
  }

  function SkipSpace(s: string): (t: string)
    ensures |t| <= |s| && (t != [] ==> !IsSpace(t[0]))
  {
    if s != [] && IsSpace(s[0]) then SkipSpace(s[1..]) else s
  }

  const NUL := '\0'

  // The C string at index i is s.
  ghost predicate IsCString(buf: seq<char>, i: int, s: string) {
    0 <= i && i + |s| < |buf| && buf[i..i + |s|] == s && buf[i + |s|] == NUL && NUL !in s
  }

  // The first n elements, as a field of that size keeps them.
  function Cut<T>(s: seq<T>, n: nat): (t: seq<T>)
    ensures |t| <= n && (|s| <= n ==> t == s)
  {
    if |s| <= n then s else s[..n]
  }

  lemma CutTwice<T>(s: seq<T>, t: seq<T>, n: nat)
    ensures Cut(Cut(s, n) + Cut(t, n), n) == Cut(s + t, n)
    ensures Cut(Cut(s, n) + t, n) == Cut(s + t, n)
  {
  }

  lemma SeqAssociates<T>(a: seq<T>, b: seq<T>, c: seq<T>)
    ensures (a + b) + c == a + (b + c)
  {
  }
}
