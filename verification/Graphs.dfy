// Walks in directed graphs given by successor lists.
module Graphs {
  type Graph = string -> seq<string>

  ghost predicate Distinct(s: seq<string>) {
    forall i, j :: 0 <= i < j < |s| ==> s[i] != s[j]
  }

  ghost predicate IsWalk(g: Graph, walk: seq<string>) {
    forall i :: 0 <= i < |walk| - 1 ==> walk[i + 1] in g(walk[i])
  }

  ghost predicate WalkBetween(g: Graph, walk: seq<string>, a: string, b: string) {
    |walk| > 0 && walk[0] == a && walk[|walk| - 1] == b && IsWalk(g, walk)
  }

  ghost predicate Reachable(g: Graph, a: string, b: string) {
    exists walk :: WalkBetween(g, walk, a, b)
  }

  ghost predicate OnCycle(g: Graph, n: string) {
    exists walk :: |walk| > 1 && WalkBetween(g, walk, n, n)
  }

  // Every element's successors stand before it.
  ghost predicate DependenciesFirst(g: Graph, order: seq<string>) {
    forall i :: 0 <= i < |order| ==> forall d :: d in g(order[i]) ==> d in order[..i]
  }

  lemma DistinctFits(s: seq<string>, t: seq<string>)
    requires Distinct(s) && forall x :: x in s ==> x in t
    ensures |s| <= |t|
  {
    var elements := set x | x in s;
    DistinctCardinality(s);
    SetOfSeqBound(t);
    assert (set x | x in s) <= (set x | x in t);
    SubsetSize(set x | x in s, set x | x in t);
  }

  lemma SubsetSize<T>(a: set<T>, b: set<T>)
    requires a <= b
    ensures |a| <= |b|
  {
    assert b == a + (b - a);
  }

  lemma {:induction false} DistinctCardinality(s: seq<string>)
    requires Distinct(s)
    ensures |set x | x in s| == |s|
  {
    if s != [] {
      var init, last := s[..|s| - 1], s[|s| - 1];
      DistinctCardinality(init);
      assert s == init + [last];
      assert (set x | x in s) == (set x | x in init) + {last};
    }
  }

  lemma {:induction false} SetOfSeqBound(s: seq<string>)
    ensures |set x | x in s| <= |s|
  {
    if s != [] {
      var init, last := s[..|s| - 1], s[|s| - 1];
      SetOfSeqBound(init);
      assert s == init + [last];
      assert (set x | x in s) == (set x | x in init) + {last};
    }
  }
}
