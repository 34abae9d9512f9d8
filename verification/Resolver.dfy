// The dependency resolver of services/botpkg/src/resolver.c: a three-colour depth-first
// topological sort over at most 64 packages.
module Resolver {
  import opened Graphs

  // PKG_NAME_MAX without the terminator, and MAX_RESOLVE_DEPTH.
  const NAME_LIMIT := 63
  const MAX_NODES := 64

  // Names as manifests store them, 63 characters at most.
  type PackageName = s: string | |s| <= NAME_LIMIT

  datatype Manifest = Missing | Found(deps: seq<PackageName>)

  // load_package_deps, as a fixed function of the name.
  type Repository = string -> Manifest

  datatype Color = White | Gray | Black

  function Trunc(name: string): (r: PackageName)
    ensures r <= name && (|name| <= 63 ==> r == name) && (|name| > 63 ==> |r| == 63)
  {
    if |name| <= NAME_LIMIT then name else name[..NAME_LIMIT]
  }

  function Deps(m: Manifest): seq<PackageName> {
    if m.Found? then m.deps else []
  }

  // The dependency graph a resolution of root walks. A root name that is too long is stored
  // truncated, but its manifest is loaded under the full name.
  function DependencyGraph(repo: Repository, root: string): Graph {
    n => if n == Trunc(root) then Deps(repo(root)) else Deps(repo(n))
  }

  // Why a resolution must fail.
  ghost predicate Cyclic(g: Graph, start: string) {
    exists n :: Reachable(g, start, n) && OnCycle(g, n)
  }

  ghost predicate AllReachable(g: Graph, start: string, s: seq<string>) {
    forall i :: 0 <= i < |s| ==> Reachable(g, start, s[i])
  }

  ghost predicate TooMany(g: Graph, start: string) {
    exists s: seq<string> :: |s| == MAX_NODES + 1 && Distinct(s) && AllReachable(g, start, s)
  }

  // A valid install order for start: the reachable packages, each once, dependencies first, start last.
  ghost predicate InstallOrder(g: Graph, start: string, order: seq<string>) {
    && Distinct(order)
    && DependenciesFirst(g, order)
    && (forall n :: n in order <==> Reachable(g, start, n))
    && |order| > 0 && order[|order| - 1] == start
  }

  // The tables between visits: GRAY nodes are exactly the current path, a walk from start;
  // BLACK nodes are exactly the output; nothing is WHITE; everything was reached from start.
  ghost predicate Consistent(g: Graph, start: string, path: seq<string>,
                             names: seq<PackageName>, colors: seq<Color>, output: seq<PackageName>) {
    && |names| == |colors| <= MAX_NODES
    && Distinct(names) && AllReachable(g, start, names)
    && (forall i :: 0 <= i < |names| ==> colors[i] == if names[i] in path then Gray else Black)
    && Distinct(path) && IsWalk(g, path) && (forall n :: n in path ==> n in names)
    && (path != [] ==> path[0] == start)
    && Distinct(output) && DependenciesFirst(g, output)
    && (forall n :: n in output <==> n in names && n !in path)
  }

  // A new node turns GRAY and extends the path.
  lemma Enter(g: Graph, start: string, path: seq<string>,
              names: seq<PackageName>, colors: seq<Color>, output: seq<PackageName>, key: PackageName)
    requires Consistent(g, start, path, names, colors, output)
    requires key !in names && |names| < MAX_NODES
    requires IsWalk(g, path + [key]) && Reachable(g, start, key)
    requires path == [] ==> key == start
    ensures Consistent(g, start, path + [key], names + [key], (colors + [White])[|names| := Gray], output)
  {
  }

  lemma WalkPrefix(g: Graph, path: seq<string>, key: string)
    requires IsWalk(g, path + [key])
    ensures IsWalk(g, path)
  {
    forall i | 0 <= i < |path| - 1 ensures path[i + 1] in g(path[i]) {
      assert (path + [key])[i + 1] in g((path + [key])[i]);
    }
  }

  // A GRAY node whose dependencies are all in the output is emitted and turns BLACK.
  lemma Leave(g: Graph, start: string, path: seq<string>,
              names: seq<PackageName>, colors: seq<Color>, output: seq<PackageName>, idx: int)
    requires 0 <= idx < |names|
    requires Consistent(g, start, path + [names[idx]], names, colors, output)
    requires forall d :: d in g(names[idx]) ==> d in output
    ensures idx < |colors| && names[idx] !in output && |output| < MAX_NODES
    ensures Consistent(g, start, path, names, colors[idx := Black], output + [names[idx]])
  {
    var key := names[idx];
    assert (path + [key])[|path|] == key;
    WalkPrefix(g, path, key);
    assert Distinct(output + [key]);
    DistinctFits(output + [key], names);
    assert path != [] ==> path[0] == (path + [key])[0];
    assert forall n :: n in path + [key] <==> n in path || n == key;
    forall i | 0 <= i < |path| ensures path[i] != key {
      assert (path + [key])[i] != (path + [key])[|path|];
    }
    assert Distinct(path) by {
      assert forall i :: 0 <= i < |path| ==> (path + [key])[i] == path[i];
    }
    forall i | 0 <= i < |output + [key]| ensures forall d :: d in g((output + [key])[i]) ==> d in (output + [key])[..i] {
      assert (output + [key])[..i] == if i < |output| then output[..i] else output;
    }
  }

  // The colour of a node says where it stands.
  lemma ColorMeans(g: Graph, start: string, path: seq<string>,
                   names: seq<PackageName>, colors: seq<Color>, output: seq<PackageName>, idx: int)
    requires Consistent(g, start, path, names, colors, output) && 0 <= idx < |names|
    ensures idx < |colors|
    ensures colors[idx] == if names[idx] in path then Gray else Black
    ensures colors[idx] == Black ==> names[idx] in output
  {
  }

  class DfsState {
    var names: seq<PackageName>
    var colors: seq<Color>
    var output: seq<PackageName>
    var hasCycle: bool
    var cycleFrom: string
    var cycleTo: string

    constructor ()
      ensures names == [] && colors == [] && output == [] && !hasCycle
    {
      names, colors, output := [], [], [];
      hasCycle, cycleFrom, cycleTo := false, "", "";
    }

    ghost predicate Valid(g: Graph, start: string, path: seq<string>)
      reads this
    {
      |names| <= MAX_NODES && Consistent(g, start, path, names, colors, output) && !hasCycle
    }

    // Find or create a node; -1 when the table is full.
    method GetNode(name: string) returns (idx: int)
      requires |names| == |colors| <= MAX_NODES
      modifies `names, `colors
      ensures -1 <= idx < |names| == |colors|
      ensures name in old(names) ==> names == old(names) && colors == old(colors) && idx >= 0 && names[idx] == name
      ensures name !in old(names) && |old(names)| >= MAX_NODES ==> idx == -1 && names == old(names) && colors == old(colors)
      ensures name !in old(names) && |old(names)| < MAX_NODES ==>
                idx == |old(names)| && names == old(names) + [Trunc(name)] && colors == old(colors) + [White]
    {
      for i := 0 to |names|
        invariant name !in names[..i]
      {
        if names[i] == name {
          return i;
        }
      }
      if |names| >= MAX_NODES {
        return -1;
      }
      idx := |names|;
      names, colors := names + [Trunc(name)], colors + [White];
    }

    // Append to the output unless it is already there or the output is full.
    method Emit(name: string)
      modifies `output
      ensures output == if name in old(output) || |old(output)| >= MAX_NODES then old(output) else old(output) + [Trunc(name)]
    {
      for i := 0 to |output|
        invariant name !in output[..i]
      {
        if output[i] == name {
          return;
        }
      }
      if |output| < MAX_NODES {
        output := output + [Trunc(name)];
      }
    }

    // What a failed visit has found.
    ghost predicate Failed(g: Graph, start: string)
      reads this
    {
      if hasCycle then Reachable(g, start, cycleTo) && OnCycle(g, cycleTo) else TooMany(g, start)
    }

    method Visit(repo: Repository, name: string, ghost root: string, ghost path: seq<string>) returns (ok: bool)
      requires Valid(DependencyGraph(repo, root), Trunc(root), path)
      requires if path == [] then name == root && names == []
               else |name| <= NAME_LIMIT && name in DependencyGraph(repo, root)(path[|path| - 1])
      modifies this
      ensures ok ==> Valid(DependencyGraph(repo, root), Trunc(root), path)
      ensures ok ==> old(names) <= names && old(output) <= output && Trunc(name) in output
      ensures ok && Trunc(name) !in old(output) ==> output[|output| - 1] == Trunc(name)
      ensures !ok ==> Failed(DependencyGraph(repo, root), Trunc(root))
      decreases MAX_NODES - |names|, 0
    {
      ghost var g, start, key := DependencyGraph(repo, root), Trunc(root), Trunc(name);
      ghost var names0, colors0, output0 := names, colors, output;
      if hasCycle {
        return false;
      }
      assert |names| == |colors| <= MAX_NODES && Distinct(names) && AllReachable(g, start, names);
      assert IsWalk(g, path) && (path != [] ==> path[0] == start && start in names);
      assert key !in names ==> g(key) == Deps(repo(name));
      assert |name| <= NAME_LIMIT || names == [];
      hide Consistent, Distinct, AllReachable, IsWalk, Reachable, OnCycle, TooMany, DependencyGraph, Deps;
      KeyReachable(g, start, path, key);
      var idx := GetNode(name);
      if idx < 0 {
        TableFull(g, start, names, key);
        return false;
      }
      if name in names0 {
        ColorMeans(g, start, path, names, colors, output, idx);
      }
      if colors[idx] == Black {
        return true;
      }
      if colors[idx] == Gray {
        PathCycle(g, path, key);
        hasCycle, cycleTo := true, Trunc(name);
        return false;
      }
      ghost var path' := path + [key];
      Enter(g, start, path, names0, colors0, output, key);
      colors := colors[idx := Gray];
      cycleFrom := Trunc(name);
      var manifest := repo(name);
      assert g(key) == Deps(manifest);
      if manifest.Found? {
        var visited := VisitAll(repo, manifest.deps, root, path');
        if !visited {
          return false;
        }
      }
      assert names[idx] == key;
      Close(idx, name, g, start, path);
      return true;
    }

    // Emits a node whose dependencies are resolved and turns it BLACK.
    method Close(idx: int, name: string, ghost g: Graph, ghost start: string, ghost path: seq<string>)
      requires 0 <= idx < |names| && names[idx] == Trunc(name)
      requires Valid(g, start, path + [names[idx]])
      requires forall d :: d in g(names[idx]) ==> d in output
      modifies `output, `colors
      ensures Valid(g, start, path) && output == old(output) + [Trunc(name)]
    {
      hide Consistent;
      Leave(g, start, path, names, colors, output, idx);
      Emit(name);
      colors := colors[idx := Black];
    }

    // The loop over the dependencies of the node the path ends in.
    method VisitAll(repo: Repository, deps: seq<PackageName>, ghost root: string, ghost path: seq<string>) returns (ok: bool)
      requires Valid(DependencyGraph(repo, root), Trunc(root), path)
      requires path != [] && deps == DependencyGraph(repo, root)(path[|path| - 1])
      modifies this
      ensures ok ==> Valid(DependencyGraph(repo, root), Trunc(root), path)
      ensures ok ==> old(names) <= names && old(output) <= output && forall d :: d in deps ==> d in output
      ensures !ok ==> Failed(DependencyGraph(repo, root), Trunc(root))
      decreases MAX_NODES - |names|, 1
    {
      hide Consistent, TooMany, OnCycle, Reachable;
      for i := 0 to |deps|
        invariant Valid(DependencyGraph(repo, root), Trunc(root), path)
        invariant old(names) <= names && old(output) <= output
        invariant forall j :: 0 <= j < i ==> deps[j] in output
      {
        var visited := Visit(repo, deps[i], root, path);
        if !visited {
          return false;
        }
      }
      return true;
    }
  }

  lemma KeyReachable(g: Graph, start: string, path: seq<string>, key: string)
    requires IsWalk(g, path)
    requires if path == [] then key == start else path[0] == start && key in g(path[|path| - 1])
    ensures IsWalk(g, path + [key]) && Reachable(g, start, key)
  {
    assert WalkBetween(g, path + [key], start, key);
  }

  lemma TableFull(g: Graph, start: string, names: seq<string>, key: string)
    requires |names| == MAX_NODES && Distinct(names) && AllReachable(g, start, names)
    requires key !in names && Reachable(g, start, key)
    ensures TooMany(g, start)
  {
    var s := names + [key];
    assert |s| == MAX_NODES + 1 && Distinct(s) && AllReachable(g, start, s);
  }

  lemma PathCycle(g: Graph, path: seq<string>, key: string)
    requires IsWalk(g, path + [key]) && key in path
    ensures OnCycle(g, key)
  {
    var i :| 0 <= i < |path| && path[i] == key;
    var cycle := (path + [key])[i..];
    assert |cycle| > 1 && WalkBetween(g, cycle, key, key);
  }

  // resolver_resolve: succeeds exactly on acyclic graphs of at most 64 reachable packages.
  method Resolve(repo: Repository, name: string) returns (ok: bool, result: seq<PackageName>)
    ensures var g, start := DependencyGraph(repo, name), Trunc(name);
            && (ok <==> !Cyclic(g, start) && !TooMany(g, start))
            && (ok ==> InstallOrder(g, start, result))
  {
    hide TooMany, Cyclic, OnCycle, Distinct, DependenciesFirst;
    ghost var g, start := DependencyGraph(repo, name), Trunc(name);
    var state := new DfsState();
    EmptyState(g, start);
    var visited := state.Visit(repo, name, name, []);
    if !visited || state.hasCycle {
      FailureExplained(g, start, state.hasCycle, state.cycleTo);
      return false, [];
    }
    if |state.output| > 0 {
      result := state.output;
    } else {
      result := [Trunc(name)];
    }
    SuccessExplained(g, start, state.names, state.colors, state.output);
    return true, result;
  }

  lemma EmptyState(g: Graph, start: string)
    ensures Consistent(g, start, [], [], [], [])
  {
  }

  lemma FailureExplained(g: Graph, start: string, hasCycle: bool, cycleTo: string)
    requires if hasCycle then Reachable(g, start, cycleTo) && OnCycle(g, cycleTo) else TooMany(g, start)
    ensures Cyclic(g, start) || TooMany(g, start)
  {
  }

  lemma SuccessExplained(g: Graph, start: string, names: seq<PackageName>, colors: seq<Color>, output: seq<PackageName>)
    requires Consistent(g, start, [], names, colors, output)
    requires |output| > 0 && output[|output| - 1] == start
    ensures InstallOrder(g, start, output)
    ensures !Cyclic(g, start) && !TooMany(g, start)
  {
    DistinctFits(output, names);
    OrderSuffices(g, start, output);
    forall n | Reachable(g, start, n) ensures n in output {
      ReachableInOrder(g, output, start, n);
    }
  }

  // ----- What an install order rules out

  lemma ReachableInOrder(g: Graph, order: seq<string>, start: string, n: string)
    requires DependenciesFirst(g, order) && start in order && Reachable(g, start, n)
    ensures n in order
  {
    var walk :| WalkBetween(g, walk, start, n);
    var i := 0;
    while i < |walk| - 1
      invariant 0 <= i < |walk| && walk[i] in order
    {
      assert walk[i + 1] in g(walk[i]);
      i := i + 1;
    }
  }

  // Along a walk the positions in the order strictly fall.
  lemma {:induction false} WalkFalls(g: Graph, order: seq<string>, walk: seq<string>, k: nat)
    requires DependenciesFirst(g, order) && IsWalk(g, walk) && |walk| > 1
    requires k < |order| && order[k] == walk[0]
    ensures walk[|walk| - 1] in order[..k]
    decreases |walk|
  {
    assert walk[1] in g(walk[0]);
    if |walk| > 2 {
      var k' :| 0 <= k' < k && order[k'] == walk[1];
      forall i | 0 <= i < |walk[1..]| - 1 ensures walk[1..][i + 1] in g(walk[1..][i]) {
        assert walk[i + 2] in g(walk[i + 1]);
      }
      WalkFalls(g, order, walk[1..], k');
      assert order[..k'] <= order[..k];
    }
  }

  lemma OrderHasNoCycle(g: Graph, order: seq<string>, n: string)
    requires Distinct(order) && DependenciesFirst(g, order) && n in order
    ensures !OnCycle(g, n)
  {
    if walk :| |walk| > 1 && WalkBetween(g, walk, n, n) {
      var k :| 0 <= k < |order| && order[k] == n;
      WalkFalls(g, order, walk, k);
    }
  }

  // Whenever some dependencies-first order of at most 64 packages covers start, resolving succeeds.
  lemma OrderSuffices(g: Graph, start: string, order: seq<string>)
    requires Distinct(order) && DependenciesFirst(g, order) && start in order && |order| <= MAX_NODES
    ensures !Cyclic(g, start) && !TooMany(g, start)
  {
    forall n | Reachable(g, start, n) ensures n in order && !OnCycle(g, n) {
      ReachableInOrder(g, order, start, n);
      OrderHasNoCycle(g, order, n);
    }
    if s: seq<string> :| |s| == MAX_NODES + 1 && Distinct(s) && AllReachable(g, start, s) {
      assert forall x :: x in s ==> x in order;
      DistinctFits(s, order);
    }
  }
}
