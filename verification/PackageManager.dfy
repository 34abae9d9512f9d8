// Installing and removing packages, services/botpkg/src/botpkg.c, over an abstract database:
// a map from directory names to the manifests in them.
module PackageManager {
  import opened CStrings
  import opened Graphs
  import opened Resolver

  import ManifestFormat

  // MAX_INSTALLED
  const MAX_CACHED := 256

  const DEFAULT_VERSION := "0.0.0"

  // A manifest as its 64-byte name fields hold it. One without a name could not be parsed.
  type Package = p: ManifestFormat.Package |
      |p.name| <= NAME_LIMIT && forall i :: 0 <= i < |p.deps| ==> |p.deps[i]| <= NAME_LIMIT
    witness ManifestFormat.Package("", "", "", "", "", [])

  type Database = map<PackageName, Package>

  // What becomes of an archive: the digest is the hexadecimal SHA-256 of the file that arrived.
  datatype Archive = Lost | Unreadable | Arrived(digest: string)

  // The repository: the manifest it serves for a name, if any, the archive, and whether the
  // package can then be written to the database.
  datatype Remote = Remote(manifest: string -> Option<Package>, archive: string -> Archive, registers: string -> bool)

  // Every installed package's dependencies are installed.
  ghost predicate Closed(db: Database) {
    forall n, d :: n in db && d in db[n].deps ==> d in db
  }

  // load_package_deps: the database first, then the repository.
  function Load(db: Database, remote: Remote, n: string): Manifest {
    if |n| <= NAME_LIMIT && n in db then Found(db[n].deps)
    else match remote.manifest(n)
         case None => Missing
         case Some(p) => if p.name == "" then Missing else Found(p.deps)
  }

  function Lookup(db: Database, remote: Remote): Repository {
    (n: string) => Load(db, remote, n)
  }

  // The graph an installation of name resolves.
  ghost function InstallGraph(db: Database, remote: Remote, name: string): Graph {
    DependencyGraph(Lookup(db, remote), name)
  }

  lemma InstallGraphAt(db: Database, remote: Remote, name: string, n: string)
    requires |name| <= NAME_LIMIT
    ensures InstallGraph(db, remote, name)(n) == Deps(Load(db, remote, n))
  {
    var lookup := Lookup(db, remote);
    assert lookup(n) == Load(db, remote, n) && lookup(name) == Load(db, remote, name);
  }

  // What the install loop registers for a name; without a manifest, a placeholder.
  function Fetch(remote: Remote, d: PackageName): Package {
    match remote.manifest(d)
    case None => ManifestFormat.Package(d, DEFAULT_VERSION, "", "", "", [])
    case Some(p) =>
      ManifestFormat.Package(if p.name == "" then d else p.name, if p.version == "" then DEFAULT_VERSION else p.version,
                             p.description, p.author, p.checksum, if p.name == "" then [] else p.deps)
  }

  // The archive arrives, it is the one the manifest declares if it declares one, and it is registered.
  predicate Delivers(remote: Remote, d: PackageName) {
    var checksum := Fetch(remote, d).checksum;
    !remote.archive(d).Lost? && (checksum == "" || remote.archive(d) == Arrived(checksum)) && remote.registers(d)
  }

  // One pass of the install loop.
  function InstallOne(db: Database, cache: set<string>, remote: Remote, d: PackageName): Database {
    if d in cache || d in db || !Delivers(remote, d) then db
    else db[Fetch(remote, d).name := Fetch(remote, d)]
  }

  function InstallAll(db: Database, cache: set<string>, remote: Remote, order: seq<PackageName>): Database {
    if order == [] then db
    else InstallOne(InstallAll(db, cache, remote, order[..|order| - 1]), cache, remote, order[|order| - 1])
  }

  // The loop sees the same packages as installed whether or not installed names were cached first.
  lemma {:induction false} InstallAllSees(db: Database, cache: set<string>, cache': set<string>, remote: Remote, order: seq<PackageName>)
    requires forall n :: n in cache ==> n in cache'
    requires forall n :: n in cache' ==> n in cache || (|n| <= NAME_LIMIT && n in db)
    ensures InstallAll(db, cache', remote, order) == InstallAll(db, cache, remote, order)
    ensures forall n :: n in db ==> n in InstallAll(db, cache, remote, order)
  {
    if order != [] {
      InstallAllSees(db, cache, cache', remote, order[..|order| - 1]);
    }
  }

  // It does nothing when everything is installed already.
  lemma {:induction false} InstallAllNothing(db: Database, cache: set<string>, remote: Remote, order: seq<PackageName>)
    requires forall n :: n in order ==> n in cache || n in db
    ensures InstallAll(db, cache, remote, order) == db
  {
    if order != [] {
      InstallAllNothing(db, cache, remote, order[..|order| - 1]);
    }
  }

  // d is registered by the loop: not installed, not believed installed, and delivered.
  predicate IsNew(db: Database, cache: set<string>, remote: Remote, d: PackageName) {
    d !in db && d !in cache && Delivers(remote, d)
  }

  predicate SelfNames(remote: Remote, d: PackageName) {
    Fetch(remote, d).name == d
  }

  // Manifests carry the name they are served under.
  ghost predicate SelfNamed(remote: Remote, order: seq<PackageName>) {
    forall d :: d in order ==> SelfNames(remote, d)
  }

  // The database after the loop: what was there, and the new packages.
  lemma {:induction false} InstallAllIs(db: Database, cache: set<string>, remote: Remote, order: seq<PackageName>)
    requires SelfNamed(remote, order)
    ensures var after := InstallAll(db, cache, remote, order);
            && (forall n :: n in after <==> n in db || (n in order && IsNew(db, cache, remote, n)))
            && (forall n :: n in after ==> after[n] == if n in db then db[n] else Fetch(remote, n))
  {
    if order != [] {
      var init, last := order[..|order| - 1], order[|order| - 1];
      assert order == init + [last] && SelfNames(remote, last);
      InstallAllIs(db, cache, remote, init);
    }
  }

  // Whatever a new package depends on was installed before or is among the new packages itself.
  ghost predicate DependenciesArrive(db: Database, cache: set<string>, remote: Remote, order: seq<PackageName>) {
    forall d, e :: d in order && IsNew(db, cache, remote, d) && e in Fetch(remote, d).deps ==>
      e in db || (e in order && IsNew(db, cache, remote, e))
  }

  // The order lists the dependencies of what it installs, each before its dependent.
  ghost predicate InstallsDependenciesFirst(db: Database, remote: Remote, order: seq<PackageName>) {
    forall i :: 0 <= i < |order| && order[i] !in db ==>
      forall e :: e in Fetch(remote, order[i]).deps ==> e in order[..i]
  }

  // The install loop keeps the database closed exactly when the dependencies of what it installs arrive.
  lemma InstallClosedExactly(db: Database, cache: set<string>, remote: Remote, order: seq<PackageName>)
    requires Closed(db) && SelfNamed(remote, order)
    ensures Closed(InstallAll(db, cache, remote, order)) <==> DependenciesArrive(db, cache, remote, order)
  {
    var after := InstallAll(db, cache, remote, order);
    InstallAllIs(db, cache, remote, order);
    if Closed(after) {
      forall d, e | d in order && IsNew(db, cache, remote, d) && e in Fetch(remote, d).deps
        ensures e in db || (e in order && IsNew(db, cache, remote, e))
      {
        assert d in after && after[d] == Fetch(remote, d);
      }
    }
  }

  // Then it is closed after every single iteration, so an interrupted install leaves a usable database.
  lemma InstallClosedThroughout(db: Database, cache: set<string>, remote: Remote, order: seq<PackageName>, i: nat)
    requires Closed(db) && SelfNamed(remote, order) && InstallsDependenciesFirst(db, remote, order)
    requires DependenciesArrive(db, cache, remote, order) && i <= |order|
    ensures Closed(InstallAll(db, cache, remote, order[..i]))
  {
    var prefix := order[..i];
    forall d, e | d in prefix && IsNew(db, cache, remote, d) && e in Fetch(remote, d).deps
      ensures e in db || (e in prefix && IsNew(db, cache, remote, e))
    {
      var j :| 0 <= j < i && prefix[j] == d;
      assert order[j] == d && e in order[..j] && order[..j] <= prefix;
    }
    InstallClosedExactly(db, cache, remote, prefix);
  }

  // Whatever a pass registers finds what it needs in the database already.
  predicate PassFinds(db: Database, cache: set<string>, remote: Remote, d: PackageName) {
    IsNew(db, cache, remote, d) ==> forall e :: e in Fetch(remote, d).deps ==> e in db || e == Fetch(remote, d).name
  }

  lemma OnePassClosed(db: Database, cache: set<string>, remote: Remote, d: PackageName)
    requires Closed(db)
    ensures Closed(InstallOne(db, cache, remote, d)) <==> PassFinds(db, cache, remote, d)
  {
    var after, pkg := InstallOne(db, cache, remote, d), Fetch(remote, d);
    if Closed(after) && IsNew(db, cache, remote, d) {
      forall e | e in pkg.deps ensures e in db || e == pkg.name {
        assert pkg.name in after && e in after[pkg.name].deps;
        assert e in after;
      }
    }
  }

  // The database is closed before the first pass and after every one.
  ghost predicate ClosedThroughout(db: Database, cache: set<string>, remote: Remote, order: seq<PackageName>) {
    && Closed(InstallAll(db, cache, remote, order))
    && (order != [] ==> ClosedThroughout(db, cache, remote, order[..|order| - 1]))
  }

  // Every pass finds what it needs.
  ghost predicate AllFind(db: Database, cache: set<string>, remote: Remote, order: seq<PackageName>) {
    order != [] ==>
      var init, last := order[..|order| - 1], order[|order| - 1];
      AllFind(db, cache, remote, init) && PassFinds(InstallAll(db, cache, remote, init), cache, remote, last)
  }

  // For every repository, also with manifests under other names: the database is closed after every
  // pass exactly when every pass finds what it needs.
  lemma {:induction false} ThroughoutExactly(db: Database, cache: set<string>, remote: Remote, order: seq<PackageName>)
    requires Closed(db)
    ensures ClosedThroughout(db, cache, remote, order) <==> AllFind(db, cache, remote, order)
  {
    if order != [] {
      var init, last := order[..|order| - 1], order[|order| - 1];
      ThroughoutExactly(db, cache, remote, init);
      hide InstallOne, PassFinds, Closed;
      if ClosedThroughout(db, cache, remote, init) {
        OnePassClosed(InstallAll(db, cache, remote, init), cache, remote, last);
      }
    }
  }

  class Manager {
    var db: Database
    // g_installed: names once found installed; never forgotten while the process lives.
    var cache: seq<string>

    constructor (db: Database)
      ensures this.db == db && cache == []
    {
      this.db, cache := db, [];
    }

    // What the process believes without looking at the database.
    ghost function Cached(): set<string>
      reads this
    {
      set n | n in cache
    }

    // resolver_is_installed
    method IsInstalled(name: string) returns (installed: bool)
      modifies `cache
      ensures installed <==> name in old(cache) || (|name| <= NAME_LIMIT && name in db)
      ensures forall n :: n in cache ==> n in old(cache) || (|n| <= NAME_LIMIT && n in db)
      ensures forall n :: n in old(cache) ==> n in cache
      ensures installed && |old(cache)| < MAX_CACHED ==> name in cache
    {
      for i := 0 to |cache|
        invariant name !in cache[..i]
      {
        if cache[i] == name {
          return true;
        }
      }
      if |name| <= NAME_LIMIT && name in db {
        if |cache| < MAX_CACHED {
          cache := cache + [name];
        }
        return true;
      }
      return false;
    }

    // botpkg_install
    method Install(remote: Remote, name: string) returns (ok: bool, ghost order: seq<PackageName>)
      modifies this
      ensures ok <==> name != "" && !Cyclic(InstallGraph(old(db), remote, name), Trunc(name))
                      && !TooMany(InstallGraph(old(db), remote, name), Trunc(name))
      ensures !ok ==> db == old(db)
      ensures ok ==> InstallOrder(InstallGraph(old(db), remote, name), Trunc(name), order)
      ensures ok ==> db == InstallAll(old(db), old(Cached()), remote, order)
      ensures forall n :: n in cache ==> n in old(cache) || (|n| <= NAME_LIMIT && n in db)
    {
      hide InstallOrder, Cyclic, TooMany;
      order := [];
      if name == "" {
        return false, order;
      }
      var names;
      ok, names := Resolve(Lookup(db, remote), name);
      if !ok {
        return;
      }
      order := names;
      var missing := CountMissing(names);
      if missing == 0 {
        InstallAllNothing(db, old(Cached()), remote, names);
        var installed := IsInstalled(name);
        if installed {
          return;
        }
      }
      InstallAllSees(db, old(Cached()), Cached(), remote, names);
      InstallLoop(remote, names);
    }

    // The resolution plan: how many of its packages are not installed.
    method CountMissing(names: seq<PackageName>) returns (missing: nat)
      modifies `cache
      ensures missing == 0 <==> forall n :: n in names ==> n in old(cache) || n in db
      ensures forall n :: n in cache ==> n in old(cache) || (|n| <= NAME_LIMIT && n in db)
      ensures forall n :: n in old(cache) ==> n in cache
    {
      missing := 0;
      for i := 0 to |names|
        invariant missing == 0 <==> forall n :: n in names[..i] ==> n in old(cache) || n in db
        invariant forall n :: n in cache ==> n in old(cache) || (|n| <= NAME_LIMIT && n in db)
        invariant forall n :: n in old(cache) ==> n in cache
      {
        assert names[..i + 1] == names[..i] + [names[i]];
        var installed := IsInstalled(names[i]);
        if !installed {
          missing := missing + 1;
        }
      }
      assert names[..|names|] == names;
    }

    method InstallLoop(remote: Remote, names: seq<PackageName>)
      modifies this
      ensures db == InstallAll(old(db), old(Cached()), remote, names)
      ensures forall n :: n in cache ==> n in old(cache) || (|n| <= NAME_LIMIT && n in db)
    {
      for i := 0 to |names|
        invariant db == InstallAll(old(db), old(Cached()), remote, names[..i])
        invariant forall n :: n in old(cache) ==> n in cache
        invariant forall n :: n in cache ==> n in old(cache) || (|n| <= NAME_LIMIT && n in db)
      {
        var d := names[i];
        assert names[..i + 1][..i] == names[..i];
        var installed := IsInstalled(d);
        if installed {
          continue;
        }
        var pkg := Fetch(remote, d);
        var archive := remote.archive(d);
        if archive.Lost? {
          continue;
        }
        if pkg.checksum != "" {
          if archive.Unreadable? {
            continue;
          }
          if archive.digest != pkg.checksum {
            continue;
          }
        }
        if remote.registers(d) {
          db := db[pkg.name := pkg];
        }
      }
      assert names[..|names|] == names;
    }

    // db_find_reverse_dep: directory entries in any order; hidden ones are skipped.
    method FindReverseDep(name: string) returns (dependent: Option<PackageName>)
      ensures dependent.Some? ==>
                var n := dependent.value;
                n in db && (n == "" || n[0] != '.') && name in db[n].deps
      ensures dependent.None? ==> forall n :: n in db && (n == "" || n[0] != '.') ==> name !in db[n].deps
    {
      var entries := db.Keys;
      while entries != {}
        invariant entries <= db.Keys
        invariant forall n :: n in db && n !in entries && (n == "" || n[0] != '.') ==> name !in db[n].deps
        decreases |entries|
      {
        var n :| n in entries;
        entries := entries - {n};
        if n == "" || n[0] != '.' {
          var deps := db[n].deps;
          for i := 0 to |deps|
            invariant name !in deps[..i]
          {
            if deps[i] == name {
              return Some(n);
            }
          }
        }
      }
      return None;
    }

    // botpkg_remove
    method Remove(name: string) returns (ok: bool)
      modifies this
      ensures ok <==> name != "" && (name in old(cache) || (|name| <= NAME_LIMIT && name in old(db)))
                      && forall n :: n in old(db) && (n == "" || n[0] != '.') ==> name !in old(db)[n].deps
      ensures db == if ok then old(db) - {name} else old(db)
      ensures forall n :: n in cache ==> n in old(cache) || (|n| <= NAME_LIMIT && n in old(db))
      ensures ok && |old(cache)| < MAX_CACHED ==> name in cache
      ensures Closed(old(db)) && (forall n :: n in old(db) && n != "" ==> n[0] != '.') ==> Closed(db)
    {
      if name == "" {
        return false;
      }
      var installed := IsInstalled(name);
      if !installed {
        return false;
      }
      var dependent := FindReverseDep(name);
      if dependent.Some? {
        return false;
      }
      if Closed(db) {
        RemoveClosedExactly(db, name);
      }
      db := db - {name};
      return true;
    }
  }

  // What a resolution hands to the install loop.
  lemma ResolvedOrder(db: Database, remote: Remote, name: string, order: seq<PackageName>)
    requires |name| <= NAME_LIMIT
    requires InstallOrder(InstallGraph(db, remote, name), name, order)
    ensures InstallsDependenciesFirst(db, remote, order) && name in order
  {
    var g := InstallGraph(db, remote, name);
    forall i, e | 0 <= i < |order| && order[i] !in db && e in Fetch(remote, order[i]).deps ensures e in order[..i] {
      InstallGraphAt(db, remote, name, order[i]);
      assert e in g(order[i]);
    }
    assert order[|order| - 1] == name;
  }

  // The name was not cut, nothing is wrongly remembered as installed, and every archive arrives.
  ghost predicate Delivered(db: Database, cache: set<string>, remote: Remote, name: string, order: seq<PackageName>) {
    && |name| <= NAME_LIMIT
    && (forall n :: n in cache ==> |n| <= NAME_LIMIT && n in db)
    && (forall d :: d in order ==> Delivers(remote, d))
  }

  // Installing keeps a closed database closed exactly when the dependencies arrive. They do when
  // the process believes nothing installed that is not, and everything is delivered; and then the
  // requested package is installed with all it needs.
  lemma InstallTheorem(db: Database, cache: set<string>, remote: Remote, name: string, order: seq<PackageName>)
    requires Closed(db) && SelfNamed(remote, order)
    requires InstallOrder(InstallGraph(db, remote, name), Trunc(name), order)
    ensures var after := InstallAll(db, cache, remote, order);
            && (Closed(after) <==> DependenciesArrive(db, cache, remote, order))
            && (Delivered(db, cache, remote, name, order) ==>
                  Closed(after) && name in after && forall d :: d in order ==> d in after)
  {
    InstallClosedExactly(db, cache, remote, order);
    InstallAllIs(db, cache, remote, order);
    if Delivered(db, cache, remote, name, order) {
      ResolvedOrder(db, remote, name, order);
      forall d, e | d in order && IsNew(db, cache, remote, d) && e in Fetch(remote, d).deps
        ensures e in db || (e in order && IsNew(db, cache, remote, e))
      {
        var i :| 0 <= i < |order| && order[i] == d;
        assert e in order[..i];
      }
    }
  }

  // With everything delivered the database is closed after every single pass.
  lemma DeliveredThroughout(db: Database, cache: set<string>, remote: Remote, name: string, order: seq<PackageName>, i: nat)
    requires Closed(db) && SelfNamed(remote, order) && i <= |order|
    requires InstallOrder(InstallGraph(db, remote, name), Trunc(name), order) && Delivered(db, cache, remote, name, order)
    ensures Closed(InstallAll(db, cache, remote, order[..i]))
  {
    InstallTheorem(db, cache, remote, name, order);
    ResolvedOrder(db, remote, name, order);
    InstallClosedThroughout(db, cache, remote, order, i);
  }

  // A removal that passed the reverse-dependency check keeps the database closed exactly when no
  // hidden entry needs the package.
  lemma RemoveClosedExactly(db: Database, name: string)
    requires Closed(db) && forall n :: n in db && (n == "" || n[0] != '.') ==> name !in db[n].deps
    ensures Closed(db - {name}) <==> forall n :: n in db && n != name && n != "" && n[0] == '.' ==> name !in db[n].deps
  {
    if n :| n in db && n != name && n != "" && n[0] == '.' && name in db[n].deps {
      assert n in db - {name} && name in (db - {name})[n].deps;
    }
  }

  // ----- What is installed and resolved, in the repository's own terms

  // Manifests carry the name they are served under, or none at all.
  ghost predicate NamesAgree(remote: Remote, order: seq<PackageName>) {
    forall d :: d in order ==> remote.manifest(d).None? || remote.manifest(d).value.name in {"", d}
  }

  lemma NamesAgreeMeans(remote: Remote, order: seq<PackageName>)
    ensures NamesAgree(remote, order) <==> SelfNamed(remote, order)
  {
  }

  // A package of the order that was not there is installed exactly when its archive arrived, is the
  // one its manifest declares if it declares one, and could be registered; and what is then stored
  // is its manifest, with name and version filled in. A manifest without a name is not parsed to its
  // dependencies.
  lemma InstalledExactly(db: Database, cache: set<string>, remote: Remote, order: seq<PackageName>, n: PackageName, p: Package)
    requires NamesAgree(remote, order) && n in order && n !in db && n !in cache
    requires remote.manifest(n) == Some(p)
    ensures var after := InstallAll(db, cache, remote, order);
            && (n in after <==>
                  && remote.archive(n) != Lost && remote.registers(n)
                  && (p.checksum != "" ==> remote.archive(n) == Arrived(p.checksum)))
            && (n in after ==>
                  && after[n].name == n && after[n].version == (if p.version == "" then "0.0.0" else p.version)
                  && after[n].description == p.description && after[n].author == p.author
                  && after[n].checksum == p.checksum && after[n].deps == (if p.name == "" then [] else p.deps))
  {
    NamesAgreeMeans(remote, order);
    InstallAllIs(db, cache, remote, order);
  }

  // Without a manifest the archive is not checked, and a placeholder without dependencies is stored.
  lemma InstalledWithout(db: Database, cache: set<string>, remote: Remote, order: seq<PackageName>, n: PackageName)
    requires NamesAgree(remote, order) && n in order && n !in db && n !in cache && remote.manifest(n) == None
    ensures var after := InstallAll(db, cache, remote, order);
            && (n in after <==> remote.archive(n) != Lost && remote.registers(n))
            && (n in after ==> after[n] == ManifestFormat.Package(n, "0.0.0", "", "", "", []))
  {
    NamesAgreeMeans(remote, order);
    InstallAllIs(db, cache, remote, order);
  }

  // What was there, and what is remembered, is left alone, and nothing outside the order appears.
  lemma InstalledBefore(db: Database, cache: set<string>, remote: Remote, order: seq<PackageName>, n: PackageName)
    requires NamesAgree(remote, order)
    ensures var after := InstallAll(db, cache, remote, order);
            && (n in db ==> n in after && after[n] == db[n])
            && (n !in db && (n in cache || n !in order) ==> n !in after)
  {
    NamesAgreeMeans(remote, order);
    InstallAllIs(db, cache, remote, order);
  }

  // The dependencies a resolution follows: of an installed package the stored ones, of any other
  // those of its manifest, if it can be parsed.
  lemma ResolvesDependencies(db: Database, remote: Remote, name: string, n: string)
    requires |name| <= NAME_LIMIT
    ensures var deps := InstallGraph(db, remote, name)(n);
            if |n| <= NAME_LIMIT && n in db then deps == db[n].deps
            else if remote.manifest(n).Some? && remote.manifest(n).value.name != "" then deps == remote.manifest(n).value.deps
            else deps == []
  {
    InstallGraphAt(db, remote, name, n);
  }

  // A root name that is too long is followed under its full name.
  lemma LongRootDependencies(db: Database, remote: Remote, name: string)
    requires |name| > NAME_LIMIT
    ensures InstallGraph(db, remote, name)(name[..63]) ==
            if remote.manifest(name).Some? && remote.manifest(name).value.name != "" then remote.manifest(name).value.deps else []
  {
    var lookup := Lookup(db, remote);
    assert lookup(name) == Load(db, remote, name);
  }

  // ----- How closure is lost

  function Needing(name: PackageName, deps: seq<PackageName>): Package {
    ManifestFormat.Package(name, "1", "", "", "", deps)
  }

  lemma NotClosed(db: Database, n: PackageName, d: PackageName)
    requires n in db && d in db[n].deps && d !in db
    ensures !Closed(db)
  {
  }

  // The resolution of b, which needs a.
  lemma TwoResolved(db: Database, remote: Remote)
    requires "b" !in db && remote.manifest("b") == Some(Needing("b", ["a"])) && Deps(Load(db, remote, "a")) == []
    ensures !Cyclic(InstallGraph(db, remote, "b"), "b") && !TooMany(InstallGraph(db, remote, "b"), "b")
    ensures forall order :: InstallOrder(InstallGraph(db, remote, "b"), "b", order) ==>
              "b" in order && forall n :: n in order ==> n in ["a", "b"]
  {
    var g := InstallGraph(db, remote, "b");
    InstallGraphAt(db, remote, "b", "a");
    InstallGraphAt(db, remote, "b", "b");
    hide InstallGraph, DependenciesFirst, Distinct, Cyclic, TooMany;
    TwoInOrder(g, "a", "b");
    OrderSuffices(g, "b", ["a", "b"]);
    forall order | InstallOrder(g, "b", order) ensures "b" in order && forall n :: n in order ==> n in ["a", "b"] {
      OrderWithin(g, "b", ["a", "b"], order);
    }
  }

  // Installing b into an empty database when its dependency is not registered.
  method InstallWithout(m: Manager, remote: Remote)
    requires m.db == map[] && "b" !in m.Cached()
    requires remote.manifest("b") == Some(Needing("b", ["a"])) && Delivers(remote, "b")
    requires SelfNames(remote, "a") && Deps(Load(map[], remote, "a")) == [] && !IsNew(map[], m.Cached(), remote, "a")
    modifies m
    ensures "b" in m.db && "a" !in m.db && !Closed(m.db)
  {
    TwoResolved(map[], remote);
    ghost var cache := m.Cached();
    assert SelfNames(remote, "b") && Fetch(remote, "b").deps == ["a"];
    hide InstallGraph, Cyclic, TooMany, InstallOrder, InstallAll, Fetch, Closed, Delivers;
    var ok, order := m.Install(remote, "b");
    InstallAllIs(map[], cache, remote, order);
    NotClosed(m.db, "b", "a");
  }

  // The archive of a dependency does not arrive: the loop goes on and registers the dependent.
  method UndeliveredDependency(remote: Remote) returns (m: Manager)
    requires remote.manifest("b") == Some(Needing("b", ["a"])) && remote.manifest("a") == Some(Needing("a", []))
    requires Delivers(remote, "b") && remote.archive("a").Lost?
    ensures fresh(m) && "b" in m.db && "a" !in m.db && !Closed(m.db)
  {
    m := new Manager(map[]);
    InstallWithout(m, remote);
  }

  // A dependent whose name starts with a dot is overlooked: the removal succeeds.
  method OverlookedDependent() returns (m: Manager, removed: bool)
    ensures fresh(m) && removed && ".b" in m.db && "a" in m.db[".b"].deps && "a" !in m.db && !Closed(m.db)
  {
    var db: Database := map["a" := Needing("a", []), ".b" := Needing(".b", ["a"])];
    assert Closed(db);
    m := new Manager(db);
    removed := m.Remove("a");
  }

  // A caller that removes a package and installs a dependent of it in one process: the stale memory
  // makes the loop skip the dependency.
  method RemoveThenInstall(remote: Remote) returns (m: Manager)
    requires remote.manifest("b") == Some(Needing("b", ["a"])) && Delivers(remote, "b") && remote.manifest("a") == None
    ensures fresh(m) && "b" in m.db && "a" !in m.db && !Closed(m.db)
  {
    m := new Manager(map["a" := Needing("a", [])]);
    var removed := m.Remove("a");
    assert m.db == map[];
    InstallWithout(m, remote);
  }

  lemma TwoInOrder(g: Graph, first: string, second: string)
    requires g(first) == [] && g(second) == [first] && first != second
    ensures DependenciesFirst(g, [first, second]) && Distinct([first, second])
  {
    assert [first, second][..1] == [first];
  }

  lemma OrderWithin(g: Graph, start: string, covering: seq<string>, order: seq<string>)
    requires DependenciesFirst(g, covering) && start in covering && InstallOrder(g, start, order)
    ensures forall n :: n in order ==> n in covering
  {
    forall n | n in order ensures n in covering {
      ReachableInOrder(g, covering, start, n);
    }
  }
}
