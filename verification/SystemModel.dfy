/** Synchronising a system model's package selection and repositories. */
module SystemModel {

  datatype Kind = PackageNameKind | SharedLibrary | PkgConfig | Interpreter | CMake | Python | Binary | SystemBinary | PkgConfig32

  datatype Provider = Provider(kind: Kind, name: string)

  datatype Package = Package(name: string, providers: set<Provider>)

  function PackageName(name: string): Provider {
    Provider(PackageNameKind, name)
  }

  predicate Provided(packages: seq<Package>, p: Provider) {
    exists i :: 0 <= i < |packages| && p in packages[i].providers
  }

  /** Some provider of the package is selected. */
  predicate Covered(k: Package, selected: set<Provider>) {
    exists p :: p in k.providers && p in selected
  }

  /** The model after a sync: selections still provided, and the names of packages that had none. */
  ghost predicate IsSync(selected: set<Provider>, packages: seq<Package>, updated: set<Provider>) {
    forall p :: p in updated <==> (p in selected && Provided(packages, p)) || Named(packages, selected, p)
  }

  /** p is the name of a package with no selected provider. */
  ghost predicate Named(packages: seq<Package>, selected: set<Provider>, p: Provider) {
    exists i :: 0 <= i < |packages| && p == PackageName(packages[i].name) && !Covered(packages[i], selected)
  }

  method SyncPackages(selected: set<Provider>, packages: seq<Package>) returns (updated: set<Provider>)
    ensures IsSync(selected, packages, updated)
  {
    updated := {};
    var rest := selected;
    while rest != {}
      invariant rest <= selected
      invariant forall p :: p in updated <==> p in selected && p !in rest && Provided(packages, p)
    {
      var p :| p in rest;
      rest := rest - {p};
      if Provided(packages, p) {
        updated := updated + {p};
      }
    }
    ghost var kept := updated;
    for i := 0 to |packages|
      invariant forall p :: p in updated <==> p in kept || Named(packages[..i], selected, p)
    {
      NamedExtends(packages, selected, i);
      if !Covered(packages[i], selected) {
        updated := updated + {PackageName(packages[i].name)};
      }
    }
    assert packages[..|packages|] == packages;
  }

  lemma NamedExtends(packages: seq<Package>, selected: set<Provider>, i: nat)
    requires i < |packages|
    ensures forall p :: Named(packages[..i + 1], selected, p) <==>
                        Named(packages[..i], selected, p)
                        || (p == PackageName(packages[i].name) && !Covered(packages[i], selected))
  {
    var more, less := packages[..i + 1], packages[..i];
    forall p
      ensures Named(more, selected, p) <==>
              Named(less, selected, p) || (p == PackageName(packages[i].name) && !Covered(packages[i], selected))
    {
      if Named(less, selected, p) {
        var j :| 0 <= j < |less| && p == PackageName(less[j].name) && !Covered(less[j], selected);
        assert more[j] == less[j];
      }
      if Named(more, selected, p) {
        var j :| 0 <= j < |more| && p == PackageName(more[j].name) && !Covered(more[j], selected);
        assert j < i ==> less[j] == more[j];
      }
      assert more[i] == packages[i];
    }
  }

  // ---- what a sync achieves -----------------------------------------------------------

  /** Every package offers its own name. */
  ghost predicate ProvidesOwnName(packages: seq<Package>) {
    forall i :: 0 <= i < |packages| ==> PackageName(packages[i].name) in packages[i].providers
  }

  /** No selection that is still provided is lost; and if packages offer their own names, every package
      ends with a selected provider and every selection belongs to a package. */
  lemma SyncCovers(selected: set<Provider>, packages: seq<Package>, updated: set<Provider>)
    requires IsSync(selected, packages, updated)
    ensures forall p :: p in selected && Provided(packages, p) ==> p in updated
    ensures ProvidesOwnName(packages) ==> forall i :: 0 <= i < |packages| ==> Covered(packages[i], updated)
    ensures ProvidesOwnName(packages) ==> forall p :: p in updated ==> Provided(packages, p)
  {
    if ProvidesOwnName(packages) {
      forall i | 0 <= i < |packages|
        ensures Covered(packages[i], updated)
      {
        if Covered(packages[i], selected) {
          var p :| p in packages[i].providers && p in selected;
          assert Provided(packages, p) && p in updated;
        } else {
          assert Named(packages, selected, PackageName(packages[i].name));
        }
      }
      forall p | p in updated
        ensures Provided(packages, p)
      {
        if Named(packages, selected, p) {
          var i :| 0 <= i < |packages| && p == PackageName(packages[i].name) && !Covered(packages[i], selected);
          assert p in packages[i].providers;
        }
      }
    }
  }

  /** What a first sync covered it keeps covered: a second sync never adds. */
  lemma SecondSyncAddsNothing(selected: set<Provider>, packages: seq<Package>, updated: set<Provider>, again: set<Provider>)
    requires IsSync(selected, packages, updated) && IsSync(updated, packages, again)
    ensures again <= updated
  {
    forall i | 0 <= i < |packages| && Covered(packages[i], selected)
      ensures Covered(packages[i], updated)
    {
      var q :| q in packages[i].providers && q in selected;
      assert Provided(packages, q) && q in updated;
    }
    forall p | Named(packages, updated, p)
      ensures Named(packages, selected, p)
    {
      var i :| 0 <= i < |packages| && p == PackageName(packages[i].name) && !Covered(packages[i], updated);
      assert !Covered(packages[i], selected);
    }
  }

  /** Package j had no selected provider, and every package whose name it provides had one, so that the
      sync adds none of those names: it leaves j uncovered. */
  ghost predicate StaysUncovered(selected: set<Provider>, packages: seq<Package>, j: nat)
    requires j < |packages|
  {
    && !Covered(packages[j], selected)
    && forall k :: 0 <= k < |packages| && PackageName(packages[k].name) in packages[j].providers ==> Covered(packages[k], selected)
  }

  /** p is the name of a package that a sync leaves uncovered. */
  ghost predicate Lasting(selected: set<Provider>, packages: seq<Package>, p: Provider) {
    exists j: nat :: j < |packages| && p == PackageName(packages[j].name) && StaysUncovered(selected, packages, j)
  }

  /** Whatever name a sync adds that no package provides belongs to a package it leaves uncovered. */
  ghost predicate AddsLastingNames(selected: set<Provider>, packages: seq<Package>) {
    forall i :: 0 <= i < |packages| && !Covered(packages[i], selected) && !Provided(packages, PackageName(packages[i].name)) ==>
      Lasting(selected, packages, PackageName(packages[i].name))
  }

  lemma UncoveredAfterSync(selected: set<Provider>, packages: seq<Package>, updated: set<Provider>, j: nat)
    requires IsSync(selected, packages, updated) && j < |packages|
    ensures !Covered(packages[j], updated) <==> StaysUncovered(selected, packages, j)
  {
    var k := packages[j];
    forall p | p in k.providers
      ensures p in updated <==> p in selected || Named(packages, selected, p)
    {
      assert Provided(packages, p);
    }
    forall i | 0 <= i < |packages| && !Covered(packages[i], selected)
      ensures Named(packages, selected, PackageName(packages[i].name))
    {
    }
  }

  lemma NamedIsLasting(selected: set<Provider>, packages: seq<Package>, updated: set<Provider>, p: Provider)
    requires IsSync(selected, packages, updated)
    ensures Named(packages, updated, p) <==> Lasting(selected, packages, p)
  {
    forall j: nat | j < |packages|
      ensures !Covered(packages[j], updated) <==> StaysUncovered(selected, packages, j)
    {
      UncoveredAfterSync(selected, packages, updated, j);
    }
  }

  /** A second sync changes nothing exactly when the first adds lasting names only: a condition on the
      selection and the packages before either sync. */
  lemma SyncIsIdempotentIff(selected: set<Provider>, packages: seq<Package>, updated: set<Provider>, again: set<Provider>)
    requires IsSync(selected, packages, updated) && IsSync(updated, packages, again)
    ensures again == updated <==> AddsLastingNames(selected, packages)
  {
    SecondSyncAddsNothing(selected, packages, updated, again);
    forall p
      ensures p in updated && !Provided(packages, p) ==> Named(packages, selected, p) && (p in again <==> Lasting(selected, packages, p))
    {
      NamedIsLasting(selected, packages, updated, p);
    }
    if AddsLastingNames(selected, packages) {
      forall p | p in updated
        ensures p in again
      {
        if !Provided(packages, p) {
          var i :| 0 <= i < |packages| && p == PackageName(packages[i].name) && !Covered(packages[i], selected);
        }
      }
    } else {
      var i :| 0 <= i < |packages| && !Covered(packages[i], selected) && !Provided(packages, PackageName(packages[i].name))
               && !Lasting(selected, packages, PackageName(packages[i].name));
      assert Named(packages, selected, PackageName(packages[i].name));
    }
  }

  /** In particular when packages offer their own names. */
  lemma SyncIsIdempotent(selected: set<Provider>, packages: seq<Package>, updated: set<Provider>, again: set<Provider>)
    requires IsSync(selected, packages, updated) && IsSync(updated, packages, again) && ProvidesOwnName(packages)
    ensures again == updated
  {
    SyncIsIdempotentIff(selected, packages, updated, again);
    SyncCovers(selected, packages, updated);
  }

  /** Two packages, one offering only the other's name: the first sync selects both names, the second
      drops one. */
  lemma SyncCanDrop(a: string, b: string, updated: set<Provider>, again: set<Provider>)
    requires a != b
    requires var packages := [Package(a, {}), Package(b, {PackageName(a)})];
             IsSync({}, packages, updated) && IsSync(updated, packages, again)
    ensures PackageName(b) in updated && PackageName(b) !in again
  {
    var packages := [Package(a, {}), Package(b, {PackageName(a)})];
    assert !Covered(packages[0], {}) && !Covered(packages[1], {});
    assert Named(packages, {}, PackageName(packages[0].name)) && Named(packages, {}, PackageName(packages[1].name));
    assert Covered(packages[1], updated);
    forall i | 0 <= i < |packages|
      ensures !(PackageName(b) == PackageName(packages[i].name) && !Covered(packages[i], updated))
      ensures PackageName(b) !in packages[i].providers
    {
    }
  }

  // ---- repositories -------------------------------------------------------------------

  /** Replaces the repositories the model already has; adds and drops none. */
  method UpdateRepositories<V(==)>(mine: map<string, V>, theirs: map<string, V>) returns (r: map<string, V>)
    ensures r.Keys == mine.Keys
    ensures forall id :: id in r ==> r[id] == if id in theirs then theirs[id] else mine[id]
  {
    r := mine;
    var rest := theirs.Keys;
    while rest != {}
      invariant rest <= theirs.Keys && r.Keys == mine.Keys
      invariant forall id :: id in r ==> r[id] == if id in theirs && id !in rest then theirs[id] else mine[id]
    {
      var id :| id in rest;
      rest := rest - {id};
      if id in r {
        r := r[id := theirs[id]];
      }
    }
  }
}
