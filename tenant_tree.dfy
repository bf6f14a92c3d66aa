/**
 * Tenant hierarchy resolution: `TenantTree.list_nodes` over the flat tenant
 * listing, as its tests in wazo_auth/services/tests/test_helpers.py pin it
 * down.  The listing holds `{uuid, name, parent_uuid}` rows and the root is
 * its own parent.  `ListNodes(listing, x)` is `x` together with every tenant
 * transitively parented under it, computed breadth first over the parent
 * links; the self-loop on the root adds neither a duplicate nor a cycle.
 */
module TenantTree {

  type Uuid = string

  /** One row of the tenant listing. */
  datatype Tenant = Tenant(uuid: Uuid, name: string, parentUuid: Uuid)

  /** The parent link of every listed tenant, built in one pass over the
      listing (a later row for the same uuid replaces an earlier one). */
  function ParentMap(tenants: seq<Tenant>): (r: map<Uuid, Uuid>)
    ensures |r| <= |tenants|
    ensures tenants != [] ==> tenants[|tenants| - 1].uuid in r &&
                              r[tenants[|tenants| - 1].uuid] == tenants[|tenants| - 1].parentUuid
  {
    if tenants == [] then map[]
    else
      var last := tenants[|tenants| - 1];
      ParentMap(tenants[..|tenants| - 1])[last.uuid := last.parentUuid]
  }

  /** The parent map has one entry per listed uuid and no other. */
  lemma {:induction false} ParentMapKeys(tenants: seq<Tenant>, u: Uuid)
    ensures u in ParentMap(tenants) <==> exists t :: t in tenants && t.uuid == u
  {
    if tenants != [] {
      var n := |tenants| - 1;
      var before := tenants[..n];
      assert tenants == before + [tenants[n]];
      ParentMapKeys(before, u);
      if tenants[n].uuid == u {
        assert tenants[n] in tenants;
      }
    }
  }

  /** Each entry of the parent map is the parent given by the last row
      listing that uuid. */
  lemma {:induction false} ParentMapFromLastRow(tenants: seq<Tenant>, u: Uuid)
    ensures u in ParentMap(tenants) ==>
              exists i :: 0 <= i < |tenants| && tenants[i].uuid == u &&
                tenants[i].parentUuid == ParentMap(tenants)[u] &&
                forall j :: i < j < |tenants| ==> tenants[j].uuid != u
  {
    if tenants != [] {
      var n := |tenants| - 1;
      var before := tenants[..n];
      if tenants[n].uuid == u {
        assert tenants[n].parentUuid == ParentMap(tenants)[u];
      } else if u in ParentMap(tenants) {
        assert ParentMap(tenants) == ParentMap(before)[tenants[n].uuid := tenants[n].parentUuid];
        ParentMapFromLastRow(before, u);
        var i :| 0 <= i < |before| && before[i].uuid == u &&
                 before[i].parentUuid == ParentMap(before)[u] &&
                 forall j :: i < j < |before| ==> before[j].uuid != u;
        assert tenants[i] == before[i];
        assert forall j :: i < j < |tenants| ==> tenants[j].uuid != u by {
          forall j | i < j < |tenants|
            ensures tenants[j].uuid != u
          {
            if j < n {
              assert tenants[j] == before[j];
            }
          }
        }
      }
    }
  }

  /** Walking up `n` parent links from `y` ends at `x`. */
  ghost predicate AncestorAt(parents: map<Uuid, Uuid>, x: Uuid, y: Uuid, n: nat)
    decreases n
  {
    if n == 0 then x == y else y in parents && AncestorAt(parents, x, parents[y], n - 1)
  }

  /** `y` is `x` or lies below `x` in the tree. */
  ghost predicate Descends(parents: map<Uuid, Uuid>, y: Uuid, x: Uuid) {
    exists n: nat :: AncestorAt(parents, x, y, n)
  }

  /** The tenants whose parent is in `frontier`. */
  function Children(parents: map<Uuid, Uuid>, frontier: set<Uuid>): set<Uuid> {
    set y | y in parents && parents[y] in frontier
  }

  /** Breadth-first closure: `seen` holds what was reached so far, `frontier`
      the tenants reached in the last round. */
  function Closure(parents: map<Uuid, Uuid>, frontier: set<Uuid>, seen: set<Uuid>): set<Uuid>
    decreases parents.Keys - seen
  {
    var next := Children(parents, frontier) - seen;
    if next == {} then seen
    else
      assert exists y :: y in next;
      Closure(parents, next, seen + next)
  }

  /** `TenantTree.list_nodes(root)` over the tenants of `listing`: `root` and
      every tenant below it; nothing when `root` is not listed. */
  function ListNodes(listing: seq<Tenant>, root: Uuid): (r: set<Uuid>)
    ensures root in r <==> root in ParentMap(listing)
    ensures r <= ParentMap(listing).Keys
  {
    var parents := ParentMap(listing);
    if root in parents then
      assert AncestorAt(parents, root, root, 0);
      ClosureSound(parents, root, {root}, {root});
      ClosureClosed(parents, {root}, {root});
      Closure(parents, {root}, {root})
    else {}
  }

  lemma {:induction false} ClosureSound(parents: map<Uuid, Uuid>, root: Uuid, frontier: set<Uuid>, seen: set<Uuid>)
    requires frontier <= seen
    requires forall z :: z in seen ==> z in parents && Descends(parents, z, root)
    ensures forall z :: z in Closure(parents, frontier, seen) ==> z in parents && Descends(parents, z, root)
    decreases parents.Keys - seen
  {
    var next := Children(parents, frontier) - seen;
    if next != {} {
      forall z | z in next ensures z in parents && Descends(parents, z, root) {
        assert parents[z] in seen;
        var n: nat :| AncestorAt(parents, root, parents[z], n);
        assert AncestorAt(parents, root, z, n + 1);
      }
      ClosureSound(parents, root, next, seen + next);
    }
  }

  /** The closure keeps what was seen and is closed under taking children,
      provided every child of an already expanded tenant was seen. */
  lemma {:induction false} ClosureClosed(parents: map<Uuid, Uuid>, frontier: set<Uuid>, seen: set<Uuid>)
    requires frontier <= seen
    requires forall z :: z in parents && parents[z] in seen - frontier ==> z in seen
    ensures seen <= Closure(parents, frontier, seen)
    ensures forall z :: z in parents && parents[z] in Closure(parents, frontier, seen) ==>
              z in Closure(parents, frontier, seen)
    decreases parents.Keys - seen
  {
    var next := Children(parents, frontier) - seen;
    if next == {} {
      forall z | z in parents && parents[z] in seen ensures z in seen {
        if parents[z] in frontier {
          assert z in Children(parents, frontier);
        }
      }
    } else {
      forall z | z in parents && parents[z] in (seen + next) - next ensures z in seen + next {
        if parents[z] in frontier {
          assert z in Children(parents, frontier);
        }
      }
      ClosureClosed(parents, next, seen + next);
    }
  }

  lemma {:induction false} ClosedHoldsDescendants(parents: map<Uuid, Uuid>, r: set<Uuid>, root: Uuid, y: Uuid, n: nat)
    requires root in r
    requires forall z :: z in parents && parents[z] in r ==> z in r
    requires AncestorAt(parents, root, y, n)
    ensures y in r
    decreases n
  {
    if n > 0 {
      ClosedHoldsDescendants(parents, r, root, parents[y], n - 1);
    }
  }

  /** `list_nodes(root)` is exactly `root` and the tenants below it, for a
      listed `root`, and nothing otherwise. */
  lemma ListNodesIsDescendantClosure(listing: seq<Tenant>, root: Uuid, y: Uuid)
    ensures y in ListNodes(listing, root) <==>
            root in ParentMap(listing) && y in ParentMap(listing) && Descends(ParentMap(listing), y, root)
  {
    var parents := ParentMap(listing);
    if root in parents {
      assert AncestorAt(parents, root, root, 0);
      ClosureSound(parents, root, {root}, {root});
      ClosureClosed(parents, {root}, {root});
      if y in parents && Descends(parents, y, root) {
        var n: nat :| AncestorAt(parents, root, y, n);
        ClosedHoldsDescendants(parents, Closure(parents, {root}, {root}), root, y, n);
      }
    }
  }

  // ---------------------------------------------------------------------------
  // Ancestries: deciding Descends by a finite walk.

  /** `y` and the tenants met walking up at most `k` parent links from it. */
  function Ancestry(parents: map<Uuid, Uuid>, y: Uuid, k: nat): set<Uuid>
    decreases k
  {
    if k == 0 || y !in parents then {y} else {y} + Ancestry(parents, parents[y], k - 1)
  }

  ghost predicate ClosedUpward(parents: map<Uuid, Uuid>, a: set<Uuid>) {
    forall z :: z in a && z in parents ==> parents[z] in a
  }

  lemma {:induction false} AncestryDescends(parents: map<Uuid, Uuid>, y: Uuid, k: nat, x: Uuid)
    requires x in Ancestry(parents, y, k)
    ensures Descends(parents, y, x)
    decreases k
  {
    if x == y {
      assert AncestorAt(parents, x, y, 0);
    } else {
      AncestryDescends(parents, parents[y], k - 1, x);
      var n: nat :| AncestorAt(parents, x, parents[y], n);
      assert AncestorAt(parents, x, y, n + 1);
    }
  }

  lemma {:induction false} StaysWithin(parents: map<Uuid, Uuid>, a: set<Uuid>, x: Uuid, y: Uuid, n: nat)
    requires y in a && ClosedUpward(parents, a)
    requires AncestorAt(parents, x, y, n)
    ensures x in a
    decreases n
  {
    if n > 0 {
      StaysWithin(parents, a, x, parents[y], n - 1);
    }
  }

  /** Once a walk of `k` steps is closed under the parent link, it holds all
      ancestors of `y` and nothing else. */
  lemma DescendsIffInAncestry(parents: map<Uuid, Uuid>, y: Uuid, k: nat, x: Uuid)
    requires ClosedUpward(parents, Ancestry(parents, y, k))
    ensures Descends(parents, y, x) <==> x in Ancestry(parents, y, k)
  {
    if x in Ancestry(parents, y, k) {
      AncestryDescends(parents, y, k, x);
    }
    if Descends(parents, y, x) {
      var n: nat :| AncestorAt(parents, x, y, n);
      assert y in Ancestry(parents, y, k);
      StaysWithin(parents, Ancestry(parents, y, k), x, y, n);
    }
  }

  // ---------------------------------------------------------------------------
  // The tree of the unit test:
  //         top
  //       /  |  \
  //      a   e   h
  //     / \  |
  //    d  b  f
  //       /\
  //      g  c

  function Fixture(): seq<Tenant> {
    [ Tenant("top", "top", "top"),
      Tenant("a", "a", "top"),
      Tenant("b", "b", "a"),
      Tenant("c", "c", "b"),
      Tenant("d", "d", "a"),
      Tenant("e", "e", "top"),
      Tenant("f", "f", "e"),
      Tenant("g", "g", "b"),
      Tenant("h", "h", "top") ]
  }

  const FixtureParents: map<Uuid, Uuid> :=
    map["top" := "top", "a" := "top", "b" := "a", "c" := "b", "d" := "a",
        "e" := "top", "f" := "e", "g" := "b", "h" := "top"]

  const AllFixtureNodes: set<Uuid> := {"top", "a", "b", "c", "d", "e", "f", "g", "h"}

  lemma FixtureParentMap()
    ensures ParentMap(Fixture()) == FixtureParents
  {
    var f := Fixture();
    ParentMapPrefix(f, 9);
    assert f[..9] == f;
  }

  /** The parent map of the first `n` rows, as `n` successive updates. */
  function RowUpdates(tenants: seq<Tenant>, n: nat): map<Uuid, Uuid>
    requires n <= |tenants|
  {
    if n == 0 then map[] else RowUpdates(tenants, n - 1)[tenants[n - 1].uuid := tenants[n - 1].parentUuid]
  }

  /** Building the parent map row by row gives the same map. */
  lemma {:induction false} ParentMapPrefix(tenants: seq<Tenant>, n: nat)
    requires n <= |tenants|
    ensures ParentMap(tenants[..n]) == RowUpdates(tenants, n)
  {
    if n == 0 {
      assert tenants[..0] == [];
    } else {
      ParentMapPrefix(tenants, n - 1);
      ParentMapStep(tenants, n - 1);
      var last := tenants[n - 1];
      assert RowUpdates(tenants, n) == RowUpdates(tenants, n - 1)[last.uuid := last.parentUuid];
    }
  }

  /** Adding one row to the listing sets (or overrides) that row's entry. */
  lemma ParentMapStep(tenants: seq<Tenant>, n: nat)
    requires n < |tenants|
    ensures ParentMap(tenants[..n + 1]) == ParentMap(tenants[..n])[tenants[n].uuid := tenants[n].parentUuid]
  {
    assert tenants[..n + 1][..n] == tenants[..n];
  }

  /** The ancestors of every tenant of the fixture. */
  function FixtureAncestors(y: Uuid): set<Uuid> {
    Ancestry(FixtureParents, y, 3)
  }

  lemma FixtureDescends(y: Uuid, x: Uuid)
    requires y in AllFixtureNodes
    ensures Descends(FixtureParents, y, x) <==> x in FixtureAncestors(y)
  {
    var p := FixtureParents;
    assert FixtureAncestors(y) == if y == "top" then {"top"}
      else if y in {"a", "e", "h"} then {y, "top"}
      else if y in {"b", "d"} then {y, "a", "top"}
      else if y == "f" then {"f", "e", "top"}
      else {y, "b", "a", "top"};
    DescendsIffInAncestry(p, y, 3, x);
  }

  /** Shared step of the fixture lemmas: a node list of the fixture is the set
      of listed tenants having `root` among their ancestors. */
  lemma FixtureNodes(root: Uuid, expected: set<Uuid>)
    requires root in AllFixtureNodes
    requires forall y :: y in AllFixtureNodes ==> (y in expected <==> root in FixtureAncestors(y))
    requires expected <= AllFixtureNodes
    ensures ListNodes(Fixture(), root) == expected
  {
    FixtureParentMap();
    forall y ensures y in ListNodes(Fixture(), root) <==> y in expected {
      ListNodesIsDescendantClosure(Fixture(), root, y);
      if y in AllFixtureNodes {
        FixtureDescends(y, root);
      }
    }
  }

  /** A leaf tenant's node list is exactly itself. */
  lemma LeafListsItself()
    ensures ListNodes(Fixture(), "f") == {"f"}
  {
    FixtureNodes("f", {"f"});
  }

  /** A tenant with one child lists itself and that child. */
  lemma NodeListsItsChild()
    ensures ListNodes(Fixture(), "e") == {"e", "f"}
  {
    FixtureNodes("e", {"e", "f"});
  }

  /** An inner tenant lists its whole subtree and neither its siblings nor its parent. */
  lemma InnerNodeListsSubtree()
    ensures ListNodes(Fixture(), "a") == {"a", "b", "c", "d", "g"}
  {
    FixtureNodes("a", {"a", "b", "c", "d", "g"});
  }

  /** The root, its own parent, lists every tenant once. */
  lemma RootListsEveryTenant()
    ensures ListNodes(Fixture(), "top") == AllFixtureNodes
  {
    FixtureNodes("top", AllFixtureNodes);
  }
}
