/**
 * The recursive descendant collection `_get_all_children_ids`. The recursion
 * follows `children` lists; a listed id that is not in the store is kept but
 * not followed. It terminates exactly when no cycle is reachable from the
 * start id, which the loader does not guarantee (an id collision can create a
 * cycle), so callers must ensure it for the ids they start from.
 */
module OutlineTree {
  import opened Wrappers
  import opened OutlineRecords

  type Entries = map<Id, Record>

  /**
   * `rank` decreases along every child edge that leaves a live record it
   * ranks; so the live children of a ranked record are ranked too.
   */
  ghost predicate Ranked(e: Entries, rank: map<Id, nat>)
  {
    forall k :: k in e && k in rank ==>
      forall c :: c in e[k].children && c in e ==> c in rank && rank[c] < rank[k]
  }

  /** No cycle of live records is reachable from `id` through `children` lists. */
  ghost predicate AcyclicFrom(e: Entries, id: Id)
  {
    exists rank :: Ranked(e, rank) && (id in e ==> id in rank)
  }

  /** No cycle is reachable from any of `ids`. */
  ghost predicate AcyclicFromEach(e: Entries, ids: set<Id>)
  {
    forall t :: t in ids ==> AcyclicFrom(e, t)
  }

  /** Every child of a live member of `s` is in `s`. */
  ghost predicate ClosedUnderChildren(e: Entries, s: set<Id>)
  {
    forall x, c :: x in s && x in e && c in e[x].children ==> c in s
  }

  /** `_get_all_children_ids(id)`, with the ranking that makes the recursion terminate. */
  function DescendantsFrom(e: Entries, id: Id, ghost rank: map<Id, nat>): set<Id>
    requires Ranked(e, rank) && (id in e ==> id in rank)
    decreases if id in e then rank[id] + 1 else 0, 0
  {
    if id in e then ChildrenDescendants(e, e[id].children, rank, rank[id]) else {}
  }

  /** The loop over one `children` list: each child id, then its own descendants. */
  function ChildrenDescendants(e: Entries, cs: seq<Id>, ghost rank: map<Id, nat>, ghost bound: nat): set<Id>
    requires Ranked(e, rank)
    requires forall c :: c in cs && c in e ==> c in rank && rank[c] < bound
    decreases bound, |cs|
  {
    if cs == [] then {}
    else {cs[0]} + DescendantsFrom(e, cs[0], rank) + ChildrenDescendants(e, cs[1..], rank, bound)
  }

  /** `_get_all_children_ids`: an unknown or childless id has no descendants. */
  function AllChildrenIds(e: Entries, id: Id): (r: set<Id>)
    requires AcyclicFrom(e, id)
    ensures id !in e ==> r == {}
    ensures id in e && e[id].children == [] ==> r == {}
  {
    ghost var rank :| Ranked(e, rank) && (id in e ==> id in rank);
    assert id in e && e[id].children == [] ==> ChildrenDescendants(e, [], rank, rank[id]) == {};
    DescendantsFrom(e, id, rank)
  }

  lemma {:induction false} DescendantsClosed(e: Entries, id: Id, rank: map<Id, nat>)
    requires Ranked(e, rank) && (id in e ==> id in rank)
    ensures id in e ==> forall c :: c in e[id].children ==> c in DescendantsFrom(e, id, rank)
    ensures ClosedUnderChildren(e, DescendantsFrom(e, id, rank))
    decreases if id in e then rank[id] + 1 else 0, 0
  {
    if id in e {
      ChildrenClosed(e, e[id].children, rank, rank[id]);
    }
  }

  lemma {:induction false} ChildrenClosed(e: Entries, cs: seq<Id>, rank: map<Id, nat>, bound: nat)
    requires Ranked(e, rank)
    requires forall c :: c in cs && c in e ==> c in rank && rank[c] < bound
    ensures forall c :: c in cs ==> c in ChildrenDescendants(e, cs, rank, bound)
    ensures ClosedUnderChildren(e, ChildrenDescendants(e, cs, rank, bound))
    decreases bound, |cs|
  {
    if cs != [] {
      DescendantsClosed(e, cs[0], rank);
      ChildrenClosed(e, cs[1..], rank, bound);
      var l := ChildrenDescendants(e, cs, rank, bound);
      var d0 := DescendantsFrom(e, cs[0], rank);
      var rest := ChildrenDescendants(e, cs[1..], rank, bound);
      assert l == {cs[0]} + d0 + rest;
      forall c | c in cs ensures c in l {
        if c != cs[0] { assert c in cs[1..]; }
      }
    }
  }

  lemma {:induction false} DescendantsLeast(e: Entries, id: Id, rank: map<Id, nat>, s: set<Id>)
    requires Ranked(e, rank) && (id in e ==> id in rank)
    requires id in e ==> forall c :: c in e[id].children ==> c in s
    requires ClosedUnderChildren(e, s)
    ensures DescendantsFrom(e, id, rank) <= s
    decreases if id in e then rank[id] + 1 else 0, 0
  {
    if id in e {
      ChildrenLeast(e, e[id].children, rank, rank[id], s);
    }
  }

  lemma {:induction false} ChildrenLeast(e: Entries, cs: seq<Id>, rank: map<Id, nat>, bound: nat, s: set<Id>)
    requires Ranked(e, rank)
    requires forall c :: c in cs && c in e ==> c in rank && rank[c] < bound
    requires forall c :: c in cs ==> c in s
    requires ClosedUnderChildren(e, s)
    ensures ChildrenDescendants(e, cs, rank, bound) <= s
    decreases bound, |cs|
  {
    if cs != [] {
      DescendantsLeast(e, cs[0], rank, s);
      ChildrenLeast(e, cs[1..], rank, bound, s);
    }
  }

  lemma {:induction false} DescendantsBelow(e: Entries, id: Id, rank: map<Id, nat>)
    requires Ranked(e, rank) && (id in e ==> id in rank)
    ensures id in e ==> forall x :: x in DescendantsFrom(e, id, rank) && x in e ==> x in rank && rank[x] < rank[id]
    decreases if id in e then rank[id] + 1 else 0, 0
  {
    if id in e {
      ChildrenBelow(e, e[id].children, rank, rank[id]);
    }
  }

  lemma {:induction false} ChildrenBelow(e: Entries, cs: seq<Id>, rank: map<Id, nat>, bound: nat)
    requires Ranked(e, rank)
    requires forall c :: c in cs && c in e ==> c in rank && rank[c] < bound
    ensures forall x :: x in ChildrenDescendants(e, cs, rank, bound) && x in e ==> x in rank && rank[x] < bound
    decreases bound, |cs|
  {
    if cs != [] {
      DescendantsBelow(e, cs[0], rank);
      ChildrenBelow(e, cs[1..], rank, bound);
    }
  }

  /**
   * When no cycle is reachable from `id`, its descendants of `id` are exactly the ids reachable from
   * it through `children` lists: they contain its children, are closed under
   * the child relation (missing ids are kept but not followed), are contained
   * in every other such set, and never contain `id` itself.
   */
  lemma AllChildrenIdsSpec(e: Entries, id: Id)
    requires AcyclicFrom(e, id)
    ensures id in e ==> forall c :: c in e[id].children ==> c in AllChildrenIds(e, id)
    ensures ClosedUnderChildren(e, AllChildrenIds(e, id))
    ensures id !in AllChildrenIds(e, id)
  {
    var rank :| Ranked(e, rank) && (id in e ==> id in rank) && AllChildrenIds(e, id) == DescendantsFrom(e, id, rank);
    DescendantsClosed(e, id, rank);
    DescendantsBelow(e, id, rank);
  }

  lemma AllChildrenIdsLeast(e: Entries, id: Id, s: set<Id>)
    requires AcyclicFrom(e, id)
    requires id in e ==> forall c :: c in e[id].children ==> c in s
    requires ClosedUnderChildren(e, s)
    ensures AllChildrenIds(e, id) <= s
  {
    var rank :| Ranked(e, rank) && (id in e ==> id in rank) && AllChildrenIds(e, id) == DescendantsFrom(e, id, rank);
    DescendantsLeast(e, id, rank, s);
  }

  /**
   * A cycle elsewhere in the store does not matter: with a group listing
   * itself as its child next to a leaf mesh, the leaf's descendants are
   * defined (and empty), while those of the group are not.
   */
  lemma CycleElsewhere()
    ensures var e := map["group_A" := NewRecord("group_A", "A", GROUP, None, ["group_A"]),
                         "mesh_X" := NewRecord("mesh_X", "X", MESH, None, [])];
      && AcyclicFrom(e, "mesh_X") && AllChildrenIds(e, "mesh_X") == {}
      && !AcyclicFrom(e, "group_A")
  {
    var e := map["group_A" := NewRecord("group_A", "A", GROUP, None, ["group_A"]),
                 "mesh_X" := NewRecord("mesh_X", "X", MESH, None, [])];
    assert "group_A"[0] != "mesh_X"[0];
    assert Ranked(e, map["mesh_X" := 0]);
    assert "group_A" in e["group_A"].children;
    assert forall rank :: Ranked(e, rank) ==> "group_A" !in rank;
  }

  /** The ids `_perform_delete` removes: the targets and all their descendants. */
  ghost function RemovalSet(e: Entries, targets: set<Id>): set<Id>
    requires AcyclicFromEach(e, targets)
  {
    targets + set t, x | t in targets && x in AllChildrenIds(e, t) :: x
  }

  lemma RemovalSetAdd(e: Entries, targets: set<Id>, t: Id)
    requires AcyclicFromEach(e, targets + {t})
    ensures RemovalSet(e, targets + {t}) == RemovalSet(e, targets) + {t} + AllChildrenIds(e, t)
  {
  }

  /** The removal set is the least set that holds the targets and is closed under the child relation. */
  lemma RemovalSetSpec(e: Entries, targets: set<Id>, s: set<Id>)
    requires AcyclicFromEach(e, targets)
    ensures targets <= RemovalSet(e, targets)
    ensures ClosedUnderChildren(e, RemovalSet(e, targets))
    ensures targets <= s && ClosedUnderChildren(e, s) ==> RemovalSet(e, targets) <= s
  {
    var r := RemovalSet(e, targets);
    forall x, c | x in r && x in e && c in e[x].children ensures c in r {
      if x in targets {
        AllChildrenIdsSpec(e, x);
        assert c in AllChildrenIds(e, x);
      } else {
        var t :| t in targets && x in AllChildrenIds(e, t);
        AllChildrenIdsSpec(e, t);
        assert c in AllChildrenIds(e, t);
      }
    }
    if targets <= s && ClosedUnderChildren(e, s) {
      forall t | t in targets ensures AllChildrenIds(e, t) <= s {
        AllChildrenIdsLeast(e, t, s);
      }
    }
  }
}
