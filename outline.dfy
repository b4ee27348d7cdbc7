/**
 * The outline panel's state `OutlineState` and the operations its handlers
 * perform on it: the sample load at start-up, the selection toggle with its
 * cascade and its notification of the properties panel, the search filter,
 * the rename begin/commit/cancel rules, the delete confirmation and the
 * cascading delete, adding an object, and the read-only getters.
 */
module Outline {
  import opened Wrappers
  import opened Text
  import opened OrderedDict
  import opened OutlineRecords
  import opened OutlineLoad
  import opened OutlineLoadFacts
  import opened OutlineTree
  import opened OutlineQueries
  import opened OutlineDelete
  import Properties

  /** `SAMPLE_OUTLINE_JSON` once decoded. */
  const SampleDocument: Document := Document([
    Node("House_01_Structure", GROUP, [
      Node("Foundation_01", MESH, []),
      Node("Walls_01", MESH, []),
      Node("Roof_01", MESH, [])]),
    Node("LivingRoom_Furniture_00000", GROUP, [
      Node("Sofa_01", MESH, []),
      Node("CoffeeTable_01", MESH, [])]),
    Node("House_01_Landscape", MESH, []),
    Node("Main Camera", CAMERA, []),
    Node("Sun Light", LIGHT, [])])

  /** The names of the sample's nodes in loading order. */
  const SampleNames: seq<string> := ["Foundation_01", "Walls_01", "Roof_01", "House_01_Structure",
    "Sofa_01", "CoffeeTable_01", "LivingRoom_Furniture_00000", "House_01_Landscape", "Main Camera", "Sun Light"]

  /** The nodes of a forest shaped like the sample, in loading order: each group's children, then the group. */
  function SampleOrder(ns: seq<Node>): seq<Node>
    requires |ns| == 5 && |ns[0].children| == 3 && |ns[1].children| == 2
  {
    ns[0].children + [ns[0]] + ns[1].children + [ns[1]] + ns[2..]
  }

  /** A group of three leaves, a group of two leaves, then three leaves. */
  ghost predicate SampleShaped(ns: seq<Node>)
  {
    && |ns| == 5 && |ns[0].children| == 3 && |ns[1].children| == 2
    && (forall j :: 0 <= j < 3 ==> ns[0].children[j].children == [])
    && (forall j :: 0 <= j < 2 ==> ns[1].children[j].children == [])
    && (forall j :: 2 <= j < 5 ==> ns[j].children == [])
  }

  /** A group whose children are leaves flattens to its children's records, then its own. */
  lemma FlattenGroupOfLeaves(g: Node, p: Option<string>)
    requires forall j :: 0 <= j < |g.children| ==> g.children[j].children == []
    ensures var rs := Flatten(g, p); var o := g.children + [g];
      |rs| == |o| && forall i :: 0 <= i < |o| ==> rs[i].id == NodeId(o[i])
  {
    FlattenLeaves(g.children, Some(g.name));
  }

  lemma FlattenSampleShaped(ns: seq<Node>)
    requires SampleShaped(ns)
    ensures var rs := FlattenAll(ns, None); var o := SampleOrder(ns);
      |rs| == |o| == 10 && forall i :: 0 <= i < 10 ==> rs[i].id == NodeId(o[i])
  {
    FlattenGroupOfLeaves(ns[0], None);
    FlattenGroupOfLeaves(ns[1], None);
    FlattenLeaves(ns[2..], None);
    FlattenTwo(ns, None);
    var a, b, c := Flatten(ns[0], None), Flatten(ns[1], None), FlattenAll(ns[2..], None);
    var oa, ob, oc := ns[0].children + [ns[0]], ns[1].children + [ns[1]], ns[2..];
    assert SampleOrder(ns) == oa + (ob + oc);
    assert forall i :: 0 <= i < |oc| ==> c[i].id == NodeId(oc[i]);
    AlignIds(a, b, c, oa, ob, oc);
  }

  /** Record ids that match node ids piece by piece match them over the concatenation. */
  lemma AlignIds(a: seq<Record>, b: seq<Record>, c: seq<Record>, oa: seq<Node>, ob: seq<Node>, oc: seq<Node>)
    requires |a| == |oa| && |b| == |ob| && |c| == |oc|
    requires forall i :: 0 <= i < |oa| ==> a[i].id == NodeId(oa[i])
    requires forall i :: 0 <= i < |ob| ==> b[i].id == NodeId(ob[i])
    requires forall i :: 0 <= i < |oc| ==> c[i].id == NodeId(oc[i])
    ensures var rs, o := a + (b + c), oa + (ob + oc);
      |rs| == |o| && forall i :: 0 <= i < |o| ==> rs[i].id == NodeId(o[i])
  {
  }

  /** In such a forest, distinct names and types without underscores give distinct ids. */
  lemma SampleShapedNoCollisions(ns: seq<Node>)
    requires SampleShaped(ns)
    requires var o := SampleOrder(ns); forall i :: 0 <= i < |o| ==> '_' !in o[i].objType
    requires var o := SampleOrder(ns); forall i, j :: 0 <= i < j < |o| ==> o[i].name != o[j].name
    ensures NoIdCollisions(Document(ns))
  {
    FlattenSampleShaped(ns);
    var o := SampleOrder(ns);
    var rs := FlattenAll(ns, None);
    forall i, j | 0 <= i < j < |rs| ensures rs[i].id != rs[j].id {
      if rs[i].id == rs[j].id {
        NodeIdInjective(o[i], o[j]);
      }
    }
  }

  lemma SampleNamesDistinct()
    ensures forall i, j :: 0 <= i < j < |SampleNames| ==> SampleNames[i] != SampleNames[j]
  {
  }

  lemma SampleFacts()
    ensures SampleShaped(SampleDocument.objects)
    ensures var o := SampleOrder(SampleDocument.objects);
      forall i :: 0 <= i < 10 ==> o[i].name == SampleNames[i] && o[i].objType in {GROUP, MESH, CAMERA, LIGHT}
  {
  }

  /**
   * The sample's ten nodes have ten different ids, so loading it overwrites
   * nothing and `LoadWithoutCollisions` applies to every node of it.
   */
  lemma SampleHasNoCollisions()
    ensures NoIdCollisions(SampleDocument)
  {
    SampleFacts();
    SampleNamesDistinct();
    SampleShapedNoCollisions(SampleDocument.objects);
  }

  // ---------------------------------------------------------------------
  // Per-object `selected` flags.

  /** The record `k`, with its `selected` flag set to `flag` when `k` is among `ids`. */
  function Flagged(e: map<Id, Record>, ids: set<Id>, flag: bool, k: Id): Record
    requires k in e
  {
    if k in ids then e[k].(selected := flag) else e[k]
  }

  /** The records after `objects[k].selected = flag` for every present `k` of `ids`, in any order. */
  function WithSelected(e: map<Id, Record>, ids: set<Id>, flag: bool): (r: map<Id, Record>)
    ensures r.Keys == e.Keys
    ensures forall k :: k in r ==> r[k] == Flagged(e, ids, flag, k)
  {
    map k | k in e :: Flagged(e, ids, flag, k)
  }

  /** Setting one more flag extends the handled set. */
  lemma WithSelectedStep(e: map<Id, Record>, done: set<Id>, flag: bool, x: Id)
    ensures x in e ==> WithSelected(e, done + {x}, flag)
                       == WithSelected(e, done, flag)[x := WithSelected(e, done, flag)[x].(selected := flag)]
    ensures x !in e ==> WithSelected(e, done + {x}, flag) == WithSelected(e, done, flag)
  {
    var cur := WithSelected(e, done, flag);
    var nxt := WithSelected(e, done + {x}, flag);
    if x in e {
      forall k | k in cur && k != x ensures cur[k] == nxt[k] {
        assert cur[k] == Flagged(e, done, flag, k);
      }
      MapUpdateAgrees(cur, nxt, x, cur[x].(selected := flag));
    } else {
      forall k | k in cur ensures cur[k] == nxt[k] {
        assert cur[k] == Flagged(e, done, flag, k);
      }
      MapsAgree(cur, nxt);
    }
  }

  lemma WithSelectedNothing(e: map<Id, Record>, flag: bool)
    ensures WithSelected(e, {}, flag) == e
  {
    var r := WithSelected(e, {}, flag);
    forall k | k in e ensures r[k] == e[k] {
      assert r[k] == Flagged(e, {}, flag, k);
    }
    MapsAgree(r, e);
  }

  /** Flagging keeps every record under its own id, and flags exactly the present ids it names. */
  lemma WithSelectedFacts(e: map<Id, Record>, ids: set<Id>, flag: bool)
    ensures var r := WithSelected(e, ids, flag);
      && (forall k :: k in r ==> r[k].id == e[k].id)
      && (forall k :: k in r && k in ids ==> r[k].selected == flag)
  {
    var r := WithSelected(e, ids, flag);
    forall k | k in r ensures r[k] == Flagged(e, ids, flag, k) {
    }
  }

  /** `obj.selected` holds exactly for the ids in `sel`. */
  ghost predicate FlagsAgreeOn(e: map<Id, Record>, sel: set<Id>)
  {
    forall k :: k in e ==> (e[k].selected <==> k in sel)
  }

  /** The deselect branch keeps the flags in step with the selection. */
  lemma DeselectKeepsFlagsAgree(e: map<Id, Record>, sel: set<Id>, gone: set<Id>)
    requires FlagsAgreeOn(e, sel)
    ensures FlagsAgreeOn(WithSelected(e, gone, false), sel - gone)
  {
    var r := WithSelected(e, gone, false);
    forall k | k in r ensures r[k].selected <==> k in sel - gone {
      assert r[k] == Flagged(e, gone, false, k);
    }
  }

  /**
   * The select branch: whatever was flagged among the old selection is cleared
   * and only the clicked record is flagged; if the flags agreed with the old
   * selection they agree with the new one, `{id}`.
   */
  lemma SelectKeepsFlagsAgree(e: map<Id, Record>, sel: set<Id>, id: Id)
    requires id in e
    ensures var c := WithSelected(e, sel, false); var r := c[id := c[id].(selected := true)];
      && r[id].selected
      && (forall k :: k in sel && k in r && k != id ==> !r[k].selected)
      && (FlagsAgreeOn(e, sel) ==> FlagsAgreeOn(r, {id}))
  {
    var c := WithSelected(e, sel, false);
    var r := c[id := c[id].(selected := true)];
    forall k | k in r && k != id ensures r[k] == Flagged(e, sel, false, k) {
    }
    if FlagsAgreeOn(e, sel) {
      forall k | k in r ensures r[k].selected <==> k in {id} {
        if k != id {
          assert r[k] == Flagged(e, sel, false, k);
        }
      }
    }
  }

  /** The store after the select branch is well-formed, and the clicked record keeps its type and name. */
  lemma SelectedStoreValid(d: Store, sel: set<Id>, id: Id)
    requires StoreValid(d) && id in d.entries
    ensures var c := WithSelected(d.entries, sel, false);
      && c[id].objType == d.entries[id].objType && c[id].name == d.entries[id].name
      && StoreValid(Dict(d.keys, c[id := c[id].(selected := true)]))
  {
    var c := WithSelected(d.entries, sel, false);
    WithSelectedFacts(d.entries, sel, false);
    assert c[id] == Flagged(d.entries, sel, false, id);
  }

  // ---------------------------------------------------------------------
  // The state after `_perform_delete` and after `_add_new_object`.

  /** `_perform_delete` once `all` (targets and descendants) is known: detach, then delete. */
  function DeleteResult(d: Store, all: set<Id>): (r: Store)
    requires StoreValid(d)
    ensures StoreValid(r)
  {
    var detached := Dict(d.keys, Detached(d.entries, all));
    assert StoreValid(detached) by {
      forall k | k in detached.entries ensures detached.entries[k].id == k {
        assert detached.entries[k] == DetachedRecord(d.entries, all, k);
      }
    }
    RemoveKeys(detached, all)
  }

  /**
   * The records left are those outside `all`, in their old order; each keeps
   * everything but its child list, from which one occurrence of every removed
   * id that names it as parent is gone.
   */
  lemma DeleteResultSpec(d: Store, all: set<Id>)
    requires StoreValid(d)
    ensures var r := DeleteResult(d, all);
      && r.entries.Keys == d.entries.Keys - all
      && r.keys == Without(d.keys, all)
      && (forall k :: k in r.entries ==> r.entries[k] == DetachedRecord(d.entries, all, k))
      && (forall k :: k in r.entries ==>
            multiset(r.entries[k].children) == multiset(d.entries[k].children) - multiset(DetachedFrom(d.entries, all, k)))
  {
  }

  /**
   * What the delete leaves: exactly the targets and their descendants are gone,
   * every other record is still present with all but its child list unchanged.
   */
  lemma PerformDeleteSpec(d: Store, targets: set<Id>, k: Id)
    requires StoreValid(d) && AcyclicFromEach(d.entries, targets)
    ensures var all := RemovalSet(d.entries, targets); var r := DeleteResult(d, all);
      && (k in r.entries <==> k in d.entries && k !in targets && forall t :: t in targets ==> k !in AllChildrenIds(d.entries, t))
      && (k in r.entries ==> r.entries[k].(children := d.entries[k].children) == d.entries[k])
  {
    var all := RemovalSet(d.entries, targets);
    var r := DeleteResult(d, all);
    DeleteResultSpec(d, all);
    if k in r.entries {
      assert r.entries[k] == DetachedRecord(d.entries, all, k);
    }
    if k in d.entries && k !in all {
      assert k in r.entries;
    }
  }

  /** The selection loses exactly the removed ids, so the flags stay in step with it. */
  lemma DeleteKeepsFlagsAgree(d: Store, all: set<Id>, sel: set<Id>)
    requires StoreValid(d) && FlagsAgreeOn(d.entries, sel)
    ensures FlagsAgreeOn(DeleteResult(d, all).entries, sel - all)
  {
    var r := DeleteResult(d, all);
    DeleteResultSpec(d, all);
    forall k | k in r.entries ensures r.entries[k].selected <==> k in sel - all {
      assert r.entries[k] == DetachedRecord(d.entries, all, k);
    }
  }

  /** A removed child whose parent is found loses one occurrence from that parent's list. */
  lemma DeleteDetachesFromFoundParent(d: Store, all: set<Id>, x: Id)
    requires StoreValid(d) && x in all && x in d.entries && ParentFound(d.entries, d.entries[x])
    requires d.entries[x].parentId.value !in all && x in d.entries[d.entries[x].parentId.value].children
    ensures var p := d.entries[x].parentId.value; var r := DeleteResult(d, all);
      p in r.entries && multiset(r.entries[p].children)[x] == multiset(d.entries[p].children)[x] - 1
  {
    var p := d.entries[x].parentId.value;
    DeleteResultSpec(d, all);
    assert x in DetachedFrom(d.entries, all, p);
    assert multiset(DetachedFrom(d.entries, all, p))[x] == 1;
  }

  /**
   * A removed child whose parent lookup misses (every loaded child, whose
   * parent id is a name) stays listed in its surviving parent: the parent is
   * left with a child id that names no record.
   */
  lemma DeleteLeavesDanglingChild(d: Store, all: set<Id>, x: Id, k: Id)
    requires StoreValid(d) && x in all && x in d.entries && !ParentFound(d.entries, d.entries[x])
    requires k in d.entries && k !in all && x in d.entries[k].children
    ensures var r := DeleteResult(d, all);
      k in r.entries && x in r.entries[k].children && x !in r.entries
  {
    DetachIgnoresMissingParent(d.entries, all, x, k);
    DeleteResultSpec(d, all);
    var r := DeleteResult(d, all);
    assert r.entries[k] == DetachedRecord(d.entries, all, k);
  }

  /** `_add_new_object(hint, t)`: a root record under `t + "_" + len(objects)` with a fresh name. */
  function AddResult(d: Store, hint: string, objType: string): (r: Store)
    requires StoreValid(d)
    ensures StoreValid(r)
  {
    var id := NewObjectId(objType, |d.keys|);
    Put(d, id, NewRecord(id, FreshName(UsedNames(d.entries), hint), objType, None, []))
  }

  /**
   * The added record is a root without children whose name is the hint, or
   * `hint_NN` with the smallest free counter, and no other record in the whole
   * store has that name. Every other record is unchanged; a colliding id keeps
   * its place in the order and its old record is replaced.
   */
  lemma AddSpec(d: Store, hint: string, objType: string)
    requires StoreValid(d)
    ensures var id := NewObjectId(objType, |d.keys|); var r := AddResult(d, hint, objType);
      && id in r.entries
      && r.entries[id].objType == objType && IsRoot(r.entries[id]) && r.entries[id].children == []
      && !r.entries[id].selected && !r.entries[id].renaming
      && (hint !in UsedNames(d.entries) ==> r.entries[id].name == hint)
      && (hint in UsedNames(d.entries) ==> exists c :: c >= 1 && r.entries[id].name == Suffixed(hint, c))
      && (forall k :: k in r.entries && k != id ==> r.entries[k] == d.entries[k] && r.entries[k].name != r.entries[id].name)
      && (id in d.entries ==> r.keys == d.keys)
      && (id !in d.entries ==> r.keys == d.keys + [id])
  {
    var used := UsedNames(d.entries);
    var name := FreshName(used, hint);
    forall k | k in d.entries ensures d.entries[k].name != name {
      assert d.entries[k].name in used;
    }
  }

  /** The added record is in `selected_ids` but its own flag stays false. */
  lemma AddLeavesFlagUnset(d: Store, hint: string, objType: string)
    requires StoreValid(d)
    ensures var id := NewObjectId(objType, |d.keys|);
      !FlagsAgreeOn(AddResult(d, hint, objType).entries, {id})
  {
    var id := NewObjectId(objType, |d.keys|);
    var r := AddResult(d, hint, objType);
    assert id in r.entries && !r.entries[id].selected;
  }

  /**
   * Adding replaces `selected_ids` but clears no flag: a record flagged before
   * the add, other than one the new record replaces, keeps its flag although
   * it has left the selection.
   */
  lemma AddKeepsOldFlags(d: Store, hint: string, objType: string, x: Id)
    requires StoreValid(d) && x in d.entries && d.entries[x].selected
    requires x != NewObjectId(objType, |d.keys|)
    ensures var r := AddResult(d, hint, objType).entries;
      x in r && r[x].selected && x !in {NewObjectId(objType, |d.keys|)}
  {
    AddSpec(d, hint, objType);
  }

  // ---------------------------------------------------------------------
  // Notification of the properties panel.

  /** Selecting any outline record never resets the panel: its kind is always in the defaults table. */
  lemma NotifyKeepsName(objType: string, name: string)
    ensures var s := Properties.SelectFor(PropertiesKind(objType), name);
      s.objType == PropertiesKind(objType) && s.name == name
      && s.properties == Properties.ObjectProperties()[PropertiesKind(objType)]
  {
  }

  /** A selected group shows the mesh properties under its own name. */
  lemma GroupShowsAsMesh(name: string)
    ensures Properties.SelectFor(PropertiesKind(GROUP), name)
         == Properties.Selection("mesh", name, Properties.ObjectProperties()["mesh"])
  {
  }

  // ---------------------------------------------------------------------
  // The three passes of `_perform_delete`.

  /** The first pass: every target together with all of its descendants. */
  method CollectRemovalSet(e: map<Id, Record>, targets: set<Id>) returns (all: set<Id>)
    requires AcyclicFromEach(e, targets)
    ensures all == RemovalSet(e, targets)
  {
    all := {};
    var rest := targets;
    ghost var done: set<Id> := {};
    while rest != {}
      invariant done + rest == targets && done * rest == {}
      invariant all == RemovalSet(e, done)
      decreases rest
    {
      var t :| t in rest;
      RemovalSetAdd(e, done, t);
      all := all + {t} + AllChildrenIds(e, t);
      rest := rest - {t};
      done := done + {t};
    }
  }

  /** One round of the second pass: `parent.children.remove(x)` when the parent is found and lists `x`. */
  method DetachFromParent(e: map<Id, Record>, x: Id) returns (r: map<Id, Record>)
    ensures r == DetachOne(e, x)
  {
    r := e;
    if x in e && !IsRoot(e[x]) {
      var p := e[x].parentId.value;
      if p in e && x in e[p].children {
        r := e[p := e[p].(children := RemoveFirst(e[p].children, x))];
      }
    }
  }

  /** The second pass: each removed id leaves its parent's child list, when that parent is found. */
  method DetachAll(e0: map<Id, Record>, all: set<Id>) returns (e: map<Id, Record>)
    ensures e == Detached(e0, all)
  {
    e := e0;
    DetachedNothing(e0);
    var rest := all;
    ghost var done: set<Id> := {};
    while rest != {}
      invariant done + rest == all && done * rest == {}
      invariant e == Detached(e0, done)
      decreases rest
    {
      var x :| x in rest;
      DetachStep(e0, done, x);
      e := DetachFromParent(e, x);
      rest := rest - {x};
      done := done + {x};
    }
  }

  /** The third pass: `del objects[x]` for every removed id still present. */
  method DeleteAll(d0: Store, all: set<Id>) returns (d: Store)
    requires OrderedDict.Valid(d0)
    ensures d == RemoveKeys(d0, all)
  {
    d := d0;
    RemoveNothing(d0);
    var rest := all;
    ghost var done: set<Id> := {};
    while rest != {}
      invariant done + rest == all && done * rest == {}
      invariant d == RemoveKeys(d0, done)
      decreases rest
    {
      var x :| x in rest;
      ghost var before := d;
      if x in d.entries {
        d := Delete(d, x);
      }
      DeleteOneMore(d0, done, x);
      assert before == RemoveKeys(d0, done);
      rest := rest - {x};
      done := done + {x};
    }
  }

  // ---------------------------------------------------------------------
  // The state object.

  /** The flag loop of `_handle_object_selection`, over a set of ids in whatever order. */
  method FlagAll(e0: map<Id, Record>, ids: set<Id>, flag: bool) returns (e: map<Id, Record>)
    ensures e == WithSelected(e0, ids, flag)
  {
    e := e0;
    WithSelectedNothing(e0, flag);
    var rest := ids;
    ghost var done: set<Id> := {};
    while rest != {}
      invariant done + rest == ids && done * rest == {}
      invariant e == WithSelected(e0, done, flag)
      decreases rest
    {
      var x :| x in rest;
      WithSelectedStep(e0, done, flag, x);
      if x in e {
        e := e[x := e[x].(selected := flag)];
      }
      rest := rest - {x};
      done := done + {x};
    }
  }

  /** The loop of `_init_sample_data` over `objects.values()`, in dict order. */
  method ClearFlagsInOrder(d: Store) returns (e: map<Id, Record>)
    requires StoreValid(d)
    ensures e == WithSelected(d.entries, d.entries.Keys, false)
  {
    e := d.entries;
    WithSelectedNothing(d.entries, false);
    ghost var done: set<Id> := {};
    var i := 0;
    while i < |d.keys|
      invariant 0 <= i <= |d.keys|
      invariant forall k :: k in done <==> k in d.keys[..i]
      invariant e == WithSelected(d.entries, done, false)
    {
      var k := d.keys[i];
      WithSelectedStep(d.entries, done, false, k);
      assert d.keys[..i + 1] == d.keys[..i] + [k];
      if k in e {
        e := e[k := e[k].(selected := false)];
      }
      done := done + {k};
      i := i + 1;
    }
    assert d.keys[..i] == d.keys;
    assert done == d.entries.Keys;
  }

  /** The counting loop of `_prepare_delete_confirmation`. */
  method CountGroups(e: map<Id, Record>, ts: seq<Id>) returns (n: nat)
    requires forall t :: t in ts ==> t in e
    ensures n == GroupCount(e, ts)
  {
    n := 0;
    var i := 0;
    while i < |ts|
      invariant 0 <= i <= |ts|
      invariant n == GroupCount(e, ts[..i])
    {
      GroupCountStep(e, ts, i);
      if e[ts[i]].objType == GROUP {
        n := n + 1;
      }
      i := i + 1;
    }
    assert ts[..i] == ts;
  }

  /** The name loop of `_add_new_object`: try the hint, then `hint_01`, `hint_02`, ... until no record has it. */
  method PickFreshName(e: map<Id, Record>, hint: string) returns (name: string)
    ensures name == FreshName(UsedNames(e), hint)
  {
    ghost var used := UsedNames(e);
    name := hint;
    var counter := 1;
    while exists k :: k in e && e[k].name == name
      invariant counter >= 1
      invariant counter == 1 ==> name == hint
      invariant counter > 1 ==> hint in used && name == Suffixed(hint, counter - 1)
      invariant forall j :: 1 <= j < counter - 1 ==> Suffixed(hint, j) in used
      decreases |used| + 2 - counter
    {
      var k :| k in e && e[k].name == name;
      assert name in used;
      if counter > 1 {
        TriedNamesCount(used, hint, counter - 1);
      }
      name := Suffixed(hint, counter);
      counter := counter + 1;
    }
    assert name !in used;
    if counter > 1 {
      FirstFreeIs(used, hint, 1, counter - 1);
    }
  }

  class OutlineState {
    var objects: Store
    var selectedIds: set<Id>
    var searchText: string
    var showDeleteConfirm: bool
    var deleteTargetIds: set<Id>
    var deleteTargetName: string

    ghost predicate Valid()
      reads this
    {
      StoreValid(objects)
    }

    ghost predicate FlagsAgree()
      reads this
    {
      FlagsAgreeOn(objects.entries, selectedIds)
    }

    /** `OutlineState()`: load the sample, clear the selection and every flag. */
    constructor ()
      ensures Valid() && FlagsAgree()
      ensures var loaded := LoadOutlineFromJson(Parsed(SampleDocument));
        objects == Dict(loaded.keys, WithSelected(loaded.entries, loaded.entries.Keys, false))
      ensures selectedIds == {} && searchText == ""
      ensures !showDeleteConfirm && deleteTargetIds == {} && deleteTargetName == ""
    {
      var loaded := LoadOutlineFromJson(Parsed(SampleDocument));
      var entries := ClearFlagsInOrder(loaded);
      objects := Dict(loaded.keys, entries);
      selectedIds := {};
      searchText := "";
      showDeleteConfirm := false;
      deleteTargetIds := {};
      deleteTargetName := "";
      new;
      WithSelectedFacts(loaded.entries, loaded.entries.Keys, false);
    }

    /** `objects[k].selected = flag` for every present `k` of `ids`. */
    method SetFlags(ids: set<Id>, flag: bool)
      requires Valid()
      modifies this
      ensures Valid()
      ensures objects == Dict(old(objects.keys), WithSelected(old(objects.entries), ids, flag))
      ensures selectedIds == old(selectedIds) && searchText == old(searchText)
      ensures showDeleteConfirm == old(showDeleteConfirm) && deleteTargetIds == old(deleteTargetIds)
      ensures deleteTargetName == old(deleteTargetName)
    {
      var e := FlagAll(objects.entries, ids, flag);
      WithSelectedFacts(objects.entries, ids, flag);
      objects := Dict(objects.keys, e);
    }

    /**
     * `_handle_object_selection`: a selected id leaves the selection together
     * with all its descendants and the panel is cleared; an unselected id
     * becomes the whole selection, the old selection's flags are cleared, and
     * the panel shows the record's mapped kind and name.
     */
    method HandleObjectSelection(id: Id, panel: Properties.PropertiesPanel)
      requires Valid() && id in objects.entries
      requires id in selectedIds ==> AcyclicFrom(objects.entries, id)
      modifies this, panel
      ensures Valid()
      ensures FlagsAgreeOn(old(objects.entries), old(selectedIds)) ==> FlagsAgreeOn(objects.entries, selectedIds)
      ensures objects.keys == old(objects.keys)
      ensures old(id in selectedIds) ==>
        var gone := AllChildrenIds(old(objects.entries), id) + {id};
        && selectedIds == old(selectedIds) - gone
        && objects.entries == WithSelected(old(objects.entries), gone, false)
      ensures old(id !in selectedIds) ==>
        var c := WithSelected(old(objects.entries), old(selectedIds), false);
        && selectedIds == {id}
        && objects.entries == c[id := c[id].(selected := true)]
      ensures old(id in selectedIds) ==> panel.Current() == Properties.NoSelection
      ensures old(id !in selectedIds) ==>
        panel.Current() == Properties.SelectFor(PropertiesKind(old(objects.entries[id].objType)), old(objects.entries[id].name))
      ensures searchText == old(searchText) && showDeleteConfirm == old(showDeleteConfirm)
      ensures deleteTargetIds == old(deleteTargetIds) && deleteTargetName == old(deleteTargetName)
    {
      if id in selectedIds {
        Deselect(id);
        panel.SelectObject(Properties.NONE, "");
      } else {
        var obj := objects.entries[id];
        SelectOnly(id);
        panel.SelectObject(PropertiesKind(obj.objType), obj.name);
      }
    }

    /** The deselect branch: the object and its descendants leave the selection. */
    method Deselect(id: Id)
      requires Valid() && id in objects.entries && AcyclicFrom(objects.entries, id)
      modifies this
      ensures Valid()
      ensures FlagsAgreeOn(old(objects.entries), old(selectedIds)) ==> FlagsAgreeOn(objects.entries, selectedIds)
      ensures objects.keys == old(objects.keys)
      ensures var gone := AllChildrenIds(old(objects.entries), id) + {id};
        && selectedIds == old(selectedIds) - gone
        && objects.entries == WithSelected(old(objects.entries), gone, false)
      ensures searchText == old(searchText) && showDeleteConfirm == old(showDeleteConfirm)
      ensures deleteTargetIds == old(deleteTargetIds) && deleteTargetName == old(deleteTargetName)
    {
      var gone := AllChildrenIds(objects.entries, id) + {id};
      if FlagsAgree() {
        DeselectKeepsFlagsAgree(objects.entries, selectedIds, gone);
      }
      selectedIds := selectedIds - gone;
      SetFlags(gone, false);
    }

    /** The select branch: the old selection is cleared and only `id` is selected. */
    method SelectOnly(id: Id)
      requires Valid() && id in objects.entries
      modifies this
      ensures Valid()
      ensures FlagsAgreeOn(old(objects.entries), old(selectedIds)) ==> FlagsAgreeOn(objects.entries, selectedIds)
      ensures objects.keys == old(objects.keys)
      ensures var c := WithSelected(old(objects.entries), old(selectedIds), false);
        && selectedIds == {id}
        && objects.entries == c[id := c[id].(selected := true)]
      ensures searchText == old(searchText) && showDeleteConfirm == old(showDeleteConfirm)
      ensures deleteTargetIds == old(deleteTargetIds) && deleteTargetName == old(deleteTargetName)
    {
      SelectKeepsFlagsAgree(objects.entries, selectedIds, id);
      SelectedStoreValid(objects, selectedIds, id);
      SetFlags(selectedIds, false);
      selectedIds := {id};
      var obj := objects.entries[id].(selected := true);
      objects := objects.(entries := objects.entries[id := obj]);
    }

    /** `search_text` as the search box leaves it. */
    method SetSearchText(text: string)
      modifies this
      ensures searchText == text
      ensures objects == old(objects) && selectedIds == old(selectedIds)
      ensures showDeleteConfirm == old(showDeleteConfirm) && deleteTargetIds == old(deleteTargetIds)
      ensures deleteTargetName == old(deleteTargetName)
    {
      searchText := text;
    }

    /** `_get_filtered_objects`: the matching ids in store order. */
    method GetFilteredObjects() returns (r: seq<Id>)
      requires Valid()
      ensures r == Filtered(objects.keys, objects.entries, searchText)
    {
      var searchLower := LowerStr(searchText);
      r := [];
      var i := 0;
      while i < |objects.keys|
        invariant 0 <= i <= |objects.keys|
        invariant r == Filtered(objects.keys[..i], objects.entries, searchText)
      {
        var k := objects.keys[i];
        assert objects.keys[..i + 1][..i] == objects.keys[..i];
        if Contains(searchLower, LowerStr(objects.entries[k].name)) {
          r := r + [k];
        }
        i := i + 1;
      }
      assert objects.keys[..i] == objects.keys;
    }

    /** The rename button: enter rename mode with the current name in the edit buffer. */
    method BeginRename(id: Id)
      requires Valid() && id in objects.entries
      modifies this
      ensures Valid()
      ensures objects == old(objects).(entries := old(objects.entries)[id :=
        old(objects.entries[id]).(renaming := true, tempName := old(objects.entries[id].name))])
      ensures selectedIds == old(selectedIds) && searchText == old(searchText)
      ensures showDeleteConfirm == old(showDeleteConfirm) && deleteTargetIds == old(deleteTargetIds)
      ensures deleteTargetName == old(deleteTargetName)
    {
      var obj := objects.entries[id];
      objects := objects.(entries := objects.entries[id := obj.(renaming := true, tempName := obj.name)]);
    }

    /** The rename text box writes its buffer back into `temp_name`. */
    method EditTempName(id: Id, text: string)
      requires Valid() && id in objects.entries
      modifies this
      ensures Valid()
      ensures objects == old(objects).(entries := old(objects.entries)[id := old(objects.entries[id]).(tempName := text)])
      ensures selectedIds == old(selectedIds) && searchText == old(searchText)
      ensures showDeleteConfirm == old(showDeleteConfirm) && deleteTargetIds == old(deleteTargetIds)
      ensures deleteTargetName == old(deleteTargetName)
    {
      var obj := objects.entries[id];
      objects := objects.(entries := objects.entries[id := obj.(tempName := text)]);
    }

    /**
     * The confirm button or Enter: the buffer becomes the name, and rename mode
     * ends, exactly when `_can_rename_to` accepts the buffer; otherwise nothing changes.
     */
    method CommitRename(id: Id) returns (renamed: bool)
      requires Valid() && id in objects.entries && SiblingsLive(objects.entries, objects.entries[id])
      modifies this
      ensures Valid()
      ensures renamed == CanRenameTo(old(objects), old(objects.entries[id]), old(objects.entries[id].tempName))
      ensures renamed ==> objects == old(objects).(entries := old(objects.entries)[id :=
        old(objects.entries[id]).(name := old(objects.entries[id].tempName), renaming := false)])
      ensures !renamed ==> objects == old(objects)
      ensures selectedIds == old(selectedIds) && searchText == old(searchText)
      ensures showDeleteConfirm == old(showDeleteConfirm) && deleteTargetIds == old(deleteTargetIds)
      ensures deleteTargetName == old(deleteTargetName)
    {
      var obj := objects.entries[id];
      renamed := CanRenameTo(objects, obj, obj.tempName);
      if renamed {
        objects := objects.(entries := objects.entries[id := obj.(name := obj.tempName, renaming := false)]);
      }
    }

    /** Escape: rename mode ends and the name is left as it was. */
    method CancelRename(id: Id)
      requires Valid() && id in objects.entries
      modifies this
      ensures Valid()
      ensures objects == old(objects).(entries := old(objects.entries)[id := old(objects.entries[id]).(renaming := false)])
      ensures objects.entries[id].name == old(objects.entries[id].name)
      ensures selectedIds == old(selectedIds) && searchText == old(searchText)
      ensures showDeleteConfirm == old(showDeleteConfirm) && deleteTargetIds == old(deleteTargetIds)
      ensures deleteTargetName == old(deleteTargetName)
    {
      var obj := objects.entries[id];
      objects := objects.(entries := objects.entries[id := obj.(renaming := false)]);
    }

    /** `_prepare_delete_confirmation`: remember the targets, word the message, raise the flag. */
    method PrepareDeleteConfirmation(targets: seq<Id>)
      requires TargetsLive(objects.entries, targets)
      modifies this
      ensures deleteTargetIds == set t | t in targets
      ensures deleteTargetName == SummaryText(Summarize(old(objects.entries), targets))
      ensures showDeleteConfirm
      ensures objects == old(objects) && selectedIds == old(selectedIds) && searchText == old(searchText)
    {
      ghost var summary := Summarize(objects.entries, targets);
      deleteTargetIds := set t | t in targets;
      if |targets| == 1 {
        var obj := objects.entries[targets[0]];
        if obj.objType == GROUP {
          assert summary == SingleGroup(obj.name);
          deleteTargetName := "组合 " + obj.name;
        } else {
          assert summary == SingleObject(obj.name);
          deleteTargetName := "对象 " + obj.name;
        }
      } else {
        var groupCount := CountGroups(objects.entries, targets);
        var otherCount := |targets| - groupCount;
        if groupCount > 0 && otherCount > 0 {
          assert summary == GroupsAndOthers(groupCount);
          deleteTargetName := "所有选中项和 " + NatToString(groupCount) + " 个组合";
        } else if groupCount > 0 {
          assert summary == OnlyGroups(groupCount);
          deleteTargetName := NatToString(groupCount) + " 个组合";
        } else {
          assert summary == OnlyObjects(otherCount);
          deleteTargetName := NatToString(otherCount) + " 个对象";
        }
      }
      showDeleteConfirm := true;
    }

    /**
     * `_perform_delete`: collect the targets and their descendants, detach each
     * from its parent's list where the parent is found, delete them, and drop
     * them from the selection.
     */
    method PerformDelete()
      requires Valid() && AcyclicFromEach(objects.entries, deleteTargetIds)
      modifies this
      ensures Valid()
      ensures var all := RemovalSet(old(objects.entries), old(deleteTargetIds));
        objects == DeleteResult(old(objects), all) && selectedIds == old(selectedIds) - all
      ensures searchText == old(searchText) && showDeleteConfirm == old(showDeleteConfirm)
      ensures deleteTargetIds == old(deleteTargetIds) && deleteTargetName == old(deleteTargetName)
    {
      var all := CollectRemovalSet(objects.entries, deleteTargetIds);
      var detached := DetachAll(objects.entries, all);
      var d := DeleteAll(Dict(objects.keys, detached), all);
      assert d == DeleteResult(old(objects), all);
      objects := d;
      selectedIds := selectedIds - all;
    }

    /** The dialog's delete button: only while the confirmation is up; the targets are kept. */
    method ConfirmDelete()
      requires Valid() && (showDeleteConfirm ==> AcyclicFromEach(objects.entries, deleteTargetIds))
      modifies this
      ensures Valid()
      ensures !old(showDeleteConfirm) ==> objects == old(objects) && selectedIds == old(selectedIds) && !showDeleteConfirm
      ensures old(showDeleteConfirm) ==>
        var all := RemovalSet(old(objects.entries), old(deleteTargetIds));
        objects == DeleteResult(old(objects), all) && selectedIds == old(selectedIds) - all && !showDeleteConfirm
      ensures searchText == old(searchText) && deleteTargetIds == old(deleteTargetIds)
      ensures deleteTargetName == old(deleteTargetName)
    {
      if showDeleteConfirm {
        PerformDelete();
        showDeleteConfirm := false;
      }
    }

    /** The dialog's cancel button: the flag drops, nothing else changes (the targets are kept). */
    method CancelDelete()
      modifies this
      ensures !showDeleteConfirm
      ensures objects == old(objects) && selectedIds == old(selectedIds) && searchText == old(searchText)
      ensures deleteTargetIds == old(deleteTargetIds) && deleteTargetName == old(deleteTargetName)
    {
      showDeleteConfirm := false;
    }

    /** `_add_new_object`: the id from the record count, the first free name, and the new record selected alone. */
    method AddNewObject(hint: string, objType: string)
      requires Valid()
      modifies this
      ensures Valid()
      ensures objects == AddResult(old(objects), hint, objType)
      ensures selectedIds == {NewObjectId(objType, |old(objects.keys)|)}
      ensures searchText == old(searchText) && showDeleteConfirm == old(showDeleteConfirm)
      ensures deleteTargetIds == old(deleteTargetIds) && deleteTargetName == old(deleteTargetName)
    {
      var id := objType + "_" + NatToString(|objects.keys|);
      var name := PickFreshName(objects.entries, hint);
      objects := Put(objects, id, NewRecord(id, name, objType, None, []));
      selectedIds := {id};
    }

    /** `get_selected_object_ids`: the selection as a list without repeats. */
    method GetSelectedObjectIds() returns (r: seq<Id>)
      ensures forall x :: x in r <==> x in selectedIds
      ensures Distinct(r)
    {
      r := [];
      var rest := selectedIds;
      while rest != {}
        invariant rest <= selectedIds
        invariant forall x :: x in r <==> x in selectedIds && x !in rest
        invariant Distinct(r)
        decreases rest
      {
        var x :| x in rest;
        r := r + [x];
        rest := rest - {x};
      }
    }

    /** `get_object_name`: the name of a present id, otherwise nothing. */
    function GetObjectName(id: Id): (r: Option<string>)
      reads this
      ensures r.Some? <==> id in objects.entries
      ensures r.Some? ==> r.value == objects.entries[id].name
    {
      if id in objects.entries then Some(objects.entries[id].name) else None
    }

    /** `get_object_type`: the type of a present id, otherwise nothing. */
    function GetObjectType(id: Id): (r: Option<string>)
      reads this
      ensures r.Some? <==> id in objects.entries
      ensures r.Some? ==> r.value == objects.entries[id].objType
    {
      if id in objects.entries then Some(objects.entries[id].objType) else None
    }
  }
}
