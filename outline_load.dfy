/**
 * Bulk load of the outline from an already parsed nested tree. Each node is
 * visited before it is stored: its children are processed (and stored) first,
 * then the node itself is stored under the id `type + "_" + name`, so a later
 * node with the same type and name overwrites an earlier one in place.
 */
module OutlineLoad {
  import opened Wrappers
  import opened OrderedDict
  import opened OutlineRecords

  /** One `{name, type, children}` object of the input; absent `children` is the empty sequence. */
  datatype Node = Node(name: string, objType: string, children: seq<Node>)

  /** The top-level `{objects: [...]}`; an absent `objects` key is the empty sequence. */
  datatype Document = Document(objects: seq<Node>)

  /** What the JSON decoder produced: a document, or a decode error. */
  datatype JsonInput = Parsed(document: Document) | DecodeError

  /** The id `f"{type}_{name}"`: the type, an underscore, then the name. */
  function NodeId(n: Node): (r: Id)
    ensures |r| == |n.objType| + 1 + |n.name|
    ensures r[..|n.objType|] == n.objType && r[|n.objType|] == '_' && r[|n.objType| + 1..] == n.name
  {
    n.objType + "_" + n.name
  }

  function ChildIds(ns: seq<Node>): (r: seq<Id>)
    ensures |r| == |ns|
    ensures forall i :: 0 <= i < |ns| ==> r[i] == NodeId(ns[i])
  {
    if ns == [] then [] else [NodeId(ns[0])] + ChildIds(ns[1..])
  }

  /** The record built for node `n` whose parent's name is `parent`. */
  function RecordFor(n: Node, parent: Option<string>): Record
  {
    NewRecord(NodeId(n), n.name, n.objType, parent, ChildIds(n.children))
  }

  /** `process_object`: store the children, then the node itself. */
  function ProcessObject(d: Store, n: Node, parent: Option<string>): (r: Store)
    requires StoreValid(d)
    ensures StoreValid(r)
    ensures d.entries.Keys <= r.entries.Keys
    ensures NodeId(n) in r.entries && r.entries[NodeId(n)] == RecordFor(n, parent)
    ensures forall i :: 0 <= i < |n.children| ==> NodeId(n.children[i]) in r.entries
    decreases n
  {
    var d' := ProcessAll(d, n.children, Some(n.name));
    Put(d', NodeId(n), RecordFor(n, parent))
  }

  /** `process_object` over a list of siblings, in order. */
  function ProcessAll(d: Store, ns: seq<Node>, parent: Option<string>): (r: Store)
    requires StoreValid(d)
    ensures StoreValid(r)
    ensures d.entries.Keys <= r.entries.Keys
    ensures forall i :: 0 <= i < |ns| ==> NodeId(ns[i]) in r.entries
    ensures ns != [] ==> r.entries[NodeId(ns[|ns| - 1])] == RecordFor(ns[|ns| - 1], parent)
    decreases ns
  {
    if ns == [] then d else ProcessAll(ProcessObject(d, ns[0], parent), ns[1..], parent)
  }

  /** `create_outline_from_dict`. */
  function CreateOutlineFromDict(doc: Document): (r: Store)
    ensures StoreValid(r)
  {
    ProcessAll(Empty(), doc.objects, None)
  }

  /** `load_outline_from_json`: a decode error yields an empty store. */
  function LoadOutlineFromJson(input: JsonInput): (r: Store)
    ensures StoreValid(r)
    ensures input.DecodeError? ==> r.keys == [] && r.entries == map[]
    ensures input.Parsed? ==> r == CreateOutlineFromDict(input.document)
  {
    match input
    case DecodeError => Empty()
    case Parsed(doc) => CreateOutlineFromDict(doc)
  }

  // ---------------------------------------------------------------------
  // Reference definition: the records the loader produces, in the order it
  // stores them, and the store they fold into.

  function Flatten(n: Node, parent: Option<string>): seq<Record>
    decreases n
  {
    FlattenAll(n.children, Some(n.name)) + [RecordFor(n, parent)]
  }

  function FlattenAll(ns: seq<Node>, parent: Option<string>): seq<Record>
    decreases ns
  {
    if ns == [] then [] else Flatten(ns[0], parent) + FlattenAll(ns[1..], parent)
  }

  /** Store each record under its id, one after another. */
  function PutAll(d: Store, rs: seq<Record>): (r: Store)
    requires Valid(d)
    ensures Valid(r)
    decreases |rs|
  {
    if rs == [] then d else PutAll(Put(d, rs[0].id, rs[0]), rs[1..])
  }

  /** The ids of a sequence of records. */
  function IdSet(rs: seq<Record>): set<Id>
  {
    set i | 0 <= i < |rs| :: rs[i].id
  }

  /** `rs[i]` is the last record of `rs` with its id. */
  predicate LastOfItsId(rs: seq<Record>, i: nat)
    requires i < |rs|
  {
    forall j :: i < j < |rs| ==> rs[j].id != rs[i].id
  }

  lemma {:induction false} PutAllAppend(d: Store, a: seq<Record>, b: seq<Record>)
    requires Valid(d)
    ensures PutAll(d, a + b) == PutAll(PutAll(d, a), b)
    decreases |a|
  {
    if a == [] {
      assert a + b == b;
    } else {
      assert (a + b)[1..] == a[1..] + b;
      PutAllAppend(Put(d, a[0].id, a[0]), a[1..], b);
    }
  }

  lemma IdSetCons(rs: seq<Record>)
    requires rs != []
    ensures IdSet(rs) == {rs[0].id} + IdSet(rs[1..])
  {
    var t := rs[1..];
    forall x | x in IdSet(rs) ensures x in {rs[0].id} + IdSet(t) {
      var i :| 0 <= i < |rs| && rs[i].id == x;
      if i > 0 { assert t[i - 1].id == x; }
    }
    forall x | x in IdSet(t) ensures x in IdSet(rs) {
      var i :| 0 <= i < |t| && t[i].id == x;
      assert rs[i + 1].id == x;
    }
  }

  /** Storing a sequence of records adds exactly their ids to the key set and keeps the old order as a prefix. */
  lemma {:induction false} PutAllKeys(d: Store, rs: seq<Record>)
    requires Valid(d)
    ensures PutAll(d, rs).entries.Keys == d.entries.Keys + IdSet(rs)
    ensures d.keys <= PutAll(d, rs).keys
    decreases |rs|
  {
    if rs != [] {
      PutAllKeys(Put(d, rs[0].id, rs[0]), rs[1..]);
      IdSetCons(rs);
    }
  }

  /** A key that no stored record carries keeps its old value. */
  lemma {:induction false} PutAllUntouched(d: Store, rs: seq<Record>, k: Id)
    requires Valid(d) && k in d.entries
    requires forall i :: 0 <= i < |rs| ==> rs[i].id != k
    ensures k in PutAll(d, rs).entries && PutAll(d, rs).entries[k] == d.entries[k]
    decreases |rs|
  {
    if rs != [] {
      assert rs[0].id != k;
      forall i | 0 <= i < |rs[1..]| ensures rs[1..][i].id != k {
        assert rs[1..][i] == rs[i + 1];
      }
      PutAllUntouched(Put(d, rs[0].id, rs[0]), rs[1..], k);
    }
  }

  /** The last record with a given id is the one that ends up stored under it. */
  lemma {:induction false} PutAllLastWins(d: Store, rs: seq<Record>, i: nat)
    requires Valid(d) && i < |rs| && LastOfItsId(rs, i)
    ensures rs[i].id in PutAll(d, rs).entries && PutAll(d, rs).entries[rs[i].id] == rs[i]
    decreases |rs|
  {
    var d1 := Put(d, rs[0].id, rs[0]);
    var t := rs[1..];
    PutAllKeys(d1, t);
    if i > 0 {
      assert t[i - 1] == rs[i];
      assert LastOfItsId(t, i - 1) by {
        forall j | i - 1 < j < |t| ensures t[j].id != t[i - 1].id {
          assert t[j] == rs[j + 1];
        }
      }
      PutAllLastWins(d1, t, i - 1);
    } else {
      forall j | 0 <= j < |t| ensures t[j].id != rs[0].id {
        assert t[j] == rs[j + 1];
      }
      PutAllUntouched(d1, t, rs[0].id);
    }
  }

  lemma {:induction false} ProcessObjectIsPutAll(d: Store, n: Node, parent: Option<string>)
    requires StoreValid(d)
    ensures ProcessObject(d, n, parent) == PutAll(d, Flatten(n, parent))
    decreases n
  {
    ProcessAllIsPutAll(d, n.children, Some(n.name));
    PutAllAppend(d, FlattenAll(n.children, Some(n.name)), [RecordFor(n, parent)]);
  }

  lemma {:induction false} ProcessAllIsPutAll(d: Store, ns: seq<Node>, parent: Option<string>)
    requires StoreValid(d)
    ensures ProcessAll(d, ns, parent) == PutAll(d, FlattenAll(ns, parent))
    decreases ns
  {
    if ns != [] {
      ProcessObjectIsPutAll(d, ns[0], parent);
      ProcessAllIsPutAll(ProcessObject(d, ns[0], parent), ns[1..], parent);
      PutAllAppend(d, Flatten(ns[0], parent), FlattenAll(ns[1..], parent));
    }
  }
}

module OutlineLoadFacts {
  import opened Wrappers
  import opened OrderedDict
  import opened OutlineRecords
  import opened OutlineLoad

  /** Node `n` occurs in the forest `ns` with parent name `q`; top-level nodes have parent `top`. */
  ghost predicate Occurs(n: Node, q: Option<string>, ns: seq<Node>, top: Option<string>)
    decreases ns
  {
    exists i :: 0 <= i < |ns| && ((ns[i] == n && q == top) || Occurs(n, q, ns[i].children, Some(ns[i].name)))
  }

  lemma OccursTop(n: Node, ns: seq<Node>, top: Option<string>)
    requires n in ns
    ensures Occurs(n, top, ns, top)
  {
    var i :| 0 <= i < |ns| && ns[i] == n;
  }

  lemma {:induction false} OccursChild(n: Node, q: Option<string>, ns: seq<Node>, top: Option<string>, c: Node)
    requires Occurs(n, q, ns, top) && c in n.children
    ensures Occurs(c, Some(n.name), ns, top)
    decreases ns
  {
    var i :| 0 <= i < |ns| && ((ns[i] == n && q == top) || Occurs(n, q, ns[i].children, Some(ns[i].name)));
    if ns[i] == n && q == top {
      OccursTop(c, n.children, Some(n.name));
    } else {
      OccursChild(n, q, ns[i].children, Some(ns[i].name), c);
    }
  }

  lemma {:induction false} FlattenAllHas(ns: seq<Node>, top: Option<string>, i: nat, r: Record)
    requires i < |ns| && r in Flatten(ns[i], top)
    ensures r in FlattenAll(ns, top)
    decreases |ns|
  {
    if i > 0 {
      assert ns[1..][i - 1] == ns[i];
      FlattenAllHas(ns[1..], top, i - 1, r);
    }
  }

  /** Every node of the input contributes its record to the flattened sequence. */
  lemma {:induction false} FlattenComplete(n: Node, q: Option<string>, ns: seq<Node>, top: Option<string>)
    requires Occurs(n, q, ns, top)
    ensures RecordFor(n, q) in FlattenAll(ns, top)
    decreases ns
  {
    var i :| 0 <= i < |ns| && ((ns[i] == n && q == top) || Occurs(n, q, ns[i].children, Some(ns[i].name)));
    if ns[i] == n && q == top {
      FlattenAllHas(ns, top, i, RecordFor(n, q));
    } else {
      FlattenComplete(n, q, ns[i].children, Some(ns[i].name));
      FlattenAllHas(ns, top, i, RecordFor(n, q));
    }
  }

  /** Every flattened record is the record of some node of the input, with that node's parent name. */
  lemma {:induction false} FlattenSound(r: Record, ns: seq<Node>, top: Option<string>)
    requires r in FlattenAll(ns, top)
    ensures exists n, q :: Occurs(n, q, ns, top) && r == RecordFor(n, q)
    decreases ns
  {
    var head := Flatten(ns[0], top);
    if r in head {
      if r == RecordFor(ns[0], top) {
        assert Occurs(ns[0], top, ns, top);
      } else {
        assert r in FlattenAll(ns[0].children, Some(ns[0].name));
        FlattenSound(r, ns[0].children, Some(ns[0].name));
        var n, q :| Occurs(n, q, ns[0].children, Some(ns[0].name)) && r == RecordFor(n, q);
        assert Occurs(n, q, ns, top);
      }
    } else {
      FlattenSound(r, ns[1..], top);
      var n, q :| Occurs(n, q, ns[1..], top) && r == RecordFor(n, q);
      var i :| 0 <= i < |ns[1..]| && ((ns[1..][i] == n && q == top) || Occurs(n, q, ns[1..][i].children, Some(ns[1..][i].name)));
      assert ns[1..][i] == ns[i + 1];
      assert Occurs(n, q, ns, top);
    }
  }

  lemma {:induction false} LastOfIdExists(rs: seq<Record>, i: nat)
    requires i < |rs|
    ensures exists j :: i <= j < |rs| && rs[j].id == rs[i].id && LastOfItsId(rs, j)
    decreases |rs| - i
  {
    if !LastOfItsId(rs, i) {
      var j :| i < j < |rs| && rs[j].id == rs[i].id;
      LastOfIdExists(rs, j);
    }
  }

  /**
   * What the loader stores: exactly one record per distinct id of the input,
   * keyed by `type + "_" + name`; each stored record is the record of an input
   * node (name, type, parent name, ids of its children in input order), namely
   * of the last node, in processing order, that has that id.
   */
  lemma LoadSpec(doc: Document)
    ensures var d := CreateOutlineFromDict(doc);
      && (forall k :: k in d.entries ==> k == d.entries[k].objType + "_" + d.entries[k].name)
      && (forall k :: k in d.entries ==>
            exists n, q :: Occurs(n, q, doc.objects, None) && d.entries[k] == RecordFor(n, q))
      && (forall n, q :: Occurs(n, q, doc.objects, None) ==> NodeId(n) in d.entries)
      && (var rs := FlattenAll(doc.objects, None);
          forall i :: 0 <= i < |rs| && LastOfItsId(rs, i) ==> rs[i].id in d.entries && d.entries[rs[i].id] == rs[i])
  {
    LoadLastWins(doc);
    LoadSound(doc);
    LoadComplete(doc);
  }

  /** The last record of each id in the flattened input is the one stored. */
  lemma LoadLastWins(doc: Document)
    ensures var d := CreateOutlineFromDict(doc);
      var rs := FlattenAll(doc.objects, None);
      forall i :: 0 <= i < |rs| && LastOfItsId(rs, i) ==> rs[i].id in d.entries && d.entries[rs[i].id] == rs[i]
  {
    var d := CreateOutlineFromDict(doc);
    var rs := FlattenAll(doc.objects, None);
    ProcessAllIsPutAll(Empty(), doc.objects, None);
    forall i | 0 <= i < |rs| && LastOfItsId(rs, i) ensures rs[i].id in d.entries && d.entries[rs[i].id] == rs[i] {
      PutAllLastWins(Empty(), rs, i);
    }
  }

  /** Every stored record is the record of some input node, under that node's id. */
  lemma LoadSound(doc: Document)
    ensures var d := CreateOutlineFromDict(doc);
      && (forall k :: k in d.entries ==> k == d.entries[k].objType + "_" + d.entries[k].name)
      && (forall k :: k in d.entries ==>
            exists n, q :: Occurs(n, q, doc.objects, None) && d.entries[k] == RecordFor(n, q))
  {
    var d := CreateOutlineFromDict(doc);
    var rs := FlattenAll(doc.objects, None);
    ProcessAllIsPutAll(Empty(), doc.objects, None);
    PutAllKeys(Empty(), rs);
    forall k | k in d.entries
      ensures exists n, q :: Occurs(n, q, doc.objects, None) && d.entries[k] == RecordFor(n, q)
    {
      var i :| 0 <= i < |rs| && rs[i].id == k;
      LastOfIdExists(rs, i);
      var j :| i <= j < |rs| && rs[j].id == k && LastOfItsId(rs, j);
      PutAllLastWins(Empty(), rs, j);
      FlattenSound(rs[j], doc.objects, None);
    }
  }

  /** Every input node's id is stored. */
  lemma LoadComplete(doc: Document)
    ensures var d := CreateOutlineFromDict(doc);
      forall n, q :: Occurs(n, q, doc.objects, None) ==> NodeId(n) in d.entries
  {
    var d := CreateOutlineFromDict(doc);
    var rs := FlattenAll(doc.objects, None);
    ProcessAllIsPutAll(Empty(), doc.objects, None);
    PutAllKeys(Empty(), rs);
    forall n, q | Occurs(n, q, doc.objects, None) ensures NodeId(n) in d.entries {
      FlattenComplete(n, q, doc.objects, None);
      var i :| 0 <= i < |rs| && rs[i] == RecordFor(n, q);
      assert rs[i].id in IdSet(rs);
    }
  }

  /** No two nodes of the input share a type and a name (so nothing is overwritten). */
  ghost predicate NoIdCollisions(doc: Document)
  {
    var rs := FlattenAll(doc.objects, None);
    forall i, j :: 0 <= i < j < |rs| ==> rs[i].id != rs[j].id
  }

  /** Two ids `type_name` are equal only for equal types and names, when no type holds an underscore. */
  lemma NodeIdInjective(a: Node, b: Node)
    requires '_' !in a.objType && '_' !in b.objType
    requires NodeId(a) == NodeId(b)
    ensures a.objType == b.objType && a.name == b.name
  {
    var s := NodeId(a);
    JoinedAt(a.objType, a.name);
    JoinedAt(b.objType, b.name);
    assert |a.objType| == |b.objType|;
    assert a.objType == s[..|a.objType|] == b.objType;
    assert a.name == s[|a.objType| + 1..] == b.name;
  }

  /** The characters of `t + "_" + n` up to and including the underscore. */
  lemma JoinedAt(t: string, n: string)
    ensures (t + "_" + n)[|t|] == '_'
    ensures forall i :: 0 <= i < |t| ==> (t + "_" + n)[i] == t[i]
  {
  }

  /** Nodes without children flatten to their own records, in order. */
  lemma {:induction false} FlattenLeaves(ns: seq<Node>, p: Option<string>)
    requires forall i :: 0 <= i < |ns| ==> ns[i].children == []
    ensures |FlattenAll(ns, p)| == |ns|
    ensures forall i :: 0 <= i < |ns| ==> FlattenAll(ns, p)[i] == RecordFor(ns[i], p)
  {
    if ns != [] {
      FlattenLeaves(ns[1..], p);
      assert Flatten(ns[0], p) == [RecordFor(ns[0], p)];
    }
  }

  /** Flattening a forest of two or more nodes, with the first two taken apart. */
  lemma FlattenTwo(ns: seq<Node>, p: Option<string>)
    requires |ns| >= 2
    ensures FlattenAll(ns, p) == Flatten(ns[0], p) + (Flatten(ns[1], p) + FlattenAll(ns[2..], p))
  {
    assert ns[1..][1..] == ns[2..];
  }

  /**
   * Without id collisions every input node is stored as it was read: top-level
   * nodes have no parent, every other node has its parent's NAME as parent id,
   * and each record lists the ids of its input children in input order.
   */
  lemma LoadWithoutCollisions(doc: Document, n: Node, q: Option<string>)
    requires NoIdCollisions(doc) && Occurs(n, q, doc.objects, None)
    ensures var d := CreateOutlineFromDict(doc);
      && NodeId(n) in d.entries
      && d.entries[NodeId(n)].name == n.name && d.entries[NodeId(n)].objType == n.objType
      && d.entries[NodeId(n)].parentId == q
      && d.entries[NodeId(n)].children == ChildIds(n.children)
      && (n in doc.objects ==> d.entries[NodeId(n)].parentId == None)
      && (forall c :: c in n.children ==> NodeId(c) in d.entries && d.entries[NodeId(c)].parentId == Some(n.name))
  {
    var d := CreateOutlineFromDict(doc);
    var rs := FlattenAll(doc.objects, None);
    LoadLastWins(doc);
    LoadComplete(doc);
    forall m, p | Occurs(m, p, doc.objects, None) ensures d.entries[NodeId(m)] == RecordFor(m, p) {
      FlattenComplete(m, p, doc.objects, None);
      var i :| 0 <= i < |rs| && rs[i] == RecordFor(m, p);
      assert LastOfItsId(rs, i);
    }
    if n in doc.objects {
      OccursTop(n, doc.objects, None);
    }
    forall c | c in n.children ensures NodeId(c) in d.entries && d.entries[NodeId(c)].parentId == Some(n.name) {
      OccursChild(n, q, doc.objects, None, c);
    }
  }

  /**
   * The parent id the loader gives a child is the parent's name, which is never
   * the parent's own key (`type + "_" + name` is longer than `name`).
   */
  lemma LoadedParentIdIsNotParentKey(doc: Document, n: Node, q: Option<string>, c: Node)
    requires NoIdCollisions(doc) && Occurs(n, q, doc.objects, None) && c in n.children
    ensures var d := CreateOutlineFromDict(doc);
      NodeId(c) in d.entries && d.entries[NodeId(c)].parentId.Some?
      && d.entries[NodeId(c)].parentId.value != NodeId(n)
  {
    LoadWithoutCollisions(doc, n, q);
    OccursChild(n, q, doc.objects, None, c);
    LoadWithoutCollisions(doc, c, Some(n.name));
  }

  lemma ProcessLeaf(d: Store, name: string, objType: string, parent: Option<string>)
    requires StoreValid(d)
    ensures ProcessObject(d, Node(name, objType, []), parent) ==
      Put(d, objType + "_" + name, NewRecord(objType + "_" + name, name, objType, parent, []))
  {
    assert ProcessAll(d, [], Some(name)) == d;
  }

  /** A leaf `Box` mesh processed into the empty store. */
  lemma ProcessFirstBox()
    ensures var r := ProcessObject(Empty(), Node("Box", "mesh", []), None);
      r.keys == ["mesh_Box"] && "mesh_Box" in r.entries && "mesh_Lid" !in r.entries
  {
    var box := Node("Box", "mesh", []);
    assert NodeId(box) == "mesh_Box";
    assert ProcessAll(Empty(), [], Some("Box")) == Empty();
    assert "mesh_Lid"[5] != "mesh_Box"[5];
  }

  /** A second `Box` mesh whose child is `Lid`, processed where `mesh_Box` is already stored. */
  lemma ProcessSecondBox(d: Store)
    requires StoreValid(d) && "mesh_Box" in d.entries && "mesh_Lid" !in d.entries
    ensures var r := ProcessObject(d, Node("Box", "mesh", [Node("Lid", "mesh", [])]), None);
      r.keys == d.keys + ["mesh_Lid"] && r.entries["mesh_Box"].children == ["mesh_Lid"]
  {
    var lid := Node("Lid", "mesh", []);
    assert NodeId(lid) == "mesh_Lid";
    assert NodeId(Node("Box", "mesh", [lid])) == "mesh_Box";
    assert ChildIds([lid]) == ["mesh_Lid"];
    ProcessLeaf(d, "Lid", "mesh", Some("Box"));
    assert ProcessAll(d, [lid], Some("Box")) == ProcessObject(d, lid, Some("Box"));
  }

  /** Two top-level nodes with the same type and name collapse into one record, the later one. */
  lemma LoadCollisionOverwrites()
    ensures var doc := Document([Node("Box", "mesh", []), Node("Box", "mesh", [Node("Lid", "mesh", [])])]);
      var d := CreateOutlineFromDict(doc);
      && d.keys == ["mesh_Box", "mesh_Lid"]
      && d.entries["mesh_Box"].children == ["mesh_Lid"]
  {
    var box1 := Node("Box", "mesh", []);
    var box2 := Node("Box", "mesh", [Node("Lid", "mesh", [])]);
    var e: Store := Empty();
    ProcessFirstBox();
    var d0 := ProcessObject(e, box1, None);
    ProcessSecondBox(d0);
    assert [box1, box2][1..] == [box2];
    assert ProcessAll(e, [box1, box2], None) == ProcessAll(d0, [box2], None);
  }
}
