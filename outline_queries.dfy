/**
 * The read-only computations of the outline: the flat search filter and its
 * highlight span, the sibling-name check guarding a rename, the name chosen
 * for a new object, and the type map used to notify the properties panel.
 */
module OutlineQueries {
  import opened Wrappers
  import opened Text
  import opened OrderedDict
  import opened OutlineRecords

  // ---------------------------------------------------------------------
  // Search filter (`_get_filtered_objects`) and highlight span.

  /** `search.lower() in name.lower()`. */
  predicate NameMatches(search: string, name: string)
  {
    Contains(LowerStr(search), LowerStr(name))
  }

  /**
   * The ids among `keys` whose record's name matches `search`: exactly the
   * matching ones, in store order, and nothing else (no ancestors are added).
   */
  function Filtered(keys: seq<Id>, e: map<Id, Record>, search: string): (r: seq<Id>)
    requires forall k :: k in keys ==> k in e
    ensures forall x :: x in r <==> x in keys && NameMatches(search, e[x].name)
    ensures IsSubsequence(r, keys)
  {
    if keys == [] then []
    else
      var k := keys[|keys| - 1];
      var front := keys[..|keys| - 1];
      var f := Filtered(front, e, search);
      var r := f + (if NameMatches(search, e[k].name) then [k] else []);
      assert forall x :: x in keys <==> x in front || x == k;
      assert keys[..|keys| - 1] == front;
      assert IsSubsequence(r, keys) by {
        if NameMatches(search, e[k].name) {
          assert r[..|r| - 1] == f && r[|r| - 1] == keys[|keys| - 1];
        } else {
          assert r == f;
        }
      }
      r
  }

  /**
   * The span the outline highlights in `name` for the query `search`: present
   * exactly when the query is non-empty and the name matches it; it is the
   * FIRST place where the name equals the query ignoring case.
   */
  function HighlightSpan(search: string, name: string): (r: Option<(nat, nat)>)
    ensures r.Some? <==> search != "" && NameMatches(search, name)
    ensures r.Some? ==> r.value.0 <= r.value.1 <= |name| && r.value.1 - r.value.0 == |search|
    ensures r.Some? ==> OccursIgnoringCaseAt(search, name, r.value.0)
    ensures r.Some? ==> forall j: nat :: j < r.value.0 ==> !OccursIgnoringCaseAt(search, name, j)
  {
    var q := LowerStr(search);
    var s := LowerStr(name);
    if search != "" && Contains(q, s) then
      var i := IndexOf(q, s).value;
      HighlightAt(search, name, i);
      assert forall j: nat :: j < i ==> !OccursIgnoringCaseAt(search, name, j) by {
        forall j: nat | j < i ensures !OccursIgnoringCaseAt(search, name, j) {
          assert !OccursAt(q, s, j);
          HighlightAt(search, name, j);
        }
      }
      Some((i, i + |search|))
    else
      None
  }

  /** A case-sensitive occurrence in the lower-cased strings is a case-insensitive one in the originals. */
  lemma HighlightAt(search: string, name: string, j: nat)
    ensures OccursAt(LowerStr(search), LowerStr(name), j) <==> OccursIgnoringCaseAt(search, name, j)
  {
    if j + |search| <= |name| {
      LowerStrSlice(name, j, j + |search|);
      LowerStrEqual(name[j..j + |search|], search);
    }
  }

  // ---------------------------------------------------------------------
  // Rename validation (`_can_rename_to`).

  /** The parent's id as `_can_rename_to` and `_perform_delete` look it up, when `obj` is not a root. */
  ghost predicate ParentFound(e: map<Id, Record>, obj: Record)
  {
    !IsRoot(obj) && obj.parentId.value in e
  }

  /** `k` is one of the records `_can_rename_to` compares `obj` against. */
  ghost predicate IsSibling(e: map<Id, Record>, obj: Record, k: Id)
  {
    k in e &&
    if IsRoot(obj) then IsRoot(e[k]) && e[k].id != obj.id
    else obj.parentId.value in e && k in e[obj.parentId.value].children && k != obj.id
  }

  /** The source indexes every other child of a found parent without checking: they must be live. */
  ghost predicate SiblingsLive(e: map<Id, Record>, obj: Record)
  {
    ParentFound(e, obj) ==>
      forall c :: c in e[obj.parentId.value].children && c != obj.id ==> c in e
  }

  function ChildNamed(e: map<Id, Record>, cs: seq<Id>, exclude: Id, name: string): (r: bool)
    requires forall c :: c in cs && c != exclude ==> c in e
    ensures r <==> exists c :: c in cs && c != exclude && e[c].name == name
  {
    if cs == [] then false
    else if cs[0] != exclude && e[cs[0]].name == name then true
    else ChildNamed(e, cs[1..], exclude, name)
  }

  function RootNamed(keys: seq<Id>, e: map<Id, Record>, exclude: Id, name: string): (r: bool)
    requires forall k :: k in keys ==> k in e
    ensures r <==> exists k :: k in keys && IsRoot(e[k]) && e[k].id != exclude && e[k].name == name
  {
    if keys == [] then false
    else if IsRoot(e[keys[0]]) && e[keys[0]].id != exclude && e[keys[0]].name == name then true
    else RootNamed(keys[1..], e, exclude, name)
  }

  /**
   * `_can_rename_to`: false for an empty or whitespace-only name; otherwise
   * false exactly when some sibling (the parent's other children, or all
   * other roots) already has exactly that name.
   */
  function CanRenameTo(d: Store, obj: Record, newName: string): (r: bool)
    requires Valid(d) && SiblingsLive(d.entries, obj)
    ensures r <==> (!IsBlank(newName) &&
      !exists k :: IsSibling(d.entries, obj, k) && d.entries[k].name == newName)
  {
    StripEmptyIffBlank(newName);
    if Strip(newName) == [] then false
    else if !IsRoot(obj) then
      var p := obj.parentId.value;
      if p in d.entries then !ChildNamed(d.entries, d.entries[p].children, obj.id, newName)
      else true
    else !RootNamed(d.keys, d.entries, obj.id, newName)
  }

  /** When the parent lookup misses (as it does for loaded children), a rename is refused only for a blank name. */
  lemma RenameUncheckedWithoutParent(d: Store, obj: Record, newName: string)
    requires Valid(d) && !IsRoot(obj) && obj.parentId.value !in d.entries
    ensures CanRenameTo(d, obj, newName) <==> !IsBlank(newName)
  {
  }

  /** Two children of one found parent: renaming one to the other's exact name is refused. */
  lemma RenameRejectsSiblingName(d: Store, a: Record, b: Id)
    requires Valid(d) && SiblingsLive(d.entries, a) && ParentFound(d.entries, a)
    requires b in d.entries[a.parentId.value].children && b != a.id
    ensures !CanRenameTo(d, a, d.entries[b].name)
  {
    assert IsSibling(d.entries, a, b);
  }

  // ---------------------------------------------------------------------
  // New objects (`_add_new_object`).

  /** `f"{obj_type}_{len(objects)}"`: the type, an underscore, and the count in decimal, which reads back. */
  function NewObjectId(objType: string, count: nat): (r: Id)
    ensures |r| > |objType| + 1 && r[..|objType|] == objType && r[|objType|] == '_'
    ensures AllDigits(r[|objType| + 1..]) && ParseDecimal(r[|objType| + 1..]) == count
  {
    var r := objType + "_" + NatToString(count);
    ParseNatToString(count);
    assert r[|objType| + 1..] == NatToString(count);
    r
  }

  /** The names in use anywhere in the store. */
  function UsedNames(e: map<Id, Record>): set<string>
  {
    set k | k in e :: e[k].name
  }

  lemma {:induction false} TriedNamesCount(used: set<string>, base: string, c: nat)
    requires forall j :: 1 <= j <= c ==> Suffixed(base, j) in used
    ensures c <= |used|
  {
    var tried := set j | 1 <= j <= c :: Suffixed(base, j);
    TriedSize(base, c);
    assert used == tried + (used - tried);
    assert tried * (used - tried) == {};
  }

  lemma {:induction false} TriedSize(base: string, c: nat)
    ensures |set j | 1 <= j <= c :: Suffixed(base, j)| == c
  {
    if c > 0 {
      var prev := set j | 1 <= j <= c - 1 :: Suffixed(base, j);
      TriedSize(base, c - 1);
      assert (set j | 1 <= j <= c :: Suffixed(base, j)) == prev + {Suffixed(base, c)};
      assert Suffixed(base, c) !in prev by {
        forall j | 1 <= j <= c - 1 ensures Suffixed(base, j) != Suffixed(base, c) {
          SuffixedInjective(base, j, c);
        }
      }
    }
  }

  /** The first of `base_cc`, `base_(cc+1)`, ... that is not in use. */
  function FirstFreeFrom(used: set<string>, base: string, c: nat): (r: string)
    requires c >= 1 && forall j :: 1 <= j < c ==> Suffixed(base, j) in used
    ensures r !in used
    ensures exists n :: n >= c && r == Suffixed(base, n) && forall j :: 1 <= j < n ==> Suffixed(base, j) in used
    decreases |used| + 1 - c
  {
    if Suffixed(base, c) !in used then Suffixed(base, c)
    else
      TriedNamesCount(used, base, c);
      FirstFreeFrom(used, base, c + 1)
  }

  /**
   * The name `_add_new_object` settles on: the hint itself when no record has
   * it, otherwise `hint_NN` for the smallest counter NN >= 1 whose name is free.
   */
  function FreshName(used: set<string>, base: string): (r: string)
    ensures r !in used
    ensures base !in used ==> r == base
    ensures base in used ==> exists n :: (n >= 1 && r == Suffixed(base, n) &&
      forall j :: 1 <= j < n ==> Suffixed(base, j) in used)
  {
    if base !in used then base else FirstFreeFrom(used, base, 1)
  }

  /** The counter loop stops at the first free candidate, so it computes `FirstFreeFrom`. */
  lemma {:induction false} FirstFreeIs(used: set<string>, base: string, c: nat, n: nat)
    requires c >= 1 && forall j :: 1 <= j < c ==> Suffixed(base, j) in used
    requires n >= c && Suffixed(base, n) !in used && forall j :: c <= j < n ==> Suffixed(base, j) in used
    ensures FirstFreeFrom(used, base, c) == Suffixed(base, n)
    decreases n - c
  {
    if n > c {
      assert Suffixed(base, c) in used;
      FirstFreeIs(used, base, c + 1, n);
    } else {
      assert Suffixed(base, c) !in used;
    }
  }

  // ---------------------------------------------------------------------
  // Notification of the properties panel (`_update_properties_selection`).

  /** The fixed map from outline type to properties kind; group (and any unknown type) shows as mesh. */
  function PropertiesKind(objType: string): (r: string)
    ensures r == "mesh" || r == "camera" || r == "light"
    ensures objType == GROUP ==> r == "mesh"
    ensures objType == MESH || objType == CAMERA || objType == LIGHT ==> r == objType
    ensures objType != CAMERA && objType != LIGHT ==> r == "mesh"
  {
    if objType == CAMERA then "camera"
    else if objType == LIGHT then "light"
    else "mesh"
  }
}
