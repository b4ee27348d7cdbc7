/** The unit entity of the outline and the store that holds it. */
module OutlineRecords {
  import opened Wrappers
  import opened OrderedDict

  type Id = string

  const MESH: string := "mesh"
  const CAMERA: string := "camera"
  const LIGHT: string := "light"
  const GROUP: string := "group"

  /**
   * One outline object. `parentId` is whatever the creator stored there (for
   * loaded records it is the parent's name, not its id); `children` lists ids
   * that may or may not still be present in the store. The UI-only flags
   * `visible` and `expanded` are not modelled.
   */
  datatype Record = Record(
    id: Id,
    name: string,
    objType: string,
    parentId: Option<string>,
    children: seq<Id>,
    selected: bool,
    renaming: bool,
    tempName: string)

  /** A freshly constructed object: not selected, not being renamed, empty edit buffer. */
  function NewRecord(id: Id, name: string, objType: string, parentId: Option<string>, children: seq<Id>): (r: Record)
    ensures r.id == id && r.name == name && r.objType == objType
    ensures r.parentId == parentId && r.children == children
    ensures !r.selected && !r.renaming && r.tempName == ""
  {
    Record(id, name, objType, parentId, children, false, false, "")
  }

  /** Python's `not obj.parent_id`: no parent, or the empty string as parent. */
  predicate IsRoot(r: Record)
    ensures r.parentId == None ==> IsRoot(r)
    ensures r.parentId == Some("") ==> IsRoot(r)
    ensures r.parentId.Some? && |r.parentId.value| > 0 ==> !IsRoot(r)
  {
    r.parentId.None? || r.parentId.value == ""
  }

  /** `OutlineState.objects`: an insertion-ordered dict from id to record. */
  type Store = Dict<Record>

  /** Every record sits under its own id. */
  ghost predicate StoreValid(s: Store)
  {
    Valid(s) && forall k :: k in s.entries ==> s.entries[k].id == k
  }

  /** `r` is `s` with some elements left out, the rest in their original order. */
  predicate IsSubsequence(r: seq<Id>, s: seq<Id>)
    decreases |s|
  {
    if r == [] then true
    else if s == [] then false
    else (r[|r| - 1] == s[|s| - 1] && IsSubsequence(r[..|r| - 1], s[..|s| - 1]))
         || IsSubsequence(r, s[..|s| - 1])
  }

  /** Putting the same id in front of both keeps one a subsequence of the other, as does putting it in front of the longer only. */
  lemma {:induction false} SubsequencePrepend(r: seq<Id>, s: seq<Id>, a: Id)
    requires IsSubsequence(r, s)
    ensures IsSubsequence(r, [a] + s) && IsSubsequence([a] + r, [a] + s)
    decreases |s|
  {
    if s == [] {
      assert r == [];
      assert ([a] + r)[..0] == [];
    } else {
      var s' := s[..|s| - 1];
      assert ([a] + s)[..|s|] == [a] + s';
      if r == [] {
        SubsequencePrepend(r, s', a);
      } else {
        var r' := r[..|r| - 1];
        assert ([a] + r)[..|r|] == [a] + r';
        if r[|r| - 1] == s[|s| - 1] && IsSubsequence(r', s') {
          SubsequencePrepend(r', s', a);
        } else {
          SubsequencePrepend(r, s', a);
        }
      }
    }
  }

  // Extensionality helpers for the record maps.

  /** Updating one key of `cur` gives `nxt` when they agree everywhere else. */
  lemma MapUpdateAgrees(cur: map<Id, Record>, nxt: map<Id, Record>, p: Id, v: Record)
    requires p in cur && cur.Keys == nxt.Keys && nxt[p] == v
    requires forall k :: k in cur && k != p ==> cur[k] == nxt[k]
    ensures cur[p := v] == nxt
  {
  }

  /** Two maps with the same keys that agree on every key are equal. */
  lemma MapsAgree(cur: map<Id, Record>, nxt: map<Id, Record>)
    requires cur.Keys == nxt.Keys
    requires forall k :: k in cur ==> cur[k] == nxt[k]
    ensures cur == nxt
  {
  }
}
