/**
 * The delete path: the confirmation summary `_prepare_delete_confirmation`
 * shows, and the detachment of removed ids from their parents' `children`
 * lists that `_perform_delete` does before it deletes the records.
 */
module OutlineDelete {
  import opened Wrappers
  import opened Text
  import opened OutlineRecords

  // ---------------------------------------------------------------------
  // Confirmation summary.

  /** The five shapes of `delete_target_name`. */
  datatype Summary =
    | SingleGroup(name: string)
    | SingleObject(name: string)
    | GroupsAndOthers(groupCount: nat)
    | OnlyGroups(groupCount: nat)
    | OnlyObjects(otherCount: nat)

  /**
   * The message shown for each shape: a single target's name follows a
   * two-character kind word and a space; a count is written in decimal
   * before the four-character unit (a space, the measure word and a
   * two-character noun), after a seven-character lead-in in the mixed case.
   */
  function SummaryText(s: Summary): (r: string)
    ensures s.SingleGroup? || s.SingleObject? ==> |r| == 3 + |s.name| && r[3..] == s.name
    ensures s.OnlyGroups? ==> |r| >= 5 && AllDigits(r[..|r| - 4]) && ParseDecimal(r[..|r| - 4]) == s.groupCount
    ensures s.OnlyObjects? ==> |r| >= 5 && AllDigits(r[..|r| - 4]) && ParseDecimal(r[..|r| - 4]) == s.otherCount
    ensures s.GroupsAndOthers? ==> |r| >= 12 && AllDigits(r[7..|r| - 4]) && ParseDecimal(r[7..|r| - 4]) == s.groupCount
  {
    match s
    case SingleGroup(name) => "组合 " + name
    case SingleObject(name) => "对象 " + name
    case GroupsAndOthers(g) =>
      var r := "所有选中项和 " + NatToString(g) + " 个组合";
      ParseNatToString(g);
      assert r[7..|r| - 4] == NatToString(g);
      r
    case OnlyGroups(g) =>
      var r := NatToString(g) + " 个组合";
      ParseNatToString(g);
      assert r[..|r| - 4] == NatToString(g);
      r
    case OnlyObjects(o) =>
      var r := NatToString(o) + " 个对象";
      ParseNatToString(o);
      assert r[..|r| - 4] == NatToString(o);
      r
  }

  predicate HasGroup(e: map<Id, Record>, ts: seq<Id>)
    requires forall t :: t in ts ==> t in e
  {
    exists i :: 0 <= i < |ts| && e[ts[i]].objType == GROUP
  }

  predicate HasOther(e: map<Id, Record>, ts: seq<Id>)
    requires forall t :: t in ts ==> t in e
  {
    exists i :: 0 <= i < |ts| && e[ts[i]].objType != GROUP
  }

  /** The positions of `ts` that hold a group. */
  ghost function GroupPositions(e: map<Id, Record>, ts: seq<Id>): set<int>
    requires forall t :: t in ts ==> t in e
  {
    set i | 0 <= i < |ts| && e[ts[i]].objType == GROUP
  }

  /** A group is among `ts` when it is among the front or is the last target. */
  lemma HasGroupLast(e: map<Id, Record>, ts: seq<Id>)
    requires ts != [] && forall t :: t in ts ==> t in e
    ensures HasGroup(e, ts) <==> HasGroup(e, ts[..|ts| - 1]) || e[ts[|ts| - 1]].objType == GROUP
  {
    var front := ts[..|ts| - 1];
    if HasGroup(e, ts) {
      var i :| 0 <= i < |ts| && e[ts[i]].objType == GROUP;
      if i < |ts| - 1 { assert front[i] == ts[i]; }
    }
    if HasGroup(e, front) {
      var i :| 0 <= i < |front| && e[front[i]].objType == GROUP;
      assert ts[i] == front[i];
    }
  }

  /** Another object is among `ts` when it is among the front or is the last target. */
  lemma HasOtherLast(e: map<Id, Record>, ts: seq<Id>)
    requires ts != [] && forall t :: t in ts ==> t in e
    ensures HasOther(e, ts) <==> HasOther(e, ts[..|ts| - 1]) || e[ts[|ts| - 1]].objType != GROUP
  {
    var front := ts[..|ts| - 1];
    if HasOther(e, ts) {
      var i :| 0 <= i < |ts| && e[ts[i]].objType != GROUP;
      if i < |ts| - 1 { assert front[i] == ts[i]; }
    }
    if HasOther(e, front) {
      var i :| 0 <= i < |front| && e[front[i]].objType != GROUP;
      assert ts[i] == front[i];
    }
  }

  /** The positions of `ts` are those of its front, and the last one if it holds a group. */
  lemma GroupPositionsLast(e: map<Id, Record>, ts: seq<Id>)
    requires ts != [] && forall t :: t in ts ==> t in e
    ensures var front := ts[..|ts| - 1]; var last := |ts| - 1;
      && last !in GroupPositions(e, front)
      && GroupPositions(e, ts) == GroupPositions(e, front) + (if e[ts[last]].objType == GROUP then {last} else {})
  {
    var front := ts[..|ts| - 1];
    forall i | 0 <= i < |front| ensures front[i] == ts[i] { }
  }

  /** `sum(1 for obj_id in target_ids if objects[obj_id].type == "group")`. */
  function GroupCount(e: map<Id, Record>, ts: seq<Id>): (n: nat)
    requires forall t :: t in ts ==> t in e
    ensures n <= |ts|
    ensures n > 0 <==> HasGroup(e, ts)
    ensures n < |ts| <==> HasOther(e, ts)
  {
    if ts == [] then 0
    else
      var front := ts[..|ts| - 1];
      HasGroupLast(e, ts);
      HasOtherLast(e, ts);
      GroupCount(e, front) + (if e[ts[|ts| - 1]].objType == GROUP then 1 else 0)
  }

  /** The count is the number of positions of `ts` that hold a group. */
  lemma {:induction false} GroupCountIsPositions(e: map<Id, Record>, ts: seq<Id>)
    requires forall t :: t in ts ==> t in e
    ensures GroupCount(e, ts) == |GroupPositions(e, ts)|
  {
    if ts != [] {
      GroupCountIsPositions(e, ts[..|ts| - 1]);
      GroupPositionsLast(e, ts);
    }
  }

  /** Counting one more target adds one exactly when it is a group. */
  lemma GroupCountStep(e: map<Id, Record>, ts: seq<Id>, i: nat)
    requires i < |ts| && forall t :: t in ts ==> t in e
    ensures GroupCount(e, ts[..i + 1]) == GroupCount(e, ts[..i]) + (if e[ts[i]].objType == GROUP then 1 else 0)
  {
    assert ts[..i + 1][..i] == ts[..i];
  }

  /** What the source reads without checking: the single target, or every target, must be live. */
  ghost predicate TargetsLive(e: map<Id, Record>, ts: seq<Id>)
  {
    if |ts| == 1 then ts[0] in e else forall t :: t in ts ==> t in e
  }

  /**
   * The summary for `target_ids`: a single target is named with its kind; for
   * any other number the message says whether groups, other objects, or both
   * are among the targets, with the group count or the count of the others.
   */
  function Summarize(e: map<Id, Record>, ts: seq<Id>): (r: Summary)
    requires TargetsLive(e, ts)
    ensures |ts| == 1 ==> r.SingleGroup? || r.SingleObject?
    ensures |ts| == 1 ==> (r.SingleGroup? <==> e[ts[0]].objType == GROUP) && r.name == e[ts[0]].name
    ensures |ts| != 1 ==> (r.GroupsAndOthers? <==> HasGroup(e, ts) && HasOther(e, ts))
    ensures |ts| != 1 ==> (r.OnlyGroups? <==> HasGroup(e, ts) && !HasOther(e, ts))
    ensures |ts| != 1 ==> (r.OnlyObjects? <==> !HasGroup(e, ts))
    ensures r.GroupsAndOthers? || r.OnlyGroups? ==> 1 <= r.groupCount <= |ts|
    ensures |ts| != 1 && (r.GroupsAndOthers? || r.OnlyGroups?) ==> r.groupCount == GroupCount(e, ts)
    ensures r.OnlyGroups? ==> r.groupCount == |ts|
    ensures r.OnlyObjects? ==> r.otherCount == |ts|
  {
    if |ts| == 1 then
      var obj := e[ts[0]];
      if obj.objType == GROUP then SingleGroup(obj.name) else SingleObject(obj.name)
    else
      var g := GroupCount(e, ts);
      var o := |ts| - g;
      if g > 0 && o > 0 then GroupsAndOthers(g)
      else if g > 0 then OnlyGroups(g)
      else OnlyObjects(o)
  }

  // ---------------------------------------------------------------------
  // Detaching removed ids from their parents' child lists.

  /** `s.remove(x)`: drops the first occurrence of `x`, as `RemoveFirstAt` states. */
  function RemoveFirst(s: seq<Id>, x: Id): (r: seq<Id>)
    requires x in s
    ensures multiset(r) == multiset(s) - multiset{x}
  {
    if s[0] == x then
      assert s == [s[0]] + s[1..];
      s[1..]
    else
      assert s == [s[0]] + s[1..];
      [s[0]] + RemoveFirst(s[1..], x)
  }

  /** What `remove` leaves: everything before the first `x`, then everything after it, in order. */
  lemma {:induction false} RemoveFirstAt(s: seq<Id>, x: Id, i: nat)
    requires i < |s| && s[i] == x
    requires forall k :: 0 <= k < i ==> s[k] != x
    ensures RemoveFirst(s, x) == s[..i] + s[i + 1..]
  {
    if i == 0 {
      assert s[..0] + s[1..] == s[1..];
    } else {
      RemoveFirstAt(s[1..], x, i - 1);
      ConsSplit(s, i);
    }
  }

  /** Cutting position `i` out of `s` is cutting `i - 1` out of its tail, behind its head. */
  lemma ConsSplit(s: seq<Id>, i: nat)
    requires 0 < i < |s|
    ensures [s[0]] + (s[1..][..i - 1] + s[1..][i..]) == s[..i] + s[i + 1..]
  {
    assert s[..i] == [s[0]] + s[1..][..i - 1];
    assert s[i + 1..] == s[1..][i..];
  }

  /** One `remove` for each id of `xs` that occurs in `s`; the order of the removals does not matter. */
  function RemoveFirsts(s: seq<Id>, xs: set<Id>): (r: seq<Id>)
    ensures multiset(r) == multiset(s) - multiset(xs)
    ensures IsSubsequence(r, s)
  {
    if s == [] then []
    else
      assert s == [s[0]] + s[1..];
      if s[0] in xs then
        assert multiset(xs) == multiset(xs - {s[0]}) + multiset{s[0]};
        var t := RemoveFirsts(s[1..], xs - {s[0]});
        SubsequencePrepend(t, s[1..], s[0]);
        t
      else
        var t := RemoveFirsts(s[1..], xs);
        SubsequencePrepend(t, s[1..], s[0]);
        [s[0]] + t
  }

  lemma {:induction false} RemoveFirstsNothing(s: seq<Id>)
    ensures RemoveFirsts(s, {}) == s
  {
    if s != [] {
      RemoveFirstsNothing(s[1..]);
    }
  }

  lemma {:induction false} RemoveFirstsKeeps(s: seq<Id>, xs: set<Id>, x: Id)
    requires x !in xs
    ensures x in RemoveFirsts(s, xs) <==> x in s
  {
    if s != [] {
      if s[0] in xs {
        RemoveFirstsKeeps(s[1..], xs - {s[0]}, x);
      } else {
        RemoveFirstsKeeps(s[1..], xs, x);
      }
    }
  }

  lemma {:induction false} RemoveFirstsOneMore(s: seq<Id>, xs: set<Id>, x: Id)
    requires x !in xs
    ensures x in s ==> (x in RemoveFirsts(s, xs) &&
                        RemoveFirst(RemoveFirsts(s, xs), x) == RemoveFirsts(s, xs + {x}))
    ensures x !in s ==> RemoveFirsts(s, xs + {x}) == RemoveFirsts(s, xs)
  {
    RemoveFirstsKeeps(s, xs, x);
    if s != [] {
      if s[0] == x {
        assert (xs + {x}) - {x} == xs;
      } else if s[0] in xs {
        assert (xs + {x}) - {s[0]} == (xs - {s[0]}) + {x};
        RemoveFirstsOneMore(s[1..], xs - {s[0]}, x);
      } else {
        RemoveFirstsOneMore(s[1..], xs, x);
      }
    }
  }

  /** The processed ids whose parent lookup finds the record `p`. */
  function DetachedFrom(e: map<Id, Record>, done: set<Id>, p: Id): set<Id>
  {
    set x | x in done && x in e && !IsRoot(e[x]) && e[x].parentId.value == p
  }

  /** The record `k` once the processed ids that name it as parent are gone from its list. */
  function DetachedRecord(e: map<Id, Record>, done: set<Id>, k: Id): Record
    requires k in e
  {
    e[k].(children := RemoveFirsts(e[k].children, DetachedFrom(e, done, k)))
  }

  /** The records after the detach loop has handled the ids in `done`, in whatever order. */
  function Detached(e: map<Id, Record>, done: set<Id>): (r: map<Id, Record>)
    ensures r.Keys == e.Keys
    ensures forall k :: k in r ==> r[k] == DetachedRecord(e, done, k)
  {
    map k | k in e :: DetachedRecord(e, done, k)
  }

  /**
   * One detach step: remove `x` from its parent's list when the parent is
   * found and lists it. Only that one list can change; every key stays.
   */
  function DetachOne(cur: map<Id, Record>, x: Id): (r: map<Id, Record>)
    ensures r.Keys == cur.Keys
    ensures forall k :: k in cur ==> r[k].(children := cur[k].children) == cur[k]
    ensures forall k :: k in cur && r[k] != cur[k] ==>
      x in cur && cur[x].parentId == Some(k) && x in cur[k].children
      && r[k].children == RemoveFirst(cur[k].children, x)
  {
    if x in cur && !IsRoot(cur[x]) && cur[x].parentId.value in cur
       && x in cur[cur[x].parentId.value].children
    then
      var p := cur[x].parentId.value;
      cur[p := cur[p].(children := RemoveFirst(cur[p].children, x))]
    else cur
  }

  /** The processed set grows by an id whose parent lookup misses: nothing else is detached. */
  lemma DetachedFromOther(e: map<Id, Record>, done: set<Id>, x: Id, k: Id)
    requires !(x in e && !IsRoot(e[x]) && e[x].parentId.value == k)
    ensures DetachedFrom(e, done + {x}, k) == DetachedFrom(e, done, k)
  {
  }

  lemma DetachedFromSame(e: map<Id, Record>, done: set<Id>, x: Id)
    requires x in e && !IsRoot(e[x])
    ensures DetachedFrom(e, done + {x}, e[x].parentId.value) == DetachedFrom(e, done, e[x].parentId.value) + {x}
  {
  }

  /** Detaching keeps every record's parent link. */
  lemma DetachedParent(e: map<Id, Record>, done: set<Id>, x: Id)
    requires x in e
    ensures Detached(e, done)[x].parentId == e[x].parentId
  {
  }

  /** The processed id names a found parent that lists it: it is removed from that list. */
  lemma DetachedListed(e: map<Id, Record>, done: set<Id>, x: Id, p: Id)
    requires x !in done
    requires x in e && !IsRoot(e[x]) && e[x].parentId.value == p && p in e
    requires x in e[p].children
    ensures x in Detached(e, done)[p].children
    ensures Detached(e, done + {x})
         == Detached(e, done)[p := e[p].(children := RemoveFirst(Detached(e, done)[p].children, x))]
  {
    var cur := Detached(e, done);
    var nxt := Detached(e, done + {x});
    var dp := DetachedFrom(e, done, p);
    DetachedFromSame(e, done, x);
    RemoveFirstsOneMore(e[p].children, dp, x);
    var before := RemoveFirsts(e[p].children, dp);
    var after := RemoveFirsts(e[p].children, dp + {x});
    assert cur[p] == e[p].(children := before);
    assert nxt[p] == e[p].(children := after);
    forall k | k in e && k != p ensures cur[k] == nxt[k] {
      DetachedFromOther(e, done, x, k);
    }
    MapUpdateAgrees(cur, nxt, p, e[p].(children := after));
  }

  /** The processed id names a found parent that does not list it: nothing changes. */
  lemma DetachedUnlisted(e: map<Id, Record>, done: set<Id>, x: Id, p: Id)
    requires x !in done
    requires x in e && !IsRoot(e[x]) && e[x].parentId.value == p && p in e
    requires x !in e[p].children
    ensures x !in Detached(e, done)[p].children
    ensures Detached(e, done + {x}) == Detached(e, done)
  {
    var cur := Detached(e, done);
    var nxt := Detached(e, done + {x});
    var dp := DetachedFrom(e, done, p);
    DetachedFromSame(e, done, x);
    RemoveFirstsOneMore(e[p].children, dp, x);
    RemoveFirstsKeeps(e[p].children, dp, x);
    forall k | k in e ensures cur[k] == nxt[k] {
      if k != p {
        DetachedFromOther(e, done, x, k);
      }
    }
    MapsAgree(cur, nxt);
  }

  lemma DetachedMiss(e: map<Id, Record>, done: set<Id>, x: Id)
    requires !(x in e && !IsRoot(e[x]) && e[x].parentId.value in e)
    ensures Detached(e, done) == Detached(e, done + {x})
  {
    var cur := Detached(e, done);
    var nxt := Detached(e, done + {x});
    forall k | k in e ensures cur[k] == nxt[k] {
      DetachedFromOther(e, done, x, k);
    }
    MapsAgree(cur, nxt);
  }

  /** Before the loop nothing has been detached. */
  lemma DetachedNothing(e: map<Id, Record>)
    ensures Detached(e, {}) == e
  {
    var r := Detached(e, {});
    forall k | k in e ensures r[k] == e[k] {
      assert DetachedFrom(e, {}, k) == {};
      RemoveFirstsNothing(e[k].children);
    }
    MapsAgree(r, e);
  }

  /** Whatever the iteration order, handling one more id extends the processed set. */
  lemma DetachStep(e: map<Id, Record>, done: set<Id>, x: Id)
    requires x !in done
    ensures DetachOne(Detached(e, done), x) == Detached(e, done + {x})
  {
    if x in e {
      DetachedParent(e, done, x);
    }
    if x in e && !IsRoot(e[x]) && e[x].parentId.value in e {
      var p := e[x].parentId.value;
      if x in e[p].children {
        DetachedListed(e, done, x, p);
      } else {
        DetachedUnlisted(e, done, x, p);
      }
    } else {
      DetachedMiss(e, done, x);
    }
  }

  /** A removed id whose parent lookup misses stays listed wherever it was listed. */
  lemma DetachIgnoresMissingParent(e: map<Id, Record>, done: set<Id>, x: Id, k: Id)
    requires x in e && (IsRoot(e[x]) || e[x].parentId.value !in e)
    requires k in e
    ensures x !in DetachedFrom(e, done, k)
    ensures x in e[k].children ==> x in Detached(e, done)[k].children
  {
    RemoveFirstsKeeps(e[k].children, DetachedFrom(e, done, k), x);
  }
}
