# Outline registry and properties selection

This project models the outline panel of a small ImGui scene editor and the
selection state of its properties panel.

The outline keeps every scene object (meshes, cameras, lights and groups) in one
insertion-ordered dictionary from id to record. Each record carries:

- its name and type;
- its parent's name (the loader stores a parent's *name*, not its id);
- the ordered list of its child ids;
- its selected and renaming flags and its rename buffer.

On top of this store the model covers:

- **Loading.** The nested `{name, type, children}` document becomes flat records with ids `type_name`. It is loaded depth-first, children first, and a later record with the same id overwrites an earlier one.
- **Descendants.** The recursive descendant collection. It keeps child ids that are not in the store but does not follow them.
- **Search filter and highlight.** The filter matches ignoring case and flattens the hierarchy. The highlight span is the first case-insensitive match.
- **Selection.** Re-clicking a selected object deselects it together with its descendants and resets the properties panel. Clicking any other object clears the old selection, selects only that object, and sends its mapped kind (a group shows as a mesh) and its name to the properties panel.
- **Rename.** Renaming is checked against siblings. Siblings are the found parent's other children, or every other root.
- **Delete, in two phases.** First the targets and a worded summary are recorded and the dialog flag is raised. Then the removal set is computed, records are detached from their found parents, the records are deleted, and the selection is cut.
- **Adding an object.** The new object takes the id `type_N` and the first free name among `hint`, `hint_01`, `hint_02`, ….
- **The properties panel.** It keeps one selection, built from a fixed table of per-kind defaults.

Each stateful part is a class whose methods update its fields:

- `Outline.OutlineState` is the module-level `outline_state`;
- `Properties.PropertiesPanel` is the module-level `selected_object`.

A record's fields are updated in place through the store. In the model this is a map update of a record value.

Each method is proved against a specification function on the old state. The properties the source relies on are lemmas about those functions:

- the descendants are the least child-closed set;
- deletion removes exactly the removal set;
- toggling (`SelectKeepsFlagsAgree`, `DeselectKeepsFlagsAgree`) and deleting (`DeleteKeepsFlagsAgree`) keep the per-record `selected` flags in agreement with the selection set if they agreed before; adding an object breaks this agreement;
- a new name is never in use.

Wherever the source recurses through descendants, the model requires `AcyclicFrom`: a ranking that decreases along the child links reachable from the start id. A cycle elsewhere in the store does not matter (`OutlineTree.CycleElsewhere`).

Files:

| file | contents |
|---|---|
| `wrappers.dfy` | `Option` |
| `text.dfy` | ASCII lower-casing; Python whitespace and `strip`; substring search; decimal and `02d` formatting |
| `ordered_dict.dfy` | the insertion-ordered dictionary |
| `outline_records.dfy` | the record and the store |
| `outline_load.dfy` | JSON loading and its properties |
| `outline_tree.dfy` | descendants and the removal set |
| `outline_queries.dfy` | filter, highlight, rename check, fresh names, type map |
| `outline_delete.dfy` | the delete summary and the detaching pass |
| `properties.dfy` | the properties selection state |
| `outline.dfy` | the `OutlineState` class, the delete and add results, and their lemmas |

Quirks of the code that the model keeps:

- A loaded child's parent link holds the parent's *name*, not its id. Parent lookups therefore normally miss. They succeed only when some record's id happens to equal that name, as for a parent named `mesh_Box`. When they miss:
  - renaming a loaded child is checked only for blankness (`OutlineQueries.RenameUncheckedWithoutParent`);
  - deleting a loaded child leaves its id in the parent's list (`Outline.DeleteLeavesDanglingChild`).
- Ids built from `(type, name)` can collide. The later record then overwrites the earlier one (`OutlineLoadFacts.LoadCollisionOverwrites`).
- A new object's name is made unique against the names of all records, not only its siblings. Its id comes from the record count, so it can equal an existing id and replace that record.
- Confirming or cancelling while no delete is pending raises no error. The dialog's buttons exist only while the flag is up, and `ConfirmDelete` does nothing without it.
- Cancelling a delete leaves the stored targets in place.
- For several targets that mix groups and other objects, the summary reads "all selected items and N groups". Only the groups are counted.
- Adding an object replaces the selection with the new id but clears no flag. Records selected before the add keep `selected` set although they have left the selection (`Outline.AddKeepsOldFlags`). The new record is selected but not flagged (`Outline.AddLeavesFlagUnset`). The source only ever writes the flags; it never reads them.

## Model

| member | source | states |
|---|---|---|
| Text.LowerStr | components/outline.py:556-560 | `lower()` keeps the length, lowers each character through ASCII `lower`, and leaves no upper-case ASCII letter |
| Text.Strip | components/outline.py:568 | `strip()` is a piece of the string whose cut-off ends are all whitespace, and it neither starts nor ends with whitespace |
| Text.NatToString | components/outline.py:715 | `str(n)` is a non-empty digit string, one digit exactly when `n < 10`, with no leading zero otherwise |
| Text.ZeroPad2 | components/outline.py:721 | `f"{n:02d}"` has at least two digits and starts with a padding zero exactly when `n < 10` |
| Text.LowerStrEqual | components/outline.py:556-560 | two strings lower-case to the same string exactly when they agree character by character up to ASCII case |
| Text.StripEmptyIffBlank | components/outline.py:568-569 | `s.strip()` is empty exactly when every character of `s` is Python whitespace |
| Text.Contains | components/outline.py:559-560 | the substring test holds exactly when the query occurs at some index |
| Text.IndexOf | components/outline.py:326-331 | the first index where the query occurs, and no earlier one; none when it never occurs |
| Text.ParseNatToString | components/outline.py:715 | the decimal rendering of a counter reads back as that counter |
| Text.ParseZeroPad2 | components/outline.py:721 | the `02d` rendering reads back as the counter |
| Text.Suffixed | components/outline.py:721 | the candidate name starts with the base and is at least three characters longer |
| Text.SuffixedReadsBack | components/outline.py:721 | the candidate name is the base, an underscore and a digit string that reads back as the counter |
| Text.SuffixedInjective | components/outline.py:719-722 | different counters give different `base_NN` names |
| OrderedDict.Put | components/outline.py:148 | storing a key keeps the dict well-formed; an existing key keeps its position, a new one is appended, the value is stored and the other entries are unchanged |
| OrderedDict.Delete | components/outline.py:671 | `del` keeps the dict well-formed, drops exactly that key from the entries and from the key order, and keeps the other keys in order |
| OrderedDict.RemoveKeys | components/outline.py:668-671 | deleting a set of keys leaves exactly the other keys, in their order, with their values |
| OrderedDict.DeleteOneMore | components/outline.py:668-671 | deleting the keys one at a time in any order gives the same dict |
| OutlineRecords.NewRecord | components/outline.py:79-90 | a new record has the given fields, is not selected or renaming, and has an empty rename buffer |
| OutlineRecords.IsRoot | components/outline.py:575-581 | `not parent_id` holds for no parent and for the empty parent name, and fails for any non-empty one |
| OutlineLoad.NodeId | components/outline.py:138 | a node's id is its type, then `_`, then its name |
| OutlineLoad.ProcessObject | components/outline.py:132-150 | processing a node keeps the store well-formed and every earlier key, stores the node's own record under its id last, and leaves each child's id stored |
| OutlineLoad.ProcessAll | components/outline.py:142-154 | processing a list of nodes keeps the store well-formed and every earlier key, stores every node's id, and the last node's record is the one left under its id |
| OutlineLoad.ProcessObjectIsPutAll | components/outline.py:132-151 | processing a node stores the records of its subtree one after another: its children's subtrees first, in order, then the node itself under `type_name` |
| OutlineLoad.PutAllLastWins | components/outline.py:148 | after storing a run of records, each id holds the last record stored under it |
| OutlineLoad.CreateOutlineFromDict | components/outline.py:128-156 | the store built from a document is well-formed: each record sits under its own id |
| OutlineLoad.LoadOutlineFromJson | components/outline.py:118-125 | a decode error gives the empty store; parsed input gives the store built from the document |
| OutlineLoad.ProcessAllIsPutAll | components/outline.py:139-155 | processing a node list is storing its flattened records in depth-first, children-first order |
| OutlineLoadFacts.LoadSpec | components/outline.py:128-156 | the loaded ids are exactly the `type_name` ids of the document's nodes; each stored record is the one built for the last node with that id |
| OutlineLoadFacts.LoadWithoutCollisions | components/outline.py:132-148 | when no two nodes share an id, every node is stored with its name, type, parent name and the ids of its children |
| OutlineLoadFacts.LoadedParentIdIsNotParentKey | components/outline.py:138-147 | a loaded child's parent link is the parent's name, which differs from the parent's key `type_name` |
| OutlineLoadFacts.LoadCollisionOverwrites | components/outline.py:137-148 | two top-level `Box` meshes, the second with a child `Lid`, leave one `mesh_Box` key in the first one's position, holding the later record's children |
| OutlineTree.AllChildrenIds | components/outline.py:541-551 | an unknown id, or an id with no children, has no descendants |
| OutlineTree.AllChildrenIdsSpec | components/outline.py:541-551 | the descendants contain the children, are closed under the child relation, and never contain the id itself |
| OutlineTree.AllChildrenIdsLeast | components/outline.py:541-551 | the descendants are contained in every child-closed set that holds the children |
| OutlineTree.CycleElsewhere | components/outline.py:541-551 | with a group that lists itself as its child, the descendants of a separate leaf are still defined and empty, while the group's own recursion has no ranking |
| OutlineTree.RemovalSetSpec | components/outline.py:654-658 | the removal set is the least child-closed set holding the targets |
| OutlineQueries.Filtered | components/outline.py:554-563 | an id is kept exactly when its name contains the query ignoring case; the kept ids keep store order and no ancestor is added |
| OutlineQueries.HighlightSpan | components/outline.py:326-331 | there is a span exactly when the query is non-empty and matches; it has the query's length and is the first case-insensitive occurrence |
| OutlineQueries.CanRenameTo | components/outline.py:566-588 | a rename is allowed exactly when the name is not blank and no sibling (the found parent's other children, or the other roots) has exactly that name |
| OutlineQueries.RenameUncheckedWithoutParent | components/outline.py:573-577 | when the parent lookup misses, only a blank name is refused |
| OutlineQueries.RenameRejectsSiblingName | components/outline.py:576-586 | renaming a child to another child's exact name under the same found parent is refused |
| OutlineQueries.FreshName | components/outline.py:716-722 | the chosen name is not in use; it is the hint when the hint is free, otherwise `hint_NN` with every smaller counter taken |
| OutlineQueries.FirstFreeIs | components/outline.py:719-722 | the candidate where the counter loop stops is the first free one |
| OutlineQueries.NewObjectId | components/outline.py:715 | the new id is the type, an underscore and the record count in decimal, which reads back as the count |
| OutlineQueries.PropertiesKind | components/outline.py:750-764 | camera and light map to themselves; group, mesh and any other type map to mesh |
| OutlineDelete.GroupCount | components/outline.py:610-611 | the number of group targets is at most the number of targets, positive exactly when a group is among them, and smaller exactly when a non-group is among them |
| OutlineDelete.GroupCountIsPositions | components/outline.py:610 | the count is the number of positions of the target list that hold a group |
| OutlineDelete.Summarize | components/outline.py:602-618 | one target gives the group or object message with its name; several give the mixed, groups-only or others-only message according to which kinds occur; the mixed and groups-only messages carry the group count, the others-only one the number of targets |
| OutlineDelete.SummaryText | components/outline.py:605-618 | a single target's message ends with its name after the kind word; each count message holds the count in decimal, which reads back as that count |
| OutlineDelete.RemoveFirst | components/outline.py:666 | `list.remove` takes exactly one occurrence out of the list |
| OutlineDelete.RemoveFirstAt | components/outline.py:666 | the occurrence removed is the first one: the result is the part before it followed by the part after it, in order |
| OutlineDelete.RemoveFirsts | components/outline.py:661-666 | removing one occurrence of each of a set of ids takes exactly those occurrences out, and the rest keep their order |
| OutlineDelete.DetachOne | components/outline.py:661-666 | one detach step keeps every key and changes only children lists; a changed list belongs to the id's found parent, which listed the id and loses its first occurrence |
| OutlineDelete.Detached | components/outline.py:661-666 | detaching keeps every key and strips from each list the deleted ids whose parent link names that key |
| OutlineDelete.DetachStep | components/outline.py:661-666 | one pass of the detach loop turns the result for the ids done so far into the result for one more id, so the order of the loop does not matter |
| OutlineDelete.DetachIgnoresMissingParent | components/outline.py:662-665 | the entry of a deleted id whose parent link matches no key changes no list |
| Outline.DeselectKeepsFlagsAgree | components/outline.py:508-519 | clearing the flags of the removed ids keeps the flags equal to selection membership |
| Outline.SelectKeepsFlagsAgree | components/outline.py:523-535 | clearing the old selection's flags and setting the clicked record's flag makes the flags agree with the selection `{id}` |
| Outline.DeleteResult | components/outline.py:652-674 | the store after a delete is well-formed |
| Outline.DeleteResultSpec | components/outline.py:652-674 | the surviving keys are the old keys minus the removal set, in order; each survivor is its detached record, with its children list reduced by exactly the detached ids |
| Outline.PerformDeleteSpec | components/outline.py:654-671 | a record survives exactly when it is neither a target nor a descendant of one; a survivor keeps everything except its children |
| Outline.DeleteKeepsFlagsAgree | components/outline.py:671-674 | deleting the removal set and cutting it from the selection keeps the flags equal to selection membership |
| Outline.DeleteDetachesFromFoundParent | components/outline.py:661-666 | a deleted id listed under its found, surviving parent occurs once fewer in that parent's list |
| Outline.DeleteLeavesDanglingChild | components/outline.py:661-666 | a deleted id whose parent link matches no key stays listed in every survivor that listed it |
| Outline.AddResult | components/outline.py:712-727 | adding keeps the store well-formed |
| Outline.AddSpec | components/outline.py:712-727 | the new record is a root with no children, unflagged, named by a fresh name unused by every other record; the others are unchanged; a colliding id keeps its position, otherwise it is appended |
| Outline.AddLeavesFlagUnset | components/outline.py:726-730 | the new record's flag stays clear although it becomes the selection, so flags and selection disagree after an add |
| Outline.AddKeepsOldFlags | components/outline.py:726-730 | a record flagged before an add, other than one the new record replaces, stays flagged although it is no longer in the selection |
| Outline.NotifyKeepsName | components/outline.py:750-770 | the properties panel receives the clicked object's name and a kind that is in its table |
| Outline.GroupShowsAsMesh | components/outline.py:761-767 | selecting a group shows the mesh defaults under the group's name |
| Outline.CollectRemovalSet | components/outline.py:654-657 | the first pass collects precisely the removal set |
| Outline.DetachAll | components/outline.py:661-666 | the second pass computes the detached records, whatever order the set is visited in |
| Outline.DeleteAll | components/outline.py:668-671 | the third pass deletes precisely the removal set from the dict |
| Outline.SampleHasNoCollisions | components/outline.py:27-76 | the sample document's ten nodes have ten different `type_name` ids, so loading it overwrites nothing |
| Outline.OutlineState.constructor | components/outline.py:94-115 | the state holds the sample document's store with every flag cleared, an empty selection, no search, and no pending delete |
| Outline.OutlineState.SetFlags | components/outline.py:517-519 | every present record among the ids gets the flag; the keys and other records are unchanged |
| Outline.FlagAll | components/outline.py:517-519 | the flag loop over a set of ids computes the same map as setting the flag on every present id, whatever the visiting order |
| Outline.ClearFlagsInOrder | components/outline.py:113-115 | the constructor's pass over the dict in key order clears the flag of every record |
| Outline.CountGroups | components/outline.py:610-611 | the counting loop yields the number of targets whose type is `group` |
| Outline.PickFreshName | components/outline.py:718-722 | the probing loop returns the hint when it is unused, otherwise the first unused `hint_NN` |
| Outline.DetachFromParent | components/outline.py:661-666 | one step of the second pass: the found parent loses the first occurrence of the id and nothing else changes; a missing record or parent changes nothing |
| Outline.OutlineState.Deselect | components/outline.py:508-519 | the clicked object and all its descendants leave the selection and have their flags cleared; keys, other fields and flag agreement are kept |
| Outline.OutlineState.SelectOnly | components/outline.py:523-535 | the selection becomes exactly `{id}`: every previously selected flag is cleared and only that record is flagged; keys, other fields and flag agreement are kept |
| Outline.WithSelectedFacts | components/outline.py:517-519 | setting flags keeps every record's id and gives each present listed id the new flag |
| Outline.OutlineState.HandleObjectSelection | components/outline.py:505-538 | re-clicking drops the object and its descendants from the selection and resets the panel; otherwise the selection becomes `{id}` with only that flag set and the panel holds the selection for the mapped kind and the record's name; flag agreement is preserved |
| Outline.OutlineState.SetSearchText | components/outline.py:204-214 | the query becomes the given text; nothing else changes |
| Outline.OutlineState.GetFilteredObjects | components/outline.py:554-563 | the result is the filtered id list of the current store and query |
| Outline.OutlineState.BeginRename | components/outline.py:374-376 | the record enters rename mode with its name copied into the buffer; nothing else changes |
| Outline.OutlineState.EditTempName | components/outline.py:299 | the record's rename buffer becomes the edited text |
| Outline.OutlineState.CommitRename | components/outline.py:304-315 | the buffer becomes the name and rename mode ends exactly when the rename check accepts it; otherwise the state is unchanged |
| Outline.OutlineState.CancelRename | components/outline.py:316-317 | rename mode ends and the name is kept |
| Outline.OutlineState.PrepareDeleteConfirmation | components/outline.py:591-620 | the targets are stored as a set, the message is the summary's wording, and the dialog flag is raised; the store is not touched |
| Outline.OutlineState.PerformDelete | components/outline.py:652-674 | the store becomes the delete result for the removal set of the stored targets, and the selection loses that set |
| Outline.OutlineState.ConfirmDelete | components/outline.py:638-641 | with the dialog up, the delete is performed and the flag drops; otherwise nothing changes |
| Outline.OutlineState.CancelDelete | components/outline.py:645-647 | the flag drops and nothing else changes |
| Outline.OutlineState.AddNewObject | components/outline.py:712-730 | the store becomes the add result and the selection becomes exactly the new id |
| Outline.OutlineState.GetSelectedObjectIds | components/outline.py:733-735 | the list holds exactly the selected ids, each once |
| Outline.OutlineState.GetObjectName | components/outline.py:738-741 | the name of a present record, none for a missing id |
| Outline.OutlineState.GetObjectType | components/outline.py:744-747 | the type of a present record, none for a missing id |
| Properties.ObjectProperties | components/properties.py:18-58 | the defaults table has exactly the mesh, material, camera and light kinds, and no "none" kind |
| Properties.WithOverrides | components/properties.py:405-409 | no overrides (or an empty map) change nothing; otherwise type and name are kept, the keys are the union, override values win and the other defaults are kept |
| Properties.SelectFor | components/properties.py:61-72 | the selection is non-empty exactly when the kind is in the table, and then holds that kind, the name and the kind's defaults; any other kind, "none" included, gives type "none", an empty name and no properties |
| Properties.PropertiesPanel.constructor | components/properties.py:11-15 | the initial state is the "none" selection |
| Properties.PropertiesPanel.SelectObject | components/properties.py:61-72 | the fields become the selection for the kind and name: the kind's defaults, or the reset state |
| Properties.PropertiesPanel.SetSelectedObject | components/properties.py:405-409 | the state becomes the selection with the overrides merged in |
| Properties.PropertiesPanel.GetSelectedObject | components/properties.py:400-402 | the current state is returned unchanged |

## Left out

- Drawing, layout, docking, popups, fonts, themes and the viewport are left out. They hold no state the core depends on. Each UI event is modelled as a direct method call; the frame loop that polls for events is not.
- Hover, drag, expand, visibility and tooltips are left out, together with the `hovered_id` and `dragging_id` fields. They carry no invariant, and dragging is never implemented.
- `json.loads` is external code. Its outcome is an input: a parsed `Document` or a decode error. The diagnostic `print` is not modelled.
- Records with a missing `name` or `type` make the source raise `KeyError`. Such nodes cannot be expressed in the `Node` type.
- A document whose top level is not an object makes `data.get` raise `AttributeError`, and a `children` value of `null` makes the loop raise `TypeError`. A `Document` is always an object with a list of nodes, so neither can be expressed.
- A `name` or `type` that is not a string is turned into one by the f-string that builds the id. `Node` fields are strings, so this conversion is not modelled.
- Nesting deeper than Python's recursion limit makes the loader and the descendant collection raise `RecursionError`. The model has no depth limit.
- Records are values in a map. Updating one in place is a map update, so aliasing is not modelled (every record the source hands around is the one stored under its id, so it is passed here by id). Neither is the shallow `.copy()` of the property defaults, which shares the nested lists.
- Properties.PropertiesPanel.GetSelectedObject: returns the selection as a value. The source returns the live module dictionary, which a caller could then change in place; that aliasing is not modelled.
- Property values are kept as literals of four shapes. The panel's editing widgets, file dialogs and every `show_*` function are left out.
- `_update_properties_selection` and `_clear_properties_selection` import the properties module under an `ImportError` guard. The import is assumed to succeed, and the call is a direct call on a `PropertiesPanel`.
- The `input_text` widgets' 256-character buffer limit is not modelled. The search text and the rename buffer are whatever text the caller passes.
- The sample outline is a constant document. Loading it is not evaluated to concrete records.
- Text.LowerStr: folds only ASCII letters, because Unicode case mapping is not modelled.
- Outline.OutlineState.HandleObjectSelection (only when the click deselects), Outline.OutlineState.Deselect, OutlineTree.AllChildrenIds, Outline.OutlineState.PerformDelete and Outline.OutlineState.ConfirmDelete: these follow descendants, so they require that no cycle is reachable from the clicked id or from the delete targets. An id collision in the input can create such a cycle, and the source then recurses until Python's recursion limit. Cycles elsewhere in the store are allowed.
- Outline.OutlineState.CommitRename: requires that a found parent's other children are all present, because the source indexes them unchecked and would raise `KeyError`.
- Outline.OutlineState.PrepareDeleteConfirmation: requires live targets, for the same reason. It does not model the `target_names` list, only the one name it is read for.
- Outline.OutlineState.GetSelectedObjectIds: does not fix the order of the list, because Python's set iteration order is an implementation detail.
- The "delete" button beside each tree node and the "delete selected" button both call `PrepareDeleteConfirmation`. The selection passed by the second is in set order, which the summary does not depend on.
