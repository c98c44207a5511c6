# librose, modelled and proved

Six parts of `librose`, each as Dafny code that does what the C++ code does, with the properties that hold of it.

- **The WML tree `config`** (`WmlTree`, `WmlOrder`, `WmlDiff`, `WmlTrack`, `WmlClearTrack`, `WmlMarks`, `WmlMerge`,
  `WmlConfig`, `WmlClear`). A node keeps its children twice, in one vector per tag and in a list of (tag, index) pairs. Every
  structural edit keeps the two in step. `get_diff` and `apply_diff` are inverse up to what a reader cannot see, with the exact conditions
  for that and for identity; tracking a diff and clearing the tracking comes to applying it exactly under a condition on the diff.
  `merge_with` is a positional overlay. `clear()` frees a whole tree with an explicit stack.
- **The sweep `calc_rects`** (`SweepCover`). Rectangles are covered by fewer rectangles.
- **The formula language** (`FormulaTokens`, `FormulaLexer`, `FormulaParser`, `FormulaEval`, `FormulaTrace`, `FormulaDebugger`,
  `FormulaStrings`, `Interpolation`). Reading, printing and parsing; lazy scopes; evaluation with a trace; string templates;
  substitution of variables in WML strings.
- **The unit container `base_map`** (`UnitMap`). An array with back-indices and a grid of two layers that must agree.
- **Indexes and caches of `font.cpp`** (`CharBlocks`, `TextCache`).
- **The background callbacks of `base_instance` and their user `tble`** (`BackgroundAudio`). An event-driven state machine whose
  runtime checks never fail.

`Sequences` holds what several of them need of plain sequences.

Code that works in place is a class or a method with the same loops, held against a function of the values; the properties are
proved about that function.

## Conventions

- Attribute values are strings. Two spellings that the source takes for equal (such as `yes` and `true`) are one value, and a
  missing attribute reads as the empty string. The sum of two attributes in `add_to_` is a parameter.
- A diff is a datatype in place of the WML node that the source writes it into; indices are naturals, not decimal strings.
- An empty child vector in the map of vectors counts as none, as the edits, the diff and the merge treat it; `WmlClear`, where it
  matters, keeps the two apart.
- Exceptions and failed runtime checks are results: `ok`, `Error`, `Failed`, `Broken`.
- Integers are unbounded, except for the callback ids and the deadlines of `BackgroundAudio`, which wrap at 2^32.
- The grid of `UnitMap` has the row-major index of the source. `map_2_loc` is the parameter `hint`, the width of the game map
  the parameter `gw`.
- Values that come from elsewhere are function parameters: variables and formulas of `Interpolation` and `FormulaStrings`,
  operators of `FormulaEval`, ticks and the return values of the app's callbacks in `BackgroundAudio`.

## Where the code and its comments disagree

- `config.hpp` says that patching makes two nodes identical. It does so exactly under `Restores(true, ...)`: the order between
  tags and empty attributes may be lost. A change under an empty tag is not applied at all. (The comment also names the two
  nodes the wrong way round.)
- `config.hpp` says that tracking and then clearing is the same as applying. `clear_diff_track` deletes before it looks up the
  changed children, and it looks them up where they were before the insertions, so this holds exactly under `Clears`
  (`ClearsExact`); always where no tag has both changes and insertions or deletions (`TrackedThenCleared`). Otherwise it may
  throw (`ClearThrows`, `ClearThrowsHere`) or leave marks behind (`MarkSurvives`). The children marked as deleted are the wrong
  ones as soon as a tag loses two of them (`MarksAreRight`, `OneMarkForTwo`).
- `font.cpp` says that `insert` associates all free parts of a range. It stops at the first block that begins inside the range;
  `InsertKeepsPromise` says when that makes no difference.
- `place` and `conflict_calculate_loc` take the destination to be free without looking; `Place`, `Move`, `ConflictCalculateLoc`
  and `SetRect` say exactly when it is.
- The rows of the array in `base_map` are meant for one unit a cell, but there are two layers (`LayersFillTheArray`).

## Model

| member | source | states |
|---|---|---|
| `WmlTree.EquivIsObservational` | smsrobot-src/smsrobot/librose/config.cpp:836-844 | two nodes agree tag by tag, at every depth, up to empty attributes, if and only if no sequence of child and attribute reads tells them apart |
| `WmlTree.Rebuild` | smsrobot-src/smsrobot/librose/config.cpp:1434-1448 | document order of the tags and the child vectors together determine the children, which is all that equality looks at |
| `WmlTree.RemoveAtTagged` | smsrobot-src/smsrobot/librose/config.cpp:795-834 | removing a child shifts the indices of its own tag and of no other |
| `WmlTree.InsertAtTagged` | smsrobot-src/smsrobot/librose/config.cpp:697-728 | inserting a child opens one index of its own tag and disturbs no other tag |
| `WmlTree.InsertsAt` | smsrobot-src/smsrobot/librose/config.cpp:697-728 | in the document order a new child comes directly in front of the one that had its index, or last; all others stay where they are |
| `WmlTree.RemovesAt` | smsrobot-src/smsrobot/librose/config.cpp:795-834 | the child that goes is the one at its place in the document order, and the others stay where they are |
| `WmlTree.UpdatesAt` | smsrobot-src/smsrobot/librose/config.cpp:1181-1193 | so with a child that is edited |
| `WmlDiff.GetDiffOps` | smsrobot-src/smsrobot/librose/config.cpp:1085-1158 | seen from one tag, a diff holds exactly the operations computed for that tag, in order |
| `WmlDiff.NeverBothWays` | smsrobot-src/smsrobot/librose/config.cpp:1109-1157 | for one tag a diff never both inserts and deletes, and does so exactly as often as the counts differ |
| `WmlDiff.OnlyDeletions` | smsrobot-src/smsrobot/librose/config.cpp:1109-1157 | where the wanted children are among those there, in order, a diff only deletes: no change and no insertion |
| `WmlDiff.OnlyInsertions` | smsrobot-src/smsrobot/librose/config.cpp:1109-1157 | where those there are among the wanted children, in order, a diff only inserts |
| `WmlClearTrack.DiffPairs` | smsrobot-src/smsrobot/librose/config.cpp:1109-1157 | every change of a diff pairs two children that differ, and holds their diff |
| `WmlDiff.ChangesByTag` | smsrobot-src/smsrobot/librose/config.cpp:1178-1194 | changes of different tags commute: the mixed list does to each tag what its own changes do |
| `WmlDiff.AddsByTag` | smsrobot-src/smsrobot/librose/config.cpp:1196-1203 | the same for insertions |
| `WmlDiff.DelsByTag` | smsrobot-src/smsrobot/librose/config.cpp:1205-1219 | the same for deletions |
| `WmlDiff.AttrsRoundTrip` | smsrobot-src/smsrobot/librose/config.cpp:1060-1083 | patched attributes read the same as the wanted ones, and are the same if and only if no attribute that both nodes have is empty in the wanted one |
| `WmlDiff.AttrsTouched` | smsrobot-src/smsrobot/librose/config.cpp:1058-1083 | an attribute is in a diff if and only if the two nodes do not both have it, alike and not empty |
| `WmlDiff.SelfDiff` | smsrobot-src/smsrobot/librose/config.cpp:1053-1158 | the diff of a node to itself is empty if and only if the node has no empty attribute of its own |
| `WmlDiff.RoundTrip` | smsrobot-src/smsrobot/librose/config.cpp:1053-1220 | for all two nodes the patch never throws, and leaves the wanted node (up to reads, or identically) if and only if the condition `Restores` holds, which only looks at empty attributes, empty tags and the order of tags |
| `WmlDiff.DiffOrders` | smsrobot-src/smsrobot/librose/config.cpp:1196-1219 | the tags of the patched node in document order, from the two nodes alone: those of the children that stay, each with the ones inserted in front of it, then the ones inserted at the end |
| `WmlDiff.TagShape` | smsrobot-src/smsrobot/librose/config.cpp:1160-1220 | what the changes, insertions and deletions of one tag together make of its child vector, plainly or with tracking |
| `WmlDiff.NamedRestores` | smsrobot-src/smsrobot/librose/config.cpp:1178-1194 | without empty tags the condition up to reads always holds |
| `WmlDiff.DiffThenPatch` | smsrobot-src/smsrobot/librose/config.hpp:545-552 | the promise of the header: after the patch no sequence of reads distinguishes the node from the wanted one |
| `WmlDiff.InterleavingIsLost` | smsrobot-src/smsrobot/librose/config.cpp:1085-1096 | an input for which the order between tags is not restored: the patch leaves the node as it was, which is not the wanted one |
| `WmlDiff.EmptyAttributeIsDropped` | smsrobot-src/smsrobot/librose/config.cpp:1060-1083 | an input for which an empty attribute is dropped: the patch leaves a node without it |
| `WmlDiff.EmptyTagIsPassedOver` | smsrobot-src/smsrobot/librose/config.cpp:1181-1185 | an input with an empty tag for which a change is silently not applied: a reader can tell the patched node from the wanted one |
| `WmlDiff.ComputeDiff` | smsrobot-src/smsrobot/librose/config.cpp:1053-1158 | the loops of `get_diff` compute the diff that all the statements are about |
| `WmlDiff.ComputeTagDiff` | smsrobot-src/smsrobot/librose/config.cpp:1109-1157 | its loop over two child vectors with the indices `ai`, `bi` and the count of deletions |
| `WmlDiff.ComputeInserts` | smsrobot-src/smsrobot/librose/config.cpp:1058-1070 | its loop over the own attributes |
| `WmlDiff.ComputeDeletes` | smsrobot-src/smsrobot/librose/config.cpp:1072-1083 | its loop over the other attributes |
| `WmlMerge.MergeIsOverlay` | smsrobot-src/smsrobot/librose/config.cpp:1258-1304 | seen from one tag, a merge is the positional overlay of the child vectors: pairs merged or removed, then the longer tail |
| `WmlMerge.MergeKeepsPlaces` | smsrobot-src/smsrobot/librose/config.cpp:1258-1286 | as long as no child goes, the own children keep their places in the document order |
| `WmlMerge.MergeAppendsByTag` | smsrobot-src/smsrobot/librose/config.cpp:1287-1295 | the children that a merge appends come in ascending order of their tags |
| `WmlMerge.LessIsLexicographic` | smsrobot-src/smsrobot/librose/config.cpp:1287-1295 | that order is the one of the map of child vectors: by the first character that differs, a front before the whole |
| `WmlMerge.OneChildMerged` | smsrobot-src/smsrobot/librose/config.cpp:1270-1284 | a child is gone if the one laid over it has the value yes or true for `__remove`, and merged otherwise |
| `WmlMerge.MergeNames` | smsrobot-src/smsrobot/librose/config.cpp:880-894 | `add_to_` and `__remove` by their names and values |
| `WmlMerge.MergeFinds` | smsrobot-src/smsrobot/librose/config.cpp:1258-1304 | without `__remove` and `add_to_`, every attribute on every path is the one of the upper node or else of the lower one |
| `WmlMerge.MergeAssociative` | smsrobot-src/smsrobot/librose/config.cpp:1258-1304 | merging is associative up to the order between tags |
| `WmlMerge.MergeIdempotent` | smsrobot-src/smsrobot/librose/config.cpp:1258-1304 | merging the same node again changes nothing at all |
| `WmlMerge.InheritKeepsOwn` | smsrobot-src/smsrobot/librose/config.cpp:1309-1316 | `inherit_from` is the same overlay with the own values on top |
| `WmlMerge.RemovalsHit` | smsrobot-src/smsrobot/librose/config.cpp:1296-1302 | the deferred removals, with their running correction, remove exactly the children that asked for it |
| `WmlMerge.MarksCorrectable` | smsrobot-src/smsrobot/librose/config.cpp:1299-1304 | the difference of unsigned numbers that corrects a removal never wraps around |
| `WmlMerge.VisitedNext` | smsrobot-src/smsrobot/librose/config.cpp:1268-1285 | the visit counters count the children of each tag that were met, up to the number the other node has |
| `WmlMerge.Assigned` | smsrobot-src/smsrobot/librose/config.cpp:885-893 | an assignment met in key order overrides, whatever came before it |
| `WmlMerge.Added` | smsrobot-src/smsrobot/librose/config.cpp:888-890 | an addition met in key order counts on top of what the earlier keys left |
| `WmlMerge.SortedKeys` | smsrobot-src/smsrobot/librose/config.cpp:885-885 | attributes are gone through in the order of their keys |
| `WmlOrder.Traversal` | smsrobot-src/smsrobot/librose/config.cpp:1027-1042 | while the pairs are in step with the vectors, an ordered traversal meets each child of each tag exactly once, in order |
| `WmlOrder.Appended` | smsrobot-src/smsrobot/librose/config.cpp:675-683 | `add_child` keeps the two representations in step and appends one child to the traversal |
| `WmlOrder.Inserted` | smsrobot-src/smsrobot/librose/config.cpp:697-728 | the loop over the pairs in `add_child_at` does, and inserts the child in front of the one that had its index |
| `WmlOrder.EraseFound` | smsrobot-src/smsrobot/librose/config.cpp:800-815 | lowering the indices first and erasing the found pair afterwards is the same as doing both on the way |
| `WmlOrder.Removed` | smsrobot-src/smsrobot/librose/config.cpp:795-834 | `remove_child` keeps the representations in step and takes one child out of the traversal |
| `WmlOrder.Dropped` | smsrobot-src/smsrobot/librose/config.cpp:744-759 | `clear_children` does, and takes all children of a tag out |
| `WmlOrder.DropTagTagged` | smsrobot-src/smsrobot/librose/config.cpp:744-759 | seen from one tag, `clear_children` empties its own tag and leaves the others alone |
| `WmlOrder.SplicedKids` | smsrobot-src/smsrobot/librose/config.cpp:772-781 | `splice_children` appends the moved children behind all others |
| `WmlOrder.SplicedInStep` | smsrobot-src/smsrobot/librose/config.cpp:772-781 | and keeps the representations in step |
| `WmlOrder.UpdatedAt` | smsrobot-src/smsrobot/librose/config.cpp:1022-1025 | a child edited through its pair is edited at that place of the traversal and nowhere else |
| `WmlOrder.PairIndex` | smsrobot-src/smsrobot/librose/config.cpp:671-671 | the index in a pair is the number of children of its tag before it |
| `WmlClearTrack.ClearsExact` | smsrobot-src/smsrobot/librose/config.hpp:572-578 | the promise of the header, exactly: for all two nodes without the tracking attribute, tracking the diff and then clearing it leaves what applying leaves, and throws nothing, if and only if the diff satisfies `Clears`: under a tag that only has changes, each child's diff satisfies it again; under a tag that also gains or loses children, each change finds a child that it fits at the index where it is looked up, and each changed child either needs nothing undone below it or has moved to an index at which another change undoes exactly that |
| `WmlClearTrack.TrackedThenCleared` | smsrobot-src/smsrobot/librose/config.hpp:572-578 | so it always holds when no tag at any level has both changes and insertions or deletions |
| `WmlClearTrack.WashExact` | smsrobot-src/smsrobot/librose/config.cpp:1222-1253 | clearing with another diff that deletes nothing, as happens to a child that has moved: it restores a tracked node if and only if the diff finds its children there and undoes each mark |
| `WmlClearTrack.FlatExact` | smsrobot-src/smsrobot/librose/config.cpp:1160-1220 | a tracked child that is not cleared is right, but for its own mark, if and only if its diff leaves its children alone |
| `WmlClearTrack.Innocent` | smsrobot-src/smsrobot/librose/config.cpp:1222-1253 | clearing a child that was never tracked changes nothing, and throws unless the diff fits it |
| `WmlClearTrack.NothingDeleted` | smsrobot-src/smsrobot/librose/config.cpp:1222-1253 | where a tag also gains or loses children and the clearing is right, no changed child can lose children itself, because none meets its own clearing |
| `WmlClearTrack.ListByChild` | smsrobot-src/smsrobot/librose/config.cpp:1229-1243 | the clearing of one child vector is right if and only if it is for each place by itself |
| `WmlClearTrack.ShapedAt` | smsrobot-src/smsrobot/librose/config.cpp:1109-1157 | where each changed child ends: its index moved by the difference of the counts, and nothing else changes |
| `WmlClearTrack.MarkSurvives` | smsrobot-src/smsrobot/librose/config.cpp:1196-1253 | an input for which a mark is left behind, with the node it leaves |
| `WmlClearTrack.ClearThrowsHere` | smsrobot-src/smsrobot/librose/config.cpp:1222-1249 | an input for which `clear_diff_track` throws |
| `WmlTrack.TrackNeverThrows` | smsrobot-src/smsrobot/librose/config.cpp:1160-1220 | tracked application never throws, and after the deferred deletions each tag has the right number of children |
| `WmlClearTrack.ClearThrows` | smsrobot-src/smsrobot/librose/config.cpp:1222-1249 | for every diff with a change at an index that the deletions remove, `clear_diff_track` throws |
| `WmlMarks.MarksAreRight` | smsrobot-src/smsrobot/librose/config.cpp:1205-1219 | the children that tracking leaves with the mark of a deletion are the ones that the diff deletes if and only if the tag loses at most one child |
| `WmlMarks.MarksAreIndices` | smsrobot-src/smsrobot/librose/config.cpp:1205-1219 | tracking marks just the children at the indices recorded for the deletions |
| `WmlMarks.TrackedNodeSaysSo` | smsrobot-src/smsrobot/librose/config.cpp:1160-1168 | a tracked node itself carries the attribute that says it is modified |
| `WmlMarks.RemovedAreDoomed` | smsrobot-src/smsrobot/librose/config.cpp:1205-1232 | the deletions, applied at once or made up for after tracking, take out just the children that the comparison gave up, and leave the others in order |
| `WmlMarks.OneMarkForTwo` | smsrobot-src/smsrobot/librose/config.cpp:1205-1219 | an input that loses two children: tracking marks the first of them twice and the second not at all, applying removes both |
| `WmlMarks.MarkedIndices` | smsrobot-src/smsrobot/librose/config.cpp:1123-1130 | the recorded index of a deletion is its position less the deletions before it |
| `WmlConfig.Config.Copy` | smsrobot-src/smsrobot/librose/config.cpp:445-448 | the copy holds the same attributes and the same children in document order |
| `WmlConfig.Config.AddChild` | smsrobot-src/smsrobot/librose/config.cpp:675-683 | the child is appended to its vector and to the pairs; the node gains it at the end |
| `WmlConfig.Config.AddChildAt` | smsrobot-src/smsrobot/librose/config.cpp:697-728 | the child goes in front of the one with its index; beyond the end it throws and changes no child |
| `WmlConfig.Config.InsertPosition` | smsrobot-src/smsrobot/librose/config.cpp:708-725 | the loop over the pairs with the flag `inserted` |
| `WmlConfig.Config.RemoveChild` | smsrobot-src/smsrobot/librose/config.cpp:823-834 | the child is taken out; a missing one changes nothing |
| `WmlConfig.Config.RemovePosition` | smsrobot-src/smsrobot/librose/config.cpp:800-815 | the loop that lowers indices and remembers the found pair |
| `WmlConfig.Config.ClearChildren` | smsrobot-src/smsrobot/librose/config.cpp:744-759 | all children of the tag are taken out |
| `WmlConfig.Config.SpliceChildren` | smsrobot-src/smsrobot/librose/config.cpp:761-782 | all children of the tag leave one node and go to the end of the other |
| `WmlConfig.Config.Equals` | smsrobot-src/smsrobot/librose/config.cpp:1434-1448 | the two traversals in step decide exactly equality of the nodes |
| `WmlConfig.Config.ApplyDiff` | smsrobot-src/smsrobot/librose/config.cpp:1160-1220 | the edits in place leave exactly the patched node, also when they throw half way |
| `WmlConfig.Config.MarkDeletes` | smsrobot-src/smsrobot/librose/config.cpp:1205-1219 | the tracked deletions mark and do not remove |
| `WmlConfig.Config.ClearDiffTrack` | smsrobot-src/smsrobot/librose/config.cpp:1222-1253 | deletions, changes and the final sweep over the children, in this order |
| `WmlConfig.Config.MergeAttributes` | smsrobot-src/smsrobot/librose/config.cpp:880-894 | the loop over the attributes computes the merged attributes |
| `WmlConfig.Config.MergeWith` | smsrobot-src/smsrobot/librose/config.cpp:1258-1304 | the three loops leave exactly the merged node |
| `WmlConfig.Config.MergeShared` | smsrobot-src/smsrobot/librose/config.cpp:1268-1285 | the loop over shared tags, with counters and the list of removals |
| `WmlConfig.Config.AddUnvisited` | smsrobot-src/smsrobot/librose/config.cpp:1287-1294 | the loop over tags not visited to the end |
| `WmlConfig.Config.RemoveMarkedChildren` | smsrobot-src/smsrobot/librose/config.cpp:1296-1302 | the loop over the deferred removals |
| `WmlConfig.Config.InheritFrom` | smsrobot-src/smsrobot/librose/config.cpp:1309-1316 | a scratch copy merged with this node replaces it |
| `WmlClear.Arena.Clear` | smsrobot-src/smsrobot/librose/config.cpp:965-1013 | the explicit stack frees each proper descendant once, children first, and never the root; only existing nodes are read |
| `WmlClear.Arena.Delete` | smsrobot-src/smsrobot/librose/config.cpp:986-987 | a node is deleted only when its children map is empty, so that its own destructor has nothing to do |
| `WmlClear.Arena.Turn` | smsrobot-src/smsrobot/librose/config.cpp:979-1008 | one turn of the loop keeps the stack, the remaining nodes and the freed ones in agreement and makes progress |
| `WmlClear.FreeLeaf` | smsrobot-src/smsrobot/librose/config.cpp:983-987 | the turn that frees a leaf |
| `WmlClear.Descend` | smsrobot-src/smsrobot/librose/config.cpp:988-995 | the turn that goes down |
| `WmlClear.Ascend` | smsrobot-src/smsrobot/librose/config.cpp:1000-1006 | the turn that frees an inner node, or ends at the root |
| `WmlClear.Unique` | smsrobot-src/smsrobot/librose/config.cpp:1000-1006 | an id about to be freed was not freed before, is not needed later and is not the root |
| `SweepCover.CalcRects` | smsrobot-src/smsrobot/librose/area_anim.cpp:323-414 | the rectangles left cover every point of every input, stay in any box around the inputs, and every segment count ends at zero |
| `SweepCover.SortedEdges` | smsrobot-src/smsrobot/librose/area_anim.cpp:325-333 | the events are in order, without duplicates, and are the edges of the inputs |
| `SweepCover.SameCount` | smsrobot-src/smsrobot/librose/area_anim.cpp:338-347 | nothing opens or closes inside a segment, so a copied segment has the right count |
| `SweepCover.LowerKeeps` | smsrobot-src/smsrobot/librose/area_anim.cpp:338-351 | making the lower border, and restarting an empty segment, keeps the invariant |
| `SweepCover.UpperKeeps` | smsrobot-src/smsrobot/librose/area_anim.cpp:353-359 | making the upper border keeps it |
| `SweepCover.OpenKeeps` | smsrobot-src/smsrobot/librose/area_anim.cpp:361-365 | counting a rectangle in keeps it |
| `SweepCover.EmitSegment` | smsrobot-src/smsrobot/librose/area_anim.cpp:368-397 | emitting a finished area, joined to the last one or not, loses no covered point |
| `SweepCover.JoinedWhenFilled` | smsrobot-src/smsrobot/librose/area_anim.cpp:370-392 | a finished area and the last rectangle become one if and only if they fill at least 51 percent of the least rectangle around both |
| `SweepCover.HullIsLeast` | smsrobot-src/smsrobot/librose/area_anim.cpp:377-383 | what they become is the least rectangle around both |
| `SweepCover.Erase` | smsrobot-src/smsrobot/librose/area_anim.cpp:399-405 | erasing an empty segment loses nothing |
| `SweepCover.EndClosing` | smsrobot-src/smsrobot/librose/area_anim.cpp:366-412 | after a right edge its rectangle is fully accounted for |
| `FormulaLexer.GetTokenAt` | smsrobot-src/smsrobot/librose/formula_tokenizer.cpp:38-253 | the loops over the iterator read exactly the specified token and move exactly over it |
| `FormulaLexer.TokenSize` | smsrobot-src/smsrobot/librose/formula_tokenizer.cpp:38-253 | a token takes at least one character and never more than there are |
| `FormulaLexer.WordToken` | smsrobot-src/smsrobot/librose/formula_tokenizer.cpp:41-92 | letters and underscores as far as they go are one token: one of the five word operators, one of the four keywords, or a name |
| `FormulaLexer.NumberToken` | smsrobot-src/smsrobot/librose/formula_tokenizer.cpp:117-150 | digits are an integer, with one dot a decimal number, with two dots an error |
| `FormulaLexer.SymbolToken` | smsrobot-src/smsrobot/librose/formula_tokenizer.cpp:92-253 | the operators and brackets of one character |
| `FormulaLexer.PairToken` | smsrobot-src/smsrobot/librose/formula_tokenizer.cpp:154-253 | the operators of two characters, and what their first characters are alone |
| `FormulaLexer.QuotedToken` | smsrobot-src/smsrobot/librose/formula_tokenizer.cpp:190-253 | strings and comments go to their closing mark; without one they are an error |
| `FormulaLexer.SlicesCover` | smsrobot-src/smsrobot/librose/formula_tokenizer.cpp:38-253 | the slices of all tokens make up the whole text |
| `FormulaLexer.TokenStays` | smsrobot-src/smsrobot/librose/formula_tokenizer.cpp:38-253 | a token in front of a space is read back with the same kind and length, whatever follows |
| `FormulaLexer.PrintedTokensReadBack` | smsrobot-src/smsrobot/librose/formula.cpp:653-661 | printing the tokens that the parser is given, and reading the print, gives the same tokens |
| `FormulaLexer.PrintedWithSpaces` | smsrobot-src/smsrobot/librose/formula.cpp:653-661 | the print is the texts in order, each with a space behind it |
| `FormulaParser.FindSplit` | smsrobot-src/smsrobot/librose/formula.cpp:843-860 | the scan finds the last of the loosest operators outside brackets, or fails on an operator without precedence |
| `FormulaParser.SplitIsChosen` | smsrobot-src/smsrobot/librose/formula.cpp:843-860 | what that operator is, without reference to the scan |
| `FormulaParser.ScanTree` | smsrobot-src/smsrobot/librose/formula.cpp:843-860 | scanning the tokens of a well-shaped tree meets the operators on its spine and none inside brackets |
| `FormulaParser.ParseIsTheTree` | smsrobot-src/smsrobot/librose/formula.cpp:862-1000 | the parser returns a tree if and only if it is the well-shaped tree of exactly these tokens |
| `FormulaParser.TwoOperators` | smsrobot-src/smsrobot/librose/formula.cpp:620-647 | for all two operators by their texts: the one of the tighter class takes the operand between them, the left one within a class |
| `FormulaParser.PrefixFirst` | smsrobot-src/smsrobot/librose/formula.cpp:620-647 | a `not` or `-` in front takes an operator of a tighter class into its operand, and no other |
| `FormulaParser.PrefixBehind` | smsrobot-src/smsrobot/librose/formula.cpp:862-1000 | a `not` or `-` directly behind an operator belongs to the operand |
| `FormulaParser.ParenthesesHold` | smsrobot-src/smsrobot/librose/formula.cpp:862-1000 | parentheses around tokens that can be parsed hold them together |
| `FormulaParser.SingleToken` | smsrobot-src/smsrobot/librose/formula.cpp:903-966 | what a token by itself is: an operand, the word `functions`, or an error |
| `FormulaParser.DefinitionIsOutside` | smsrobot-src/smsrobot/librose/formula.cpp:815-838 | the word `def` before a name hands the tokens to the definition, a part not modelled, whatever follows |
| `FormulaParser.KeywordFirst` | smsrobot-src/smsrobot/librose/formula.cpp:815-817 | no other keyword before an operand, and `def` before nothing but a name |
| `FormulaParser.Enclosed` | smsrobot-src/smsrobot/librose/formula.cpp:843-860 | brackets of either kind hide the operators of an expression between them |
| `FormulaParser.Applied` | smsrobot-src/smsrobot/librose/formula.cpp:862-966 | an operand directly before an expression in brackets goes to the index or the call, parts not modelled, and is an error for a call of anything but a name |
| `FormulaParser.AppliedThenOperator` | smsrobot-src/smsrobot/librose/formula.cpp:843-860 | behind a closing bracket operators count again |
| `FormulaParser.TwoOperands` | smsrobot-src/smsrobot/librose/formula.cpp:903-966 | two operands beside each other are an error, also in front of an expression in parentheses |
| `FormulaParser.ListIsOutside` | smsrobot-src/smsrobot/librose/formula.cpp:865-888 | an expression between square brackets goes to the list, a part not modelled |
| `FormulaParser.Unambiguous` | smsrobot-src/smsrobot/librose/formula.cpp:620-647 | no token list has two well-shaped readings |
| `FormulaParser.ChainsParse` | smsrobot-src/smsrobot/librose/formula.cpp:843-1000 | atoms joined by binary operators of the table always parse, and keep their order |
| `FormulaEval.EvalIsEager` | smsrobot-src/smsrobot/librose/formula.cpp:423-487 | evaluating `where` clauses lazily and once gives the value of binding them all at once in the enclosing scope, exceptions included, and leaves every remembered value right |
| `FormulaEval.GetIsEager` | smsrobot-src/smsrobot/librose/formula.cpp:445-457 | looking one name up in a chain of scopes does |
| `FormulaEval.ListAttributes` | smsrobot-src/smsrobot/librose/formula.cpp:219-262 | what `size`, `empty`, `first` and `last` of a list are, and when the enclosing scope answers instead |
| `FormulaDebugger.EvaluateArgCallback` | smsrobot-src/smsrobot/librose/formula_debugger.cpp:180-192 | under the debugger the value is the same, and the trace gains just the log of the call: its opening record, those of the parts that are evaluated, and its closing record if there is a value |
| `FormulaDebugger.EvaluateFormulaCallback` | smsrobot-src/smsrobot/librose/formula_debugger.cpp:195-207 | the record of the formula stands around the log of its expression |
| `FormulaDebugger.EvaluateFormula` | smsrobot-src/smsrobot/librose/formula_debugger.cpp:154-207 | the trace is just the log of the formula; it reads back as calls numbered in order and closed innermost first, and the stack is given back if and only if nothing was thrown |
| `FormulaDebugger.Execute` | smsrobot-src/smsrobot/librose/formula.cpp:104-487 | evaluation with or without a debugger is the same; with one, each part that is evaluated, and no other, is called in its role and leaves its records |
| `FormulaDebugger.GetValue` | smsrobot-src/smsrobot/librose/formula.cpp:445-457 | the lookup of a name with its memo table |
| `FormulaTrace.FormulaReplays` | smsrobot-src/smsrobot/librose/formula_debugger.cpp:154-207 | the log of every formula reads back as calls numbered in order, each at its level and closed before the one around it; it leaves calls open if and only if something was thrown |
| `FormulaTrace.CallReplays` | smsrobot-src/smsrobot/librose/formula_debugger.cpp:154-192 | the same for every expression in every scope |
| `FormulaTrace.OperatorRecords` | smsrobot-src/smsrobot/librose/formula.cpp:357-359 | the eight records of an operator between two values, one by one |
| `FormulaTrace.OtherRoles` | smsrobot-src/smsrobot/librose/formula.cpp:104-487 | in which role the parts of the other expressions are called |
| `Interpolation.DoInterpolation` | smsrobot-src/smsrobot/librose/formula_string_utils.cpp:45-182 | the in-place loop from the last dollar sign to the first comes to the walk that the theorem is about |
| `Interpolation.WalkSubstitutes` | smsrobot-src/smsrobot/librose/formula_string_utils.cpp:45-182 | a template, with names and formulas put together from further pieces, is rewritten to its substitution whatever stands behind it: inserted values are never looked into |
| `Interpolation.InterpolationIsSubstitution` | smsrobot-src/smsrobot/librose/formula_string_utils.cpp:45-182 | hence interpolating a template is simultaneous substitution |
| `Interpolation.NameInText` | smsrobot-src/smsrobot/librose/formula_string_utils.cpp:45-182 | letters, digits and underscores behind a dollar sign are replaced by the value of the variable of that name, between any texts, up to the first other character; a bar there goes too |
| `Interpolation.NameEndsAt` | smsrobot-src/smsrobot/librose/formula_string_utils.cpp:119-160 | any character but letters, digits, underscore, dot and brackets ends a name |
| `Interpolation.PathIsName` | smsrobot-src/smsrobot/librose/formula_string_utils.cpp:119-150 | a dot with a plain name behind it, and a plain name in brackets, continue a name |
| `Interpolation.DollarEscaped` | smsrobot-src/smsrobot/librose/formula_string_utils.cpp:66-70 | a dollar sign before a bar, and one at the end, stand for themselves |
| `Interpolation.OpenFormulaDropped` | smsrobot-src/smsrobot/librose/formula_string_utils.cpp:71-107 | a formula without its closing parenthesis is dropped with all that follows |
| `Interpolation.FormulaByItself` | smsrobot-src/smsrobot/librose/formula_string_utils.cpp:71-117 | a formula may hold pairs of parentheses, and strings and comments with any parentheses in them |
| `Interpolation.OpenName` | smsrobot-src/smsrobot/librose/formula_string_utils.cpp:120-178 | a name without an end mark ends at the first character that cannot belong to it, which is kept |
| `Interpolation.DotAfterName` | smsrobot-src/smsrobot/librose/formula_string_utils.cpp:141-155 | a full stop behind a name stays in the text |
| `Interpolation.TwoDotsAfterName` | smsrobot-src/smsrobot/librose/formula_string_utils.cpp:137-139 | two dots end a name, whatever comes behind them |
| `Interpolation.NameEnd` | smsrobot-src/smsrobot/librose/formula_string_utils.cpp:120-155 | the loops that find the end of a name: brackets, two dots, a last dot |
| `Interpolation.FormulaEnd` | smsrobot-src/smsrobot/librose/formula_string_utils.cpp:75-105 | the loop that finds the closing parenthesis, with strings and comments |
| `FormulaStrings.FillIsValued` | smsrobot-src/smsrobot/librose/formula.cpp:588-601 | inserting the values from the last formula to the first is replacing them from left to right, also at equal positions |
| `FormulaStrings.SplitKeepsAll` | smsrobot-src/smsrobot/librose/formula.cpp:557-576 | reading a text into pieces loses nothing, and an open brace that is never closed is text |
| `FormulaStrings.IdentityGivesSource` | smsrobot-src/smsrobot/librose/formula.cpp:588-601 | with each formula as its own value the text comes back |
| `FormulaStrings.CutAll` | smsrobot-src/smsrobot/librose/formula.cpp:561-576 | the loop that erases the formulas records where they were |
| `FormulaStrings.StringExpression.constructor` | smsrobot-src/smsrobot/librose/formula.cpp:557-581 | the literal holds the bare text and the formulas in reverse |
| `FormulaStrings.StringExpression.Execute` | smsrobot-src/smsrobot/librose/formula.cpp:588-601 | its value is the text with each formula replaced |
| `UnitMap.IndexFormula` | smsrobot-src/smsrobot/librose/base_map.cpp:23 | a cell has the index that the macro gives it, `w_ * y + x` |
| `UnitMap.LookupIsScan` | smsrobot-src/smsrobot/librose/base_map.cpp:51-70 | a lookup in one cell finds what a search of the whole array finds |
| `UnitMap.ShiftSorts` | smsrobot-src/smsrobot/librose/base_map.cpp:108-146 | moving a unit in front of the first one it goes before puts the array in order |
| `UnitMap.RowByRow` | smsrobot-src/smsrobot/librose/base_unit.cpp:163-166 | in order means row by row, each row from the left |
| `UnitMap.ShiftKeepsElements` | smsrobot-src/smsrobot/librose/base_map.cpp:129-145 | and loses none |
| `UnitMap.BaseMap.SortMap` | smsrobot-src/smsrobot/librose/base_map.cpp:108-146 | the shifting loops do exactly this, and keep every back-index right |
| `UnitMap.BaseMap.Insert` | smsrobot-src/smsrobot/librose/base_map.cpp:148-192 | the unit is in the array and in its cell, nothing else changes, order is kept; an occupied cell or an invalid location changes nothing |
| `UnitMap.BaseMap.Erase` | smsrobot-src/smsrobot/librose/base_map.cpp:385-423 | the unit is in neither any more, nothing refers to it, order is kept |
| `UnitMap.BaseMap.Extract` | smsrobot-src/smsrobot/librose/base_map.cpp:323-344 | the unit leaves the grid and stays in the array; the runtime check on its index never fails |
| `UnitMap.BaseMap.Place` | smsrobot-src/smsrobot/librose/base_map.cpp:346-363 | grid and array agree afterwards if and only if the cell was free; the check of all indices never fails |
| `UnitMap.BaseMap.Move` | smsrobot-src/smsrobot/librose/base_map.cpp:101-105 | a move keeps the agreement if and only if the destination is free or the same cell |
| `UnitMap.BaseMap.ExpandCoorMap` | smsrobot-src/smsrobot/librose/base_map.cpp:194-218 | every earlier lookup is kept and the new columns are empty |
| `UnitMap.BaseMap.Repitched` | smsrobot-src/smsrobot/librose/base_map.cpp:208-213 | copying row by row into longer rows puts each cell at its new index |
| `UnitMap.BaseMap.ConflictCalculateLoc` | smsrobot-src/smsrobot/librose/base_map.cpp:220-242 | which cell it is: the wished one if it is free, else the leftmost free one of its row beyond the game map, else the first of two new columns if the wish was inside the game map, else the wished one all the same; free if and only if there was room |
| `UnitMap.BaseMap.SetRect` | smsrobot-src/smsrobot/librose/base_unit.cpp:109-126 | a new rectangle puts the unit, lifted off first, into the cell so assigned and changes no other cell; grid and array agree afterwards if and only if there was room |
| `UnitMap.OverlaysLeaveASlot` | smsrobot-src/smsrobot/librose/base_map.cpp:186-188 | with overlays only, a free cell implies a free slot, so that insertion never runs over the array |
| `UnitMap.LayersFillTheArray` | smsrobot-src/smsrobot/librose/base_map.cpp:72-86 | with both layers it can: a map with a free cell and no free slot |
| `CharBlocks.InsertIsAs` | smsrobot-src/smsrobot/librose/font.cpp:91-111 | insertion keeps the ranges in order and apart, changes no association, and associates exactly the free points before the first block in the range |
| `CharBlocks.InsertKeepsPromise` | smsrobot-src/smsrobot/librose/font.cpp:90-111 | the comment above the method (all free parts of the range) holds if and only if no block begins in the range or everything behind its begin is taken |
| `CharBlocks.PartLeftOut` | smsrobot-src/smsrobot/librose/font.cpp:90-111 | an input for which a part of the range is left out |
| `CharBlocks.CompressIsAs` | smsrobot-src/smsrobot/librose/font.cpp:112-129 | compression keeps every association, adds one only in gaps between blocks of one font, and leaves no equal neighbours |
| `CharBlocks.CharBlockMap.Insert` | smsrobot-src/smsrobot/librose/font.cpp:91-111 | the recursive calls come to this one stretch, and end |
| `CharBlocks.CharBlockMap.Compress` | smsrobot-src/smsrobot/librose/font.cpp:116-129 | the loop that erases while it goes |
| `CharBlocks.CharBlockMap.GetId` | smsrobot-src/smsrobot/librose/font.cpp:130-140 | the ordered lookup finds what a search of all ranges finds |
| `TextCache.Cache.Find` | smsrobot-src/smsrobot/librose/font.cpp:556-570 | the list is always the front, of the cache's length, of all texts by their last use, each once; the text asked for is returned and in front |
| `TextCache.Cache.Resize` | smsrobot-src/smsrobot/librose/font.cpp:547-553 | a shorter list is its own front; after a change of length the list is the front of all texts again if and only if nothing had been lost |
| `TextCache.HitKeepsFront` | smsrobot-src/smsrobot/librose/font.cpp:560-561 | a hit moves one place of the list to the front |
| `TextCache.MissKeepsFront` | smsrobot-src/smsrobot/librose/font.cpp:562-567 | a miss drops the last one of a full list |
| `BackgroundAudio.SomeFree` | smsrobot-src/smsrobot/librose/base_instance.cpp:351-367 | with fewer than 2^32 - 1 callbacks some valid id is free |
| `BackgroundAudio.Instance.GetCallbackId` | smsrobot-src/smsrobot/librose/base_instance.cpp:351-367 | the search with wrap-around ends, at the first free valid id after the last one |
| `BackgroundAudio.ConnectIsSafe` | smsrobot-src/smsrobot/librose/base_instance.cpp:369-385 | connecting takes the lock when it is due and hands out an id that is valid and not in use |
| `BackgroundAudio.TickIsFilter` | smsrobot-src/smsrobot/librose/base_instance.cpp:410-423 | a walk that erases while it iterates, and whose callbacks change state, comes to one filter: all detection callbacks stay or none |
| `BackgroundAudio.TickEnds` | smsrobot-src/smsrobot/librose/ble.cpp:242-258 | a tick takes out a detection that is no longer wanted or whose time has come, no other, and the callbacks of the app that ask for it |
| `BackgroundAudio.ConnectionEndsDetection` | smsrobot-src/smsrobot/librose/ble.cpp:361-383 | after a reported connection the next tick, at any time, takes the detection out and gives up the lock unless other callbacks remain; what the two flags are then |
| `BackgroundAudio.ScanBegins` | smsrobot-src/smsrobot/librose/ble.cpp:274-294 | a scan begins a detection if and only if one is due: in the background, with an address, nothing connecting or connected, and none running |
| `BackgroundAudio.LossBegins` | smsrobot-src/smsrobot/librose/ble.cpp:385-404 | losing the device in the background begins one, unless that is switched off |
| `BackgroundAudio.BackgroundBegins` | smsrobot-src/smsrobot/librose/ble.cpp:262-272 | so does going to the background without a device |
| `BackgroundAudio.DetectionLasts` | smsrobot-src/smsrobot/librose/ble.cpp:242-258 | a detection that nothing ends before lasts through any run, until the first tick at or after its deadline |
| `BackgroundAudio.ZeroDeadlineLasts` | smsrobot-src/smsrobot/librose/ble.cpp:224-229 | a deadline that comes to zero is none: no tick ends that detection |
| `BackgroundAudio.FlagsAfter` | smsrobot-src/smsrobot/librose/ble.cpp:306-358 | what asking for a connection, giving it up and the release of a peripheral do to the two flags |
| `BackgroundAudio.ForegroundDrops` | smsrobot-src/smsrobot/librose/base_instance.cpp:469-485 | coming back to the foreground drops all callbacks, the lock and the detection |
| `BackgroundAudio.StepIsSafe` | smsrobot-src/smsrobot/librose/base_instance.cpp:425-491 | no event that the environment may send makes a runtime check fail; the lock is held exactly in the background with callbacks |
| `BackgroundAudio.RunIsSafe` | smsrobot-src/smsrobot/librose/base_instance.cpp:351-491 | nor does any run of them |
| `BackgroundAudio.RunFromStartIsSafe` | smsrobot-src/smsrobot/librose/base_instance.cpp:143-170 | in particular from the start of the app |
| `BackgroundAudio.IllegalStepBreaks` | smsrobot-src/smsrobot/librose/base_instance.cpp:449-491 | every other event breaks a check at once (unless the app's hook never gets an id), or, for callbacks connected on the way back to the foreground, at the next move to the background |
| `BackgroundAudio.DeviceKeeps` | smsrobot-src/smsrobot/librose/ble.cpp:300-404 | with a device that makes one connection at a time and reports what it was asked for, the two flags follow it and the checks on them hold by themselves |
| `BackgroundAudio.RunWithDeviceIsSafe` | smsrobot-src/smsrobot/librose/ble.cpp:300-404 | so no check fails in any run of the app with such a device |
| `BackgroundAudio.TwoRequestsBreak` | smsrobot-src/smsrobot/librose/ble.cpp:361-383 | a run with a device that works on two requests at once, in which a check fails |
| `BackgroundAudio.Instance.BackgroundConnect` | smsrobot-src/smsrobot/librose/base_instance.cpp:369-385 | the code takes the lock before the first callback, finds the id and enters the callback, as the proved step does |
| `BackgroundAudio.Instance.BackgroundDisconnectTh` | smsrobot-src/smsrobot/librose/base_instance.cpp:387-395 | the lock is released with the last callback |
| `BackgroundAudio.Instance.HandleBackground` | smsrobot-src/smsrobot/librose/base_instance.cpp:410-423 | the loop with the erasing iterator |
| `BackgroundAudio.Instance.DidEnterBackground` | smsrobot-src/smsrobot/librose/base_instance.cpp:449-463 | the event, with callbacks connected by the app on the way |
| `BackgroundAudio.Instance.DidEnterForeground` | smsrobot-src/smsrobot/librose/base_instance.cpp:469-485 | the event that drops all callbacks |
| `BackgroundAudio.Instance.StartScan` | smsrobot-src/smsrobot/librose/ble.cpp:274-294 | in the background a scan starts the detection of a reconnect, once |
| `BackgroundAudio.Instance.DidDisconnect` | smsrobot-src/smsrobot/librose/ble.cpp:385-404 | a lost device is given up and searched for again |
| `BackgroundAudio.Tble.BackgroundCallback` | smsrobot-src/smsrobot/librose/ble.cpp:242-258 | the callback asks to be erased exactly when the detection is over |
| `BackgroundAudio.Tble.DidConnect` | smsrobot-src/smsrobot/librose/ble.cpp:361-383 | a found device ends the detection |

## Left out

- WmlClearTrack.ClearsExact: is about nodes that do not carry the tracking attribute to begin with, which is reserved for it.
- WmlConfig.Config.AddChild: child nodes are values inside the object, so aliasing of child objects, and references to children that callers keep, are not
  modelled. `WmlClear` has nodes by identity.
- FormulaParser.ParseIsTheTree: `def`, `where` clauses, square brackets and function calls, both with or without anything between
  their brackets, are the outcome `Outside`. Empty parentheses and a failed table lookup are `Failed`, as in the source.
- FormulaEval.EvalIsEager: dice, function calls, the `[ ]` operator, string templates inside formulas, map literals, `self` and
  callables other than scopes and lists are not modelled; the memo tables are passed along as values.
- FormulaDebugger.EvaluateArgCallback: breakpoints open a dialog and change nothing that is modelled; the printed form of an
  expression is the expression itself.
- FormulaLexer.GetTokenAt: characters from 0x80 on, whose order depends on the signedness of `char`, and the read one past the end after a `!`, `.`,
  `<`, `>` or `-` in last place, which is taken as finding nothing there.
- Interpolation.InterpolationIsSubstitution: is about variables closed by `|`; an open end depends on what follows, which may be an inserted value.
  `OpenName`, `DotAfterName` and `TwoDotsAfterName` say what one such end comes to.
- SweepCover.CalcRects: sorting and removal of duplicates are one insertion sort, and areas do not overflow. How much more than
  the inputs is covered is not bounded: areas that were joined reach beyond them, and so does a segment inside a rectangle that is
  taken up again at its old start.
- UnitMap.BaseMap.Insert: units touch one cell, as `base_unit` itself has it; a virtual `set_location` that touches more is not modelled. Freeing the
  unit in `erase2` is its absence from the map.
- BackgroundAudio.StepIsSafe: events do not overlap; the race between two threads that a comment mentions is not modelled, nor is the unused
  `background_disconnect`. Callbacks do not connect or disconnect others. Music and scanning themselves have no effect here.
- TextCache.Cache.Find: the length of the cache is not zero, for which the source would drop an element of an empty list.
- The packed draw key of `animation.cpp`: its order is plain mixed-radix arithmetic. (The even columns come first there, not the
  odd ones as a comment says.)
- The terrain builder, `variant` arithmetic, `t_string`, reading and writing WML files, drawing, windows and all calls into SDL.
