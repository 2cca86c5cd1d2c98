# tager tag-graph engine in Dafny

tager organises files by attaching them to named tags. Tags can also name other
tags as children, so the tags form a graph rather than a tree. Everything lives
in one configuration object, a nestmap tree.
- `root.tags` maps each tag name to a node. A node may hold a `tags` map of child
  edges (name to name), a `files` map (absolute path to the path as the user
  typed it) and a `comment`.
- `root.current` optionally names the current tag, which commands reach through
  the alias `.`.

This project models the engine behind the commands:
- name resolution: `parseTagName`, `getTag`;
- path walking: `nestTag`;
- the pre-order traversal `recNestTag` and the closure queries built on it:
  `getChildTags`, `getFiles`;
- the list algebra `andStrings` and `uniqueStrings`, and the AND query
  `getFilesAND`;
- every in-place command body: `create`, `delete`, `ch`, `add`/`remove tags`,
  `add`/`remove file`, `add comment`;
- the two "autoremove" reconciliations and their `autoremovable*` query forms;
- the `show file` and `show comment` reads.

Modules:
- `OrderedMap`: nestmap's maps are ordered, and the commands' results depend on
  `Keys()` order. So a map is an `OMap`: a key sequence plus a `map`, with `Set`
  appending a new key and `Remove` dropping one.
- `TagGraph`: the store, name resolution, the traversal, the closure queries and
  `nestTag`.
- `Store`: the mutable configuration, as a class `Tager` with fields `tags` and
  `current`, plus `tagAddFile`.
- `MainCommands`, `TagCommands`, `FileCommands`, `CommentCommands`: the command
  bodies of main.go, tag.go, file.go and comment.go.
  - Each body is a method that updates the `Tager` in place, with `modifies`.
  - It is proved equal to a function of the old store.
  - Lemmas about that function state what the command promises.
- `Autoremove`: the scan that the autoremove commands share.
- `Queries`: `getFilesAND` and the `autoremovable*` queries.
- `Lists`: `andStrings`, `uniqueStrings`, progressive AND.
- `PathStrings`: `strings.Join`/`strings.Split` on one separator.
- `FileSystem`: the filesystem as parameters.
- `Scenarios`: concrete stores showing behaviour on shared descendants, deleted
  tags and cycles.

## Behaviour of the graph code worth knowing

- **No cycle check.** `add tags` rejects only a self-edge (tag.go:118), and it
  does so by aborting before the save. Two saved `add tags` calls build
  `a -> b -> a` (`Scenarios.AddTagsMakesTwoCycle`).
- **No visited set.** `recNestTag` (main.go:502-510) keeps no visited set.
  - A shared descendant is listed once per path (`Scenarios.DiamondVisitsSharedTwice`).
  - On a cycle the recursion never ends (`Scenarios.CycleTraversalGrowsWithFuel`).
  - The model bounds the depth by the number of tags. On an acyclic store the
    bound cuts nothing off (`TagGraph.TraverseIsComplete`). There the traversal
    visits exactly the tags reachable through child edges
    (`TagGraph.TraverseVisitsReachable`).
- **Two `create` commands.** main.go's `create` leaves an existing tag alone.
  The older `create` in tag.go overwrites it with a fresh tag
  (`TagCommands.CreateAnywayEffect`).
- **Unknown tags.** `show file` skips unknown tags and keeps duplicates.
  `getFilesAND` fails on the first unknown tag and removes duplicates.

## Model

| member | source | states |
|---|---|---|
| Lists.AndStrings | main.go:446-461 | the loop returns `And(a, b)`; each element is in both lists, and the result is no longer than `a` |
| Lists.AndCounts | main.go:446-461 | each value occurs in the result exactly as often as in `a` when it occurs in `b`, and never otherwise (a's repeats kept) |
| Lists.AndMembers | main.go:446-461 | a value is in the result iff it is in `a` and in `b`; length at most `|a|` |
| Lists.AndLength | main.go:446-461 | the result is never longer than `a` |
| Lists.AndAppend | main.go:448-459 | the filter works element by element: filtering `a1 + a2` is filtering `a1` then `a2`, so `a`'s order is kept |
| Lists.AndAllPresent | main.go:446-461 | when every element of `a` occurs in `b`, the result is `a` itself |
| Lists.UniqueStrings | main.go:462-474 | the loop with its seen-map returns `Unique(ss)`, which has no duplicates and holds exactly the input's values |
| Lists.UniqueMembers | main.go:462-474 | the output holds every input value and nothing else |
| Lists.UniqueNoDup | main.go:462-474 | the output has no duplicates |
| Lists.UniqueOfNoDup | main.go:462-474 | a list without duplicates is returned unchanged |
| Lists.UniqueIdempotent | main.go:462-474 | applying it twice equals applying it once |
| Lists.UniqueFirstOccurrenceOrder | main.go:462-474 | output values appear in the order of their first occurrence in the input |
| Lists.KeepInAll | struct.go:143-149 | the one-pass reading of progressive AND is never longer than the first list |
| Lists.AndAllIsFilter | struct.go:143-149 | intersecting the first list with each later list in turn equals keeping the first list's elements that are in every later list, in the first list's order |
| Lists.KeepInAllNone | struct.go:143-145 | with a single list the accumulator is that list unchanged |
| Lists.KeepInAllMembers | struct.go:143-149 | a value survives iff it is in the first list and in every later one |
| OrderedMap.OMap.Set | tag.go:122 | `Child(k).Set(v)`: the value is stored, an existing key keeps its place, a new key is appended, the map stays well-formed |
| OrderedMap.OMap.Remove | main.go:284 | `Child(k).Remove()`: the key leaves the map and the key order, the other keys keep their order; an absent key changes nothing |
| OrderedMap.PruneRemovesRejected | tag.go:276-281 | removing the keys of a key snapshot that the test rejects removes exactly those keys, keeps the others in order with their values |
| OrderedMap.PruneKeepsAll | tag.go:276-279 | when the test accepts every key, nothing is removed |
| OrderedMap.PruneIdempotent | tag.go:274-282 | after a scan only accepted keys remain, and a second scan changes nothing |
| PathStrings.Split | main.go:488 | `strings.Split` gives at least one piece and no piece holds the separator |
| PathStrings.JoinSplit | main.go:488 | joining the pieces of a split gives the string back |
| PathStrings.SplitJoin | main.go:488 | splitting a join of at least one separator-free piece gives the pieces back |
| TagGraph.ParseTagName | main.go:435-445 | `.` becomes the current tag, or an error when none is set; any other name is returned unchanged |
| TagGraph.GetTag | struct.go:74-89 | `.` resolves to `current` (error when unset); the result is a stored tag, the name itself for any other name, and an unknown name is an error |
| TagGraph.GetTagIsParseThenLookup | struct.go:74-89 | `getTag` is `parseTagName` followed by a lookup among the stored tags |
| TagGraph.RecNestTag | main.go:502-510 | with depth left, every child key of a node that has a `tags` map is visited with the current path |
| TagGraph.VisitChildren | main.go:506-509 | the loop over the child keys visits each of them with the current path |
| TagGraph.VisitPathsExtend | main.go:502-510 | every visit's path starts with the path the traversal began with |
| TagGraph.FuelSaturates | main.go:502-510 | on an acyclic (ranked) store, any depth bound above a tag's rank gives the same traversal below it |
| TagGraph.CompactRanked | main.go:502-510 | every acyclic (ranked) store has a rank below the number of tags that still falls along every edge |
| TagGraph.TraverseIsComplete | main.go:502-510 | on any acyclic store the traversal bounded by the number of tags equals the traversal with any larger bound, so the bound truncates nothing |
| TagGraph.VisitedIsReachable | main.go:502-510 | every tag the traversal from an existing tag visits is reachable from it through one or more child edges, whatever the depth bound |
| TagGraph.ChildVisitedIsReachable | main.go:506-509 | every tag visited by the loop over a tag's children is reachable from that tag |
| TagGraph.SubtreeInChildren | main.go:506-509 | everything visited below one child is part of its parent's visits |
| TagGraph.ReachableIsVisited | main.go:502-510 | with a depth bound at least the length of a walk, the traversal from its first tag visits its last |
| TagGraph.ChainRankBound | main.go:502-510 | on a ranked store a walk from a tag has at most its rank plus one edges |
| TagGraph.TraverseVisitsReachable | main.go:502-510 | on an acyclic store the traversal from an existing tag visits a name iff it is reachable through one or more child edges |
| TagGraph.VisitPaths | struct.go:98-100 | one `path/name` entry per visit, in visit order |
| TagGraph.GetChildTags | struct.go:91-107 | fails exactly when `getTag` fails, naming the tag; without recursion it returns the direct child keys (empty without a `tags` map) |
| TagGraph.GetFiles | struct.go:108-128 | fails exactly when `getTag` fails; the tag's own file keys come first; without recursion they are the whole result |
| TagGraph.VisitedFilesContains | struct.go:119-124 | every file key of every visited existing tag is collected |
| TagGraph.RecursiveListsDirectChildren | struct.go:97-100 | recursive `getChildTags` lists every direct child `k` as `tag/k` |
| TagGraph.RecursiveFilesIncludeChildren | struct.go:113-127 | recursive `getFiles` includes every file of every existing direct child |
| TagGraph.RecursiveListsReachable | struct.go:91-107 | on an acyclic store recursive `getChildTags` lists every reachable tag, under some path ending in "/" and its name |
| TagGraph.RecursiveFilesIncludeReachable | struct.go:108-128 | on an acyclic store recursive `getFiles` holds the files of every existing reachable tag, grandchildren and deeper included |
| TagGraph.FollowsSnoc | main.go:491-499 | the walk succeeds on one more segment iff it succeeded so far and the segment is a key of the map the walk is in |
| TagGraph.FollowsPrefix | main.go:495-497 | a walk that fails on a prefix fails on the whole |
| TagGraph.WalkSegments | main.go:490-500 | skipping empty segments, the walk succeeds iff the first segment is a stored tag and each later one is a child key of the one before; it answers the last segment's tag (the root map when there is none) and otherwise "tag not exists" |
| TagGraph.SegmentFails | main.go:495-497 | a segment that is not a child of the one before fails the whole walk |
| TagGraph.NestTag | main.go:487-501 | `nestTag` succeeds exactly when the non-empty segments of the joined and re-split arguments form such a walk |
| TagGraph.NestTagSegments | main.go:488 | for any names without "/", no arguments included, the non-empty segments `nestTag` walks are the non-empty names |
| Store.Tager.constructor | struct.go:15-19 | a configuration holding a well-formed store and a current tag |
| Store.AddMatchesRegisters | struct.go:165-172 | matching files are registered under their absolute paths with the matched name as value; existing entries are never overwritten; nothing else is added; child edges and comment untouched |
| Store.AddGlobsRegisters | struct.go:163-173 | every match of every glob ends up registered; existing entries are kept unchanged |
| Store.AddMatchesTo | struct.go:165-172 | the inner loop updates the tag in place to `AddMatches` of the old node |
| Store.TagAddFile | struct.go:157-174 | fails (store unchanged) exactly when `getTag` fails; otherwise the resolved tag gets all glob matches added |
| MainCommands.CreateAllDomain | main.go:247-260 | after `create` the tags are the old ones plus the arguments |
| MainCommands.CreateAllNodes | main.go:247-260 | existing tags are not overwritten; each new name, reserved names included, is an empty node |
| MainCommands.CreateAllOrder | main.go:247-260 | new tags are appended after the old ones, in first-occurrence order of the arguments |
| MainCommands.Create | main.go:237-266 | without arguments nothing changes and nothing is saved; otherwise the store becomes `CreateAll` of the old one and is saved |
| MainCommands.DeleteOneEffect | main.go:279-284 | deleting one name removes just that tag and its key; an absent name changes nothing |
| MainCommands.DeleteAllValid | main.go:278-285 | the store stays well-formed |
| MainCommands.DeleteAllVals | main.go:278-285 | exactly the named tags are removed; every other tag, including edges naming deleted tags, is unchanged |
| MainCommands.DeleteAllKeys | main.go:278-285 | the remaining tags keep their order |
| MainCommands.Delete | main.go:268-291 | without arguments nothing changes; otherwise the store becomes `DeleteAll` of the old one and is saved |
| MainCommands.ChangeCurrent | main.go:161-179 | with exactly one argument naming a stored tag (the `tagExists` check) `current` becomes it and `.` then resolves to it; otherwise nothing changes; tags untouched |
| Autoremove.PruneNodeEffect | tag.go:275-281 | scanning one tag removes from the scanned map exactly the rejected keys, keeps the rest in order, touches nothing else; a missing map is skipped |
| Autoremove.PruneNodeMembers | tag.go:275-281 | after the scan a key remains iff it was there and the test accepts it |
| Autoremove.PruneNodeIdempotent | tag.go:274-282 | scanning a tag twice is scanning it once |
| Autoremove.Targets | tag.go:270-273 | without arguments every stored tag is a target; otherwise exactly the named ones |
| Autoremove.PruneAllEffect | tag.go:274-282 | the tag set and order are kept; each target is scanned once however often named; other tags are unchanged |
| Autoremove.PruneAllShape | tag.go:274-282 | the scans keep the store well-formed, its tag set and its order |
| Autoremove.PruneAllVals | tag.go:274-282 | each tag is its scanned node when targeted and unchanged otherwise |
| Autoremove.PruneAllFixed | tag.go:274-282 | when no target's scan would remove anything, the store is unchanged |
| Autoremove.PruneAllIdempotent | tag.go:274-282 | a second run with the same targets and test removes nothing |
| Autoremove.PruneNodeMap | tag.go:275-281 | the inner loop over a snapshot of the keys leaves the tag equal to its scanned node |
| Autoremove.PruneTargets | tag.go:274-282 | the outer loop leaves the store equal to `PruneAll` of the old one |
| TagCommands.InitedTag | tag.go:52 | a freshly initialised tag has empty `tags` and `files` maps and no comment |
| TagCommands.CreateAnywayEffect | tag.go:47-54 | every argument becomes a fresh tag, an existing one overwritten; other tags unchanged; old tags keep their order |
| TagCommands.CreateAnywayCmd | tag.go:37-60 | without arguments nothing changes; otherwise the store becomes `CreateAnyway` of the old one and is saved |
| TagCommands.AddEdgesEffect | tag.go:113-123 | adding edges keeps the old ones and adds exactly the arguments that are stored tags, each mapped to itself |
| TagCommands.BeforeSelf | tag.go:118-121 | the arguments handled before the loop meets the source tag; the source is not among them |
| TagCommands.AbortsAt | tag.go:118-121 | when the source appears among the children, the edges set before it stay in memory and nothing is saved |
| TagCommands.AddTagsEffect | tag.go:108-123 | other tags are untouched; the source gains exactly the stored tags named before any occurrence of itself, so it never gains an edge to itself |
| TagCommands.AddTagsEdgesResolve | tag.go:113-122 | every new edge names a stored tag, maps it to itself, and comes from the arguments |
| TagCommands.AddTagsCmd | tag.go:98-129 | the store becomes `AddTags` of the old one; saved iff there is a source with a `tags` map and it is not among the children |
| TagCommands.RemoveEdgesEffect | tag.go:193-198 | exactly the named edges whose names are stored tags are removed; the rest keep their order |
| TagCommands.DanglingEdgesStay | tag.go:194-197 | an edge to a tag that no longer exists is never removed by `remove tags` |
| TagCommands.RemoveTagsCmd | tag.go:178-206 | the store becomes `RemoveTags` of the old one; saved iff there are arguments and the source has a `tags` map |
| TagCommands.AutoremoveTagsCmd | tag.go:264-289 | the store becomes the scan of the targets' `tags` maps keeping only edges to stored tags |
| TagCommands.AutoremoveTagsEffect | tag.go:268-282 | files, comments and non-targets are untouched; a target keeps an edge iff it names a stored tag |
| TagCommands.AutoremoveAllTagsLeavesNoDangling | tag.go:270-282 | after a run without arguments no edge anywhere names a missing tag |
| TagCommands.AutoremoveTagsTwice | tag.go:274-282 | a second run removes nothing |
| TagCommands.AutoremoveFilesAsWritten | tag.go:290-314 | the older `autoremove files` scans the targets' `tags` maps and removes the keys for which `os.Stat` succeeds |
| TagCommands.AutoremoveFilesAsWrittenEffect | tag.go:300-307 | every `files` map is left as it was; a child edge survives iff no file of that name exists |
| FileCommands.AddFilesRegisters | file.go:96-111 | each argument that exists and has an absolute path is registered under it with the argument as value; registered paths are never overwritten; nothing else is added; edges and comment untouched |
| FileCommands.AddFilesSkipsMissing | file.go:96-101 | arguments that do not exist change nothing |
| FileCommands.AddFilesCmd | file.go:81-119 | the store becomes `AddFilesTo` of the old one; saved iff there are files and the tag exists |
| FileCommands.RemoveFilesValid | file.go:137-149 | the `files` map stays well-formed |
| FileCommands.RemoveFilesEffect | file.go:137-149 | exactly the absolute paths of the arguments that still exist are removed |
| FileCommands.RemoveFilesOrder | file.go:137-149 | the remaining paths keep their order |
| FileCommands.RemoveFilesKeepsVanished | file.go:137-142 | a registered path whose file is gone cannot be removed this way |
| FileCommands.RemoveFilesCmd | file.go:122-156 | the store becomes `RemoveFilesFrom` of the old one; saved iff there are arguments and the tag has a `files` map |
| FileCommands.AutoremoveFilesCmd | file.go:158-187 | the store becomes the scan of the targets' `files` maps keeping the paths for which `os.Stat` succeeds |
| FileCommands.AutoremoveFilesEffect | file.go:163-180 | child edges, comments and non-targets are untouched; a tag without `files` is skipped; a path survives iff it exists |
| FileCommands.AutoremoveFilesTwice | file.go:167-180 | with the filesystem unchanged a rerun removes nothing |
| FileCommands.LastWithFiles | file.go:46-52 | the index of a visit that has files after which no visit has files, or -1 when none has |
| FileCommands.LastFilesAt | file.go:46-52 | the recursive list of `show file` is the file keys of that last visit with files, or the tag's own list when there is none |
| FileCommands.LastFilesIsOneNode | file.go:46-52 | when some visited tag has files, the list is the file keys of the last such visit (no later visit has files); otherwise it is the tag's own list |
| FileCommands.CollectLast | file.go:47-52 | the callback loop leaves the last visited tag's file keys, or the own list when none has files |
| FileCommands.ShowFilesOutputMeans | file.go:56-66 | no output without a known tag; otherwise the first list filtered by membership in every later one, duplicates kept |
| FileCommands.ShowFiles | file.go:26-67 | `show file` as written: unknown tags skipped, each list computed as the code does, progressive AND of the lists |
| FileCommands.ShowListReplaces | file.go:51 | a tag with file /x and a child with /y: the recursive list as written is [/y], the corrected one [/x, /y] |
| FileCommands.ShowListFixedIsGetFiles | file.go:42-54 | the corrected recursive list starts with the tag's own files and equals `getFiles` |
| FileCommands.ShowFilesFixed | file.go:26-67 | `show file` with the corrected recursive lists |
| Queries.FileListsEffect | struct.go:133-139 | one `getFiles` list per tag when all resolve; otherwise the first unresolved tag is the one reported |
| Queries.FileListsOk | struct.go:133-139 | the lists exist iff every tag resolves, and then list i is `getFiles` of tag i |
| Queries.FileListsErr | struct.go:133-139 | on failure, the tag named is the first one that does not resolve |
| Queries.FilesAND | struct.go:131-152 | `getFilesAND`: no tag finds nothing, and a result never holds a file twice |
| Queries.FilesANDErrors | struct.go:133-142 | fails iff no tag is given (nothing found) or some tag does not resolve (that tag named) |
| Queries.FilesANDMeans | struct.go:143-151 | the result is the deduplicated filter of the first list by membership in all others; it has no duplicates and holds exactly the values in every list |
| Queries.FilesANDSingle | struct.go:143-151 | a single tag gives its deduplicated own list |
| Queries.GetFilesAND | struct.go:131-152 | the loop over the tags returns `FilesAND` |
| Queries.ErrorPersists | struct.go:133-137 | once a tag fails, later tags do not change the error |
| Queries.UnresolvedStep | struct.go:196-201 | one more child name is reported exactly when `getTag` fails on it |
| Queries.UnresolvedIsExcept | struct.go:196-201 | the reported names are, in order, exactly the children for which `getTag` fails |
| Queries.AutoremovableTags | struct.go:193-206 | the method returns `AutoremovableTagsOf` for the stored state |
| Queries.AutoremovableTagsMeans | struct.go:193-206 | error iff the tag does not resolve; otherwise exactly the unresolvable direct child keys, in order |
| Queries.AutoremoveRemovesReported | tag.go:274-282 | `autoremove tags` on one tag removes exactly the edges `autoremovableTags` reports |
| Queries.SelectFilesMembers | struct.go:210-215 | a file is selected iff it is in the list and `fileExists` has the wanted answer |
| Queries.SelectFilesSnoc | struct.go:210-215 | one more file is selected exactly when its `fileExists` answer is the wanted one |
| Queries.SelectFilesPartition | struct.go:210-215 | the existing and the missing selections together are a permutation of the list |
| Queries.FilterFiles | struct.go:210-215 | the loop returns `SelectFiles` |
| Queries.AutoremovableFiles | struct.go:207-220 | as written: the `getFiles` entries for which `fileExists` holds; an unknown tag is an error |
| Queries.AutoremovableFilesFixed | struct.go:207-220 | corrected: the `getFiles` entries for which `fileExists` fails |
| Queries.AutoremovableFilesMeans | struct.go:207-220 | both fail iff the tag does not resolve; as written keeps existing files, corrected keeps missing ones, and together they partition `getFiles` |
| Queries.AutoremovableFilesInverted | struct.go:211-213 | a tag whose only file is gone: as written reports nothing, corrected reports that file |
| CommentCommands.ShowComment | comment.go:10-35 | a comment is shown iff an argument names an existing tag that has one, and it is that tag's stored comment |
| CommentCommands.AddCommentCmd | comment.go:37-58 | the store becomes `SetComment` of the old one; saved iff a tag and words are given and the tag exists |
| CommentCommands.SetCommentEffect | comment.go:46-52 | only the named tag's comment changes, overwritten; tags, edges, files and order unchanged |
| CommentCommands.CommentRoundTrip | comment.go:51-52 | `show comment` after `add comment` gives the words joined by single spaces, and splitting it gives the words back when none holds a space |
| CommentCommands.SetCommentRejects | comment.go:42-50 | fewer than two arguments or an unknown tag change nothing |
| Scenarios.DiamondTraversal | main.go:502-510 | in a -> {b, c}, b -> d, c -> d the walk from a is b, d, c, d |
| Scenarios.DiamondVisitsSharedTwice | struct.go:97-100 | recursive `getChildTags` of a lists a/b, a/b/d, a/c, a/c/d: d twice |
| Scenarios.AndOfTwoLists | struct.go:143-151 | [f1, f2, f3] AND [f2, f3, f4] is [f2, f3] |
| Scenarios.AndOfTwoTags | struct.go:131-152 | `getFilesAND` of x (f1, f2, f3) and y (f2, f3, f4) is [f2, f3] |
| Scenarios.DeletedChildIsReported | main.go:278-285 | deleting b leaves a's edge to b; `autoremovableTags` reports b; `autoremove tags a` clears it |
| Scenarios.AddOneTag | tag.go:113-123 | `add tags src dst` on a source without children saves one edge |
| Scenarios.AddTagsMakesTwoCycle | tag.go:113-123 | `add tags a b` then `add tags b a` are both saved and make a cycle |
| Scenarios.CycleTraversalGrowsWithFuel | main.go:502-510 | on the cycle a <-> b the traversal visits one tag per level up to any depth bound, so the unbounded recursion never returns |

## Left out

- Command-line wiring (cobra), help and usage text, printed messages and `os.Exit`
  are left out. Failures are `Result` errors, and the command methods answer with
  a `saved` flag instead of printing.
- Persistence is not part of this model: the JSON snapshot, `save`, `savePost`,
  `initFile`, `init`, `readConfig`, `saveConfig` and errors from writing the
  file. `saved` only says whether the command reaches `save()`. `show comment`
  also saves the unchanged store (comment.go:30), which is not modelled.
- The filesystem is a parameter `Env`, fixed for one command: `os.Stat`, the
  directory test, `filepath.Abs` and `filepath.Glob`. `tagAddFileRec`
  (`filepath.Walk`) is left out. It walks a real directory tree and rewrites its
  own glob arguments on each directory.
- `mount`, `info`, `show tag`, `tag ls`, all.go and `showTags` are not part of
  this model. They print, or chain other commands.
- tag.go's `add files`, `remove files` and `delete` are older copies of the
  file.go and main.go commands and are not part of this model.
- The nestmap library is not part of this model.
  - Its `Keys()` order is assumed to be insertion order.
  - `IsMap` is assumed true for every tag node (struct.go:114, file.go:42). A
    tag stored as a non-map value is not modelled.
- `getInitedTag` and `moveTag` are not part of this model.
  - `TagCommands.InitedTag` assumes an initialised tag has empty `tags` and
    `files` maps.
  - `moveTag(args[0:1])` is assumed to look the tag up directly among the stored
    tags.
- struct.go's `tagExists` (struct.go:70-73) calls a package-level `getTag`, which
  is not part of this model. main.go's `tagExists` (main.go:370-376) is modelled
  inside `MainCommands.ChangeCurrent`.
- `TagGraph.RecNestTag` takes a depth bound, and `Traverse` sets it to the number
  of tags. On a store with a cycle the source recurses forever; the model stops
  at the bound. On an acyclic store nothing is cut off (`TraverseIsComplete`).
  Acyclic means that some rank on the tags falls along every edge (`Ranked`).
- `parseTagName` exits the process when `.` is used without a current tag; the
  model returns `NoCurrentTag`.
- `CommentCommands.ShowComment` answers `None` both for an unknown tag and for a
  tag without a comment. The source prints a message only for the unknown tag.
- The recursive form of `autoremovableTags` is modelled as written. Its paths
  (`tag/child`) are looked up as tag names, so they are reported unless a tag of
  that exact name exists.
- `create`'s warnings for names holding "/" or equal to "." are printed only and
  leave the store as it is. `MainCommands.CreateAllNodes` covers those names
  like any other.

## Findings

| source | as written | input that shows it | evidently intended | confidence | as-written member | corrected member |
|---|---|---|---|---|---|---|
| struct.go:211-213 | `autoremovableFiles` skips files that do NOT exist and reports the ones that do | tag `a` whose only file `/gone` is missing: reports `[]` | report the missing files, which `autoremove` would remove: `[/gone]` | high, not executed | Queries.AutoremovableFilesInverted | Queries.AutoremovableFilesFixed |
| tag.go:301-306 | the older `autoremove files` scans the `tags` map and removes the keys whose `os.Stat` succeeds | tag with child edge `b` and a file `b` present, plus a registered path that is gone: the edge goes, the path stays | scan `files` and remove the paths whose `os.Stat` fails, as file.go:174-179 does | high, not executed | TagCommands.AutoremoveFilesAsWrittenEffect | FileCommands.AutoremoveFilesEffect |
| file.go:51 | recursive `show file` assigns each descendant's file list over the tag's list | tag `a` with `/x` and child `b` with `/y`: lists `[/y]` | append, as `getFiles` does: `[/x, /y]` | high, not executed | FileCommands.ShowListReplaces | FileCommands.ShowListFixedIsGetFiles |
