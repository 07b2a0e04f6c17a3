# darktable history copy/paste engine, in Dafny

This project models darktable's edit-history engine in `src/common/history.c`. The engine copies the history stack of one image onto another, either replacing it or merging into it. It also deletes histories and lists them.

The SQLite tables become the fields of the class `Library.Library`:

- `history`: the rows of `main.history`, per image, each image's rows in rowid (insertion) order;
- `historyEnd`: `main.images.history_end`, where `None` stands for SQL NULL;
- `masks`: `main.mask`, per image, in rowid order;
- `styleItems`: the staging table `memory.style_items`, in which the row at index `k` has rowid `k + 1`;
- `selected`: `main.selected_images`.

Each entry point of the engine is a method that changes those fields in place, step by step, as the C code does with its statements.

Each method is proved against pure specification functions of the tables before the call. Properties the code promises are then proved about those functions as lemmas. For example, the clean-up renumbers instances 0..k-1, the merge gives distinct instance numbers, and a paste onto a stack numbered 0, 1, 2, ... keeps it numbered so.

Modules:

- `Order`: the string and key order behind every `ORDER BY`, and an insertion sort.
- `Tables`: rows, masks, and the aggregates `MAX(num)` and `MAX(multi_priority)`.
- `Staging`: how the staging table is filled. "Merge and copy all" stages the last row of every instance; otherwise all rows are staged, or those whose `num` is listed.
- `Normalise`: `_dt_history_cleanup_multi_instance` as a function, with its properties.
- `Append`: the shift of `_history_rebuild_multi_priority_append`.
- `Merge`: the reconciliation walk of `dt_history_rebuild_multi_priority_merge`.
- `Paste`: the trim, the insert at `offs + rowid - 1`, and `history_end`.
- `Listing`: `dt_history_get_items` and `dt_history_get_items_as_string`.
- `Library`: the tables as a class, and the engine's functions as its methods with their loops.

Three inputs are parameters:

- the module catalog's one-instance flag is a predicate `oneInstance: string -> bool`, where an operation the catalog does not know counts as multi-instance;
- the localised module name is a function `Localiser`;
- the message translation `_()` is a function `Translator`.

Three behaviours of the code are worth stating plainly:

- Matching in the reconciliation is plain string equality on `multi_name`, so a `"0"` name matches `"0"`.
- `SELECT MAX(multi_priority)` always yields a row. Its NULL reads as 0 through `sqlite3_column_int`, so the `-1` branch (history.c:261-262) is never taken. Every walked operation is staged anyway, so the maximum always exists.
- A paste leaves `num` values 0..n-1 only when the destination was numbered 0, 1, 2, ... before the paste, as `Paste.PasteConsecutive` requires. In merge mode, a destination with gaps keeps them, and the pasted rows go after its highest `num`.

## Model

| member | source | states |
|---|---|---|
| Tables.MaxMi | src/common/history.c:254-262 | `MAX(multi_priority)` of an operation: None exactly when no row has it, otherwise a value some row has and no row exceeds |
| Tables.MaxNum | src/common/history.c:436-440 | `IFNULL(MAX(num), -1)`: -1 on an empty history, otherwise a `num` of some row that no row exceeds |
| Tables.ScanLatest | src/common/history.c:465-468 | finds the row `MAX(num) ... GROUP BY operation, multi_priority` picks in a row's group |
| Tables.LatestExists | src/common/history.c:465-468 | every (operation, multi_priority) group has a row with the greatest `num` |
| Order.SortSorted | src/common/history.c:80-82 | the insertion sort behind `ORDER BY` sorts distinct keys strictly |
| Order.InsertSorted | src/common/history.c:80-82 | inserting a new key into a sorted list keeps it sorted |
| Order.Sort | src/common/history.c:80-82 | sorting keeps the length and exactly the same keys |
| Order.StrLtTotal | src/common/history.c:80-82 | the BINARY collation of `ORDER BY operation` orders any two different names |
| Order.StrLtTransitive | src/common/history.c:80-82 | the collation is transitive |
| Order.KeepMajorMembers | src/common/history.c:98-103 | skipping one-instance operations keeps exactly the keys of the other operations |
| Order.KeepMajorSorted | src/common/history.c:98-103 | skipping keys keeps the list sorted |
| Staging.SelectRows | src/common/history.c:479-509 | `WHERE imgid = src AND num IN (ops)` keeps exactly the rows whose `num` is listed, and all rows when the list is empty |
| Staging.RowsAt | src/common/history.c:462-469 | the rows at the positions a key list names, in key order |
| Staging.SelectRowsDistinctNums | src/common/history.c:479-509 | selecting rows keeps `num` values distinct |
| Staging.LatestKeys | src/common/history.c:462-469 | the keys are exactly those of the rows `MAX(num)` picks, in row order |
| Staging.LastPerInstanceLatest | src/common/history.c:462-469 | "merge and copy all" stages only rows with the greatest `num` of their instance |
| Staging.LastPerInstanceCovers | src/common/history.c:462-469 | it stages a row for every (operation, multi_priority) of the source |
| Staging.LastPerInstanceOrdered | src/common/history.c:462-469 | it never stages two rows of one instance, and orders them by `num` (`ORDER BY max_num`) |
| Staging.LastPerInstanceDistinctNums | src/common/history.c:462-469 | with distinct source `num`s, the staged rows have distinct `num`s |
| Staging.LastPerInstance | src/common/history.c:462-469 | definition of "merge and copy all" staging; `Staging.LastPerInstanceLatest`, `Staging.LastPerInstanceCovers` and `Staging.LastPerInstanceOrdered` state its properties |
| Staging.StagedRows | src/common/history.c:452-510 | definition of the staging choice; `Staging.StagedRowsDistinctNums` and the lemmas of its two cases state its properties |
| Staging.StagedRowsDistinctNums | src/common/history.c:458-510 | either way of staging keeps `num` values distinct |
| Normalise.OpKeys | src/common/history.c:80-82 | definition: one sort key (operation, multi_priority, position) per staging row; `Normalise.HItemsFacts` states the order of the list built from it |
| Normalise.Rank | src/common/history.c:114-131 | definition: the number of same-operation rows ordered before a row; `Normalise.ListRank` ties it to the counter `c_mi` |
| Normalise.Normalised | src/common/history.c:54-160 | the intended outcome of the clean-up, of the staging table's own length; `Normalise.NormalisedRange`, `Normalise.NormalisedDistinct`, `Normalise.NormalisedOrder`, `Normalise.NormalisedKeeps` and `Normalise.NormalisedIdempotent` state its properties |
| Normalise.HItemsFacts | src/common/history.c:80-111 | the clean-up's list is sorted by (operation, multi_priority), holds only multi-instance rows and holds all of them |
| Normalise.BlockStart | src/common/history.c:122-126 | in the ordered list, an item whose predecessor has a different operation is the first item of its operation |
| Normalise.ListRank | src/common/history.c:114-131 | the position of an item within its operation's block is the rank of its row |
| Normalise.ListCount | src/common/history.c:98-111 | the list holds every staged row of a multi-instance operation |
| Normalise.RankMonotone | src/common/history.c:119-131 | rows of one operation in (multi_priority, position) order get increasing new numbers |
| Normalise.RankBelowCount | src/common/history.c:119-131 | a row's new number is below its operation's row count |
| Normalise.NormalisedRange | src/common/history.c:85-131 | after the clean-up, an operation's rows carry exactly the numbers 0..k-1 (k = its row count), both directions |
| Normalise.NormalisedDistinct | src/common/history.c:119-131 | no two rows of a multi-instance operation share a number: one number per row, not per pair |
| Normalise.NormalisedOrder | src/common/history.c:80-82 | the new numbers follow the old multi_priority |
| Normalise.NormalisedKeeps | src/common/history.c:98-103 | only multi_priority changes, one-instance rows are untouched, and the new numbers are not negative |
| Normalise.NormalisedIdempotent | src/common/history.c:127-138 | cleaning up a cleaned-up table changes nothing |
| Normalise.FirstCase | src/common/history.c:142-153 | SQL's `CASE num` takes the first arm naming the row's `num`, and takes none when no arm names it |
| Normalise.UpdateCase | src/common/history.c:142-156 | the `UPDATE ... CASE num ... ELSE multi_priority END` keeps the length and changes nothing but multi_priority |
| Normalise.UpdateCaseNormalises | src/common/history.c:142-156 | arms that give each row its rank perform the renumbering when staging `num`s are distinct |
| Normalise.ArmsOf | src/common/history.c:143-152 | the first `n` listed rows write at most `n` arms |
| Normalise.ArmsOfMembers | src/common/history.c:143-152 | an arm `WHEN num THEN rank` is written exactly for each of the first `n` listed rows whose number differs from its rank |
| Normalise.ArmsFacts | src/common/history.c:143-152 | each arm names a changed multi-instance row and its rank, and each such row has an arm |
| Normalise.Arms | src/common/history.c:140-153 | definition of the `CASE` arms the clean-up writes; `Normalise.ArmsFacts`, `Normalise.ArmsNone` and `Library.CleanupArms` state its properties |
| Normalise.CleanedUp | src/common/history.c:54-160 | definition of the clean-up's result; `Normalise.CleanedUpNormalises` and `Normalise.CleanedUpIdempotent` state its properties |
| Normalise.CleanedUpNormalises | src/common/history.c:54-160 | with distinct staging `num`s, the clean-up performs the renumbering |
| Normalise.ArmsNone | src/common/history.c:127-138 | `nb_change == 0` exactly when every row already carries its rank |
| Normalise.ArmsOfNone | src/common/history.c:127-138 | an already normalised table yields no arm |
| Normalise.CleanedUpIdempotent | src/common/history.c:133-138 | an already-normalised table is left untouched |
| Normalise.OpSetSize | src/common/history.c:119-131 | the rows of an operation, as a set of positions, are as many as it counts |
| Normalise.CountPositions | src/common/history.c:119-131 | counting keys of one operation counts their distinct positions |
| Normalise.NthOfMajor | src/common/history.c:119-131 | a list with more than n keys of an operation has its n-th one |
| Append.ShiftOf | src/common/history.c:194 | `IFNULL(MAX(multi_priority), -1) + 1` exceeds every staged number of the operation, and is 0 for an operation not staged |
| Append.ShiftOp | src/common/history.c:189-202 | one `UPDATE ... WHERE operation = op` keeps the history's length; `Append.ShiftedForStep` states what it changes |
| Append.Shifted | src/common/history.c:162-205 | the shifted history keeps its length; `Append.ShiftedAbove`, `Append.ShiftedKeeps` and `Append.ShiftedBy` state the shift |
| Append.ShiftedFor | src/common/history.c:170-204 | the history after some loop iterations keeps its length; `Append.ShiftedForEnds` ties it to `Append.Shifted` |
| Append.DistinctOps | src/common/history.c:170 | `SELECT DISTINCT operation` holds each staged operation exactly once |
| Append.ShiftedAbove | src/common/history.c:192-201 | a shifted row whose old multi_priority is not negative ends up above every staged instance of its operation; only its multi_priority changes |
| Append.ShiftedKeeps | src/common/history.c:187 | rows of operations that are not staged, and of one-instance operations, are unchanged |
| Append.ShiftedBy | src/common/history.c:192-198 | the shift is the staged maximum plus one |
| Append.ShiftedForStep | src/common/history.c:189-202 | one `UPDATE ... WHERE operation = op` shifts exactly the rows of `op` |
| Append.ShiftedForSkip | src/common/history.c:187 | a one-instance operation is skipped |
| Append.ShiftedForEnds | src/common/history.c:170-204 | before the loop nothing is shifted, and after it every staged multi-instance operation is |
| Merge.GroupKeys | src/common/history.c:219-226 | exactly the latest row of each (operation, multi_priority) group, for staged operations only |
| Merge.Groups | src/common/history.c:216-226 | definition of the groups query; `Merge.GroupsAscending`, `Merge.GroupsLatest` and `Merge.GroupsCover` state its properties |
| Merge.GroupsAscending | src/common/history.c:224-225 | the groups come strictly ascending in (operation, multi_priority) |
| Merge.GroupsLatest | src/common/history.c:221-223 | each group row is the latest row of an instance of a staged operation |
| Merge.GroupsCover | src/common/history.c:223-224 | every row of a staged operation belongs to a group |
| Merge.FirstMatch | src/common/history.c:271-282 | the staging row matched is one of equal operation and multi_name with `num >= 0`; with no match, none qualifies |
| Merge.NullAsZero | src/common/history.c:254-262 | the aggregate's NULL read as 0; `Merge.PushedValue` states the number it leads to |
| Merge.NextBase | src/common/history.c:249-264 | `multi_priority_next` once a group is reached; `Merge.NextStep` and `Merge.RunNext` state its value |
| Merge.Consume | src/common/history.c:300-305 | `UPDATE memory.style_items SET num = -1 WHERE num = n` keeps the length |
| Merge.Decide | src/common/history.c:247-324 | a group is skipped exactly for one-instance operations. If it takes a row, the row matches by operation and name, is unused, and gives a non-negative multi_priority. If it is pushed, it gets `multi_priority_next + 1` |
| Merge.Step | src/common/history.c:236-324 | one pass keeps the staging length and records its decision |
| Merge.Run | src/common/history.c:228-325 | the walk records one decision per group and keeps the staging length |
| Merge.RunPrefix | src/common/history.c:228-325 | one more group is one more pass |
| Merge.RunOutcomesPrefix | src/common/history.c:228-325 | the decisions of a shorter walk are a prefix of those of a longer one |
| Merge.OutcomeAt | src/common/history.c:228-325 | each group is decided on the state the earlier groups left |
| Merge.RunStaging | src/common/history.c:299-305 | the walk only ever sets staging `num` to -1, and every row it took is so marked |
| Merge.MaxMiIgnoresNum | src/common/history.c:254-262 | consuming rows does not change a staged maximum |
| Merge.TookRow | src/common/history.c:266-306 | a group that takes a staging row gets that row's multi_priority; the row matched its operation and multi_name and was not yet consumed |
| Merge.TookOnce | src/common/history.c:266-306 | a consumed staging row is never matched again |
| Merge.RunSkips | src/common/history.c:236-247 | a group is skipped exactly when its operation is one-instance |
| Merge.StepFields | src/common/history.c:250-264 | what one pass does to `operation_prev` and `multi_priority_next` |
| Merge.PushCountSnoc | src/common/history.c:307-312 | one more pushed group adds one to its operation's count |
| Merge.PushCountNone | src/common/history.c:307-312 | with no pushed group the count is 0 |
| Merge.PushCountMonotone | src/common/history.c:307-312 | the count over a prefix is no larger |
| Merge.PushCountBelow | src/common/history.c:307-312 | no more groups are pushed than there are groups of the operation |
| Merge.SameOpCountBound | src/common/history.c:224-225 | in an ascending walk, the groups of one operation below a bound are bounded in number |
| Merge.NextStep | src/common/history.c:249-264 | one pass keeps `operation_prev` and `multi_priority_next` as the invariant says, with non-empty names for the multi-instance operations walked |
| Merge.NextStepActive | src/common/history.c:249-324 | the same, for a pass that is not skipped, on a non-empty operation name |
| Merge.RunNext | src/common/history.c:249-264 | the invariant holds at every point of the walk, with non-empty names for the multi-instance operations walked |
| Merge.PushedValue | src/common/history.c:307-324 | unmatched groups are renumbered max+1, max+2, ... in walk order, above every staged instance, with non-empty names for the multi-instance operations walked |
| Merge.ValueBound | src/common/history.c:284-324 | a decided number never exceeds the group's shifted number, with non-empty names for the multi-instance operations walked and every group above the staged maximum of its operation |
| Merge.ValuesDistinct | src/common/history.c:250-324 | no two walked groups of one operation get the same number, when the staged numbers are distinct |
| Merge.GroupValuesDistinct | src/common/history.c:250-324 | the same, for any two different groups |
| Merge.TookPushedApart | src/common/history.c:266-318 | a group that reuses a staged number and one pushed above the staged numbers never share a number, with non-empty names for the multi-instance operations walked |
| Merge.PushedApart | src/common/history.c:250-318 | two pushed groups of one operation get different numbers, with non-empty names for the multi-instance operations walked |
| Merge.PushCountStrict | src/common/history.c:306-309 | a later push of the same operation has counted strictly more bumps of `multi_priority_next` |
| Merge.Relabel | src/common/history.c:288-297 | `UPDATE main.history SET multi_priority = to WHERE operation = op AND multi_priority = from` keeps the length |
| Merge.ApplyOutcomes | src/common/history.c:288-322 | the history UPDATEs of the walk keep the length |
| Merge.ApplyUntouched | src/common/history.c:288-322 | a row whose instance no applied group names is left alone |
| Merge.ApplyGroup | src/common/history.c:288-322 | a row of a walked group ends up with that group's decided number, provided no decided number exceeds its own group's number (so no later UPDATE moves it again) |
| Merge.ApplyKeeps | src/common/history.c:288-322 | the history UPDATEs change nothing but multi_priority |
| Merge.Merged | src/common/history.c:207-327 | the reconciled history has the length of the destination history |
| Merge.GroupsPlain | src/common/history.c:216-226 | on a destination with non-negative multi_priority and non-empty names, the groups after the shift are ascending, staged, and above the staged maximum |
| Merge.MergedGroup | src/common/history.c:207-327 | on a destination with non-negative multi_priority and non-empty names, a row of a staged multi-instance operation changes only to its group's decided number |
| Merge.MergedKeeps | src/common/history.c:236-247 | rows of operations that are not staged, or are one-instance, are unchanged |
| Merge.MergedDistinct | src/common/history.c:207-327 | two rows of one staged multi-instance operation share a number afterwards exactly when they were one instance before |
| Merge.MergedStaging | src/common/history.c:207-327 | the staging table left by the walk keeps its length |
| Merge.MergedKeepsFields | src/common/history.c:207-327 | the reconciliation changes nothing but multi_priority |
| Merge.MergedStagingRows | src/common/history.c:299-305 | the walk leaves each staging row as it was or marks it used |
| Paste.TrimKeeps | src/common/history.c:429-431 | the trim keeps exactly the rows below `history_end` |
| Paste.TrimNone | src/common/history.c:429-431 | a NULL `history_end` deletes nothing |
| Paste.TrimConsecutive | src/common/history.c:429-431 | on a history numbered 0, 1, ..., trimming at e keeps the first e rows |
| Paste.Trim | src/common/history.c:423-431 | definition of the `history_end` trim; `Paste.TrimKeeps`, `Paste.TrimNone` and `Paste.TrimConsecutive` state its properties |
| Paste.Written | src/common/history.c:519-530 | definition of the insert; `Paste.WrittenKeeps`, `Paste.WrittenAt` and `Paste.WrittenConsecutive` state what it keeps, where each staged row lands, and that 0..n-1 numbering survives |
| Paste.WrittenKeeps | src/common/history.c:519-530 | the insert leaves the old rows where they were |
| Paste.WrittenAt | src/common/history.c:519-530 | staging row k lands at position old-length + k with `num = offs + k` |
| Paste.StagesWritten | src/common/history.c:519-530 | for any pasted tables written from a history of length n, staging row k sits at n + k with `num = offs + k` |
| Paste.WrittenConsecutive | src/common/history.c:519-530 | appending at `offs = length` keeps a history numbered 0, 1, ... |
| Paste.HistoryEnd | src/common/history.c:561-568 | `MAX(num) + 1` is NULL exactly for an empty history, and otherwise above every `num` |
| Paste.MaxNumConsecutive | src/common/history.c:436-440 | on a history numbered 0, 1, ..., `MAX(num)` is its length minus one |
| Paste.ConsecutiveEnd | src/common/history.c:561-568 | the `history_end` of a history numbered 0, 1, ... is its length |
| Paste.MergedConsecutive | src/common/history.c:512-516 | the reconciliation keeps a history numbered 0, 1, ... numbered so |
| Paste.StagesConsecutive | src/common/history.c:512-530 | the stages after the trim keep a history numbered 0, 1, ... numbered so |
| Paste.MergeModeConsecutive | src/common/history.c:425-530 | a merge paste onto a history numbered 0, 1, ... leaves it numbered so |
| Paste.PasteConsecutive | src/common/history.c:425-568 | either mode leaves a history numbered 0, 1, ... numbered so, with `history_end` equal to its length |
| Paste.ReplaceRenumbers | src/common/history.c:442-449 | in replace mode the new history is the selected source rows in order, numbered from 0, and nothing of the old history is kept |
| Paste.StagesKeep | src/common/history.c:512-530 | in merge mode the kept rows come first, changed at most in multi_priority, followed by one row per staging row |
| Paste.StagesAppend | src/common/history.c:436-440 | the staged rows are appended at `offs..offs+n-1`, where offs is the highest kept `num` plus one, or 0 |
| Paste.StagesAbove | src/common/history.c:436-440 | every appended row has a greater `num` than every kept row |
| Paste.Stages | src/common/history.c:512-530 | definition of the merge stages after the clean-up; `Paste.StagesKeep`, `Paste.StagesAppend` and `Paste.StagesAbove` state its properties |
| Paste.PasteMerge | src/common/history.c:423-530 | definition of a merge-mode paste; `Paste.MergeKeepsBelowEnd`, `Paste.MergeInstances` and `Paste.MergeModeConsecutive` state its properties |
| Paste.PasteReplace | src/common/history.c:442-530 | definition of a replace-mode paste; `Paste.ReplaceRenumbers` states its properties |
| Paste.PasteOnto | src/common/history.c:408-568 | definition of a paste in either mode; `Paste.PasteConsecutive` states its properties |
| Paste.MergeKeepsBelowEnd | src/common/history.c:429-431 | in merge mode, the kept rows are numbered below `history_end` |
| Paste.MergeInstances | src/common/history.c:512-516 | with distinct source `num`s, the appended rows carry the renumbered instances of the clean-up |
| Paste.CleanedUpApart | src/common/history.c:512-516 | with distinct source `num`s, the clean-up leaves the staged instances of each multi-instance operation with different numbers, as the reconciliation needs |
| Paste.CleanedUpHasOp | src/common/history.c:512-516 | the clean-up keeps every staged operation |
| Paste.StagesKeptDistinct | src/common/history.c:512-530 | on a destination with non-negative multi_priority and non-empty names, and staged instances of each multi-instance operation numbered apart, two kept rows of a staged multi-instance operation share a number after the later merge stages exactly when they did before |
| Paste.MergeKeptDistinct | src/common/history.c:423-530 | the same for a whole merge-mode paste, given distinct source `num`s and a destination with non-negative numbers and non-empty names |
| Paste.WrittenPair | src/common/history.c:519-530 | the insert leaves any two old rows in place |
| Listing.DescKeys | src/common/history.c:595-598 | the keys are exactly those of the rows the query selects |
| Listing.InLatestNums | src/common/history.c:595-598 | definition of the correlated `num IN (SELECT MAX(num) ...)` test; `Listing.DescKeys` states that exactly the rows passing it are selected |
| Listing.ByNumDesc | src/common/history.c:595-598 | definition of the ordered query; `Listing.ByNumDescOrdered`, `Listing.ByNumDescRows`, `Listing.ByNumDescCovers` and `Listing.ByNumDescAll` state its properties |
| Listing.DescSorted | src/common/history.c:595-598 | the keys sort strictly |
| Listing.ByNumDescOrdered | src/common/history.c:595-598 | `ORDER BY num DESC`: non-increasing `num` |
| Listing.ByNumDescRows | src/common/history.c:595-598 | each listed row is one the query selects |
| Listing.ByNumDescCovers | src/common/history.c:595-598 | every selected row is listed |
| Listing.ByNumDescAll | src/common/history.c:648-650 | the full listing has every row |
| Listing.DescKeysCount | src/common/history.c:648-650 | the full query has a key per row |
| Listing.LatestListed | src/common/history.c:596-598 | every module instance shows up in the item list through its latest row |
| Listing.InstanceName | src/common/history.c:612-620 | the localised module name is a prefix; it is the whole name exactly when multi_name is `"0"`, and otherwise a space and the multi_name follow it |
| Listing.Label | src/common/history.c:612-620 | definition of the intended label (the corrected form of :624-630); `Listing.LabelMatchesLine` states that it agrees with the line of `dt_history_get_items_as_string` |
| Listing.LabelAsWrittenDiffers | src/common/history.c:624-630 | for multi_name `"0"` in the full listing, the label as written reads `name 0 (on)` where `name (on)` is meant |
| Listing.LabelAsWrittenAgrees | src/common/history.c:612-630 | elsewhere the label as written and the corrected label agree |
| Listing.LabelAsWritten | src/common/history.c:606-631 | definition of the label as the code builds it; `Listing.LabelAsWrittenDiffers` and `Listing.LabelAsWrittenAgrees` relate it to `Listing.Label` |
| Listing.ItemsOf | src/common/history.c:601-637 | no more items than query rows, each labelled as the code labels it |
| Listing.ItemsOfFrom | src/common/history.c:606-634 | each item is made from a query row passing the enabled filter, with its `num`, the label as written, and its operation |
| Listing.ItemsOfCovers | src/common/history.c:606-634 | every row passing the filter gives an item with the label as written |
| Listing.ItemsOfAll | src/common/history.c:606-634 | the full listing keeps every row in order, with the label as written |
| Listing.ItemsShowDefaultName | src/common/history.c:622-631 | in the full listing, a default instance (multi_name `"0"`) is listed as `name 0 (on)` or `name 0 (off)`, which is not the intended `Listing.Label` |
| Listing.ItemsOfOrdered | src/common/history.c:601-637 | filtering keeps the query order |
| Listing.Items | src/common/history.c:590-641 | definition of `dt_history_get_items`; `Listing.ItemsOrdered`, `Listing.ItemsShowDefaultName` and the `ItemsOf` lemmas state its properties |
| Listing.ItemsOrdered | src/common/history.c:590-641 | `dt_history_get_items` lists items with non-increasing `num` |
| Listing.Line | src/common/history.c:656-662 | definition of one text line; `Listing.LabelMatchesLine` and `Listing.ItemsTextLines` state its properties |
| Listing.LabelMatchesLine | src/common/history.c:624-662 | the corrected full-listing label equals the text line when multi_name is not empty or `" "` |
| Listing.Lines | src/common/history.c:648-665 | one line per history row |
| Listing.LastNewline | src/common/history.c:667 | the last `'\n'` before a position, or none |
| Listing.Split | src/common/history.c:667 | cutting a text at its `'\n'`s gives at least one piece |
| Listing.SplitJoin | src/common/history.c:667 | joining lines without `'\n'` with `"\n"` can be undone |
| Listing.Join | src/common/history.c:667 | definition of `dt_util_glist_to_str` with `"\n"`; `Listing.SplitJoin` states that it can be undone |
| Listing.ItemsText | src/common/history.c:643-670 | definition of `dt_history_get_items_as_string`; `Listing.ItemsTextLines` states its properties |
| Listing.ItemsTextLines | src/common/history.c:643-670 | an empty history gives the empty text; otherwise, when no line holds a `'\n'` of its own, the text cuts back into one line per row, newest first |
| Library.ByOpMiRows | src/common/history.c:80-83 | each key of the ordered query names its own staging row |
| Library.KeepMajorSnoc | src/common/history.c:98-110 | one more query row is appended to the list unless its operation is one-instance |
| Library.ItemsFor | src/common/history.c:105-110 | one list entry per kept key |
| Library.ItemsForRows | src/common/history.c:105-110 | each entry holds its row's `num`, operation, multi_priority, and `new_mi = -5` |
| Library.ListInstances | src/common/history.c:84-112 | the first loop builds the list of the multi-instance rows of the query, in query order |
| Library.RunBefore | src/common/history.c:115-130 | the counter `c_mi` of an item is at most its index |
| Library.RunBeforeRun | src/common/history.c:119-130 | the counter covers exactly the run of same-operation items ending at the item |
| Library.RunBeforeCounts | src/common/history.c:119-130 | on a list sorted by operation, the counter counts the earlier items of the same operation |
| Library.NumberIsRank | src/common/history.c:114-131 | the counter is the rank of the item's row |
| Library.NumberInstances | src/common/history.c:114-131 | the second loop gives every item its counter, and `nb_change` counts the items whose number changes |
| Library.CasesOf | src/common/history.c:143-152 | at most one arm per item |
| Library.CasesOfMembers | src/common/history.c:143-152 | an arm is written exactly for each item whose number changes |
| Library.CasesOfSnoc | src/common/history.c:143-152 | one more item adds at most its own arm |
| Library.CasesOfArms | src/common/history.c:140-153 | the arms written for the numbered list are those of the clean-up function |
| Library.CleanupArms | src/common/history.c:114-153 | the arms the three loops of the clean-up write are those of the clean-up function |
| Library.ArmsOfStep | src/common/history.c:143-152 | one more listed row adds at most its own arm |
| Library.CaseArms | src/common/history.c:140-153 | the third loop writes the arms of the numbered list |
| Library.UpdateCaseNone | src/common/history.c:133-138 | with no arm, skipping the UPDATE leaves what the UPDATE would |
| Library.StepTook | src/common/history.c:277-306 | a group matching an unused row of usable multi_priority consumes it and takes its number |
| Library.StepPushed | src/common/history.c:307-324 | a group without such a match is pushed to `multi_priority_next + 1` |
| Library.StepSkipped | src/common/history.c:236-247 | a one-instance group changes no loop variable |
| Library.ApplyOutcomesSnoc | src/common/history.c:284-324 | one more decision is one more history UPDATE, or none for a skipped group |
| Library.Others | src/common/history.c:678-679 | `SELECT imgid FROM main.selected_images WHERE imgid != src`: exactly the other selected images |
| Library.OthersDistinct | src/common/history.c:678-679 | each of them once |
| Library.EndOf | src/common/history.c:429-431 | `history_end` of an image, None when NULL or missing; `Library.PastedOnReads` states that a paste reads only the destination's |
| Library.PastedOn | src/common/history.c:408-568 | definition of the new history of a paste's destination; `Library.PastedOnReplace` and `Library.PastedOnReads` state its properties |
| Library.PastedMasks | src/common/history.c:532-559 | definition of the destination's mask rows after a paste; `Library.PastedStepMasks` states how the loop builds them |
| Library.PastedOnReplace | src/common/history.c:442-449 | the replace-mode paste is the staged rows written at 0 |
| Library.PastedOnReads | src/common/history.c:408-530 | a paste reads only the two histories and the destination's `history_end` |
| Library.Without | src/common/history.c:332-348 | the rows of the listed images are gone and every other image's rows remain |
| Library.ZeroEnds | src/common/history.c:338-339 | `UPDATE main.images SET history_end = 0` touches only images that have a row |
| Library.OverlayKeeps | src/common/history.c:683-691 | an image not yet pasted onto keeps its entry |
| Library.PastedStepHistory | src/common/history.c:683-691 | the next paste of the loop reads the tables as they were before any paste and adds its history |
| Library.PastedStepEnds | src/common/history.c:683-691 | the next paste adds its `history_end` |
| Library.PastedStepMasks | src/common/history.c:683-691 | the next paste adds its masks |
| Library.Library.constructor | src/common/history.c:54-698 | the tables every function here works on start as given, with an empty staging table and a selection without repeats |
| Library.Library.CleanupMultiInstance | src/common/history.c:54-160 | the staging table becomes the clean-up function of the old one |
| Library.Library.RebuildAppend | src/common/history.c:162-205 | only the destination's history changes, and it becomes the shifted history |
| Library.Library.RebuildMerge | src/common/history.c:207-327 | the destination history becomes the reconciled history and staging the table the walk leaves; other images are untouched |
| Library.Library.ReconcileGroups | src/common/history.c:228-325 | the walk loop: staging and the destination history are those of the walk over the groups |
| Library.Library.ReconcileGroup | src/common/history.c:230-324 | one pass: loop variables as `Step` gives them, the group's destination rows relabelled unless skipped |
| Library.Library.CopyAndPasteOnImage | src/common/history.c:408-588 | source == destination or source -1: returns 1, nothing changes. Otherwise returns 0; the destination's history, staging, masks and `history_end` become those of the paste, and no other image changes |
| Library.Library.DeleteOnImage | src/common/history.c:329-348 | the image's history and masks are gone, its `history_end` is 0 if it has a row, nothing else changes |
| Library.Library.DeleteOnSelection | src/common/history.c:362-374 | every selected image's history and masks are gone, and its `history_end` is 0 if it has a `main.images` row |
| Library.Library.CopyAndPasteOnSelection | src/common/history.c:672-698 | returns 1 exactly when `src < 0` or no other image is selected; every other selected image has the paste of the tables before the call |
| Library.Library.PasteOnNext | src/common/history.c:683-691 | one pass of the selection loop adds the paste onto one more image |
| Library.Library.GetItems | src/common/history.c:590-641 | the items of the latest rows in `num DESC` order, filtered by enabled, with the labels as the code builds them (`Listing.Items`) |
| Library.Library.GetItemsAsString | src/common/history.c:643-670 | the lines of every row in `num DESC` order joined with `"\n"` |

## Left out

- SQL statement preparation and the text assembly of `num IN (...)` (history.c:478-504) are not modelled. The list becomes membership in a sequence of non-negative numbers, like the `%u` formatting.
- The walk over `darktable.iop` and `flags()` (history.c:88-98 and the same loops at :177-187 and :237-247) becomes the predicate `oneInstance`.
- These foreign side effects are left out:
  - writing the develop history (:419-421);
  - the develop reload (:352-353, :570-575);
  - XMP sync (:578);
  - the mipmap cache (:356, :580);
  - tags (:359);
  - the preset flag (:350);
  - aspect ratio (:371, :582-585);
  - the `dt_control_log` message (:415).
- `dt_history_load_and_apply` and `dt_history_load_and_apply_on_selection` are not modelled. They only delegate to the external XMP reader.
- These are parameters: localisation (`dt_iop_get_localized_name`, `_()`).
- These are not modelled: GLib list memory and the fixed-size buffers. This includes truncation at `op[1024]` in the clean-up, at `operation_prev[257]` in the walk, and at `name[512]` in the listing. Names are unbounded strings.
- A NULL `multi_name` is not modelled: it is a string. A NULL would make `strcmp` at :614 and :624 undefined.
- Integers are unbounded. 32-bit overflow of `num`, `multi_priority` or `offs` is not modelled.
- Transactions and concurrency are not modelled. The code has none, and every call runs alone on the tables.
- In merge mode, masks with clashing `formid`s are not reconciled (:534-539). The source's masks are simply appended.
- The groups query of the walk (:219-228) is modelled as fully read before its loop changes the table. SQLite does not define what a running query sees of later updates to its table.
- Ties that SQL leaves unspecified are resolved by row position:
  - in `ORDER BY operation, multi_priority` and `ORDER BY num DESC`;
  - `MAX(num)` ties take the first row;
  - when several staging rows match a group (:277), the lowest row index is taken. This is a choice of the model.
- The history copy into the staging table (:479-509) and the mask copy (:550-559) are `INSERT ... SELECT` without `ORDER BY`. The model reads their rows in sequence order, that is rowid order, as a choice. SQLite does not promise this order. The order decides which `rowid`, and so which `num = offs + rowid - 1` (:519-530), each pasted row gets, in replace mode and in merge mode with a list of `num`s. The rows of `Paste.ReplaceRenumbers` and `Paste.StagesAppend` rest on this choice.
- Merge.Relabel, Merge.ApplyOutcomes, Merge.Merged and Merge.MergedStaging: their own ensures state only the length. What they do is stated by the lemmas listed beside them.
- Normalise.CleanedUpNormalises: it is proved only when staging rows have distinct `num`. With equal `num`s, a `CASE num` arm also hits the other rows with that `num`. The model computes that effect, but the renumbering property is not claimed for it.
- Merge.MergedDistinct, Merge.ValuesDistinct and Merge.GroupValuesDistinct: they need three assumptions:
  - destination instance numbers are not negative;
  - operation names are not empty;
  - staged instances of one operation are numbered apart. `Paste.CleanedUpApart` proves that the clean-up guarantees this when the source's `num`s are distinct, and `Paste.MergeKeptDistinct` carries the property to a merge-mode paste.

  Without them the code can give two instances one number. For example, an operation named `""` is never seen as a new operation, because `operation_prev` starts empty.
- Paste.PasteConsecutive: it assumes a destination numbered 0, 1, 2, .... The code does not renumber a history with gaps.
- Merge.NextStep: it assumes the group's operation, if multi-instance, has a non-empty name. With an operation named `""`, `operation_prev` never changes at :250, `multi_priority_next` is never read from the staging table, and the first push gets 0.
- Merge.NextStepActive: it assumes that every walked multi-instance operation has a non-empty name, for the reason given for Merge.NextStep.
- Merge.RunNext: it assumes that every walked multi-instance operation has a non-empty name, for the reason given for Merge.NextStep.
- Merge.PushedValue: it assumes that every walked multi-instance operation has a non-empty name, for the reason given for Merge.NextStep.
- Merge.TookPushedApart: it assumes that every walked multi-instance operation has a non-empty name, for the reason given for Merge.NextStep.
- Merge.PushedApart: it assumes that every walked multi-instance operation has a non-empty name, for the reason given for Merge.NextStep.
- Merge.ValueBound: it assumes non-empty names, as Merge.NextStep does, and that every group lies above the staged maximum of its operation. The shift of `_history_rebuild_multi_priority_append` gives the latter only for non-negative numbers.
- Merge.ApplyGroup: it assumes that no decided number exceeds its own group's number. Without that, a later `UPDATE ... WHERE multi_priority = ?` (:315-318) can move rows an earlier group already renumbered. For example, take destination rows of one operation at -2 (named `x`) and -1 (named `y`), and staged instances 0 (named `z`) and 1 (named `x`). After the shift the rows are at 0 and 1. The first group takes 1, and the second group's push to 2 then moves both rows to 2.
- Merge.GroupsPlain: it assumes a destination with non-negative multi_priority and non-empty operation names. For negative numbers the shift does not lift the groups above the staged maximum.
- Merge.MergedGroup: it assumes the same destination as Merge.GroupsPlain. Without it, the cascade described for Merge.ApplyGroup can happen.
- Paste.StagesKeptDistinct: it assumes the same destination as Merge.GroupsPlain, and that the staged instances of each multi-instance operation are numbered apart. `Paste.CleanedUpApart` gives the latter for distinct source `num`s.
- Append.ShiftedAbove: it assumes the row's old multi_priority is not negative. The code adds the shift to any value, so a negative number can stay at or below the staged maximum.
- Listing.ItemsTextLines: it assumes that no line contains a `'\n'` of its own, for example from a localised name or a multi_name. Such a line would split into two.
- `dt_util_glist_to_str` is in `src/common/utility.c`, which is not part of this model. `Listing.Join` assumes it joins the lines with `"\n"` between them and returns the empty string for an empty list.

## Findings

| source | as written | input that shows it | evidently intended | confidence | as-written member | corrected member |
|---|---|---|---|---|---|---|
| src/common/history.c:624-630 | in the full listing (`enabled == FALSE`), the `strcmp(mname, "0") == 0` test has no `else`, so the second `g_snprintf` always overwrites the name and prints the multi_name | a row with multi_name `"0"` (the default instance), operation `exposure`, enabled, `dt_history_get_items(img, FALSE)`: the label is `exposure 0 (on)` | `exposure (on)`, as in the enabled-only branch (:614-620) and in `dt_history_get_items_as_string` (:658-662) | not executed | Listing.LabelAsWrittenDiffers | Listing.Label |

`Library.Library.GetItems` models the code as written; `Listing.ItemsShowDefaultName` shows the finding in its result. `Listing.Label` is the intended label, and `Listing.LabelMatchesLine` proves that it agrees with `dt_history_get_items_as_string`.
