# RUCBase in Dafny

RUCBase is a small relational database: a server that parses, analyses, plans and executes SQL, B+ tree indexes on pages of a buffer pool, a catalog kept as JSON, a framed wire protocol and a command-line client. This project models the parts of it that are written out and proves what they promise. Where the written code calls a part that is only declared, the model uses that part's documented contract.

`dafny verify dfyconfig.toml` checks everything.

## What is modelled

**Queries** (`Query`, `Joins`, `Plans`, `JoinTree`, `Planner`, `Analyzer`, `Executors`). A row is a map from table names to record numbers, a plan denotes the bags of rows its operators may deliver. The main results: every SELECT that analysis accepts is planned and converted to executors without error, and over distinct tables every answer the plan can deliver is, as a bag, the projected cross product of the FROM tables filtered by the WHERE tree, with sort-merge joins on or off. The select list is bound position by position: `*` is every column of every FROM table in order, `t.*` the columns of the table. On the way: the join tree keeps every scan once and every condition once, at the lowest join that covers it, up to an exchange of sides with the operator reversed; the documented two-cursor merge of sorted inputs is the nested loop join as a bag; a column read at its computed offset in a record joined at any depth is the column of the table's own record.

**Index trees** (`IndexKeys`, `PageTree`, `TreeChecker`, `TreeOrder`, `TreeScan`, `TreeRepair`, `IndexHeader`, `IndexNames`). A store is the index file as pages by number; nothing is assumed of its links. The depth-first checker ends on every page graph and reports nothing exactly if the pages form one index tree. Such a tree has one leaf depth, inner keys that are subtree minima, leaf keys in order from end to end, pages at least half full, between 2m^d and k^(d+1) entries at leaf depth d > 0 with k the order and m half of it rounded up, and a scan of it yields every leaf entry once, in order. Carrying a changed first key up to the ancestors restores the whole tree, although it stops at the first level that agrees byte for byte while other keys need only compare equal; and when a leaf of a checked index changes, all other pages are in step. A new index file is such a tree.

**Values and bytes** (`ValueBytes`). Planning compares values, an index compares bytes. Comparing the bytes of two values of a column, IEEE-754 numbers included, is comparing the values, so an index lookup by bytes finds a record exactly if its values match the key literals of the plan.

**Wire protocol** (`WireCodec`, `WireFrames`, `WireClient`, `WireServer`, `WireShown`, `WireSession`). Codecs are exact inverses and frames survive any splitting of reads and writes. Over a whole session, in which each direction may break after any number of bytes, each statement reports what the server's engine answered to all statements sent up to it, exactly as long as the requests and their whole replies get through; from the first that does not, the client knows that the connection is lost. A statement that cannot be sent is refused and takes no part. The engine may answer the same text differently each time, and every statement has its own consumer. What a statement reports is stated in the engine's terms: names, types by number, and for each cell the field its type calls for.

**State that must agree** (`Insert`, `Catalog`, `PageGuard`). A row goes into the table and all its indexes or nowhere; each column then holds the encoding its value came with, or bytes that hold the value, and each refusal has its exact reason. A well-formed catalog survives writing and reading with all its derived fields, and creating a table changes catalog, open files and disk together or not at all. Pins and live guards stay in balance over any sequence of guard operations.

**Statement splitting** (`Pieces`, `Splitter`, `WholeText`). A text is a sequence of literals, comments, semicolons and other characters, and the client cuts it exactly at those semicolons. Feeding the client line by line gives the statements of the whole text, up to blanks and comments dropped in front. The interactive client sends all of them unless it stops, and it stops only at the first exit command or when the statement it sent last lost the connection.

Some promises turned out to hold only under a condition. These have the exact condition:

- Composite keys are ordered exactly as far as they hold no NaN: `IndexKeys.SeparatesExactlyWithoutNaN`, with `IndexKeys.NaNDoesNotSeparate`.
- A response is complete exactly if every row of a table that passes the checks before META fits into a frame; otherwise META and the rows before are out and the connection is closed: `WireServer.SendTable`, `WireServer.LongRowIsUndeliverable`. A CHAR(512) column selected n times is deliverable exactly for n up to 2028: `WireServer.WideSelectIsUndeliverable`.
- A rollback of `unlink_leaf` restores the pages exactly if the previous leaf linked to the leaf: `TreeRepair.Index.UnlinkLeaf`, with `TreeRepair.RollbackRelinks`.
- A table admitted by `create_table` can be read back exactly if all its names are non-empty: `Catalog.NewTableOk`, `Catalog.ReadBack`, with `Catalog.NamelessColumnIsAdmitted`.
- A failed `create_table` leaves the catalog file as it was exactly if writing did not break off after the file was opened: `Catalog.Manager.CreateTable`.
- Two indexes, of one table or of two, have the same name, hence the same file and tree, exactly if table and columns cut at their underscores give the same pieces: `IndexNames.NamesEqual`. It happens: `IndexNames.NamesCollide`. Within one table and without underscores in column names it does not: `IndexNames.NamesDiffer`.
- Typing a text line by line and sending it at once, where no statement fails, stop at the same place for the same reason exactly under `WholeText.SameStop`: `WholeText.StopsAgree`. Where line by line nothing is an exit command, the open end must be blank after trimming. Where a pending text without its semicolon is one, only trimmed blanks may stand in front of it and behind it. Where a statement is one, only trimmed blanks may stand in front of it. They differ on "exit" followed by anything and on an exit command behind a comment line: `WholeText.ExitsDiffer`.
- Zero-padded strings are ordered as the strings are exactly if these do not differ in zeros at the end alone: `ValueBytes.StringOrder`; it happens: `ValueBytes.NulAtEndIsLost`.

Where code and documentation disagree the code is followed: the documentation has `update_ancestor_keys` run up to the root, the code stops earlier.

## Conventions

Exceptions are error results. Plan and executor trees, which the source moves around as owned pointers, are values. Integers are unbounded except where width matters: 32-bit fields of headers, cells and JSON numbers are modelled with their width. Floats are bit patterns. Ghost parameters named `hint`, `resp` or `order` stand for an arbitrary value: a contract that mentions one holds for all of them. What a database or a peer does is a function of everything it has been sent so far, so a contract over all such functions holds for every behaviour.

## Model

| member | source | states |
|---|---|---|
| Query.CompareFlips | src/optimizer/planner.cpp:14-30 | exchanging the sides of a comparison of two values flips its sign |
| Query.CompareTransitive | src/execution/executor_merge_join.h:19-27 | the order of values used by sorting and merging is transitive, strictly if one step is strict |
| Query.ComparesIntegers | src/common/common.h:69 | the six operators compare integers as numbers |
| Query.ComparesReals | src/common/common.h:69 | and real numbers |
| Query.ComparesStrings | src/common/common.h:69 | strings compare by the first place where they differ, a proper beginning being smaller |
| Query.SwapPreservesMeaning | src/optimizer/planner.cpp:14-30 | a condition with its sides exchanged and its operator reversed holds of exactly the same rows |
| Query.ConservedHolds | src/optimizer/planner.cpp:163-180 | condition lists that agree up to exchanged sides hold of the same rows |
| Joins.MergeJoinIsNestedLoop | src/execution/executor_merge_join.h:19-37 | merging two inputs sorted on the join key, group against group with the residual conditions, gives the bag of the nested loop join |
| Plans.PlanMeaning | src/optimizer/plan.h:30-120 | whatever a plan with distinct leaves, scoped conditions, usable indexes and sorted merge inputs delivers is the cross product of its tables filtered by all its conditions, as a bag |
| Plans.PlanRuns | src/optimizer/plan.h:30-120 | such a plan delivers something on every database |
| Plans.SortMergeIsNestedLoop | src/optimizer/planner.cpp:246-269 | a sort-merge join over its two sorts delivers the bag of the nested loop join |
| Plans.IndexLookupLosesNothing | src/optimizer/planner.cpp:32-65 | a record that satisfies the scan's conditions matches the index key built from their literals |
| Plans.ReferenceIsBagOf | src/optimizer/planner.cpp:163-180 | the filtered cross product of distinct tables contains every qualifying combination of records once |
| JoinTree.PlacedIsScoped | src/optimizer/planner.cpp:101-137 | conditions placed by the planner mention only tables visible at their operator |
| JoinTree.PlacedIsLowest | src/optimizer/planner.cpp:101-137 | a join condition is covered by the join's tables and by neither of its children |
| JoinTree.AttachCoverage | src/optimizer/planner.cpp:101-137 | attaching reports exactly which sides of the condition the subtree covers, and changes the plan only if it covers both |
| JoinTree.AttachAddsOne | src/optimizer/planner.cpp:101-137 | an attached condition is added exactly once, as itself or exchanged; nothing else changes |
| JoinTree.AttachPlaces | src/optimizer/planner.cpp:101-137 | attaching keeps every condition at its lowest join with lhs on the left and rhs on the right |
| JoinTree.AttachKeepsScans | src/optimizer/planner.cpp:101-137 | attaching keeps the tables and the distinct leaves of the tree |
| JoinTree.NeverBoth | src/optimizer/planner.cpp:101-137 | a comparison within one table is never attached to a join |
| JoinTree.AddCondition | src/optimizer/planner.cpp:188-228 | one condition keeps the invariant (joined tables are the leaves, each scan once, each processed condition once at its lowest join) and fails exactly if it is no comparison of columns of two FROM tables |
| JoinTree.JoinRemaining | src/optimizer/planner.cpp:230-236 | tables no condition brought in are joined in FROM order, keeping the invariant, until every table is a leaf |
| JoinTree.BuildJoinTree | src/optimizer/planner.cpp:182-237 | the result is a join tree over all scans with every condition once; it fails exactly if some condition is no join condition |
| Planner.ChooseIndex | src/optimizer/planner.cpp:32-58 | the first longest index all of whose columns have an equality literal, or none |
| Planner.IndexChoiceIgnoresOrder | src/optimizer/planner.cpp:32-58 | the choice depends only on the set of conditions |
| Planner.MakeScanPlan | src/optimizer/planner.cpp:60-65 | a scan with exactly the given conditions and the best index; it fails exactly for an unknown table |
| Planner.TakeTableConditions | src/optimizer/planner.cpp:67-81 | splits the list, in order, into the conditions of one table and the rest |
| Planner.PushdownSplits | src/optimizer/planner.cpp:67-81 | no condition is lost or duplicated by the split |
| Planner.PushDown | src/optimizer/planner.cpp:163-180 | one scan per FROM table; scans and remainder together hold every condition as often as the query, and the remainder holds just those no table takes |
| Planner.BuildFromPlan | src/optimizer/planner.cpp:163-180 | succeeds exactly for known tables and, with several, conditions over them; the plan then is a plan of the query |
| Planner.ChooseJoinCounts | src/optimizer/planner.cpp:246-269 | rewriting to sort-merge keeps every condition as often as it was |
| Planner.ChooseJoinReady | src/optimizer/planner.cpp:246-269 | each sort-merge join has a column equality first and children sorted ascending on its two sides |
| Planner.ChooseJoinFits | src/optimizer/planner.cpp:246-269 | a join is sort-merge exactly if the switch is on and it has a column equality |
| Planner.ChooseJoinKeepsPlan | src/optimizer/planner.cpp:246-269 | the rewritten plan is still a plan of the query |
| Planner.PlanIndexed | src/optimizer/planner.cpp:60-65 | every index scan of the plan has an equality literal for each of its index columns |
| Planner.ProjectExact | src/execution/executor_projection.h:26-40 | an answer has one line for each row, with the row's value of each selected column in order |
| Planner.PlanAnswers | src/optimizer/planner.cpp:145-161 | whatever a plan of a query over distinct tables delivers is the projected, filtered cross product, ordered as asked |
| Planner.PlanSelect | src/optimizer/planner.cpp:145-161 | planning succeeds exactly for known tables and bound conditions; for every database the plan can run, and over distinct tables everything it can deliver answers the query |
| Analyzer.PlainFromAccepted | src/analyze/analyzer.cpp:157-193 | get_table_names accepts exactly FROM trees of plain tables and inner joins |
| Analyzer.NamesAreLeaves | src/analyze/analyzer.cpp:184-189 | the names are those of the leaves of the FROM tree from left to right |
| Analyzer.FlatteningKeepsRows | src/analyze/analyzer.cpp:157-193 | the flat table list gives the same bag of rows as the nested FROM tree |
| Analyzer.GetAllCols | src/analyze/analyzer.cpp:329-337 | the columns of all tables in order; it fails exactly for an unknown table |
| Analyzer.AllColsAt | src/analyze/analyzer.cpp:329-337 | column j of table k lies behind all columns of the tables in front of it |
| Analyzer.AllColsLength | src/analyze/analyzer.cpp:329-337 | there are no others |
| Analyzer.OwnersMembers | src/analyze/analyzer.cpp:300-326 | the tables considered for an unqualified column are exactly those that have one of that name |
| Analyzer.BindsExactly | src/analyze/analyzer.cpp:300-312 | an unqualified name binds exactly if one position carries it, and then to that column; it is missing exactly if none does and ambiguous exactly if two do |
| Analyzer.CheckColumn | src/analyze/analyzer.cpp:300-326 | an unqualified column binds exactly if one visible column has its name, a qualified one if that column is visible |
| Analyzer.ConjunctionAccepted | src/analyze/analyzer.cpp:340-417 | the WHERE tree is accepted exactly if it is a conjunction of comparisons |
| Analyzer.ConditionsInOrder | src/analyze/analyzer.cpp:340-417 | the conditions are the members of the conjunction as written, from left to right |
| Analyzer.FlattenKeepsMeaning | src/analyze/analyzer.cpp:340-417 | a row satisfies the flattened condition list exactly if it satisfies the AND tree |
| Analyzer.CheckCondition | src/analyze/analyzer.cpp:418-442 | a condition is accepted exactly if both sides bind and their types agree, and is resolved to the columns it binds to |
| Analyzer.CheckClause | src/analyze/analyzer.cpp:418-442 | the same for the whole list, in order |
| Analyzer.ExpandItems | src/analyze/analyzer.cpp:65-149 | the list is one run of columns after the other: a listed column itself; for `*` column j of the k-th FROM table at its place behind the tables in front; for `t.*` the columns of the table |
| Analyzer.ExpandStar | src/analyze/analyzer.cpp:99-103 | the run of one star, by position in the schema |
| Analyzer.StarIsEveryColumn | src/analyze/analyzer.cpp:99-103 | `*` is every column of every table, tables in FROM order, one for each and in its place |
| Analyzer.StarIsColumnsOf | src/analyze/analyzer.cpp:99-103 | `t.*` is the columns of the table in order, once for each time FROM lists it |
| Analyzer.StarOfDistinct | src/analyze/analyzer.cpp:99-103 | over distinct tables `t.*` is exactly the columns of the table |
| Analyzer.BindColumns | src/analyze/analyzer.cpp:65-149 | every selected column is bound; it fails exactly if one does not bind |
| Analyzer.BindList | src/analyze/analyzer.cpp:65-149 | the select list is accepted exactly if its items are allowed and the names written out bind; the bound list is, run by run, what the items name, of columns of FROM tables |
| Analyzer.BindOrder | src/analyze/analyzer.cpp:65-149 | ORDER BY is accepted exactly with at most one key that is a column and binds |
| Analyzer.BindFilter | src/analyze/analyzer.cpp:65-149 | WHERE is accepted exactly as a conjunction of checked comparisons; a row satisfies the bound list exactly if it satisfies the tree |
| Analyzer.AnalyzeSelect | src/analyze/analyzer.cpp:65-149 | the statement is accepted exactly under the stated rules, and the bound query says the same: tables, conditions, order, and the columns position by position |
| Analyzer.RunSelect | src/server/server.cpp:290-300 | analysis then planning: planning never fails on an analysed statement, and over distinct tables every answer of the plan is the answer of the statement's FROM and WHERE trees |
| Executors.JoinColumns | src/execution/executor_nestedloop_join.h:29-44 | joined columns are the left ones, then the right ones moved by the left record length |
| Executors.NewNestedLoop | src/execution/executor_nestedloop_join.h:29-44 | columns and length of a nested loop join over any two children |
| Executors.NewMerge | src/execution/executor_merge_join.h:45-66 | construction succeeds exactly if the first condition is a column equality whose columns the two children have; keys and residual are split off it |
| Executors.Convert | src/portal/portal.cpp:98-123 | a plan converts exactly if every lookup in it succeeds, and the executor tree realizes the plan |
| Executors.PlanConverts | src/portal/portal.cpp:98-123 | a plan with visible sort keys, ready merges and catalogued indexes converts |
| Executors.PlannedConverts | src/portal/portal.cpp:98-123 | every plan the planner emits for an analysed query converts, and every selected column is found in it |
| Executors.NewProjection | src/execution/executor_projection.h:26-40 | the selected columns packed one after the other; it fails exactly if one is missing |
| Executors.StartSelect | src/portal/portal.cpp:47-79 | analysis, planning and conversion together fail exactly if analysis rejects the statement |
| Executors.ReadColumn | src/execution/executor_nestedloop_join.h:29-44 | in a record joined at any depth, the bytes at a column's computed offset are that column in its own table's record |
| Executors.ReadProjected | src/execution/executor_projection.h:26-40 | each selected column lies at its packed offset of the projected record |
| IndexKeys.CompareIndexKey | src/index/b_plus_tree.cpp:50-64 | the first column that differs decides; an error exactly for mismatched metadata or an invalid column behind equal ones |
| IndexKeys.CompareKeyFlips | src/index/b_plus_tree.cpp:18-64 | comparison is antisymmetric and zero on equal keys |
| IndexKeys.CompareKeyTransitive | src/index/b_plus_tree.cpp:18-64 | without NaN the comparison is transitive, strictly if one step is |
| IndexKeys.SeparatesExactlyWithoutNaN | src/index/b_plus_tree.cpp:34-43 | a key orders the keys below and above it exactly if it holds no NaN |
| IndexKeys.NaNDoesNotSeparate | src/index/b_plus_tree.cpp:33-42 | the bytes of a NaN are a key that does not |
| IndexKeys.NaNByBits | src/index/b_plus_tree.cpp:33-42 | a NaN is what IEEE-754 calls one: all exponent bits and some fraction bit set |
| IndexKeys.MakeKey | src/system/sm_meta.h:56-68 | the key is the indexed columns of the record, one after the other |
| IndexKeys.LookupIsExact | src/system/sm_meta.h:56-68 | a record's key compares equal to the key of the literals exactly if each indexed column compares equal to its literal |
| ValueBytes.FloatOrderIsValueOrder | src/index/b_plus_tree.cpp:33-42 | finite bit patterns read as sign and magnitude are in the order of the numbers they stand for |
| ValueBytes.FloatByBits | src/index/b_plus_tree.cpp:33-42 | these numbers are those of IEEE-754 single precision, by sign, exponent and fraction bits |
| ValueBytes.StringOrder | src/common/common.h:59-65 | padded strings compare by bytes as the strings do exactly if these do not differ in zeros at the end alone |
| ValueBytes.NulAtEndIsLost | src/common/common.h:59-65 | two strings that differ so |
| ValueBytes.ByteOrderIsValueOrder | src/index/b_plus_tree.cpp:18-48 | comparing the bytes of two values of a column has the result of comparing the values |
| ValueBytes.LookupIsByValue | src/index/b_plus_tree.cpp:50-64 | a record's key compares equal to the literals' exactly if its values equal the literals' |
| ValueBytes.PlannedLookup | src/optimizer/planner.cpp:60-65 | the lookup of an index scan plan finds by bytes exactly the records whose values match its key literals, hence every record that satisfies the scan's conditions |
| TreeChecker.Checker.CheckNode | src/test/index/b_plus_tree_invariant_checker.cpp:153-173 | adds no violation exactly if parent, size and key order of the page are right |
| TreeChecker.Checker.CheckLocalKeyOrder | src/test/index/b_plus_tree_invariant_checker.cpp:224-242 | adds no violation exactly if the page's keys ascend, strictly in a unique index |
| TreeChecker.Checker.Enter | src/test/index/b_plus_tree_invariant_checker.cpp:133-152 | a page is entered exactly if it is new, in range and readable; otherwise a violation is added |
| TreeChecker.Checker.Visit | src/test/index/b_plus_tree_invariant_checker.cpp:129-222 | without violation the visit has found the tree below the page with its pages, leaves, depth and summary; and it finds every such tree; it ends on any page graph |
| TreeChecker.Checker.VisitChildren | src/test/index/b_plus_tree_invariant_checker.cpp:193-204 | the same for all children in order |
| TreeChecker.Checker.CheckSiblings | src/test/index/b_plus_tree_invariant_checker.cpp:206-212 | adds no violation exactly if neighbouring subtrees do not overlap |
| TreeChecker.Checker.CheckLeafChain | src/test/index/b_plus_tree_invariant_checker.cpp:244-281 | adds no violation exactly if header, sentinel and leaf links agree with the leaf order |
| TreeChecker.Checker.CheckSentinel | src/test/index/b_plus_tree_invariant_checker.cpp:55-90 | adds no violation exactly if the sentinel page is right |
| TreeChecker.Checker.RunFromRoot | src/test/index/b_plus_tree_invariant_checker.cpp:72-80 | no violation exactly if the pages form an index tree |
| TreeChecker.Checker.Run | src/test/index/b_plus_tree_invariant_checker.cpp:54-81 | with a root, no violation exactly if some tree is the index tree of these pages, and then it has been found |
| TreeOrder.TreeSpans | src/test/index/b_plus_tree_invariant_checker.cpp:175-222 | the leaf entries below a right tree ascend, and its summary is their first and last key |
| TreeOrder.LeafEntriesSorted | src/test/index/b_plus_tree_invariant_checker.cpp:206-212 | the leaf entries of an index tree are sorted from end to end, strictly if unique |
| TreeOrder.OneLeafDepth | src/test/index/b_plus_tree_invariant_checker.cpp:176-182 | all leaves lie at one depth |
| TreeOrder.InnerKeysAreMinima | src/test/index/b_plus_tree_invariant_checker.cpp:198-204 | at every level each inner key is the smallest key below its child |
| TreeOrder.TreeFilled | src/test/index/b_plus_tree_invariant_checker.cpp:164-173 | every page of a right tree but the root holds between half the order, rounded up, and the order; an inner root has two children |
| TreeOrder.SubtreeHolds | src/test/index/b_plus_tree_invariant_checker.cpp:164-168 | a subtree of height h below the root holds between m^(h+1) and k^(h+1) entries |
| TreeOrder.IndexHolds | src/test/index/b_plus_tree_invariant_checker.cpp:164-168 | an index of leaf depth d > 0 holds at least 2m^d entries, and at any depth at most k^(d+1) |
| TreeOrder.IndexTreeIsOrdered | src/test/index/b_plus_tree_invariant_checker.cpp:54-281 | the checks on single pages add up to all of this: order, minima, fill and number of entries, with the leaf chain in leaf order both ways |
| TreeScan.PositionsAreIndexes | src/index/index_types.h:86-95 | two canonical positions are equal exactly if they stand for the same leaf entry |
| TreeScan.DenotesEntry | src/index/b_plus_tree.cpp:464-470 | a canonical position that is not the end yields the rid of the entry it stands for |
| TreeScan.EndsDenote | src/index/b_plus_tree.cpp:511-525 | leaf_begin stands for the first entry and leaf_end for the end, also in an empty tree |
| TreeScan.IndexScan.constructor | src/index/index_scan.h:20-23 | a scan starts at its begin position |
| TreeScan.IndexScan.Next | src/index/index_scan.cpp:11-21 | moves from one entry to the one after it, across leaves |
| TreeScan.IndexScan.Rid | src/index/index_scan.cpp:23 | the rid at the position |
| TreeScan.ScanRange | src/index/index_scan.cpp:11-23 | a scan between two canonical positions ends and yields exactly the entries between them |
| TreeScan.ScanAll | src/index/b_plus_tree.cpp:511-525 | a full scan yields every leaf entry once, in key order |
| TreeScan.CheckAndScan | src/test/index/b_plus_tree_invariant_checker.cpp:54-81 | where the checker is silent the tree is globally ordered and a scan yields its entries; it is silent exactly on index trees |
| TreeScan.BoundsHoldEqualKeys | src/index/b_plus_tree.cpp:472-503 | between the documented lower and upper bound of a key lie exactly the entries that compare equal to it |
| TreeScan.ScanEqual | src/index/b_plus_tree.cpp:472-503 | a scan between these bounds yields exactly those entries, in order |
| TreeRepair.FindChildSlot | src/index/b_plus_tree.cpp:84-91 | the first slot that points at the child |
| TreeRepair.CopyKeyUpRepairs | src/index/b_plus_tree.cpp:553-558 | copying a first key one level up repairs that page and leaves at most its parent to repair |
| TreeRepair.Index.UpdateAncestorKeys | src/index/b_plus_tree.cpp:542-561 | ends; the page agrees with its parent afterwards, between every other page and its parent nothing changed or they agree, and only keys on the way up have changed |
| TreeRepair.RepairRestoresIndex | src/index/b_plus_tree.cpp:542-561 | if at most one page was out of step with its parent, with keys that compare equal in step, the repaired pages are an index tree |
| TreeRepair.Index.RepairIndex | src/index/b_plus_tree.cpp:542-561 | run on such an index, the repair leaves an index tree and changes inner keys only |
| TreeRepair.TreeInStep | src/test/index/b_plus_tree_invariant_checker.cpp:198-204 | in a checked tree every page is in step with its parent |
| TreeRepair.ChangedLeafInStep | src/index/b_plus_tree.cpp:542-561 | when one leaf of a checked index changes, every other page stays in step |
| TreeRepair.ClimbFrom | src/index/b_plus_tree.cpp:542-552 | from every page of an index the parent pointers lead to the root |
| TreeRepair.ChainIsRing | src/test/index/b_plus_tree_invariant_checker.cpp:244-281 | the checked leaf chain is a doubly linked ring through the sentinel together with the header's ends |
| TreeRepair.Index.UnlinkLeaf | src/index/b_plus_tree.cpp:564-594 | changes the two links and nothing else, so that the ring without the leaf remains, a checked chain with its ends in the header; each failure is exact, and the rollback restores the pages exactly if the previous page linked to the leaf |
| TreeRepair.RollbackRelinks | src/index/b_plus_tree.cpp:582-590 | pages on which the rollback does not restore the link |
| IndexHeader.FitsExactly | src/index/index_types.cpp:12-32 | a page layout fits exactly if its slots fit; alignment costs nothing |
| IndexHeader.FirstOrderIsLargest | src/index/index_manager.cpp:83-90 | the first estimate of the order is the largest that fits, and more than two |
| IndexHeader.ChooseOrder | src/index/index_manager.cpp:84-87 | the downward search returns that order |
| IndexHeader.MeasureKey | src/index/index_manager.cpp:58-80 | the key length, refused exactly for a wrong column length or a key over 512 bytes |
| IndexHeader.CreateIndex | src/index/index_manager.cpp:51-102 | a header is made exactly for admissible columns, it is well-formed with the largest order and describes the columns, INT as 0, FLOAT as 1 and STRING as 2; the layout error is never raised |
| IndexHeader.NewIndexIsTree | src/index/index_manager.cpp:111-135 | the sentinel and root pages of a new file form an index tree with one empty leaf |
| IndexHeader.PrefixIsFields | src/index/index_types.cpp:64-106 | a buffer starts with stored fields exactly if reading them one by one gives them |
| IndexHeader.Serialize | src/index/index_types.cpp:64-106 | writes the fields in order, exactly for consistent counts, with the announced size |
| IndexHeader.Deserialize | src/index/index_types.cpp:108-160 | accepts exactly the buffers that start with a well-formed header, and returns that header |
| WireCodec.U16RoundTrip | src/net/wire.cpp:71-106 | 16-bit numbers survive the codec |
| WireCodec.U32RoundTrip | src/net/wire.cpp:76-117 | 32-bit numbers survive the codec |
| WireCodec.U64RoundTrip | src/net/wire.cpp:81-130 | 64-bit numbers survive the codec |
| WireCodec.U32Weights | src/net/wire.cpp:76-79 | of four bytes the first weighs most |
| WireCodec.U64Weights | src/net/wire.cpp:81-86 | of eight bytes the first weighs most |
| WireCodec.ColumnLayout | src/net/wire.cpp:421-426 | a column is the length of its name, the name and one byte for the type |
| WireCodec.CellLayout | src/net/wire.cpp:445-463 | a cell is 0 for NULL, or 1 and the value: the two's complement or bit pattern of a number, or a text behind its length |
| WireCodec.TryEncodeMeta | src/net/wire.cpp:390-428 | succeeds exactly if the columns are valid and the payload fits into a frame; the payload is their encoding, a refusal names the first problem |
| WireCodec.ParseMetaExact | src/net/wire.cpp:691-725 | a payload decodes to columns exactly if it is their encoding: both round trips |
| WireCodec.ReadColumn | src/net/wire.cpp:702-719 | reads one column at an offset |
| WireCodec.DecodeMeta | src/net/wire.cpp:691-725 | the client's loop computes that decoding |
| WireCodec.TryEncodeRow | src/net/wire.cpp:465-506 | succeeds exactly if there is a cell, all types are known and the payload fits; the payload is the row's encoding, a refusal names the first problem |
| WireCodec.AppendCells | src/net/wire.cpp:445-463 | cells are appended in order |
| WireCodec.ParseCellComplete | src/net/wire.cpp:529-563 | an encoded cell decodes to itself up to unused fields, leaving the bytes behind it |
| WireCodec.ParseRowExact | src/net/wire.cpp:760-776 | under its column types a payload decodes to a row exactly if it is the row's encoding: both round trips |
| WireCodec.DecodeCell | src/net/wire.cpp:529-563 | reads one cell at an offset |
| WireCodec.DecodeRow | src/net/wire.cpp:760-776 | the client's loop computes that decoding |
| WireCodec.ParseEndExact | src/net/wire.cpp:523-527 | the row count decodes exactly from its 8-byte encoding |
| WireFrames.AnnouncedExact | src/net/wire.cpp:181-200 | a header is accepted exactly if it is the header of a frame within the limits |
| WireFrames.FramesAreUnique | src/net/wire.cpp:175-211 | a stream starts with at most one frame |
| WireFrames.FrameLayout | src/net/wire.cpp:341-366 | a frame is four bytes of length, tag, flags, two zeros and the payload |
| WireFrames.Connection.Recv | src/net/wire.cpp:46-65 | delivers any non-empty piece |
| WireFrames.Connection.ReadExact | src/net/wire.cpp:38-67 | reads exactly n bytes whatever pieces arrive, exactly if they are there |
| WireFrames.Connection.SendMsg | src/net/wire.cpp:142-160 | takes any non-empty piece of the vectors |
| WireFrames.Connection.Advance | src/net/wire.cpp:161-170 | drops the bytes taken from the front of the vectors |
| WireFrames.Connection.WriteVectorsAll | src/net/wire.cpp:141-173 | all bytes are written in order and once, whatever pieces the peer takes, or as many as it takes |
| WireFrames.Connection.WriteFrame | src/net/wire.cpp:341-366 | writes exactly the frame, or as much of it as the peer takes; an oversized one is refused before anything is sent |
| WireFrames.Connection.ReadFrame | src/net/wire.cpp:175-211 | returns the frame at the front of the stream with the stream right behind it; a malformed header is a protocol error |
| WireClient.SeenUntilRefused | src/net/wire.cpp:734-803 | the consumer is handed the rows in order, all until it refuses one, none after that |
| WireClient.ResponsesPrefixFree | src/net/wire.cpp:641-844 | no response is a proper beginning of another |
| WireClient.HandleMeta | src/net/wire.cpp:680-752 | META opens a table exactly as the first frame, well-formed, with the raw-text flag only for one CHAR column |
| WireClient.HandleRow | src/net/wire.cpp:754-803 | a row extends the table exactly if it decodes under its types, and goes to the consumer until it stops |
| WireClient.HandleEnd | src/net/wire.cpp:805-836 | the end closes the table exactly if its count is the number of rows |
| WireClient.HandleFrame | src/net/wire.cpp:658-842 | a frame continues a table or ends a response; anything else is a protocol error |
| WireClient.ReadResponse | src/net/wire.cpp:641-844 | a reusable status means exactly one complete response was consumed and is reported; a response at the front of the stream is always consumed so |
| WireClient.FramesPrefix | src/net/wire.cpp:175-211 | a stream that starts with the bytes of some frames starts with these frames |
| WireClient.BrokenOff | src/net/wire.cpp:641-844 | a response that breaks off, or a table never closed, holds no complete response |
| WireClient.ExecStream | src/net/wire.cpp:623-844 | an invalid statement sends nothing; otherwise the request is written, as far as the peer takes it, and its response read as above |
| WireClient.Client.Execute | src/net/client.cpp:265-280 | the same on an open connection, which is given up exactly with a result that is not reusable |
| WireClient.RunStatements | src/net/client.cpp:265-280 | each statement reports the response to its own request, to its own consumer, until responses or the peer's room end; unsendable statements are refused and change nothing; exactly these requests were written |
| WireServer.ReplyMeans | src/server/server.cpp:365-451 | what is sent for a deliverable answer is one complete response, and means to the client what the server had: columns, rows in order, count, status, diagnostic |
| WireServer.UndeliverableIsOpen | src/server/server.cpp:407-419 | what is sent for any other answer is a table that is never closed |
| WireServer.LongRowIsUndeliverable | src/server/server.cpp:407-419 | a row of n equal CHAR cells whose META can be sent is deliverable exactly if n cell headers and texts fit into a frame |
| WireServer.WideSelectIsUndeliverable | src/server/server.cpp:407-419 | a column as wide as a record, selected n times, is deliverable exactly for n up to 2028 |
| WireServer.ConvertColumns | src/server/server.cpp:376-383 | columns in wire types, refused exactly for an unknown type; which type is which is in WireShown.MeansShows |
| WireServer.CheckRows | src/server/server.cpp:385-395 | reports a problem exactly if some row does not match the schema in length or types, and the first one |
| WireServer.SendRow | src/server/server.cpp:407-419 | a row that fits is sent behind the rows before it as far as the peer takes it, one that does not fit not at all |
| WireServer.SendRows | src/server/server.cpp:407-419 | rows are sent in order up to the first that does not fit, as far as the peer takes them |
| WireServer.SendTable | src/server/server.cpp:375-421 | the table, its error reply, or META and the rows that fit, as far as the peer takes them; it succeeds exactly if the answer is deliverable and was taken whole |
| WireShown.MeansShows | src/net/wire.cpp:375-384 | what a reply means is what the engine had: names, types INT32, FLOAT32 and CHAR for 0, 1 and 2, and in each cell the integer, the float or the text; or the diagnostic as one line, cut at the limit |
| WireShown.AcceptedExactly | src/server/server.cpp:375-395 | a table passes the checks before META exactly if it has columns of the three types, with names that fit, and rows of these types |
| WireShown.DeliverableExactly | src/server/server.cpp:407-419 | and is delivered exactly if no row takes more than a frame, at five bytes for each cell and the texts beside |
| WireShown.RawExactly | src/server/server.cpp:423-440 | the same for a raw text |
| WireServer.SendRaw | src/server/server.cpp:423-440 | a raw text reply is checked completely before anything is sent; the same success condition |
| WireServer.SendError | src/server/server.cpp:442-451 | one error frame, its text ended by a line feed and cut to the limit, as far as the peer takes it |
| WireServer.Send | src/server/server.cpp:365-373 | for every kind of answer: all of it is out exactly if it is deliverable and the peer takes it |
| WireServer.Serve | src/server/server.cpp:245-271 | requests are read and answered in order; it ends with every request answered and no complete one left, or at an answer that is not deliverable or was not taken whole |
| WireSession.AnsweredAreCarried | src/server/server.cpp:245-271 | the requests answered whole are exactly the first ones whose bytes, and whose replies' bytes, get through and whose answers are deliverable |
| WireSession.NeverLost | src/server/server.cpp:245-271 | if this holds of all requests, it holds at every statement |
| WireSession.Session | src/server/server.cpp:245-271 | both ends together: exactly as long as requests and replies get through, each statement reports the engine's answer to all statements up to it, column by column and cell by cell in the engine's terms; from then on the connection is lost; the server reads nothing that was not sent |
| Splitter.TakeCompleteStatements | rucbase_client/main.cpp:56-117 | the text is cut at the semicolons outside literals and comments and nowhere else; the segments with SQL in them are the statements, and the rest is kept if it has SQL in it or ends in a block comment |
| Splitter.ScanChar | rucbase_client/main.cpp:65-107 | the branches for one character |
| Pieces.LexExists | rucbase_client/main.cpp:56-117 | every text is made of literals, comments, semicolons and other characters |
| Splitter.RunLiteral | rucbase_client/main.cpp:81-100 | a literal, whatever is written in it with quotes doubled, closes nothing, leads back to code and makes the segment a statement |
| Splitter.RunLineComment | rucbase_client/main.cpp:68-94 | a line comment up to its newline closes nothing and leaves it open whether there is SQL |
| Splitter.RunBlockComment | rucbase_client/main.cpp:74-97 | so does a block comment up to its first end mark |
| Splitter.RunCode | rucbase_client/main.cpp:101-109 | a semicolon in code closes the segment; any other character is part of it, and SQL unless blank |
| Splitter.ScanIsPieces | rucbase_client/main.cpp:56-117 | however a text is read as such pieces, it scans as they say |
| Splitter.ScanCuts | rucbase_client/main.cpp:56-117 | what the scan finds is the text cut at its semicolon pieces |
| Splitter.RunSplit | rucbase_client/main.cpp:56-117 | a text can be scanned in pieces that end with a newline or a semicolon |
| Splitter.RunAccounts | rucbase_client/main.cpp:100-116 | closed segments and open end together are the whole text |
| Splitter.SegmentsStandAlone | rucbase_client/main.cpp:100-106 | every closed segment has one semicolon in code, its last character, and the open end none |
| Splitter.FollowsNext | rucbase_client/main.cpp:217-241 | reading one more line closes in the pending text what it closes in the whole text, up to a blank in front |
| Splitter.FeedingIsSplitting | rucbase_client/main.cpp:217-241 | for every list of lines, feeding them one by one gives the statements of the whole text up to blanks in front, and leaves its open end pending up to such |
| Splitter.LeadingBlanksAreDropped | rucbase_client/main.cpp:112-115 | a statement behind blank lines is sent without them, while the whole text holds it with them |
| Splitter.SendAll | rucbase_client/main.cpp:233-240 | sends in order, without the blanks around each statement, and stops exactly at the first exit command or after the first statement it does not go on after |
| Splitter.ReadLine | rucbase_client/main.cpp:217-241 | one line read: either all it completes was sent, or why and where the client stopped |
| Splitter.RunInteractive | rucbase_client/main.cpp:208-242 | every statement of the text is sent, in order, up to blanks and comments in front; or the client stopped at the first pending text or statement that is an exit command, or where the last statement sent lost the connection |
| WholeText.RunSqlText | rucbase_client/main.cpp:180-195 | sends the statements of a whole text, its open end included, until an exit command or a failure, and reports exactly the failure |
| WholeText.ExitBehind | rucbase_client/main.cpp:119-122 | with blanks and comments in front a text is an exit command exactly if it is one by itself and all of them are trimmed |
| WholeText.BareCase | rucbase_client/main.cpp:225-231 | where a pending text is an exit command without its semicolon, the whole text stops there exactly if only trimmed blanks stand in front of it and behind it |
| WholeText.ClosedCase | rucbase_client/main.cpp:233-237 | where a statement is one, exactly if only trimmed blanks stand in front of it |
| WholeText.OpenCase | rucbase_client/main.cpp:180-184 | where nothing is one, the whole text sends the same exactly if its open end is blank |
| WholeText.StopsAgree | rucbase_client/main.cpp:180-242 | for every list of lines on which no statement fails, line by line and at once stop at the same place for the same reason exactly under the stated condition on the text |
| WholeText.RunBoth | rucbase_client/main.cpp:180-242 | the same of the two runs, and what both send is the same up to blanks and comments in front |
| WholeText.ExitThenMore | rucbase_client/main.cpp:225-231 | they differ on an exit command without its semicolon followed by anything but trimmed blanks |
| WholeText.ExitBehindLine | rucbase_client/main.cpp:112-115 | they differ on an exit command behind any line that holds a comment and no statement |
| WholeText.ExitsDiffer | rucbase_client/main.cpp:180-242 | the shortest such texts |
| Insert.FillRecord | src/execution/executor_insert.h:50-64 | each column holds the encoding its value came with, or bytes that hold the value; refused exactly at the first value that is not admitted, by type, encoded length or text length, with its own reason |
| Insert.EncodeExact | src/execution/executor_insert.h:54-63 | a value is encoded exactly if it has the column's type and, encoded, the column's length, or else a text that fits; and how |
| Insert.EncodedHolds | src/common/common.h:50-66 | the bytes made for a literal hold its value |
| Insert.Table.AddToIndex | src/execution/executor_insert.h:72-79 | one index gets the record's entry, exactly if it does not refuse the key |
| Insert.Table.Rollback | src/execution/executor_insert.h:80-84 | the reverse loop takes out exactly the entries made |
| Insert.Table.AddToIndexes | src/execution/executor_insert.h:70-86 | all indexes get the entry or none does, for any number of indexes; the first index that is not open or refuses the key decides which error it is |
| Insert.Table.StoreRecord | src/execution/executor_insert.h:66-88 | a record is stored and indexed everywhere or nowhere; exactly when |
| Insert.Table.Next | src/execution/executor_insert.h:48-88 | the row is in the table and all indexes, or nothing changed; exactly when, and with which error; the stored record holds every value at its column; indexes and table stay consistent |
| Insert.IndexTree.InsertEntry | src/index/b_plus_tree.cpp:328-346 | the documented contract of insertion |
| Insert.IndexTree.DeleteEntry | src/index/b_plus_tree.cpp:348-365 | the documented contract of deletion |
| IndexNames.MakeIndexName | src/index/index_manager.cpp:34-41 | table and columns joined with underscores |
| IndexNames.NamesEqual | src/index/index_manager.cpp:25-41 | two names are equal exactly if table and columns, cut at their underscores, give the same pieces |
| IndexNames.NamesOfTable | src/index/index_manager.cpp:25-41 | within one table exactly if the columns give the same pieces |
| IndexNames.NamesDiffer | src/index/index_manager.cpp:25-41 | within one table and without underscores in column names, exactly if the columns are the same |
| IndexNames.NamesCollide | src/index/index_manager.cpp:25-41 | two column lists of one table with one name, and indexes of two tables with one name and no underscore in a column |
| Catalog.ReadColumn | src/system/sm_meta.cpp:85-101 | an accepted column has a name, a right length, and the owner and offset it is given |
| Catalog.ColumnRoundTrip | src/system/sm_meta.cpp:85-101 | a written column reads back, owner and offset made anew |
| Catalog.TypesByName | src/system/sm_meta.cpp:60-79 | a type is stored under its own name and read by it |
| Catalog.CutTo32 | src/system/sm_meta.cpp:51-57 | a wider number is read by its low 32 bits |
| Catalog.ReadNames | src/system/sm_meta.cpp:114-125 | accepts exactly lists of distinct non-empty strings |
| Catalog.PickColumns | src/system/sm_meta.cpp:139-143 | the named columns are copied and marked, exactly if all exist |
| Catalog.IsIndex | src/system/sm_meta.h:101-103 | whether some index has exactly these columns in this order |
| Catalog.AddIndex | src/system/sm_meta.cpp:107-146 | a table with one more index is again well-formed, marks of earlier indexes included |
| Catalog.ReadIndex | src/system/sm_meta.cpp:107-146 | an accepted index extends a well-formed table to one; a written index comes back with its derived fields |
| Catalog.ReadColumns | src/system/sm_meta.cpp:165-173 | accepted columns are laid out one after the other, named differently and within the record size; written ones come back |
| Catalog.ReadTable | src/system/sm_meta.cpp:152-180 | every accepted table is well-formed; a well-formed written table comes back as it was, offsets, marks and key lengths included |
| Catalog.ReadCatalog | src/system/sm_meta.cpp:236-259 | the same for the whole catalog, its tables written in any order |
| Catalog.Manager.Load | src/system/sm_meta.cpp:236-259 | a refused document leaves the old catalog |
| Catalog.CheckDefs | src/system/sm_manager.cpp:171-200 | column definitions are admitted exactly under the stated rules |
| Catalog.LayOut | src/system/sm_manager.cpp:202-217 | columns are laid out in order of declaration |
| Catalog.NewTableOk | src/system/sm_manager.cpp:163-217 | an admitted table is well-formed exactly if all its names are non-empty |
| Catalog.NamelessColumnIsAdmitted | src/system/sm_manager.cpp:180-200 | a column without a name is admitted and makes a table that is not well-formed |
| Catalog.ReadBack | src/system/sm_manager.cpp:163-227 | an admitted table survives writing and reading exactly then |
| Catalog.Manager.CreateTable | src/system/sm_manager.cpp:163-237 | catalog, open files and disk all get the table or none changes, exactly when; the catalog file then holds the new catalog, and is read back as it exactly if all names are given; only a write that breaks off loses the old file |
| PageGuard.GiveBack | src/storage/page_guard.cpp:31-45 | giving a pin back keeps the account: each pin live in one guard or given back once, with its mark |
| PageGuard.HandOver | src/storage/page_guard.cpp:13-29 | moving a pin keeps the account |
| PageGuard.AllGivenBack | src/storage/page_guard.cpp:11-45 | when no pin is live, each was given back exactly once, dirty exactly if it was ever marked |
| PageGuard.NothingHeld | src/storage/page_guard.cpp:11-45 | when no pin is live, every page is pinned as often as other code pins it |
| PageGuard.BufferPool.FetchPage | src/storage/page_guard.cpp:47-53 | the contract of fetching: one more pin, or no page |
| PageGuard.BufferPool.UnpinPage | src/storage/page_guard.cpp:44 | the contract of unpinning: one pin less, refused without one |
| PageGuard.Guard.MarkDirty | src/storage/page_guard.h:44-48 | marks a held page only |
| PageGuard.Guard.Drop | src/storage/page_guard.cpp:31-45 | releases the pin once, with its mark, and empties the guard |
| PageGuard.Guard.MoveFrom | src/storage/page_guard.cpp:19-29 | releases its own pin and takes over the other's; moving to itself changes nothing |
| PageGuard.Guard.Moved | src/storage/page_guard.cpp:13-17 | move construction takes over the pin and empties the other guard |
| PageGuard.Scope.Fetch | src/storage/page_guard.cpp:47-61 | a new guard with a new pin, or an empty one |
| PageGuard.Scope.Move | src/storage/page_guard.cpp:13-29 | pins stay balanced under moves and self-moves |
| PageGuard.Scope.MoveNew | src/storage/page_guard.cpp:13-17 | pins stay balanced under move construction |
| PageGuard.Scope.MarkDirty | src/storage/page_guard.h:44-48 | the mark stays with the pin |
| PageGuard.Scope.Drop | src/storage/page_guard.cpp:31-45 | pins stay balanced under early release |
| PageGuard.Scope.Destroy | src/storage/page_guard.cpp:11 | pins stay balanced under destruction |
| PageGuard.RunAll | src/storage/page_guard.cpp:11-61 | over any sequence of operations the guards hold and the pool was asked for exactly what the operations say, each page is pinned as other code pins it plus once per live guard, and every pin is accounted for once |
| PageGuard.ReturnedAtOnce | src/storage/page_guard.cpp:19-45 | a guard that is dropped, destroyed or moved onto returns its pin there and then, with its mark |
| PageGuard.MovedOver | src/storage/page_guard.cpp:19-29 | a move hands over what the other guard held and leaves that one empty, all others as they were |
| PageGuard.MarkedIsReturnedDirty | src/storage/page_guard.h:44-48 | a page marked through a guard is returned dirty, whatever happens in between |

## Left out

- Bodies the repository leaves open: B+ tree search, insertion, deletion, splitting and merging, buffer pool, record files, executor iteration, locks, transactions, log and recovery.
- UPDATE, DELETE, INSERT and SET analysis and planning, and the executors for them other than insertion.
- The SQL lexer and parser, and the text form of JSON.
- Sockets: handshake, deadlines, interrupted system calls and descriptors; a connection is the bytes it delivers and takes before it fails.
- Client text output: table formatting, truncation of wide cells and prompts, and the wording of diagnostics other than those the server forwards.
- Concurrency of guards and latches; each session and each scope of guards is sequential. What other sessions do shows in the engine's answers only.
- A table named "": `create_table` lets it pass, and analysis is modelled for schemas without one, because an empty table name in a column means that it is not qualified.
- PageTree.StoreOk: that the columns of an index file have known types and INT and FLOAT ones the length 4 is assumed, because opening the file does not check it.
- NaN keys: ordering results are stated for keys without NaN.
- Queries that name a table twice: such statements are planned and converted, but what their plans deliver is not characterised, because every condition goes to the first copy of the table.
- Planner.PlanSelect: the answer is compared as a bag; the order of rows is stated only for ORDER BY.
- Plans.PlanMeaning: plan trees are values; moving subtrees between owned pointers is not modelled.
- TreeScan.ScanEqual: takes its two bounds as given, since the search for them is left open in the source.
- Insert.Table.Next: an index failure other than a duplicate key or a missing index is not modelled, because the state it leaves is not documented.
- Catalog.ReadCatalog: unknown enum values of a column type cannot occur in the model.
