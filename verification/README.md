# Stingerloom ORM: verified model

A Dafny model of the parts of the ORM that traverse graphs, batch statements,
keep state over time or do exact arithmetic, with proofs about them.
`dafny verify dfyconfig.toml` checks everything.

## What is modelled

- **Cascades** (`CascadeRemoval*`, `CascadeSave*`, on `Digraphs`, `DigraphPaths`,
  `Metadata` and `Declarations`). Rows are a table keyed by entity and primary key; the three removals are one
  recursive operation over it that also logs its statements, and a save walks a
  possibly cyclic graph of objects with a set of ancestors. The classes
  `CascadeHandler` run the loops in place and are proved against these.
  `CascadeRemovalMeaning`, `CascadeSaveMeaning`, `CascadeSaveKeys` and `CascadeOrders`
  say what they take, follow and store, and in which order, in terms of the declared
  relations and the stored cells.
- **Relation loading** (`RelationRows`, `RelationMeaning`, `RelationLoading*`,
  `RelationTreeProofs`, `RelationCosts`, `RelationPages`, `RelationReads`,
  `RelationSources`, `RelationLoader`, `ManyToManySides`). A statement is filter, stable sort and page over a sequence of
  rows. The reference is one separate read per object, all the way down the requested
  tree, counts included; the sliced, grouped, assigned in-place form refines it. The heap of loaded
  objects is a sequence, so objects shared by several parents are shared in the model.
  `RelationReads` and `RelationSources` tell the separate reads by `Positions` in the
  stored tables.
- **Query tracker** (`QueryTracking`, `QueryHistory`, `QueryTracker`). The circular buffer is an
  array with a head and a size, tied to a plain list.
- **Streaming** (`StreamBatches`), **lazy relation properties**
  (`LazyProperties`) and **replication pools** (`ReplicationPools`,
  `ReplicationManager`). The last two are state machines whose theorems hold over
  every sequence of events, in any order.
- **Raw and compiled queries** (`SqlFragments`, `RawQueries`, `RawQueryProofs`,
  `RawQueryText`, `RawQueryClauses`, `RawQueryConditions`, `RawQueryFilling`,
  `RawQueryBuilder`).
- **Exact integers and cursors** (`Bigints`, `BigintTexts`, `Cursors`).
- **Joined-table inheritance** (`JoinedTables`, `JoinedColumns`, `JoinedReads`,
  `JoinedWrites`, `JoinedSources`). A logical row is inserted into the root's table and its
  subclass's, and exactly when the two reads return it whole is proved.

## Where the code does less than it says

Each of these is proved, with the exact condition under which the promise holds.

- `restore` undoes `softDelete` only when no trashed row matched or hung off a row
  the soft delete reached (`RestoreUndoesSoftDeleteIff`).
- A soft delete over a bidirectional cascading OneToOne recurses without end, where
  the hard delete of the same rows halts (`RemovalHaltsIff`,
  `TwoWaySoftDeleteNeverHalts`, `TwoWayDeleteHalts`).
- A hard delete can meet the key of a row that owns what it hits and that a later
  statement removes, unless every cascading owning relation is a cascading dependent
  one seen from its target (`OwnersGoFirstIff`, `ProfileIsStillOwned`).
- A save leaves a foreign key out of a row for good when the object it names is only
  ever saved above that row's object, once, and nobody tells the row a key
  (`RowLacksReferenceIff`): so the inner of two new rows that reference each other
  (`MutualReferenceIsLost`). A second way to the object it names, or a way to the
  row's object that avoids it, mends it (`RowEndsWithKey`).
- The bounded query log falls behind the tail of the unbounded one exactly when a
  live entry it overwrote shields two expired ones, which takes a clock set back
  (`BoundedTracksTwinIff`, `ClockSetBackBreaksTwin`).
- A stream with an offset and no end yields rows past the 2147483647 that `find`
  stops at (`WindowsAgreeIff`).
- A lazy load that resolves after two assignments hands its awaiters the first value
  assigned, though the property holds the second (`AwaiterAgreesIff`).
- A non-empty `where` after another condition opens a second WHERE clause, and
  `andWhere` or `orWhere` before any other condition leaves it without one
  (`OneWhereIff`, `EmptyWhereDangles`).
- Bigint mode does not read back a number outside the safe range from the text string
  mode made of it, unless that text is its integer (`BigintInvertsStringIff`,
  `LargeNumberStaysText`).
- A cursor value that looks like a big-integer tag does not survive the round trip
  (`DecodeInvertsEncodeIff`).
- A subclass that declares its own column under a name of the root's table loses what
  is written to it (`SubclassReadsInsertedIff`, `RootReadsInsertedIff`, `JobLosesOwner`).
- A read of the root hides a subclass column's value when a key has a different one in
  another subclass table, and a count repeats a row only when a key has two rows in
  one table (`RootReadsAsStoredIff`, `CountsAgreeIff`).

## Model

| member | source | states |
|---|---|---|
| CascadeRemovalProofs.RemovalIsClosure | src/core/CascadeHandler.ts:463-490 | A removal (hard delete, soft delete or restore) that halts hits exactly the rows reachable from the matched ones along dependent and owned-target edges, the least closed set, and leaves every other row untouched; for every schema, table and criteria |
| CascadeRemovalProofs.RemovalHaltsIff | src/core/CascadeHandler.ts:403-490 | A removal halts if and only if no row it reaches can be walked from forever along the edges followed before a parent statement: dependents for a hard delete, owned targets as well for the other two |
| CascadeRemovalCycles.RemovalHaltsIffNoCycle | src/core/CascadeHandler.ts:403-490 | The same told by cycles: it halts if and only if no row it reaches lies on a closed path of those edges |
| CascadeRemovalProofs.RemovalHalts | src/core/CascadeHandler.ts:463-490 | Halting by a measure: over a cycle-free part of the table a sufficient nesting depth exists |
| CascadeRemovalProofs.RemovalMonotone | src/core/CascadeHandler.ts:463-490 | A deeper nesting allowance never changes the outcome of a removal that already halted |
| CascadeRemovalProofs.RemovalClosed | src/core/CascadeHandler.ts:537-656 | One inductive step for all three modes: the rows hit contain the match, are closed under the edges, stay inside any closed set and avoid every cycle |
| CascadeRemovalOrder.DependentsGoFirst | src/core/entity-manager/WriteExecutor.ts:3594-3643 | After each statement of a removal no remaining row the operation acts on depends, through a cascading dependent relation, on a row that statement hit |
| CascadeRemovalOwners.OwnersGoFirstIff | src/core/CascadeHandler.ts:463-490 | No statement of any hard delete, over any table, leaves a row holding the key of a row it hit through a cascading owning relation exactly when the target of every such relation cascades back to its owner |
| CascadeRemovalOwners.OwnersGoneIff | src/core/CascadeHandler.ts:578-636 | Once a hard delete is over, no row left holds the key of one it removed through a cascading owning relation exactly when whoever owned a reached row was reached too |
| CascadeRemovalOwners.ProfileIsStillOwned | src/core/CascadeHandler.ts:479-489 | Deleting a company whose profiles are declared before the users that own them: the first statement hits a profile a user, deleted by a later one, still refers to |
| CascadeRemovalOwners.CompanyDeleteHalts | src/core/CascadeHandler.ts:463-490 | That hard delete runs to its end |
| CascadeRemovalRestore.RestoreUndoesSoftDeleteIff | src/core/CascadeHandler.ts:428-453 | `softDelete(c)` then `restore(c)` gives back the starting table if and only if no matched row was already trashed and no trashed row hung off a row the soft delete reached; criteria that do not read the soft-delete flag |
| CascadeRemovalRestore.RestoreHaltsAfterSoftDelete | src/core/CascadeHandler.ts:445-453 | In that case the restore halts whenever the soft delete did |
| CascadeRemovalMeaning.DependentsAreDeclared | src/core/CascadeHandler.ts:496-518 | What depends on an entity, told from the declared relations alone |
| CascadeRemovalMeaning.OwnedAreDeclared | src/core/CascadeHandler.ts:578-600 | What an entity owns: the OneToOnes with a join column of their own and a delete cascade, to soft-deletable entities only unless the delete is hard |
| CascadeRemovalMeaning.EdgesAreDeclared | src/core/CascadeHandler.ts:463-490 | A removal goes on from a row exactly to those that hold its key in such a column and to those whose key it holds |
| CascadeRemovalMeaning.TakenIsLeast | src/core/CascadeHandler.ts:463-490 | What a removal takes is the least set with the rows the caller names and everything its rows lead to |
| CascadeRemovalMeaning.RemovalTakes | src/core/CascadeHandler.ts:463-490 | and the table it leaves: those rows gone or their flag set, every other as it was, and no row left holding a taken key as a child or counterpart |
| CascadeRemovalTwoWay.TwoWaySoftDeleteNeverHalts | src/core/CascadeHandler.ts:428-436 | A bidirectional cascading OneToOne makes a soft delete of one live pair recurse without end at every depth |
| CascadeRemovalTwoWay.TwoWayDeleteHalts | src/core/CascadeHandler.ts:403-419 | The hard delete of the same pair halts, because owned targets wait for the parent statement |
| CascadeOrders.ChildrenInOrder | src/core/CascadeHandler.ts:496-508 | A removal goes through the children one per declared OneToMany with a delete cascade, in that order |
| CascadeOrders.CounterpartsInOrder | src/core/CascadeHandler.ts:509-518 | then through the counterparts, one per inverse OneToOne with an owning side |
| CascadeOrders.KeptInOrder | src/core/CascadeHandler.ts:463-475 | of which a soft delete or restore leaves out exactly those of entities without a soft-delete column |
| CascadeOrders.OwnedInOrder | src/core/CascadeHandler.ts:578-600 | and what an entity owns comes in the order declared |
| CascadeRemovalHandler.CascadeHandler.FindCascadingDependents | src/core/CascadeHandler.ts:496-518 | The two loops return exactly the children of the declared OneToManys and the counterparts of the inverse OneToOnes that cascade a delete, each with the column that holds the key: the join column of the first ManyToOne named `mappedBy`, or else `mappedBy`; the join column of the owning side |
| CascadeRemovalHandler.CascadeHandler.RemovedParents | src/core/CascadeHandler.ts:526-571 | The parent keys selected: live ones for a soft delete, trashed ones for a restore, both for a hard delete |
| CascadeRemovalHandler.CascadeHandler.CollectOwnedTargets | src/core/CascadeHandler.ts:578-636 | The distinct target keys each cascading owning OneToOne holds, read before the parent statement |
| CascadeRemovalHandler.CascadeHandler.CascadeRemoveOneToMany | src/core/CascadeHandler.ts:463-490 | One statement per dependent relation with the parent keys read once, leaving the table and statement log of the specified cascade |
| CascadeRemovalHandler.CascadeHandler.DeleteRows | src/core/entity-manager/WriteExecutor.ts:3594-3643 | cascade, parent statement, then the owned targets |
| CascadeRemovalHandler.CascadeHandler.SoftDeleteRows | src/core/entity-manager/WriteExecutor.ts:4340-4447 | cascade to dependents and owned targets, then the parent statement |
| CascadeRemovalHandler.CascadeHandler.RestoreRows | src/core/entity-manager/WriteExecutor.ts:4449-4544 | the same order for a restore |
| CascadeRemovalHandler.CascadeHandler.RemoveTargets | src/core/CascadeHandler.ts:643-656 | Removes each collected target group in turn |
| CascadeRemovalHandler.CascadeHandler.Run | src/core/entity-manager/WriteExecutor.ts:4340-4544 | A public call on a halting input takes the least set of rows with those the caller names and all that the declared cascades lead to, by the columns that hold the keys, and leaves every other row as it was; no row left that it acts on holds the key of a taken one as its child or counterpart. For an entity without a soft-delete column it is refused and changes nothing |
| CascadeSaveProofs.SaveReachesEverything | src/core/CascadeHandler.ts:198-218 | On any finite object graph, cycles included, a save writes exactly the objects reachable from the root along saving relations and gives every one a key |
| CascadeSaveProofs.SaveCovers | src/core/CascadeHandler.ts:220-389 | The inductive form of it under any chain of ancestors |
| CascadeSaveProofs.SaveInsertsOnce | src/core/entity-manager/WriteExecutor.ts:1103-1111 | No object is inserted twice, though its key is assigned only after its own cascade |
| CascadeSaveLaws.SaveKeepsIntegrity | src/core/entity-manager/WriteExecutor.ts:506-767 | Every foreign key a save stores names a row already written, for every write of every run |
| CascadeSaveLaws.OwnWrite | src/core/CascadeHandler.ts:216-303 | A save writes its object once: every object it references and is not already saving is written before, every dependent after |
| CascadeSaveLaws.ReferenceIsStored | src/core/CascadeHandler.ts:327-389 | The row of an object stores the key of a target saved through it, and that target was written first |
| CascadeSaveLaws.ReferenceIsLostIff | src/core/entity-manager/WriteExecutor.ts:1736-1786 | One save inside a cascade leaves a saving relation's key out of its write if and only if the object held there is being saved up the stack, has no key yet, and no shadow key is on the row's object |
| CascadeSaveKeys.ChildHoldsParentKey | src/core/CascadeHandler.ts:220-303 | Every child a OneToMany saves is written with its parent's key in the join column of the first ManyToOne named `mappedBy`, unless the child holds another object there; for a join column no other relation has and no sibling copied over its shadow |
| CascadeSaveKeys.CounterpartHoldsKey | src/core/CascadeHandler.ts:270-303 | and the counterpart an inverse OneToOne saves, in the join column of the side it names |
| CascadeSaveKeys.ChildIsTold | src/core/CascadeHandler.ts:249-257 | The names a child takes the key under: the join column, or `mappedBy` without one, `<property>Id`, and the `fkProperty` if there is one; nothing else on it changes |
| CascadeSaveKeys.CounterpartIsTold | src/core/CascadeHandler.ts:287-292 | The same for a counterpart |
| CascadeSaveKeys.KnownKeyIsStored | src/core/entity-manager/WriteExecutor.ts:1736-1786 | A row stores the key of the object a relation holds, saved through or not, when the object had one before; it stores keys in join columns of its entity's relations only |
| CascadeSaveKeys.PlainKeyIsStored | src/core/entity-manager/WriteExecutor.ts:1736-1786 | Where a relation holds nothing the row stores the key the caller put under `<property>Id`, or else in the `fkProperty`; without either, none |
| CascadeSaveKeys.ReferenceIsCopied | src/core/CascadeHandler.ts:327-389 | A ManyToOne saved through leaves the target's key on the object under the join column |
| CascadeSaveMeaning.ReferencesAreDeclared | src/core/entity-manager/WriteExecutor.ts:1736-1786 | The relations a row holds keys of: every declared ManyToOne and every OneToOne with a join column |
| CascadeSaveMeaning.EdgesAreDeclared | src/core/CascadeHandler.ts:220-389 | A save goes on from an object exactly to those it holds in declared relations with a save cascade |
| CascadeSaveMeaning.SaveWritesLeast | src/core/CascadeHandler.ts:198-218 | A root save writes the least set of objects with the root and all that its objects hold in such relations |
| CascadeOrders.ReferencesInOrder | src/core/CascadeHandler.ts:327-389 | The relations a row holds keys of come in the order declared: ManyToOnes, then owning OneToOnes |
| CascadeOrders.UpsInOrder | src/core/CascadeHandler.ts:327-389 | A save goes through those with a save cascade in that order, one object each |
| CascadeOrders.ChildrenSavedInOrder | src/core/CascadeHandler.ts:220-268 | then through the children, in the order of the relations and of each list |
| CascadeOrders.CounterpartsSavedInOrder | src/core/CascadeHandler.ts:270-303 | then through the counterparts, in the order declared |
| CascadeSaveRows.RowIsItsWrites | src/core/entity-manager/WriteExecutor.ts:506-767 | The row an object has after a whole save is the row it had before, overlaid by the foreign keys of its writes in order |
| CascadeSaveWalks.WritesAreWalks | src/core/CascadeHandler.ts:220-389 | An object is written once per walk along saving relations that leads to it from the root and meets no object twice, parallel relations counted apart |
| CascadeSaveNested.PathIsSaved | src/core/CascadeHandler.ts:220-389 | Along every path clear of some objects the cascade gets to a save of the object at its end with none of those up the stack |
| CascadeSaveNested.SecondSave | src/core/CascadeHandler.ts:220-389 | Where two walks lead to an object, its second save finds its key assigned |
| CascadeSaveReferences.RowLacksReferenceIff | src/core/entity-manager/WriteExecutor.ts:1736-1786 | After a whole save the row of a reached object lacks the key of a saving relation if and only if it lacked it before, neither the held object's key nor a shadow key was there at the start, every path from the root to the row's object passes the held object, at most one walk leads to the held object, and no owner reached without the row's object tells it a key |
| CascadeSaveReferences.RowEndsWithKey | src/core/entity-manager/WriteExecutor.ts:1736-1786 | The row ends with the held object's key whenever that key was known at the start, some path to the row's object avoids the held one, or two walks lead to the held one |
| CascadeSaveReferences.MutualReferenceIsLost | src/core/CascadeHandler.ts:327-389 | Two new rows that reference each other: both end with a key, and the row stored for the inner one lacks the key of the outer |
| CascadeSaveHandler.CascadeHandler.CascadeSaveManyToOne | src/core/CascadeHandler.ts:327-389 | The loops over references, with the ancestor check and the key copied to the join column, produce the specified world |
| CascadeSaveHandler.CascadeHandler.CascadeSaveOneToMany | src/core/CascadeHandler.ts:220-303 | The loops over children and inverse counterparts, each given the parent's key in place before its own save, leave the specified world, of which `ChildHoldsParentKey` and `ChildIsTold` say what was written |
| CascadeSaveHandler.CascadeHandler.ResolveFkValue | src/core/entity-manager/WriteExecutor.ts:1736-1786 | The held object's key, or the shadow value while it has none |
| CascadeSaveHandler.CascadeHandler.WriteItem | src/core/entity-manager/WriteExecutor.ts:1103-1111 | INSERT without a key, UPDATE with one |
| CascadeSaveHandler.CascadeHandler.SaveItem | src/core/entity-manager/WriteExecutor.ts:506-767 | references, own write, dependents, then the generated key |
| CascadeSaveHandler.CascadeHandler.SaveRoot | src/core/CascadeHandler.ts:198-218 | A whole save from outside any cascade writes the least set of objects with the root and all that its objects hold in declared relations with a save cascade, gives each a key, inserts none twice, and every foreign key names a row written before; the world it leaves is the specified one |
| RelationRows.StatementRefinesOwnRows | src/core/RelationLoader.ts:691-804 | One batched statement holds, for each parent in its IN list, exactly the list a separate read for that parent returns (same scoping, order and page), and nothing for any other parent |
| RelationRows.SortThenSelect | src/core/RelationLoader.ts:375-405 | Sorting all parents' rows and keeping one parent's equals sorting that parent's rows, with the relation's order and the primary key as tiebreak |
| RelationRows.NumberedIsWindow | src/core/RelationLoader.ts:375-405 | ROW_NUMBER per parent with a range of numbers is each parent's `[skip, skip + take)` window |
| RelationRows.SlicedHoldsOwn | src/core/RelationLoader.ts:253-265 | Over distinct keys cut into slices of any size, each parent gets its own list once |
| RelationRows.SlicesIsCeiling | src/core/RelationLoader.ts:253-265 | The number of statements is the least number of slices that hold the keys |
| RelationRows.SortSorts | src/core/RelationLoader.ts:351-362 | Sorting puts every row in order |
| RelationRows.SortIsStable | src/core/RelationLoader.ts:351-362 | Rows that compare equal keep their order |
| RelationRows.CountsAreLengths | src/core/RelationLoader.ts:1306-1406 | The grouped count over a slice reports exactly the parents that have rows, each with the length of its own unpaged list |
| RelationRows.GroupCountIsExact | src/core/RelationLoader.ts:1306-1406 | No parent is reported with a count other than its number of rows |
| RelationMeaning.ChildrenAre | src/core/RelationLoader.ts:691-804 | What a OneToMany read attaches: the rows holding the object's key in the join column that pass the scope, the relation's `where` and, unless trashed rows are asked for, the soft-delete test |
| RelationMeaning.TargetIs | src/core/RelationLoader.ts:544-674 | What a to-one read attaches: the row the foreign key names, under scope and soft delete only |
| RelationMeaning.CounterpartIs | src/core/RelationLoader.ts:1086-1178 | What an inverse OneToOne read attaches; without an owning side, nothing |
| RelationReads.OwnReadIs | src/core/RelationLoader.ts:351-405 | An object's own read under its options is the `[skip, skip + take)` part (all of it for a single relation) of a list that holds, each once, exactly the stored rows under the object's key that the read may return, by position; paged, the list is in the relation's order with the primary key breaking ties; unpaged, in that order with the stored one breaking ties, or in the stored one |
| RelationReads.KeylessReadsNothing | src/core/RelationLoader.ts:516-526 | An object without a key to be matched by reads nothing and counts 0 |
| RelationReads.CountIs | src/core/RelationLoader.ts:1269-1296 | A count is the number of stored rows, by position, that hold the object's key and that its own `where` and `withDeleted` let through |
| RelationReads.ViewsAttach | src/core/RelationLoader.ts:1412-1432 | An object that shows its own load holds, along the tree, references to objects with the entity, key and cells of the rows its reads return, in order, and its counts |
| RelationSources.SourceIs | src/core/RelationLoader.ts:544-1074 | Which stored rows each kind of relation reads and under which key: every row under its own; every row that holds one in the join column, in order; each row once per join row that names it |
| RelationPages.PageIsStable | src/core/RelationLoader.ts:365-374 | With distinct primary keys a page of a collection is the same list for every order in which the database holds the related rows and the join rows |
| RelationLoadingProofs.BatchedHoldsOwn | src/core/RelationLoader.ts:819-886 | For each of the four loaders and every slice size, the batched read holds each parent's own read |
| RelationLoadingProofs.LoadRelationIsOwn | src/core/RelationLoader.ts:544-804 | After loading one relation every instance shows what its own read returns, and nothing else on any object changed |
| RelationLoadingProofs.ViewIsStable | src/core/RelationLoader.ts:1412-1432 | What an object shows depends only on the objects below it |
| RelationTreeProofs.LoadLevelIsOwn | src/core/RelationLoader.ts:1412-1432 | For every relation tree and every object reached along every path, the level-by-level load shows what loading that object alone would show: its relations, and every count its path asks for |
| RelationTreeProofs.LoadNestedIsOwn | src/core/RelationLoader.ts:1194-1221 | The same below one level, one relation at a time, the counts on a relation's objects written after their own relations |
| RelationTreeProofs.CountedLevelShows | src/core/RelationLoader.ts:1213-1218 | Writing the counts of a loaded level changes nothing else any object shows, and every object then shows, for each, the length of the unpaged collection |
| RelationTreeProofs.LoadCountedIsOwn | src/core/RelationLoader.ts:1194-1262 | A whole read with counts on the queried objects themselves: each shows its own relations and counts |
| RelationTreeProofs.CollectFindsAll | src/core/RelationLoader.ts:1438-1452 | The collected related objects are exactly those some parent holds |
| RelationCosts.LoadRelationCost | src/core/RelationLoader.ts:253-265 | One relation costs exactly one statement per slice of the distinct keys of its instances, none when nothing can be read, whatever the number of instances |
| RelationCosts.LoadLevelCost | src/core/RelationLoader.ts:1412-1432 | A whole tree costs exactly the sum of that over its levels and relations, and of one grouped statement per slice for each count of a collection, each level being what the separate reads of the level above attach: a number told from the database and the request alone |
| RelationCosts.LoadCountedCost | src/core/RelationLoader.ts:1194-1262 | Counts on the queried objects add exactly one grouped statement per slice of their distinct keys each |
| RelationCosts.OneStatementPerRelation | src/core/RelationLoader.ts:1412-1432 | Where each level's distinct keys fit one slice: at most one statement per requested relation and count |
| RelationLoader.Loader.CollectKeys | src/core/RelationLoader.ts:516-526 | Distinct non-null keys in first-seen order |
| RelationLoader.Loader.QueryInChunks | src/core/RelationLoader.ts:253-265 | The slice loop returns the concatenated row sets and the number of statements it cost |
| RelationLoader.Loader.GroupByKey | src/core/RelationLoader.ts:866-886 | The map by key holds each parent's objects in row order, and no empty group |
| RelationLoader.Loader.Assign | src/core/RelationLoader.ts:866-886 | `parent[property]` is set in place for every parent, the empty list or null without rows |
| RelationLoader.Loader.LoadOne | src/core/RelationLoader.ts:819-886 | Keys, sliced statements, hydration, grouping, assignment: afterwards every instance holds under the relation's name references to objects made of exactly the rows its own read returns, in order |
| RelationLoader.Loader.LoadLevel | src/core/RelationLoader.ts:1412-1432 | Runs one level and those below; every instance ends up showing its own load, told as the objects it then holds |
| RelationLoader.Loader.LoadNested | src/core/RelationLoader.ts:1194-1221 | The loop over the tree's nodes refines the specified nested load |
| RelationLoader.Loader.LoadRelated | src/core/RelationLoader.ts:1206-1219 | What one node asks for on the objects of its relation: their relations, then their counts; all of them end up holding their own |
| RelationLoader.Loader.CollectRelated | src/core/RelationLoader.ts:1438-1452 | The set-guarded loops collect each related object once |
| RelationLoader.Loader.LoadRelationCounts | src/core/RelationLoader.ts:1233-1262 | For any list of counts every parent gets, for each, the length of the unpaged collection loading the relation would attach, 0 without a key; nothing else changes, and each count of a collection costs one statement per slice of parent keys |
| RelationLoader.Loader.CountOne | src/core/RelationLoader.ts:1252-1261 | One count written to every parent |
| RelationLoader.Loader.LoadEach | src/core/RelationLoader.ts:1412-1432 | The loop over an entity's relations loads the requested ones in the order declared |
| RelationLoader.Loader.CountRelated | src/core/RelationLoader.ts:1269-1296 | Exactly one grouped statement per slice, read into a map by key that holds the length of every parent's own read |
| RelationLoader.CountedIsOwn | src/core/RelationLoader.ts:1269-1406 | Any map read off the sliced counts holds the lengths of the own reads |
| ManyToManySides.SidesAreConverseIff | src/core/RelationMetadataResolver.ts:520-551 | Reading a ManyToMany from both sides is converse: `a` reads `b` as often as `b` reads `a` if and only if both rows pass scoping, neither does, or nothing links them |
| ManyToManySides.OppositeSwaps | src/core/RelationMetadataResolver.ts:530-547 | The inverse side resolves to the owner's join table with its columns swapped |
| RelationSources.ResolveIs | src/core/RelationMetadataResolver.ts:520-551 | The join table a side is read through: its own, or that of the first side of the related entity that `mappedBy` names and that has one, its columns swapped, or none |
| RelationSources.LinksAre | src/core/RelationMetadataResolver.ts:520-551 | Two keys are linked as often as rows of the join table hold both |
| ManyToManySides.LinkedMultiplicity | src/core/RelationLoader.ts:901-1074 | A side returns a related row once per join row that links it, if the row passes scoping, and never otherwise |
| QueryTracking.BoundedTracksTwinIff | src/core/QueryTracker.ts:114-142 | Under any clock, the bounded log is the last `maxLogEntries` entries of the unbounded log fed the same calls after every call of a run, if and only if no enabled track with a positive time to live and a bound of two or more finds the unbounded log longer than the bound, its two oldest kept entries expired, and some overwritten entry still live |
| QueryTracking.BoundedIsLastOfTwin | src/core/QueryTracker.ts:114-142 | In particular under every clock that does not run back, and under any clock without a time to live |
| QueryTracking.ClockSetBackBreaksTwin | src/core/QueryTracker.ts:311-337 | A run with a clock set back where the bounded log holds one entry against two |
| QueryTracking.RetainedIsLive | src/core/QueryTracker.ts:120-123 | No entry retained by a `track` was expired at it |
| QueryTracking.DropExpiredIsExact | src/core/QueryTracker.ts:311-337 | On a chronological log the early-exit eviction drops exactly the expired entries |
| QueryTracking.ScanIsWindow | src/core/QueryTracker.ts:339-362 | The early-exit backward scan, reversed, is exactly the retained entries of the entity in the window, oldest first |
| QueryTracking.WarnsOnceAtTheFirst | src/core/QueryTracker.ts:339-371 | A track warns, with the whole window, if and only if it is the first since the last reset whose count reaches the threshold |
| QueryTracking.WarnedIsReached | src/core/QueryTracker.ts:339-371 | The warned set is exactly the entities that reached the threshold since the last reset |
| QueryTracking.SmallLogNeverWarns | src/core/QueryTracker.ts:130-141 | A log smaller than the threshold never warns |
| QueryHistory.LogIsRecent | src/core/QueryTracker.ts:114-142 | After any run under a forward clock the log is exactly the entries tracked since the last reset that are among the last `maxLogEntries`, if there is a bound, and not expired when the newest was tracked, in order |
| QueryHistory.DisabledRecordsNothing | src/core/QueryTracker.ts:114-118 | A disabled tracker records and warns about nothing |
| QueryHistory.WindowPicks | src/core/QueryTracker.ts:339-359 | The window a warning reports: every retained entry of the entity from the window's start on, by position, in the log's order |
| QueryTracker.Tracker.constructor | src/core/QueryTracker.ts:96-108 | An empty buffer of `maxLogEntries` slots, or a plain list |
| QueryTracker.Tracker.Track | src/core/QueryTracker.ts:114-152 | The circular buffer refines the list: evict, append over the oldest when full, detect; slow-query report included |
| QueryTracker.Tracker.EvictExpired | src/core/QueryTracker.ts:311-337 | Advancing the head drops exactly the leading expired entries |
| QueryTracker.Tracker.Append | src/core/QueryTracker.ts:130-141 | Writing one slot appends, over the oldest entry once the buffer is full |
| QueryTracker.Tracker.GetLog | src/core/QueryTracker.ts:236-245 | The log oldest first |
| QueryTracker.Tracker.ScanBack | src/core/QueryTracker.ts:339-359 | The loop from the newest entry is the specified scan |
| QueryTracker.Tracker.DetectNPlusOne | src/core/QueryTracker.ts:339-371 | Warns at most once per entity, samples in chronological order |
| QueryTracker.Tracker.Reset | src/core/QueryTracker.ts:298-307 | Log and warning history are empty again |
| StreamBatches.StreamBatch | src/core/EntityManager.ts:1256-1297 | The batches concatenate to the window, hold between 1 and `max(batchSize, 1)` rows, all but the last exactly that many; one read per batch plus one exactly when the last was full and the limit not used up |
| StreamBatches.ReadBatches | src/core/EntityManager.ts:1279-1296 | The loop terminates for finite and unbounded `remaining` and cuts the window into chunks |
| StreamBatches.ResolveWindow | src/core/EntityManager.ts:1261-1275 | The precedence of `limit`, `take` and `skip` |
| StreamBatches.StreamedAre | src/core/EntityManager.ts:1261-1275 | A stream yields the rows at exactly the positions its options ask for: a limit with an offset sets both ends, a positive `take` in place of its count; else `skip` and `take`; else a plain limit |
| StreamBatches.WindowsAgreeIff | src/core/ExplainQueryHandler.ts:175-190 | The streamed window equals the single read's if and only if it is not an open-ended offset with more than 2147483647 rows after it |
| StreamBatches.ChunksFlatten | src/core/EntityManager.ts:1279-1296 | No row is lost or repeated by cutting a window into batches |
| StreamBatches.ChunkAt | src/core/EntityManager.ts:1279-1296 | The `i`th batch holds the rows from `i` batch sizes on |
| StreamBatches.ChunksAreSized | src/core/EntityManager.ts:1279-1296 | Every batch but the last has the batch size, and the last at least one row |
| StreamBatches.FindsIsExact | src/core/EntityManager.ts:1279-1296 | How many reads the loop makes |
| LazyProperties.LoadsAreAccounted | src/core/LazyLoader.ts:156-184 | In every run loads started equal failures, plus at most one resolution, plus at most one in flight |
| LazyProperties.SetIsNeverOverwritten | src/core/LazyLoader.ts:160-198 | The property holds the last value set; without one, what the load returned; before either it is the accessor |
| LazyProperties.EnumerableOnceDelivered | src/core/LazyLoader.ts:149-173 | The property is plain, hence enumerable, exactly once a value was loaded or set, and no load starts after that |
| LazyProperties.AwaiterAgreesIff | src/core/LazyLoader.ts:160-175 | A resolution hands its awaiters its result if nothing was set and the first value set otherwise; that is the property's value if and only if nothing was set or the first and last value set are the same |
| LazyProperties.AwaiterMissesSecondSet | src/core/LazyLoader.ts:160-198 | Read, set a, set b, resolve: awaiters get a, the property holds b |
| LazyProperties.RunKeeps | src/core/LazyLoader.ts:138-200 | The three invariants behind these over every interleaving |
| LazyProperties.LazyProperty.Get | src/core/LazyLoader.ts:152-187 | A read shares the load in flight or starts one |
| LazyProperties.LazyProperty.Set | src/core/LazyLoader.ts:188-198 | The setter while it is an accessor, a plain write after |
| LazyProperties.LazyProperty.Resolved | src/core/LazyLoader.ts:158-174 | A value set meanwhile is kept |
| LazyProperties.LazyProperty.Rejected | src/core/LazyLoader.ts:175-180 | A failure frees the slot |
| ReplicationPools.OpenPoolIsAccounted | src/core/ReplicationManager.ts:76-142 | In every interleaving a pool that opens is current, awaited by the one release that detached it, or closed exactly once: exactly one of the three |
| ReplicationPools.OneOpeningPerNode | src/core/ReplicationManager.ts:80-96 | No node has two unfailed openings in the current registry |
| ReplicationPools.ShutdownLeavesNoneOpen | src/core/ReplicationManager.ts:115-142 | After a shutdown and once its openings settled, every pool that opened was closed once |
| ReplicationPools.LateFailureSparesOthers | src/core/ReplicationManager.ts:85-93 | A late failure drops its own opening only |
| ReplicationPools.FailureIsRetried | src/core/ReplicationManager.ts:85-93 | After a failure is noticed the next connect opens the node again |
| ReplicationPools.ConnectShares | src/core/ReplicationManager.ts:80-96 | Until it fails or is released every connect to a node shares its opening |
| ReplicationPools.ConfigIsLatestIff | src/core/ReplicationManager.ts:32-41 | Connections are routed and opened by the configuration accepted last; by none before one was accepted or after a shutdown |
| ReplicationPools.SettlesOnce | src/core/ReplicationManager.ts:80-96 | An opening settles once, as it opened or failed; only a release that waited for it closes it |
| ReplicationPools.WaitsUntilSettled | src/core/ReplicationManager.ts:126-141 | A release stops waiting for an opening exactly when it goes on after it has settled |
| ReplicationPools.ReleasesFinish | src/core/ReplicationManager.ts:126-141 | Once every opening has settled, the releases can all finish |
| ReplicationPools.RunKeeps | src/core/ReplicationManager.ts:32-142 | The registry invariant over every run |
| ReplicationManager.Manager.Initialize | src/core/ReplicationManager.ts:32-41 | An unsupported type is refused before anything changes; otherwise what was there is released first, and the new configuration routes and opens with no pool yet |
| ReplicationManager.Manager.ConnectSession | src/core/ReplicationManager.ts:66-78 | Refused when shut down; otherwise through the node's current opening |
| ReplicationManager.Manager.NodePool | src/core/ReplicationManager.ts:80-96 | Opens a node once per registry |
| ReplicationManager.Manager.DropFailed | src/core/ReplicationManager.ts:88-93 | The failure handler on the map it captured |
| ReplicationManager.Manager.Release | src/core/ReplicationManager.ts:115-142 | Drops the router and the options and awaits every current opening; none is current after |
| ReplicationManager.Manager.CloseDetached | src/core/ReplicationManager.ts:126-141 | A detached opening is closed once more if it opened, not if it failed, and no longer awaited |
| SqlFragments.FilledTemplate | src/utils/sqlTag.ts:30-41 | Filling placeholders in before or after a template is flattened is the same, for every nesting; every fragment has one more chunk than values |
| SqlFragments.TemplateOfBinds | src/core/CompiledQuery.ts:102-110 | Rebuilding a fragment from its chunks and values gives it back |
| RawQueryText.TextOfTemplate | src/utils/sqlTag.ts:30-41 | Flattening changes no text: a fragment reads as its template with `?` for each value and each spliced fragment in its place |
| RawQueryText.LimitIs | src/core/RawQueryBuilder.ts:293-308 | MySQL binds offset then count, the other dialects count then offset, with the matching text |
| RawQueryText.ListIs | src/core/RawQueryBuilder.ts:190-223 | An IN list reads as one `?` per value and binds them in order |
| RawQueryClauses.BuildReads | src/core/RawQueryBuilder.ts:675-699 | The text of every built statement: CTEs, then the clauses in call order, one space apart |
| RawQueryClauses.ListReads | src/utils/sqlTag.ts:30-41 | A joined list reads as its members with the separator between them, and binds their values in order |
| RawQueryText.JoinBinds | src/core/RawQueryBuilder.ts:318-348 | A join binds its subquery's values, then its condition's |
| RawQueryClauses.IncludesIff | src/core/RawQueryBuilder.ts:318-348 | The test that leaves a join's alias out: the part stands at some position of the text |
| RawQueryProofs.CompiledIsBuilt | src/core/CompiledQuery.ts:102-110 | For every sequence of builder calls, executing the compiled query with values for its placeholders runs what the same calls with plain values build: same strings, same values |
| RawQueryFilling.CallFilledIn | src/core/CompiledQuery.ts:102-110 | The same call with plain values: each value it is given is the parameter's where it was a placeholder with one, and itself otherwise |
| RawQueryFilling.CompiledHoldsValues | src/core/CompiledQuery.ts:102-110 | Executing a compiled query is building the same calls over plain values: each value of those calls, and of the statement, is the parameter's where it was a placeholder with one, and none of those placeholders is left |
| RawQueryProofs.CallCommutes | src/core/RawQueryBuilder.ts:70-263 | Each builder call fills the same before or after it is applied, from every builder state |
| RawQueryProofs.FailureIsUnchanged | src/core/RawQueryBuilder.ts:675-699 | Plain values do not change whether the calls build |
| RawQueryProofs.BuildKeepsValues | src/core/RawQueryBuilder.ts:675-699 | A built statement binds every value given, once, in clause order: CTEs, first segment, extra columns, the rest |
| RawQueryConditions.OneWhereIff | src/core/RawQueryBuilder.ts:143-263 | The first condition of a run opens the WHERE clause and no other does, if and only if the first is not `andWhere` or `orWhere` and no non-empty `where` follows another condition |
| RawQueryConditions.ConditionOpensIff | src/core/RawQueryBuilder.ts:143-263 | A condition begins with WHERE if and only if it comes through `where`, or is not `andWhere` or `orWhere` and nothing but those came before; otherwise it begins with AND, or with OR for `orWhere` |
| RawQueryConditions.EmptyWhereDangles | src/core/RawQueryBuilder.ts:143-170 | `where([])` then `andWhere(c)` leaves a condition that begins with AND and no WHERE |
| RawQueries.ExecuteFills | src/core/CompiledQuery.ts:102-151 | Execution fails if and only if some placeholder has no value, naming the first; otherwise the strings are unchanged and each slot is the parameter's value where it was a placeholder, and the slot itself otherwise |
| RawQueries.ResolveFills | src/core/CompiledQuery.ts:133-151 | The same for the values alone |
| RawQueryBuilder.QueryBuilder.Select | src/core/RawQueryBuilder.ts:70-86 | Refused exactly for an empty list, changing nothing; otherwise the next clause reads SELECT and the columns between commas, and binds nothing |
| RawQueryBuilder.QueryBuilder.SelectFragments | src/core/RawQueryBuilder.ts:102-114 | Refused exactly for an empty list; otherwise SELECT or SELECT DISTINCT and the fragments between commas, their values in order |
| RawQueryBuilder.QueryBuilder.From | src/core/RawQueryBuilder.ts:122-136 | FROM and the name or subquery, the alias after AS for a name and bare for a subquery, the subquery's values bound |
| RawQueryBuilder.QueryBuilder.Where | src/core/RawQueryBuilder.ts:143-159 | No conditions change nothing, so a later one still opens the clause; otherwise WHERE and the conditions joined by AND, their values in order, and the flag set |
| RawQueryBuilder.QueryBuilder.AndWhere | src/core/RawQueryBuilder.ts:167-170 | AND and the condition with its values; later conditions are not told there is one |
| RawQueryBuilder.QueryBuilder.OrWhere | src/core/RawQueryBuilder.ts:178-181 | OR and the condition with its values; later conditions are not told either |
| RawQueryBuilder.QueryBuilder.WhereIn | src/core/RawQueryBuilder.ts:190-204 | The column IN one mark per value, bound in order, after WHERE or AND by the flag; `1=0` for an empty list; the flag is set |
| RawQueryBuilder.QueryBuilder.WhereNotIn | src/core/RawQueryBuilder.ts:212-223 | The column NOT IN one mark per value, bound in order; an empty list changes nothing, the flag included |
| RawQueryBuilder.QueryBuilder.WhereNull | src/core/RawQueryBuilder.ts:230-235 | The column IS NULL after WHERE or AND by the flag, no value bound, the flag set |
| RawQueryBuilder.QueryBuilder.WhereNotNull | src/core/RawQueryBuilder.ts:242-247 | The column IS NOT NULL after WHERE or AND by the flag, no value bound, the flag set |
| RawQueryBuilder.QueryBuilder.WhereBetween | src/core/RawQueryBuilder.ts:256-263 | The column BETWEEN two marks, the lower bound bound first, and the flag set |
| RawQueryBuilder.QueryBuilder.Join | src/core/RawQueryBuilder.ts:318-348 | The join of the table on its condition, the alias added unless the table's text has it, the subquery's values before the condition's |
| RawQueryBuilder.QueryBuilder.GroupBy | src/core/RawQueryBuilder.ts:359-372 | The keys between commas whether names or fragments, their values in order; no keys change nothing |
| RawQueryBuilder.QueryBuilder.Having | src/core/RawQueryBuilder.ts:379-383 | HAVING and the conditions joined by AND with their values; no conditions change nothing |
| RawQueryBuilder.QueryBuilder.Limit | src/core/RawQueryBuilder.ts:293-308 | One mark for a count; with an offset MySQL reads `LIMIT ?, ?` and binds the offset first, the others `LIMIT ? OFFSET ?` and the count first |
| RawQueryBuilder.QueryBuilder.Offset | src/core/RawQueryBuilder.ts:427-430 | `OFFSET ?` with the one value |
| RawQueryBuilder.QueryBuilder.AppendSql | src/core/RawQueryBuilder.ts:437-440 | The fragment as it is, its values after all those of the clauses before it; the flag is left |
| RawQueryBuilder.QueryBuilder.With | src/core/RawQueryBuilder.ts:557-587 | The clause goes after the CTEs before it, with its values after theirs; the clauses are untouched, and the list is recursive once one of them is |
| RawQueryBuilder.QueryBuilder.AddSelectExpression | src/core/RawQueryBuilder.ts:666-669 | The expression goes after the extra columns before it, with its values after theirs; the clauses are untouched |
| RawQueryBuilder.QueryBuilder.Build | src/core/RawQueryBuilder.ts:675-699 | Fails exactly when nothing was added; otherwise the statement reads as the CTEs, then the clauses in call order one space apart, the extra columns after the first clause, and binds the values in the order their marks appear |
| RawQueryBuilder.QueryBuilder.Prepare | src/core/RawQueryBuilder.ts:718-728 | Fails when the build does; the compiled query runs the built statement |
| RawQueryBuilder.PlaceholdersAreNames | src/core/CompiledQuery.ts:76-92 | The parameter names are exactly the placeholders of the slots, each once |
| RawQueryBuilder.PlaceholdersInOrder | src/core/CompiledQuery.ts:76-87 | in the order their placeholders first occur |
| RawQueryBuilder.Compiled.constructor | src/core/CompiledQuery.ts:76-87 | Collects the parameter names in first-occurrence order |
| RawQueryBuilder.Compiled.ResolveValues | src/core/CompiledQuery.ts:133-151 | The slot loop puts the parameter's value in place of each placeholder and leaves every other slot; it stops at the first placeholder without a value and names it |
| RawQueryBuilder.Compiled.Execute | src/core/CompiledQuery.ts:102-110 | Runs the compiled strings with each placeholder's value in its slot and every other slot as it was, or fails exactly when a name is missing |
| Bigints.NumberModeIsExact | src/core/BigintColumnTransformer.ts:44-70 | Number mode returns the exact integer or refuses it, and refuses it exactly when its magnitude exceeds 2^53 - 1, though a text is tested only after rounding; everything else passes through |
| Bigints.RoundingKeepsSafety | src/core/BigintColumnTransformer.ts:64-68 | The safety test after binary64 rounding decides as one before it |
| Bigints.RoundIsNearest | src/core/BigintColumnTransformer.ts:64-68 | No binary64 integer is nearer to a value than what it rounds to (IEEE 754-2019 section 4.3.1) |
| Bigints.RoundIsRepresentable | src/core/BigintColumnTransformer.ts:64-68 | A rounded integer is a binary64 integer |
| Bigints.ConversionIs | src/core/BigintColumnTransformer.ts:64-68 | A conversion gives the nearest binary64 integer with the sign of the integer, or overflows when that is 2^1024 or more |
| Bigints.UnsafeIsRefused | src/core/BigintColumnTransformer.ts:108-117 | `isUnsafeInteger` agrees with the refusal on every input |
| Bigints.BigintInvertsStringIff | src/core/BigintColumnTransformer.ts:71-88 | Reading through string mode and then bigint mode gives what bigint mode gives, if and only if the value is not a number outside the safe range or that number prints as the text of its integer |
| Bigints.LargeNumberStaysText | src/core/BigintColumnTransformer.ts:71-88 | The number 10^21, printed `1e+21`, stays a text |
| Bigints.AggregateIsExact | src/core/BigintColumnTransformer.ts:125-134 | An aggregate refuses exactly the lossless integers it would have to round, returns the others exactly, a number as it is, and coerces the rest |
| Bigints.PrintedParses | src/core/BigintColumnTransformer.ts:72-73 | Printing and parsing decimal integers are inverse |
| BigintTexts.StringModeIsText | src/core/BigintColumnTransformer.ts:71-79 | String mode turns a big integer or a safe number into its decimal text, digit by digit, without leading zeros and with a minus exactly if negative; an unsafe number into what it prints as; and leaves the rest |
| BigintTexts.BigintModeIsInteger | src/core/BigintColumnTransformer.ts:80-85 | Bigint mode turns a number or text that is an integer into that integer, a text read digit by digit, and leaves the rest |
| BigintTexts.IntegerTextIs | src/core/BigintColumnTransformer.ts:25-26 | Which texts are integers: at least one digit after at most one minus |
| BigintTexts.PrintsDecimal | src/core/BigintColumnTransformer.ts:72-73 | An integer is printed in decimal |
| Cursors.DecodeInvertsEncodeIff | src/core/CursorPagination.ts:172-212 | Decoding gives back the order value (null for undefined), primary key and tiebreaker if and only if no object in them has a string under `$bigint` |
| Cursors.RevivedIsInverseIff | src/core/CursorPagination.ts:125-138 | The reviver undoes the replacer on a tree with big integers at any depth under the same condition |
| Cursors.CursorIs | src/core/CursorPagination.ts:172-186 | A cursor is a JSON object without big integers: the order value under `v`, null for undefined, then the primary key under `p` and the tiebreaker under `d` where there is one |
| Cursors.TaggedIsPlain | src/core/CursorPagination.ts:125-127 | A tagged tree holds no big integer, each having become an object with its decimal text under `$bigint` |
| Cursors.PlainIsUnchanged | src/core/CursorPagination.ts:125-127 | A tree without big integers is encoded as it is |
| Cursors.HasTagIs | src/core/CursorPagination.ts:129-138 | What the reviver takes for a tag: an object whose first field under `$bigint` is a string |
| Cursors.LegacyCursorDecodes | src/core/CursorPagination.ts:203-212 | A cursor with an order value alone, from before there were keys, still decodes; a payload that is no object does not |
| Cursors.TagLookalikeIsLost | src/core/CursorPagination.ts:129-138 | An ordinary object that looks like a tag comes back as a big integer |
| JoinedTables.EachColumnOnce | src/core/JoinedChildSource.ts:94-132 | A subclass read lists every column of the class and of the root's table exactly once, from the table that stores it |
| JoinedTables.SubclassColumnsAreStored | src/core/JoinedChildSource.ts:194-221 | The columns a root read selects from a subclass are those the subclass read takes from its own table |
| JoinedTables.SubclassColumnsAre | src/core/JoinedChildSource.ts:66-83 | Which columns those are, each once |
| JoinedColumns.ChildSelectIs | src/core/JoinedChildSource.ts:94-132 | A subclass read, told from the declarations: every column the class has or the root's table shares, once, from the root's table exactly if the root declares it other than as a key, joins by it or generates it; none without a key |
| JoinedColumns.SubclassSelectIs | src/core/JoinedChildSource.ts:194-221 | A root read selects from a subclass, once each, the columns of its new properties, the join columns the root's table does not share, and what it generates and the root does not |
| JoinedColumns.HoldersAreHeld | src/core/JoinedChildSource.ts:231-253 | The holders of a column are those subclasses, in the hierarchy's order, and none if the root's table has it |
| JoinedSources.CountIsLogical | src/core/AggregateQueryHandler.ts:79-95 | Over the rows written a count under any condition is the number of them whose values pass it, each column read as it was written where the row's class or the root's table has it, and NULL elsewhere |
| JoinedReads.SubclassReadIsLogical | src/core/JoinedChildSource.ts:94-132 | The INNER JOIN puts every stored row of the subclass together again, whole, once, and no other |
| JoinedReads.RootReadIsLogical | src/core/JoinedChildSource.ts:279-303 | The LEFT JOIN returns the rows written, in order and once, and reads every column of each as it was written |
| JoinedReads.JoinsKeepRows | src/core/JoinedChildSource.ts:279-303 | With at most one match per table the joins keep the root's rows, each next to its match |
| JoinedReads.CountsAgreeIff | src/core/AggregateQueryHandler.ts:245-261 | A count over the joined root equals the count over the root's table if and only if no counted row has two rows in one subclass table |
| JoinedReads.UniqueKeysKeepCounts | src/core/AggregateQueryHandler.ts:186-193 | Primary keys on the subclass tables suffice |
| JoinedReads.CoalesceIsOwnRow | src/core/JoinedChildSource.ts:231-253 | COALESCE over the holders is the value of the row's one subclass row, or NULL |
| JoinedReads.RootReadsAsStoredIff | src/core/JoinedChildSource.ts:279-303 | For any stored tables with at most one row per key each, a read of the root shows a subclass column of every row as every table stores it if and only if no key has two different values of it in two subclass tables |
| JoinedWrites.ChildInsertIsReadIff | src/core/entity-manager/WriteExecutor.ts:978-1001 | The INSERT of a subclass row, which splits its columns by the root's column names, puts a column into the subclass's table exactly when the reads look for it there, if and only if its name is apart from the root's; what they look for there is always written |
| JoinedWrites.RootInsertIsReadIff | src/core/entity-manager/WriteExecutor.ts:978-1001 | and its value into the root's table exactly when it is a column of that table, if and only if the class declares no other column of that name |
| JoinedWrites.InsertedIsStoredIff | src/core/entity-manager/WriteExecutor.ts:956-1055 | For every list of rows the INSERTs leave exactly the tables the reads are proved over if and only if every subclass keeps its names apart from those of the root's table |
| JoinedWrites.SubclassReadsInsertedIff | src/core/entity-manager/WriteExecutor.ts:956-1055 | Rows inserted by that split are read back whole, once and in order by every subclass if and only if no subclass declares a column of its own under the name of a join, generated or other column of the root's table |
| JoinedWrites.RootReadsInsertedIff | src/core/entity-manager/WriteExecutor.ts:956-1055 | and by the root, every column as it was written, under the same condition |
| JoinedWrites.ClashIsLost | src/core/entity-manager/WriteExecutor.ts:978-1001 | Any column declared under such a name goes to the subclass's table while every read takes it from the root's: what was written is not read |
| JoinedWrites.JobLosesOwner | src/core/entity-manager/WriteExecutor.ts:978-1001 | A subclass with a plain column named like the join column it inherits: the value saved is read back as NULL |
| JoinedSources.JoinedRootColumns | src/core/JoinedChildSource.ts:40-59 | The set-filling loops give what the root's table holds besides its key: what the root declares, joins by or generates |
| JoinedSources.BuildJoinedChildSelect | src/core/JoinedChildSource.ts:94-132 | The select list, None without a key, with exactly the columns and tables of `ChildSelectIs` |
| JoinedSources.JoinedSubclassColumns | src/core/JoinedChildSource.ts:194-221 | The loops that gather a subclass's new, join and generated columns, each once |
| JoinedSources.JoinedChildJoinColumns | src/core/JoinedChildSource.ts:66-83 | The join columns the root's table does not share |
| JoinedSources.BuildHolders | src/core/JoinedChildSource.ts:231-253 | The map lists, for every column, its holders in order, and agrees with filtering the subclass columns one by one |
| JoinedSources.CollectHolders | src/core/JoinedChildSource.ts:237-247 | The loop that fills the map |
| JoinedSources.Count | src/core/AggregateQueryHandler.ts:79-95 | Over the rows written, the number of those whose values pass the condition, whichever table stores a column; joining the subclass tables only when a condition reads one of their columns never shows |
| JoinedSources.ReadsSubclass | src/core/AggregateQueryHandler.ts:79-95 | Whether some column is read from a subclass |

## Left out

- Database I/O, drivers, sessions, transactions and rollback: a statement is a function on a table, an opening or a load an event.
- SQL text beyond chunks and values: identifier quoting, dialect spellings, lock clauses, EXPLAIN parsing.
- Lifecycle hooks, subscribers, events, logging and listener errors.
- Option validators, error messages and name suggestions.
- Composite keys: parents, targets and cascades go by the first primary column, as in the source; the loader's ROW_NUMBER breaks ties by every primary-key column, the model by its one.
- A client-supplied primary key on save: new objects get generated keys, and an UPDATE of a row that is not stored, which the source refuses, changes nothing.
- An explicit `null` or a bare key value in a relation property on save: a property holds an object or nothing.
- Tenant and single-table scoping are one arbitrary predicate per entity and row; a `where` is an arbitrary predicate, an order an arbitrary total preorder.
- The order of unpaged, unordered statements is the stored one and the database's sort is taken to be stable; concurrent writers are not modelled.
- Hydration is one fresh object per row; loaded objects have the entity their relation names, and the requested tree names only relations that exist.
- Object identity: the cascade's objects and the loader's objects live in a map or sequence field of the class, indexed by reference, instead of being Dafny objects; aliasing shows as equal references.
- `createLazyProxy`: it starts loads as the injected property does but has no setter.
- Query tracker: in-flight query counting, waiting for queries, fractional `maxLogEntries`.
- Replication routing, health checks and the use of a connection after its pool was released.
- Builder: window functions, CTE callbacks, set operations, `selectDistinct`, `selectDistinctOn` and ORDER BY text, which bind no values; a parameter that is itself a fragment.
- sql-template-tag is not part of this model: fragments follow the shape `src/utils/sqlTag.ts` relies on.
- Bigints: the sign of zero, and how numbers outside the safe range print, which is a parameter.
- Cursors: JSON text and Base64 (RFC 8259; section 4 of RFC 4648) are taken to be inverse; `undefined` inside a tree, dates and texts `BigInt` accepts other than plain digits are outside, the last as a parameter.
- Joined inheritance: output aliases are table and column pairs, so a collision of concatenated alias strings is not modelled.
- LazyProperties: one property of one object; redefining or deleting the property from outside is not modelled.
- CascadeSaveReferences.RowLacksReferenceIff: over a relation with a join column of its own, none of whose sibling relations' columns is read as its shadow; two objects for one row are outside.
- Joined inheritance on write: the discriminator column; what the database generates under a name the subclass declares too is a parameter.
- CascadeSaveKeys.ChildHoldsParentKey: over a join column no other relation of the child has, none of whose siblings saved through copies its own key to the property the child's relation is read from; so for the other lemmas of `CascadeSaveKeys` about rows.
