# dbpack, modelled and proved in Dafny

dbpack is a MySQL proxy. It shards tables over databases, runs distributed transactions and speaks the MySQL wire
protocol on both sides. This project models the five parts of it that carry the most logic and proves what they keep.

**Sharding.** `WhereClause` turns a WHERE clause into a condition in disjunctive normal form, with the objects that
the source extends in place (`ConditionHeap`) and the values they stand for (`ConditionAlgebra`). `Sharding` reduces a
condition to a list of tables, pairing the sorted keys of a conjunction (`PairTable`) and using the arithmetic of
`NumberMod` and `NumberRange`. `Selection` puts the chain together: no row that the clause selects is stored in a
table left out, unless a part of the chain loses rows, which is characterised. `Topologies` covers the tables of each
database and the full-scan flag.

**Queries.** `Merge` and `RoundRobin` are the merges of sorted and unsorted results; `RowOrder` is their order.
`PushDown` and `LimitedQuery` show that sending `LIMIT offset + count` to every table changes no sort key of the
answer.

**Undo.** `Undo` replays the images of a branch, newest first, inside one local transaction. `UndoRuns` proves over
every run of statements, interleaved with any other writers of other rows, that the branch's rows come back.

**Wire protocol.** `Encoding`, `Packets`, `TextRows`, `BinaryValues`, `BinaryRows`, `FieldTypes` and
`ColumnDefinition` write into buffers in place and read back. Round trips hold for all inputs, or exactly under a
stated condition.

**State machines.** `Segment` (ID allocation by any number of workers over one database row) and `Breaker` (a circuit
breaker with its timer) are stepped through every interleaving. `Escape` is the escaping of string literals.

Methods follow the loops and fields of the source and are proved against functions; the laws are lemmas about those
functions. Some functions take a reader, an encoder or a comparison as a parameter, so that a proof about a loop does
not depend on what is read or compared.

## What the proofs found

Where a law fails for the code as it is, the model keeps the code and states exactly when the law holds.

- `<>` prunes by remainder: a lone `key <> v` loses rows exactly when the remainder of `v` is not negative
  (`NumberMod.Shard`).
- An upper bound together with `<>` of a smaller value lists no table at all. Of all pairs under modulo this is the
  only one that loses rows, and it does so exactly when some stored key meets both (`Sharding.ShardPair`); which
  bounds these are is `NumberMod.StoredBelow`. A row that is lost is in `Sharding.ExclusionLosesRow`.
- Two comparisons of one column that start with `<>`, unless `=` follows, or that are `>= v` and `<= v` have no
  answer. Where no constant decides, a conjunction of comparisons panics under modulo exactly when such a pair comes
  before every pair that excludes itself, and a disjunction exactly when it has three keys of its own
  (`Sharding.Shard`). So `IN` panics unless it lists one or two values, and `BETWEEN v AND v` panics
  (`Selection.LeafPanics`).
- With ranges, a pair of bounds is sound in every order of the map exactly when no stored key meets both, or the upper
  bound lies in or at the end of some range and is not an inclusive bound where two ranges meet
  (`NumberRange.SoundInEveryOrder`). A comparison that is not paired loses no row (`Sharding.ShardKey`).
- `a BETWEEN 1 AND 2 AND (a BETWEEN 3 AND 4 OR b = 5)` loses rows, because the conjunction on the left is extended in
  place and used again (`WhereClause.AliasLosesRows`). The result is the conjunction, whichever keys hold, exactly when
  any two members of its sides, taken alone, are kept together (`ConditionAlgebra.ConjunctionExactly`). Whatever is
  shared, without NOT IN the condition never holds of a row that the clause does not select
  (`WhereClause.DerivedImplies`).
- A constant on the right of a condition that is none gives no condition at all (`ConditionAlgebra.MissingResult`).
- `NOT IN` is parsed to a disjunction of `<>`, which is right exactly when all listed values are equal
  (`WhereClause.NotInExactly`).
- With `<>` in front, which no caller passes, `NumberMod.ShardRange` can overlook the table of an inclusive upper
  bound; it states exactly when.
- With ORDER BY, a database without rows makes the merge panic (`Merge.MergeOrderBy`), and `LIMIT n, 0` returns
  everything behind the offset (`Merge.LimitedIsWindow`).
- An undo log row that cannot be decoded hides all older ones. Where newer ones are replayed, all are deleted; where
  the newest is the one that cannot be decoded, nothing is replayed or deleted and the undo reports success
  (`UndoRuns.UnreadableIsLost`).
- The catalog of a column definition is skipped without a look at the bytes, so a length close to 2^64 moves the
  position back (`Encoding.SkipAgrees`).
- Decoding a row a second time after a failure reports no error and no values (`TextRows.TextRow.Decode`).
- If the segment row is missing it is never inserted, and every worker repeats the IDs 1 to its step
  (`Segment.MissingRowRepeats`).

## Model

| member | source | states |
|---|---|---|
| `Conditions.SortKeeps` | pkg/cond/condition.go:279-300 | sorting the keys of a conjunction permutes them |
| `Conditions.SortOrdered` | pkg/cond/condition.go:283-296 | no key sorts before its predecessor, by column, operator name and value as text |
| `ConditionAlgebra.AndMeans` | pkg/cond/condition.go:53-193 | for all operands and rows, exactly what a conjunction means: a conjunction with a disjunction means the chain that the in-place append makes of it |
| `ConditionAlgebra.AndIsConjunction` | pkg/cond/condition.go:53-193 | a result never holds where an operand fails, and is the conjunction when no conjunction on the left meets a right disjunction with a conjunction before its last member |
| `ConditionAlgebra.ConjunctionExactly` | pkg/cond/condition.go:53-193 | whichever keys hold the result is the conjunction, if and only if any member of the left and any member of the right, with no other key holding, are kept together |
| `ConditionAlgebra.StandsMeans` | pkg/cond/condition.go:165-189 | where one conjunction stands several times on the left and is extended several times, the result still means what the conjunction of the values means |
| `ConditionAlgebra.OrIsDisjunction` | pkg/cond/condition.go:88-261 | a disjunction means the disjunction of its operands on every row |
| `ConditionAlgebra.ChainMeans` | pkg/cond/condition.go:141-151 | the chain implies the disjunction, and equals it when only the last member is a conjunction |
| `ConditionAlgebra.ProductMeans` | pkg/cond/condition.go:176-189 | the product of two disjunctions means the crossing of their members, with the chain for conjunctions |
| `ConditionAlgebra.ResultKeys` | pkg/cond/condition.go:53-261 | neither operation invents a key: what holds of all keys of the operands holds of all keys of the result |
| `ConditionAlgebra.MissingResult` | pkg/cond/condition.go:53-277 | no condition results exactly when a condition that is no constant is combined with a constant or nothing |
| `ConditionHeap.ConjAndMembers` | pkg/cond/condition.go:134-151 | the loop over a right disjunction yields copies for keys and the extended receiver for conjunctions, changing only the receiver |
| `ConditionHeap.MembersAndMembers` | pkg/cond/condition.go:176-189 | the nested loops yield the product of the left members as they are in their turn, each of which once is as it was; they change only conjunctions of the left side and share no object when nothing is extended twice |
| `ConditionHeap.MembersAndConj` | pkg/cond/condition.go:165-175 | every member with a conjunction, extending the left conjunctions in place: the key sets are those of the values however often one occurs, and the values themselves where none occurs twice |
| `ConditionHeap.And` | pkg/cond/condition.go:53-193 | for operands without a common object: the result consists of their objects and new ones, its value stands for the conjunction of the values, and is that conjunction where no conjunction occurs twice; again none does unless one was extended and used again |
| `ConditionHeap.Or` | pkg/cond/condition.go:88-261 | for operands without a common object: the result stands for the disjunction of the values, with the left disjunction extended in place |
| `WhereClause.Parse` | pkg/cond/condition.go:302-437 | every object of the result is new; a call on a missing condition is the only panic; the value is derived from the values of both sides, and is the parsed value where no conjunction was extended and used again |
| `WhereClause.DerivedIsAlike` | pkg/cond/condition.go:421-437 | whatever is shared, a result is missing or a constant exactly when the parsed value is |
| `WhereClause.DerivedImplies` | pkg/cond/condition.go:421-437 | whatever is shared, the condition of a clause without NOT IN holds only of rows that the clause selects |
| `WhereClause.DerivedKeeps` | pkg/cond/condition.go:421-437 | where every AND keeps its members together, the condition holds of every row that the clause selects |
| `WhereClause.AliasLosesRows` | pkg/cond/condition.go:134-151 | for a BETWEEN and a disjunction of a BETWEEN and a comparison, every row that meets the first and the last only is selected by the clause and not by its condition |
| `WhereClause.ParseLeaf` | pkg/cond/condition.go:456-542 | BETWEEN, IN, comparisons and constants become new objects for their values |
| `WhereClause.ParsedMeans` | pkg/cond/condition.go:421-437 | without a conjunction that is extended and used again, a condition that results holds of every row that the clause selects, and without NOT IN of no other |
| `WhereClause.NotInIsWeaker` | pkg/cond/condition.go:506-542 | a negated list is implied by its parse, which holds of every row that differs from one listed value |
| `WhereClause.NotInExactly` | pkg/cond/condition.go:506-542 | a negated list is parsed to its meaning if and only if all listed values are equal |
| `Selection.SelectTables` | pkg/optimize/optimize_select.go:72-80 | from clause to tables: a result exactly when a condition results whose junctions can be combined; no table holding a selected row is left out where no AND and no group of comparisons loses rows |
| `Selection.LeafPanics` | pkg/cond/condition.go:456-542 | IN has tables if and only if it lists one or two values, BETWEEN if and only if its bounds differ |
| `Selection.UsableIsPrunable` | pkg/cond/shard.go:87-192 | a clause whose comparisons are safe one by one has a condition that loses no row however they are paired |
| `Selection.SelectedSatisfies` | pkg/optimize/optimize_select.go:72-76 | where no AND loses rows, the condition that is sharded selects every row of the clause, and without NOT IN no other |
| `NumberMod.Shard` | pkg/cond/algo_number_mod.go:49-97 | one comparison: sound exactly unless `<>` meets a remainder that is a table, tight and without repetition for non-negative values |
| `NumberMod.ShardRange` | pkg/cond/algo_number_mod.go:99-209 | two bounds: exactly the remainders of the interval, all tables only when all occur, none twice; `<>` and an upper bound: sound exactly unless the bound is overlooked; other shapes list nothing |
| `NumberMod.StoredBelow` | pkg/cond/algo_number_mod.go:99-209 | some stored key meets an upper bound and differs from a smaller value exactly for the bounds named |
| `NumberMod.RemaindersExact` | pkg/cond/algo_number_mod.go:131-167 | the remainders collected between two bounds are those of the integers between them |
| `NumberMod.RemainderMet` | pkg/cond/algo_number_mod.go:131-140 | as many consecutive integers as there are tables meet every remainder |
| `NumberRange.Shard` | pkg/cond/algo_number_range.go:75-119 | one comparison is sound under every order of the map, and lists exactly the ranges with a matching key or that end at a `>` or `>=` bound, each once |
| `NumberRange.ShardRange` | pkg/cond/algo_number_range.go:121-203 | two bounds give the tables between some locations of the bounds, none of which starts beyond the upper one or ends below a located lower one, soundly when they are reliable; `<>` and an upper bound give the tables of the bound; other shapes list nothing |
| `NumberRange.Locate` | pkg/cond/algo_number_range.go:205-212 | a range from its first key to its end, both included, that has the value, under every order of the map; -1 exactly when there is none |
| `NumberRange.SoundInEveryOrder` | pkg/cond/algo_number_range.go:189-212 | pruning by two bounds is sound for every order of the map if and only if no stored key meets both, or the upper bound is covered and not inclusive at a boundary |
| `PairTable.Simplify` | pkg/cond/shard.go:216-517 | the case table over operator pairs keeps the exact meaning of both comparisons, and names the pairs it does not answer |
| `Sharding.PairsPartition` | pkg/cond/shard.go:126-161 | pairing uses every key exactly once, in order, and pairs only keys of one column |
| `Sharding.ShardKey` | pkg/cond/shard.go:194-203 | one comparison loses a row if and only if it is `<>` of a value with a table under modulo; the tables are exactly the justified ones: those with a matching key and, under ranges, also those that end at a `>` or `>=` bound |
| `Sharding.ShardPair` | pkg/cond/shard.go:216-517 | which pairs have no answer; a pair keeps every table that holds a row meeting both keys if it is prunable, and under modulo or with an excluded value only then; every table listed is justified and none is listed twice; under ranges two bounds list what lies between some locations of them; the constant for no table results for a pair that vanishes |
| `Sharding.ShardConjunction` | pkg/cond/shard.go:126-161 | the pairing loop ends and decides every group once |
| `Sharding.SliceAnd` | pkg/cond/shard.go:29-48 | the common indices, without repetition when the second list has none |
| `Sharding.SliceOr` | pkg/cond/shard.go:50-71 | the indices of either list, without repetition when neither has any |
| `Sharding.RowIsSelected` | pkg/cond/shard.go:87-192 | the table of a row that satisfies a condition is selected by it |
| `Sharding.ShardComplex` | pkg/cond/shard.go:87-192 | soundness, exactness and the panics of a junction, by recursion over nested ones; an upper bound with a smaller value excluded empties the list |
| `Sharding.Shard` | pkg/cond/shard.go:87-211 | for every condition: no table of a satisfying row is left out if all groups are prunable; all are left out if a bound meets a smaller excluded value; without `<>` every table listed is justified by all groups of its conjunction or a member of its disjunction, and none is listed twice; under modulo with comparisons of the sharding column only exactly the selected tables; under modulo a result if and only if all junctions can be combined, under ranges if they can in every order and only if they can in some |
| `Sharding.JustifiedIsSelected` | pkg/cond/shard.go:87-211 | under modulo, with comparisons of the sharding column only, a justified table holds a key that meets every group |
| `Sharding.ExclusionLosesRow` | pkg/cond/shard.go:281-291 | a result without tables for `a < 10 AND a <> 3`, and a row with 5 that satisfies it and is stored |
| `Sharding.PairCombinable` | pkg/cond/shard.go:126-192 | a conjunction of two comparisons of one column has a result if and only if the table answers them in sorted order |
| `Sharding.RangePanics` | pkg/cond/shard.go:216-517 | the two bounds of a BETWEEN have a result if and only if they differ |
| `Sharding.ListPanics` | pkg/cond/shard.go:522-551 | a disjunction of equalities on one column has a result if and only if there are one or two |
| `Topologies.Parse` | pkg/topo/topo.go:51-120 | accepted exactly when every entry is understood and the largest index is one less than the count; the three maps are those of the configuration |
| `Topologies.AcceptedExactly` | pkg/topo/topo.go:51-111 | a configuration is accepted if and only if every entry is an index or a proper interval and the largest index is one less than the number of indices |
| `Topologies.IndicesExact` | pkg/topo/topo.go:75-105 | an index stands for itself and an interval for everything from its begin to its end, both included |
| `Topologies.AcceptedCovers` | pkg/topo/topo.go:61-111 | an accepted topology has every index from zero exactly when none is configured twice |
| `Topologies.BuildPlacing` | pkg/topo/topo.go:61-108 | the maps agree: an index leads to its own table and that to the last database that lists it |
| `Topologies.TextInjective` | pkg/topo/topo.go:66-74 | two indices never give the same name |
| `Topologies.Route` | pkg/cond/shard.go:73-81 | the listed tables by database, in order, and the full-scan flag |
| `Topologies.FullScanExact` | pkg/cond/shard.go:73-81 | for lists without repetition the flag is set exactly when every table is listed |
| `Topologies.RoutedOnce` | pkg/cond/shard.go:73-81 | each listed table goes once to its own database and to no other |
| `RowOrder.Less` | pkg/plan/result.go:74-94 | a row is less exactly when the first field on which the rows differ puts it first: ascending by value with NULL in front, or the other way round |
| `RowOrder.Compared` | pkg/plan/result.go:96-165 | NULL comes before everything, a smaller number before a larger one, and a text before another that continues it or has the larger character where they first differ |
| `RowOrder.LeqInOrder` | pkg/plan/result.go:74-94 | of two rows in order, each field rises or stays, or for a descending field falls or stays, where all fields before it tie |
| `RowOrder.BeforeIsCompare` | pkg/plan/result.go:76-165 | that is the lexicographic order of the fields |
| `RowOrder.LeqTotal` | pkg/plan/result.go:96-165 | the order is total |
| `RowOrder.LeqTransitive` | pkg/plan/result.go:96-165 | the order is transitive |
| `Merge.MergeOrderBy` | pkg/plan/result.go:385-454 | a sorted permutation of all rows, in which ascending fields rise and descending ones fall, with NULLs first or last; a panic exactly for no result or an empty one |
| `Merge.PopUntil` | pkg/plan/result.go:322-362 | the rows taken until the limit are the first of the merge, and those behind the offset are kept |
| `Merge.MergeOrderByLimit` | pkg/plan/result.go:300-382 | the limited part of the sorted union, in the order of the fields; the exact panics |
| `Merge.LimitedIsWindow` | pkg/plan/result.go:353-371 | that part is the window of the limit exactly when the count is positive or nothing lies behind the offset |
| `Merge.Pick` | pkg/plan/result.go:510-520 | the candidate picked is a least one |
| `PushDown.CutKeepsFirstRows` | pkg/plan/query.go:98-182 | cutting sorted tables to k rows keeps, key by key, the first k rows of the sorted union |
| `LimitedQuery.PushDownPreserves` | pkg/plan/query.go:147-182 | the window of the merged cut tables is, key by key, the window of all tables |
| `LimitedQuery.Query` | pkg/plan/query.go:197-230 | with a positive count the whole query returns the sort keys of the window of the sorted union; with a count of zero it is right exactly when no more rows than the offset arrive; and when it panics; the rows are in the order of the fields |
| `RoundRobin.MergeLimit` | pkg/plan/result.go:239-297 | the loop ends although its break leaves only the inner loop, and returns the window of the interleaving |
| `RoundRobin.KeepsOrder` | pkg/plan/result.go:258-283 | every result is a subsequence of the interleaving |
| `RoundRobin.KeepsRows` | pkg/plan/result.go:258-283 | the interleaving is a permutation of all rows |
| `RoundRobin.TakesTurns` | pkg/plan/result.go:258-283 | where each row of each result comes: behind the rows up to its own position of the results in front of it and those before its own position of the others |
| `Undo.Execute` | pkg/dt/mysql_undo_executor.go:120-178 | undoing a log row by row, last row first, gives the specified tables or error |
| `Undo.Collect` | pkg/dt/mysql_undo_log_manager.go:84-107 | the logs read are those up to the first that cannot be decoded; reading stops at one that is not normal |
| `Undo.Database.Undo` | pkg/dt/mysql_undo_log_manager.go:68-149 | the new tables, log and lock keys, with every error path |
| `UndoRuns.ActAllAt` | pkg/dt/mysql_undo_executor.go:154-176 | statements on distinct keys change exactly the listed rows |
| `UndoRuns.CheckedExactly` | pkg/dt/mysql_undo_executor.go:120-254 | a logged statement is undone exactly when its rows are as it left them or as they were before it, deleted rows have not come back, or it changed nothing; it never panics |
| `UndoRuns.CrashesExactly` | pkg/dt/mysql_undo_executor.go:180-222 | a log crashes if and only if the image its undo works from is missing and the other is not |
| `UndoRuns.SucceedsExactly` | pkg/dt/mysql_undo_log_manager.go:87-141 | with logs in the normal state an undo succeeds if and only if every log, newest first, can be undone on what the one before left, and the tables are where this leads; a finished log stops everything and counts as success |
| `UndoRuns.FailsExactly` | pkg/dt/mysql_undo_log_manager.go:105-141 | otherwise the first log that cannot be undone decides between error and crash; tables and log stay as they were, and the lock keys are those of the logs before it |
| `UndoRuns.DirtyIsRefused` | pkg/dt/mysql_undo_executor.go:180-222 | after every run, if the rows of the latest statement are not as it left them or its table cannot be described, undo reports an error and changes nothing |
| `UndoRuns.StepBack` | pkg/dt/mysql_undo_executor.go:120-254 | undoing the latest statement puts its rows back and leaves all others |
| `UndoRuns.UndoRestores` | pkg/dt/mysql_undo_log_manager.go:68-149 | after any run, interleaved with others, the branch's rows are as before, all others as they are, its log rows gone and its lock keys returned newest first |
| `UndoRuns.UndoRestoresAll` | pkg/dt/mysql_undo_log_manager.go:68-149 | with no other writer the tables are exactly as before the run |
| `UndoRuns.AllOrNothing` | pkg/dt/mysql_undo_log_manager.go:109-148 | for any log, an undo that fails changes nothing, and one that replays leaves nothing to replay |
| `UndoRuns.Idempotent` | pkg/dt/mysql_undo_log_manager.go:109-148 | a second undo changes nothing and returns no lock keys after success |
| `UndoRuns.WithoutKeepsOthers` | pkg/dt/mysql_undo_log_manager.go:130-141 | deleting the log rows of one transaction keeps those of every other, in order |
| `UndoRuns.ReadableAll` | pkg/dt/mysql_undo_log_manager.go:87-91 | all log rows take part exactly when all can be decoded |
| `UndoRuns.UnreadableIsLost` | pkg/dt/mysql_undo_log_manager.go:87-141 | a row that cannot be decoded and all older ones do not matter for the result and are deleted with the newer ones; when nothing newer can be replayed, nothing changes and the undo succeeds |
| `Encoding.LenEncIntSize` | pkg/misc/encoding.go:52-63 | the size is that of the encoding |
| `Encoding.WriteLenEncInt` | pkg/misc/encoding.go:65-93 | writes the encoding behind what is there and nothing else |
| `Encoding.WriteLenEncString` | pkg/misc/encoding.go:150-153 | the same for strings |
| `Encoding.WriteUint64` | pkg/misc/encoding.go:133-143 | writes the little-endian form, byte by byte |
| `Encoding.ReadLenEncIntBack` | pkg/misc/encoding.go:228-263 | an encoded integer is read back, with the position behind it |
| `Encoding.ReadLenEncStringBack` | pkg/misc/encoding.go:265-275 | an encoded string is read back, with the position behind it |
| `Encoding.LenEncBytes` | pkg/misc/encoding.go:52-93 | the bytes of a length-encoded integer in each of its four ranges |
| `Encoding.SkipAgrees` | pkg/misc/encoding.go:265-287 | skipping ends where reading ends and fails where reading fails, and goes back exactly when the wrapped position is not negative where reading crashes |
| `Packets.Conn.WritePacket` | pkg/mysql/conn.go:474-548 | writes the frames of the payload and advances the sequence number |
| `Packets.Conn.ReadPacket` | pkg/mysql/conn.go:386-417 | reads what the stream holds, with every error path |
| `Packets.Conn.ReadEphemeralPacket` | pkg/mysql/conn.go:258-311 | reads the same as ReadPacket, and marks the buffer used once a header was read |
| `Packets.Conn.ReadOnePacket` | pkg/mysql/conn.go:364-381 | one packet, or the error |
| `Packets.FramesRead` | pkg/mysql/conn.go:386-548 | every payload is read back from its frames, whatever follows, with both counters equal |
| `Packets.JoinedIsFrames` | pkg/mysql/conn.go:386-548 | whatever a reader accepts is exactly what a writer of that payload sends |
| `Packets.AdvanceCounts` | pkg/mysql/conn.go:525-545 | a payload takes one packet more than it fills, modulo 256 |
| `Packets.StreamRead` | pkg/mysql/conn.go:386-548 | any sequence of payloads is read back in order |
| `Packets.FrameBytes` | pkg/mysql/conn.go:474-548 | the bytes on the wire: length, sequence number and payload, and how a payload of 2^24 - 1 bytes or more is continued |
| `Packets.OneErrors` | pkg/mysql/conn.go:219-381 | the three errors of a packet, what each leaves of the input, and when the sequence number counts |
| `TextRows.WriteTextRow` | pkg/mysql/conn.go:672-713 | the bytes of the row, in a buffer of the predicted length |
| `TextRows.TextRow.Decode` | pkg/mysql/rows.go:91-143 | the cells of the content, once; a second call repeats the first, or reports nothing after a failure |
| `TextRows.StringRead` | pkg/misc/utils.go:564-628 | an encoded string is read back and told apart from NULL, even when empty |
| `TextRows.LongStringRead` | pkg/misc/utils.go:564-628 | a string with a length of eight bytes: its bytes, an error if there are fewer, a crash if their end is beyond a signed integer |
| `TextRows.RowRead` | pkg/mysql/rows.go:91-143 | every row of NULLs and strings survives writing and decoding |
| `BinaryValues.Uint64ToString` | pkg/misc/utils.go:529-549 | the decimal numeral |
| `BinaryValues.ParseUintBack` | pkg/packet/mysql.go:706-717 | a numeral is parsed back to its number |
| `BinaryValues.Size` | pkg/packet/mysql.go:864-881 | the predicted length is that of the bytes |
| `BinaryValues.BinaryVal2MySQL` | pkg/packet/mysql.go:667-803 | the bytes of a value, or an error for a numeral that is none |
| `BinaryValues.ValueRead` | pkg/mysql/rows.go:172-300 | a value is read back as what its width keeps of it |
| `BinaryValues.CanonicalIffInRange` | pkg/mysql/rows.go:172-262 | that is the value itself exactly when it lies in the range of its type, given number by number |
| `BinaryValues.NumberBytes` | pkg/packet/mysql.go:667-803 | how many bytes a number takes by its type, and that they are its two's complement, the lowest first |
| `BinaryValues.NumberDecoded` | pkg/mysql/rows.go:172-262 | an integer column is decoded to the number of its type's range whose bytes these are, or beyond the signed range to its numeral; it is missing exactly when bytes are |
| `BinaryValues.EncodeFails` | pkg/packet/mysql.go:706-717 | a value cannot be encoded exactly when it is text for an unsigned 64-bit column and no numeral of such a number |
| `BinaryValues.NullDecoded` | pkg/mysql/rows.go:172-300 | NULL is read from nothing for a column of that type, and from the byte 251 in front of a string column only |
| `BinaryRows.WriteBinaryRow` | pkg/mysql/conn.go:818-862 | a packet whose bitmap marks exactly the NULLs, in bounds and of the predicted length; an error exactly when a value has no bytes |
| `BinaryRows.BinaryRow.Decode` | pkg/mysql/rows.go:145-330 | the values of the content, once |
| `BinaryRows.RowRead` | pkg/mysql/rows.go:145-330 | a row packet is decoded to the same NULLs and to what each width keeps |
| `BinaryRows.MapLengthExact` | pkg/mysql/conn.go:818-843 | the bitmap is as short as it can be with a bit for each column and two in front |
| `BinaryRows.PackedExactly` | pkg/mysql/conn.go:818-862 | which rows can be packed |
| `BinaryRows.HeaderChecked` | pkg/mysql/rows.go:145-160 | a packet is malformed exactly when it does not start with zero; one too short for its bitmap cannot be read |
| `BinaryRows.KeptIffInRange` | pkg/mysql/rows.go:172-262 | a value of a packed row comes back unchanged exactly when its type can hold it |
| `FieldTypes.TypeRecovered` | pkg/constant/type.go:110-191 | a type comes back from its code exactly when the table lists it and the flags agree with its sign |
| `FieldTypes.OwnFlagsSuffice` | pkg/constant/type.go:110-191 | with the flags of its own a type comes back exactly when the table lists it |
| `FieldTypes.TypeFlags` | pkg/constant/type.go:150-191 | 32 for unsigned integers, years and bits, 128 for NULL and dates, none otherwise |
| `FieldTypes.UnsignedFlag` | pkg/constant/type.go:199-207 | the unsigned flag is the bit of value 32 |
| `FieldTypes.KnownCodes` | pkg/constant/type.go:72-104 | which codes are known, and what those mean that no type is sent with |
| `ColumnDefinition.WriteColumnDefinition` | pkg/mysql/conn.go:599-644 | the packed definition; the length check never fires |
| `ColumnDefinition.Field.ReadColumnDefinition` | pkg/driver/client.go:663-759 | the fields of the definition, or the kind of failure |
| `ColumnDefinition.ColumnRead` | pkg/driver/client.go:663-759 | names, character set, length, decimals and flags come back as sent, and the type exactly under the condition of the type table |
| `ColumnDefinition.CutShort` | pkg/driver/client.go:663-759 | a definition cut anywhere in front of its filler bytes is malformed; only an empty packet crashes |
| `ColumnDefinition.CrashesExactly` | pkg/driver/client.go:663-759 | reading crashes exactly when a name or the default value ends beyond a signed integer |
| `ColumnDefinition.HugeNameCrashes` | pkg/misc/encoding.go:265-275 | a length of 2^63 or more for a name does so |
| `ColumnDefinition.DefaultRead` | pkg/driver/client.go:743-757 | a default value is read exactly where more than eight bytes are left, by its length of eight bytes; the exact errors |
| `ColumnDefinition.EndOfColumns` | pkg/packet/mysql.go:941-943 | the columns end exactly at a packet of at most eight bytes that starts with 254 |
| `Segment.StepKeeps` | pkg/misc/uuid/segment.go:67-119 | every step of every worker keeps the segments apart and within the row |
| `Segment.UniqueIds` | pkg/misc/uuid/segment.go:58-119 | in every interleaving no ID is made twice, each worker's IDs increase and are taken in order, and all are within the row |
| `Segment.Accounted` | pkg/misc/uuid/segment.go:58-119 | in every interleaving the row has grown by exactly the IDs made, those still to be made, and those of segments whose commit was reported as failed |
| `Segment.Serves` | pkg/misc/uuid/segment.go:58-119 | in every run each worker can hand out an ID by at most five steps of its own |
| `Segment.MissingRowRepeats` | pkg/misc/uuid/segment.go:100-118 | without the row every worker makes 1 to its step over and over |
| `Segment.MissingRowDuplicates` | pkg/misc/uuid/segment.go:100-118 | so two IDs coincide exactly when their positions do modulo the steps |
| `Breaker.RejectsSince` | pkg/filter/breaker/breaker.go:90-161 | in every run requests are turned away exactly when an error that completed a streak, or came while half open, opened the breaker and no timer has woken since |
| `Breaker.Filter.PostHandleSuccess` | pkg/filter/breaker/breaker.go:109-115 | the new state after a success |
| `Breaker.Filter.PostHandleError` | pkg/filter/breaker/breaker.go:116-136 | the new state after an error |
| `Breaker.Filter.Timer` | pkg/filter/breaker/breaker.go:148-161 | the new state when the timer wakes |
| `Breaker.Safe` | pkg/filter/breaker/breaker.go:100-161 | in every run there is one timer exactly while open, and the counts stay below their thresholds |
| `Breaker.Transitions` | pkg/filter/breaker/breaker.go:100-161 | open ends only by the timer and in half-open; closed only by an error and in open; half-open in open exactly on an error |
| `Breaker.Counts` | pkg/filter/breaker/breaker.go:100-161 | the counters are the streak of errors within the timeout and the successes since half-open, for any configuration |
| `Breaker.Trips` | pkg/filter/breaker/breaker.go:116-130 | a closed breaker opens exactly at the error that completes the streak |
| `Breaker.Recovers` | pkg/filter/breaker/breaker.go:109-115 | a half-open breaker closes exactly at the success that completes the number |
| `Breaker.ClosesAfter` | pkg/filter/breaker/breaker.go:100-115 | from every half-open run, as many successful requests as are still needed are possible and close the breaker, and fewer do not |
| `Breaker.ReopensAfterTimeout` | pkg/filter/breaker/breaker.go:100-161 | from every open run the timer can wake, and the configured number of successes closes the breaker |
| `Breaker.Waiting` | pkg/filter/breaker/breaker.go:100-108 | in every run the successes that wait are those that found the breaker not closed minus those handled |
| `Breaker.NeverOpens` | pkg/filter/breaker/breaker.go:124-130 | without a positive error threshold it stays closed |
| `Escape.WriteEscape` | pkg/misc/escape.go:33-72 | appends the escaped text |
| `Escape.Unescape` | pkg/misc/escape.go:83-140 | the unescaped text |
| `Escape.StaysInside` | pkg/misc/escape.go:33-72 | text escaped for a quote neither ends a literal in that quote nor escapes its closing quote |
| `Escape.NoControls` | pkg/misc/escape.go:33-72 | no line break, tab or backspace is left as it is |
| `Escape.UnescapedBack` | pkg/misc/escape.go:33-140 | unescaping undoes escaping up to backslashes kept before a wildcard that is not ignored |
| `Escape.RoundTrip` | pkg/misc/escape.go:33-140 | escaping is undone exactly when no such backslash occurs |
| `Escape.AlwaysUndone` | pkg/misc/escape.go:33-140 | with both wildcards ignored, or without LIKE, it is always undone |
| `Escape.OneEscaped` | pkg/misc/escape.go:33-72 | how each character is written under each of the flags |
| `Escape.OneUnescaped` | pkg/misc/escape.go:83-140 | what a character behind a backslash is read as |

## Left out

- SQL parsing and the evaluation of values: clauses start from comparisons with integers; LIKE, functions and arithmetic are not modelled.
- 64-bit overflow of keys, bounds and IDs: integers are unbounded, so an inclusive upper bound of 2^63 - 1 does not wrap.
- WhereClause.Parse: gives no closed form for the value of a clause in which a conjunction that was extended in place is used again; it relates the value to those of both sides, at every AND and OR.
- Selection.SelectTables: does not check whether a full scan is allowed.
- NumberMod.ShardRange: with `<>` in front, which no caller passes, it does not say when all tables are listed without need.
- NumberRange.Shard: lists a table without need when its range ends at a `>` or `>=` bound, as the source does.
- Sharding.Shard: the condition under which no row is lost is sufficient for a whole condition and exact for each group of comparisons, because a group that loses rows does no harm where the others select none of them.
- LimitedQuery.Query: assumes every database returns its rows sorted under the order that the merge uses.
- Columns and warnings of merged results, the aggregate functions, and the merge without ORDER BY and LIMIT, whose loop is that of `RoundRobin.MergeLimit` without the limit.
- Slice expressions of Go can reach into spare capacity: reading past the end of a row is one outcome here, whether the source panics or returns an error.
- Images are compared by key and values; rows of one table come back in the order of the keys asked for. The text of undo statements, the protobuf form of a log and the failure of a commit or a rollback are not modelled.
- Global locks: that no other writer touches the rows of a branch is an assumption about a run.
- ColumnDefinition.Field.ReadColumnDefinition: says nothing of the fields after a failed read, because the source leaves those read before the failure.
- BinaryRows.WriteBinaryRow: does not model temporal and floating-point columns.
- Temporal values in text rows, and the conversion of text rows to binary rows.
- Sockets, buffer pools, deadlines, TLS and the handshake: a connection is the bytes to be read and the bytes written.
- Strings that are not valid UTF-8: escaping works on characters.
- The phase-two protocol of global transactions, configuration, metrics and plumbing.
