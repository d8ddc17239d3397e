# Verified model of the database engine

This project models the storage and query engine under `src/database_engine` and proves that it does what it is
for: that the B+ tree index is a multimap, that the query plans return the filtered product of their tables, that
every index stays in step with its table, that the page cache never loses a write, and that threads never block each
other for good. `dafny verify dfyconfig.toml` checks all of it.

The layers, each building on the ones before:

- **Index** (`Index*.dfy`, `KeyOrder.dfy`). `IndexHandle` is the index file: a page store, the header and, as ghost
  state, the levels of the tree, the height of each page and the free chain. Its methods are those of the source:
  search, the insertion with its cascade of splits, the deletion with its cascade of borrows, merges and root
  shrinking. The invariant covers balance, occupancy, maximum keys, parent pointers, the leaf ring through page 1
  and the partition of the pages into live and free ones. A split, a borrow and a merge are instances of one relation,
  replacing neighbouring children of a page by others (`IndexRegroup.dfy`), which keeps the proofs of the cascades
  short. `IndexTheorems.dfy` states what follows over whole runs.
- **Record file** (`Bitmap.dfy`, `RecordFile.dfy`, `Layout.dfy`). A bitmap and free-chain allocator that refines a map
  from record ids to bytes, its scan, and the byte layout of record and index pages.
- **Rows and conditions** (`Rows.dfy`, `Conditions.dfy`, `WhereClause.dfy`). The encoding of values, the
  comparison of columns, side swapping, feeding, and the checks of a where clause.
- **Meaning** (`ValueOrder.dfy`, `Meaning.dfy`, `QueryMeanings.dfy`). What statements are meant to say, stated without the
  functions that execute them: the order of integers, of floats as real numbers, of strings and of dates; the column
  that a reference names; the where clause on the values of a row or of a combination of rows. Deletion, update and
  query are proved against it.
- **Tables** (`Tables.dfy`, `TableIndexes.dfy`, `TableScan.dfy`, `IndexUpkeep.dfy`, `Statements.dfy`,
  `TableRuns.dfy`). A table is its columns, its record file and its indexes. Every statement keeps each index a mirror
  of the records, and a scan by index range delivers the same rows as a full scan.
- **Queries** (`Plans.dfy`, `QueryNodes.dfy`, `Product.dfy`, `Queries.dfy`). `Plans` gives plans a meaning: the set of
  combinations of record ids that they yield. `QlNode` executes a plan by pull iterators and delivers each combination
  of that meaning once. `Product` shows that for the plan built by `select_from` the meaning is the product of the
  tables filtered by the where clause, evaluated on the combined record.
- **Page cache** (`Lru.dfy`, `Pager.dfy`). Frames on a busy list and a free list, with the contents of every page
  preserved by fetch, eviction and flush, and the busy list equal to the LRU list of the trace.
- **Files** (`PageImages.dfy`, `FileStore.dfy`). The bytes of index nodes, record pages and file headers, which decode
  to what was encoded; an index or record file that is closed and opened again, under another descriptor and by way
  of the cache, is the same tree and the same records.
- **Semaphores** (`Semaphores.dfy`). The waits, posts and accesses of every operation, and threads interleaved in any way:
  no deadlock, and no two updates of one structure at a time.
- **Catalog** (`Catalog.dfy`). Printing the catalog and parsing it back.

Where the source's behaviour and its promise differ, the code is followed and the exact condition proved:

- A NaN has no place in the order of FLOAT values: comparison is a total preorder exactly without one
  (`KeyOrder.FloatLawfulIff`). The grammar cannot write a NaN (`src/database_engine/parser/lex.l:40`); it enters only
  through `Value::set_float` (`src/database_engine/query_language/ql_manager.h:42`) called from outside a statement.
- DATETIME values compare by their fields for equality and by a timestamp with months of 30 days for order, so that
  the 31st of January and the 1st of February each compare greater than the other (`KeyOrder.JanuaryClash`). The
  comparison is a total preorder exactly on date-times that their timestamps tell apart (`KeyOrder.DateLawfulIff`).
  The timestamp is summed in `int`, which is taken to wrap round.
- Turning a comparison round keeps its meaning exactly for = and <>, or without a NaN and between date-times that do
  not clash in this way (`Conditions.SwapExact`).
- `create_table` checks the sum of the column lengths only, and the grammar accepts a negative one. The columns share
  the record out exactly when no length is negative (`Rows.TilesIff`).
- The slot count of a record page is the largest possible except under the condition of `Layout.OneMoreFits`, which
  holds for example for records of 3 bytes.
- A literal of the wrong type is answered with the type error exactly when it has the width of its column; otherwise
  encoding aborts, or calls it too long, first (`WhereClause.TypeErrorMasked`, with `LongLiteralMasks` as instances).
- Every update of the metadata, the handle maps, the descriptor maps and the cache lists is made under its semaphore, but
  not every read: statements, `drop_table`, `create_index` and `open_db` look tables or handles up without it. Reads are
  protected exactly in the other operations (`Semaphores.OperationCovered`); a look-up can coincide with an update of the
  metadata (`Semaphores.LookUpRace`).
- Decoding a string field and encoding it again is faithful exactly when nothing but NULs follows its first NUL
  (`Rows.FieldRoundTrip`, with `TailLost` as an instance).

Branches of the source that cannot be reached from a valid state are `assert false` in the model: the step to the next
leaf in `lower_bound` and `upper_bound`, the missing-rank branch of `maintain_parent`, and the checks for a non-leaf
in `get_record_id`.

An exception of the source is an `Err` or a `false` result; a failing C `assert` that input can trigger is the error
`AssertionFailed`, and the other asserts of the source are proved.

## Model

| member | source | states |
|---|---|---|
| IndexTheorems.RunIndex | src/database_engine/index_handler/ndx_test.cpp:34-76 | any run of insertions and deletions on a new index leaves a valid tree whose entries, in leaf order, are those of a multimap run on the same operations |
| IndexTheorems.TreeInvariant | src/database_engine/index_handler/ndx_handler.cpp:290-314 | in every valid index all leaves are equally deep, every page has as many keys as children within its occupancy bounds, each inner key is its child's largest key, parent pointers are right, and the leaves form one ring through page 1 from page 2, which is never freed, to the last leaf |
| IndexTheorems.HeightBound | src/database_engine/index_handler/ndx_handler.cpp:376-438 | a tree with h levels of inner pages holds at least 2 * m^h entries, m being half the order rounded up |
| IndexTheorems.PagesConserved | src/database_engine/index_handler/ndx_handler.cpp:179-193 | tree pages and free pages are disjoint and together number exactly num_pages - 2: no page is leaked or used twice |
| IndexTheorems.TreeHoldsContents | src/database_engine/index_handler/ndx_handler.cpp:219-247 | following child pointers from the root visits exactly the entries of the leaf sequence, in order |
| IndexTheorems.RunSorted | src/database_engine/index_handler/ndx_handler.cpp:362-369 | the entry sequence stays in key order over every run |
| IndexTheorems.InsertedMeaning | src/database_engine/index_handler/ndx_handler.cpp:364-369 | an insertion puts one entry behind all entries with keys that are not larger and before all others; the bag grows by exactly it |
| IndexTheorems.RemovedMeaning | src/database_engine/index_handler/ndx_handler.cpp:463-474 | a deletion takes out the first entry with an equal key and the same record id and nothing else, or changes nothing when there is none |
| IndexTheorems.DeleteUndoesInsert | src/database_engine/index_handler/ndx_handler.cpp:362-592 | deleting the entry just inserted gives back the original sequence when no entry matched before |
| IndexTheorems.ScanRange | src/database_engine/index_handler/ndx_iterator.cpp:5-25 | an iterator between two ordered positions terminates after yielding exactly the entries between them, in order, across leaves and duplicates |
| IndexHandler.IndexHandle.constructor | src/database_engine/index_handler/ndx_manager.cpp:28-48 | a new index is a valid, empty tree |
| IndexHandler.IndexHandle.InsertEntry | src/database_engine/index_handler/ndx_handler.cpp:362-439 | keeps the whole tree invariant through any cascade of splits and inserts the entry at its upper bound |
| IndexHandler.IndexHandle.DeleteEntry | src/database_engine/index_handler/ndx_handler.cpp:459-592 | keeps the whole tree invariant through any cascade of borrows, merges and root shrinking; removes exactly the first matching entry, or reports that there is none and changes nothing |
| IndexHandler.IndexHandle.LowerBound | src/database_engine/index_handler/ndx_handler.cpp:219-247 | the canonical position of the first entry not below the target |
| IndexHandler.IndexHandle.UpperBound | src/database_engine/index_handler/ndx_handler.cpp:249-277 | the canonical position of the first entry above the target |
| IndexHandler.IndexHandle.Descend | src/database_engine/index_handler/ndx_handler.cpp:220-231 | follows the maximum keys to the leaf in which the bound falls; finding no key past it means that no entry is |
| IndexHandler.IndexHandle.LeafBegin | src/database_engine/index_handler/ndx_handler.cpp:279-282 | the position of the first entry |
| IndexHandler.IndexHandle.LeafEnd | src/database_engine/index_handler/ndx_handler.cpp:284-288 | the position after the last entry |
| IndexHandler.IndexHandle.CreateNode | src/database_engine/index_handler/ndx_handler.cpp:179-193 | hands out a page that is not live and keeps the partition of pages into live and free ones |
| IndexHandler.IndexHandle.ReleaseNode | src/database_engine/index_handler/ndx_handler.cpp:327-330 | moves a live page to the free chain, keeping the partition |
| IndexHandler.IndexHandle.MaintainParent | src/database_engine/index_handler/ndx_handler.cpp:290-314 | restores the maximum keys on the path to the root after a page's last key changed |
| IndexHandler.IndexHandle.FindChild | src/database_engine/index_handler/ndx_handler.cpp:162-172 | the first rank at which a child occurs |
| IndexHandler.IndexHandle.MaintainChild | src/database_engine/index_handler/ndx_handler.cpp:332-340 | sets the parent pointer of one child |
| IndexHandler.IndexHandle.InsertIntoLeaf | src/database_engine/index_handler/ndx_handler.cpp:365-374 | the leaf edit of an insertion with the maximum keys maintained |
| IndexHandler.IndexHandle.ResolveOverflow | src/database_engine/index_handler/ndx_handler.cpp:376-438 | the overflow loop ends with no page too full and the same contents |
| IndexHandler.IndexHandle.GrowRoot | src/database_engine/index_handler/ndx_handler.cpp:378-390 | a new root over the old one: same contents, one level more |
| IndexHandler.IndexHandle.NewBrother | src/database_engine/index_handler/ndx_handler.cpp:391-408 | allocates the right brother of a page and links it into the leaf ring |
| IndexHandler.IndexHandle.SplitNode | src/database_engine/index_handler/ndx_handler.cpp:391-437 | one split: the page and its brother are within bounds, the parent has one child more, and the contents stay |
| IndexHandler.IndexHandle.RemoveFromLeaf | src/database_engine/index_handler/ndx_handler.cpp:472-476 | the leaf edit of a deletion with the maximum keys maintained |
| IndexHandler.IndexHandle.ResolveUnderflow | src/database_engine/index_handler/ndx_handler.cpp:478-588 | the underflow loop ends with every page within bounds and the same contents |
| IndexHandler.IndexHandle.FixUnderflow | src/database_engine/index_handler/ndx_handler.cpp:495-588 | one turn of the loop: the underflow is settled by borrowing exactly when a neighbour of the page has more children than it needs |
| IndexHandler.IndexHandle.BorrowFromLeft | src/database_engine/index_handler/ndx_handler.cpp:500-517 | borrowing from a rich left brother settles the underflow and keeps the contents |
| IndexHandler.IndexHandle.BorrowFromRight | src/database_engine/index_handler/ndx_handler.cpp:518-535 | borrowing from a rich right brother settles the underflow and keeps the contents |
| IndexHandler.IndexHandle.MergeNeighbours | src/database_engine/index_handler/ndx_handler.cpp:536-587 | merging two neighbours frees one page, takes one child from the parent and keeps the contents |
| IndexHandler.IndexHandle.EraseLeaf | src/database_engine/index_handler/ndx_handler.cpp:316-325 | takes a leaf out of the ring |
| IndexHandler.IndexHandle.ShrinkRoot | src/database_engine/index_handler/ndx_handler.cpp:479-494 | a root with one child gives way to it and is freed; the contents stay |
| IndexHandler.IndexHandle.GetRecordId | src/database_engine/index_handler/ndx_handler.cpp:202-217 | the record id at a position, or none at the end position |
| IndexHandler.IndexHandle.FindEntry | src/database_engine/index_handler/ndx_handler.cpp:461-470 | the scan between the bounds finds the first entry equal in key and record id, and fails only when there is none |
| IndexHandler.IndexIterator.constructor | src/database_engine/index_handler/ndx_iterator.h:18-32 | an iterator stands at its lower position |
| IndexHandler.IndexIterator.Next | src/database_engine/index_handler/ndx_iterator.cpp:5-21 | moves to the next entry of the leaf sequence |
| IndexHandler.IndexIterator.EndIff | src/database_engine/index_handler/ndx_iterator.h:18-32 | comparing positions for equality is the same as comparing places in the leaf sequence |
| IndexNodes.NodeBound | src/database_engine/index_handler/ndx_handler.cpp:66-119 | binary and linear search inside a node give the same answer: the number of keys before the bound |
| IndexNodes.NodeArrays.InsertKeys | src/database_engine/index_handler/ndx_handler.cpp:125-130 | the shift loops insert a run of keys at a position |
| IndexNodes.NodeArrays.EraseKey | src/database_engine/index_handler/ndx_handler.cpp:136-140 | the shift loop removes one key |
| IndexNodes.NodeArrays.InsertRecordIds | src/database_engine/index_handler/ndx_handler.cpp:142-147 | the shift loops insert a run of record ids |
| IndexNodes.NodeArrays.EraseRecordId | src/database_engine/index_handler/ndx_handler.cpp:153-157 | the shift loop removes one record id |
| KeyOrder.CutIndexIsCut | src/database_engine/index_handler/ndx_handler.cpp:66-119 | in a sorted node the counted keys are all the keys before the bound |
| KeyOrder.ColumnOrdLawful | src/database_engine/index_handler/ndx_handler.cpp:9-60 | compare_keys is a total preorder on INT and STRING keys and on FLOAT keys that are not NaN |
| KeyOrder.FloatLawfulIff | src/database_engine/index_handler/ndx_handler.cpp:9-60 | on FLOAT keys compare_keys is a total preorder if and only if no NaN is among them |
| KeyOrder.DateLawfulIff | src/database_engine/index_handler/ndx_handler.cpp:41-54 | on DATETIME keys compare_keys is a total preorder if and only if no two different ones among them have one timestamp |
| KeyOrder.JanuaryClash | src/database_engine/datetime.h:32-48 | the 31st of January and the 1st of February at one time of one year compare greater both ways |
| KeyOrder.NaNComparesGreaterBothWays | src/database_engine/index_handler/ndx_handler.cpp:21-34 | a NaN key compares greater both ways, so the order does not extend to it |
| ValueOrder.CompareMeaning | src/database_engine/query_language/ql_node.cpp:202-218 | a comparison of two raw values says what its operator says of the values: integers as integers, floats as the real numbers they stand for with the infinities beyond, strings by the first byte that differs, dates by their fields and their seconds |
| ValueOrder.FloatMeaning | src/database_engine/index_handler/ndx_handler.cpp:21-34 | comparing two floats that are not NaN is comparing the numbers of their signs, exponents and fractions |
| ValueOrder.FloatScale | src/database_engine/index_handler/ndx_handler.cpp:21-34 | the number of a float of magnitude at least 1 is one and its fraction, times two to its exponent |
| ValueOrder.StringMeaning | src/database_engine/index_handler/ndx_handler.cpp:35-37 | comparing two padded strings is comparing the strings byte by byte |
| ValueOrder.DateMeaning | src/database_engine/datetime.h:24-44 | dates are equal when all fields are; otherwise the seconds decide, minute by minute, hour by hour, with days of a month of 30 and a year of 365, as an int holds them |
| ValueOrder.NaNMeaning | src/database_engine/index_handler/ndx_handler.cpp:21-34 | a NaN is a float of the largest exponent with a fraction |
| IndexInsert.SplitTree | src/database_engine/index_handler/ndx_handler.cpp:391-437 | a split keeps shape, keys, ring, page partition and contents |
| IndexInsert.GrowTree | src/database_engine/index_handler/ndx_handler.cpp:378-390 | growing the root keeps shape, keys, ring, page partition and contents |
| IndexDelete.MergeFinish | src/database_engine/index_handler/ndx_handler.cpp:536-587 | a merge with its page release keeps the tree and its contents |
| IndexDelete.BorrowFinish | src/database_engine/index_handler/ndx_handler.cpp:500-535 | a borrow keeps the tree and its contents once the maximum keys and the parent pointer are repaired |
| IndexDelete.ShrinkTree | src/database_engine/index_handler/ndx_handler.cpp:481-492 | dropping the root keeps the tree and its contents |
| IndexDelete.NextLocated | src/database_engine/index_handler/ndx_iterator.cpp:5-21 | the place after a located entry: the next slot, or the first slot of the next leaf |
| Bitmap.TestWithBit | src/database_engine/record_manager/bitmap.h:37-53 | setting a bit changes that bit and no other |
| Bitmap.TestWithoutBit | src/database_engine/record_manager/bitmap.h:44-53 | resetting a bit changes that bit and no other |
| Bitmap.NextBit | src/database_engine/record_manager/bitmap.h:58-65 | the first position after start with the wanted bit, or the size when there is none |
| Bitmap.Init | src/database_engine/record_manager/bitmap.h:30-32 | every bit is clear |
| Bitmap.Set | src/database_engine/record_manager/bitmap.h:37-39 | the byte array after setting a bit |
| Bitmap.Reset | src/database_engine/record_manager/bitmap.h:44-46 | the byte array after resetting a bit |
| Bitmap.CountWithBit | src/database_engine/record_manager/rm_file_handle.cpp:27-30 | setting a clear bit adds one to the population |
| RecordFile.RecordFile.constructor | src/database_engine/record_manager/rm_manager.cpp:10-17 | a new record file is valid and empty |
| RecordFile.RecordFile.InsertRecord | src/database_engine/record_manager/rm_file_handle.cpp:21-40 | stores the record under an unused record id and keeps counts, bitmaps and the chain of pages with room |
| RecordFile.RecordFile.DeleteRecord | src/database_engine/record_manager/rm_file_handle.cpp:42-54 | removes exactly that record, or reports that there is none |
| RecordFile.RecordFile.UpdateRecord | src/database_engine/record_manager/rm_file_handle.cpp:56-64 | replaces exactly that record, or reports that there is none |
| RecordFile.RecordFile.GetRecord | src/database_engine/record_manager/rm_file_handle.cpp:9-19 | the record, or none |
| RecordFile.RecordFile.IsRecord | src/database_engine/record_manager/rm_file_handle.cpp:4-7 | true exactly for live record ids |
| RecordFile.RecordFile.CreatePage | src/database_engine/record_manager/rm_file_handle.cpp:73-91 | the head of the chain of pages with room, extended by a page when empty; no record changes |
| RecordFile.RecordIterator.constructor | src/database_engine/record_manager/rm_iterator.cpp:5-8 | starts at the first record in page and slot order |
| RecordFile.RecordIterator.Next | src/database_engine/record_manager/rm_iterator.cpp:10-23 | moves to the next record in page and slot order, or to the end when there is none |
| RecordFile.ScanFile | src/database_engine/record_manager/rm_iterator.cpp:5-23 | a scan yields every live record id once, in page and slot order |
| RecordFile.InsertOk | src/database_engine/record_manager/rm_file_handle.cpp:27-34 | inserting keeps: counts equal bitmap populations, and the acyclic chain holds exactly the pages with room |
| RecordFile.DeleteOk | src/database_engine/record_manager/rm_file_handle.cpp:47-53 | deleting keeps the same invariant |
| Layout.RecordPageFits | src/database_engine/record_manager/rm_manager.cpp:14-16 | for every record size from 1 to 512 header, bitmap and slots fit in a page, and two more slots would not |
| Layout.OneMoreFits | src/database_engine/record_manager/rm_manager.cpp:14-16 | for every record size from 1 to 512 the exact condition, on the rest of the division and the unused bitmap bits, under which a page could hold one slot more than the header says |
| Layout.IndexPageFits | src/database_engine/index_handler/ndx_manager.cpp:28-32 | for every key length up to 512 the order exceeds 2 and is the largest for which order+1 keys and record ids fit behind the header, and they do not overlap |
| Layout.NodesFit | src/database_engine/index_handler/ndx_handler.cpp:125-157 | no node of a valid tree, nor the one waiting to be split, reaches outside its page |
| Rows.CreateColumns | src/database_engine/system_management/sm_manager.cpp:308-318 | the columns are laid out one after the other and add up to the record size |
| Rows.ColumnsPartitionRecord | src/database_engine/system_management/sm_manager.cpp:309-316 | every byte of a record belongs to exactly one column |
| Rows.TilesIff | src/database_engine/system_management/sm_manager.cpp:309-319 | whatever lengths are given, as long as they add up to a positive size: every byte of the record belongs to exactly one column and no column reaches outside it if and only if no length is negative |
| Rows.IntsStored | src/database_engine/datetime.h:6-22 | the ints that a comparison takes out of a date-time are the fields that were stored |
| Rows.IntLayout | src/database_engine/query_language/ql_manager.h:60-62 | an integer is stored in four bytes in two's complement, the least significant first |
| Rows.ValueRoundTrip | src/database_engine/query_language/ql_manager.h:57-76 | decoding the raw form of a value gives the value back |
| Rows.FieldRoundTrip | src/database_engine/query_language/ql_node.cpp:13-37 | decoding a field and encoding it again gives it back if and only if only NULs follow its first NUL |
| Rows.TailLost | src/database_engine/query_language/ql_node.cpp:22-25 | a byte behind the first NUL of a string does not survive decoding and encoding |
| Rows.StoreField | src/database_engine/query_language/ql_manager.cpp:90-90 | writing a column changes that field and no other |
| Rows.EncodeRow | src/database_engine/query_language/ql_manager.cpp:75-91 | builds the record of an acceptable row, or reports the first error |
| Rows.RowRoundTrip | src/database_engine/query_language/ql_manager.cpp:82-91 | decoding a stored row gives its values back |
| Rows.RowErrors | src/database_engine/query_language/ql_manager.cpp:76-89 | a row is rejected exactly when some value has the wrong type or is too long |
| Rows.RowErrorMeaning | src/database_engine/query_language/ql_manager.cpp:76-89 | the number of values is checked first; then the first value that its column cannot hold decides: a wrong type, or else a string that is too long |
| Conditions.SwapExact | src/database_engine/query_language/ql_node.cpp:77-89 | swapping the sides and turning the operator round keeps a comparison of equally wide values if and only if the operator is = or <>, or neither is a NaN and they are not two dates with one timestamp |
| Conditions.Rec2Dict | src/database_engine/query_language/ql_node.cpp:13-37 | the dictionary holds exactly the fields of a sound row, in spite of being decoded and encoded again |
| Conditions.EvalCond | src/database_engine/query_language/ql_node.cpp:188-219 | a condition whose right side is as wide as what is read evaluates to true exactly when it holds of the record's values |
| Conditions.EvalConds | src/database_engine/query_language/ql_node.cpp:221-225 | all conditions evaluate to true exactly when all hold |
| Conditions.SwapAll | src/database_engine/query_language/ql_node.cpp:81-90 | every condition of a table node ends with its own side on the left |
| Conditions.FeedSound | src/database_engine/query_language/ql_node.cpp:167-177 | replacing other tables' columns by their fed values keeps the meaning of a condition |
| Conditions.PopConds | src/database_engine/query_language/ql_manager.cpp:213-228 | splits the list into the solved conditions and the others, keeping the order of both |
| Conditions.DistributeConds | src/database_engine/query_language/ql_manager.cpp:251-256 | each condition goes to exactly the last table it mentions; conditions are left over if and only if one mentions a table outside the from list |
| WhereClause.CheckColumn | src/database_engine/query_language/ql_manager.cpp:6-30 | resolves a column: a named table must have it, otherwise exactly one column in scope may have the name |
| WhereClause.CheckWhere | src/database_engine/query_language/ql_manager.cpp:41-69 | succeeds exactly when every condition passes its check, and reports the error of the first that fails otherwise |
| WhereClause.CheckedWellTyped | src/database_engine/query_language/ql_manager.cpp:46-67 | a condition that passes names existing columns of one type and compares with the literal that was written |
| WhereClause.TypeErrorMasked | src/database_engine/query_language/ql_manager.cpp:56-66 | a literal of the wrong type is answered with the type error if and only if it has the width of its column |
| WhereClause.LongLiteralMasks | src/database_engine/query_language/ql_manager.h:57-71 | a five-character literal against an INT column is reported as too long, and a number against a CHAR(5) column aborts |
| Meaning.ResolveMeaning | src/database_engine/query_language/ql_manager.cpp:6-30 | check_column gives the column that the reference names: the one of its table, or the only one in scope of that name; two of that name in scope are ambiguous, and anything else is not found |
| Meaning.CheckMeaning | src/database_engine/query_language/ql_manager.cpp:46-67 | a condition passes its check exactly when its references name columns that can be compared, or one that can hold the literal, and then compares these, each on its side |
| Meaning.ConditionErrorMeaning | src/database_engine/query_language/ql_manager.cpp:46-67 | which error a condition is answered with: the left reference, then the right one or the literal, then the types |
| Meaning.CondMeaning | src/database_engine/query_language/ql_node.cpp:188-219 | a checked condition holds of raw values exactly when what was written holds of the values |
| Meaning.TableMeaning | src/database_engine/query_language/ql_node.cpp:188-225 | the checked conditions on one table hold of a row exactly when the where clause holds of its values |
| TableIndexes.MirrorsAsBag | src/database_engine/query_language/ql_manager.cpp:94-101 | an index that mirrors a table holds exactly the bag of column value and record id of the live records |
| TableIndexes.MirrorInsert | src/database_engine/query_language/ql_manager.cpp:93-101 | inserting a new record's entry keeps the index in step |
| TableIndexes.MirrorDelete | src/database_engine/query_language/ql_manager.cpp:126-133 | the entry of a live record is always found, and deleting it keeps the index in step |
| TableIndexes.RangeExact | src/database_engine/query_language/ql_node.cpp:123-136 | the range of positions for =, <, >, <=, >= contains exactly the entries that satisfy the comparison |
| TableIndexes.RangeScanComplete | src/database_engine/query_language/ql_node.cpp:93-151 | an index range scan filtered by all conditions selects the same rows as a full scan |
| Tables.Table.constructor | src/database_engine/system_management/sm_manager.cpp:301-327 | a new table is sound, empty and without indexes |
| Tables.RecordScan.Next | src/database_engine/db_defs.h:38-47 | either kind of scan delivers each record id ahead of it once |
| TableScan.TableNode.constructor | src/database_engine/query_language/ql_node.cpp:70-91 | a table node holds its conditions with its own side on the left |
| TableScan.TableNode.Begin | src/database_engine/query_language/ql_node.cpp:93-151 | the scan is about to deliver exactly the rows that satisfy all conditions, and goes by an index exactly when some condition compares an indexed column with a value other than by <> |
| TableScan.TableNode.ChooseIndex | src/database_engine/query_language/ql_node.cpp:97-108 | the index of the first condition that compares an indexed column with a value other than by <> |
| TableScan.TableNode.Next | src/database_engine/query_language/ql_node.cpp:153-163 | moves to the next qualifying row, delivering each once |
| TableScan.TableNode.Feed | src/database_engine/query_language/ql_node.cpp:167-177 | the conditions in force are the original ones with the fed values put in |
| TableScan.RangeBounds | src/database_engine/query_language/ql_node.cpp:117-136 | the two index positions between which the comparison holds |
| IndexUpkeep.DeleteFromIndex | src/database_engine/query_language/ql_manager.cpp:129-132 | deleting a live record's entry never fails |
| IndexUpkeep.InsertIntoIndexes | src/database_engine/query_language/ql_manager.cpp:94-101 | every index takes up the new record |
| Statements.CreateTable | src/database_engine/system_management/sm_manager.cpp:301-327 | a new, empty table with the columns asked for, and the schema with it; rejected exactly when the name is taken or the record size is not between 1 and 512 |
| Statements.InsertInto | src/database_engine/query_language/ql_manager.cpp:71-107 | a row is accepted if and only if it has a value for each column that the column can hold; it is rejected with the first error and no change at all, or stored under a new record id, decodable, with every index in step |
| Statements.CollectRids | src/database_engine/query_language/ql_manager.cpp:118-123 | the rows that satisfy the conditions, each once |
| Statements.DeleteQualified | src/database_engine/query_language/ql_manager.cpp:117-140 | exactly the rows that qualified go, from the record file and from every index |
| Statements.DeleteFrom | src/database_engine/query_language/ql_manager.cpp:109-145 | succeeds if and only if every condition passes its check and mentions no other table, and then deletes exactly the rows of whose values the where clause holds; otherwise reports the first failing check, or the failed assertion on a foreign table when all pass, and changes nothing |
| Statements.QualifiedChosen | src/database_engine/query_language/ql_manager.cpp:115-123 | the rows that a statement is about are those of whose values the where clause holds |
| Statements.ApplyAssigns | src/database_engine/query_language/ql_manager.cpp:193-196 | the fields assigned to have their new values and the others their old ones |
| Statements.UpdateRow | src/database_engine/query_language/ql_manager.cpp:185-203 | one row is rewritten and every index follows |
| Statements.UpdateQualified | src/database_engine/query_language/ql_manager.cpp:164-205 | each row that qualified beforehand is rewritten once, whatever its new keys, and the other rows stay |
| Statements.UpdateSet | src/database_engine/query_language/ql_manager.cpp:147-211 | succeeds if and only if where and set clauses pass their checks and no condition mentions another table; then every row of whose values the where clause held has the value of the last set clause on each column, and its old value in the others, and all other rows are as they were; otherwise reports the first error of the where clause, then that of the set clauses, then the failed assertion on a foreign table, and changes nothing |
| Statements.RewrittenFields | src/database_engine/query_language/ql_manager.cpp:193-196 | in a rewritten record a column has the bytes of the last assignment to it, or its old bytes without one |
| Statements.RewrittenValues | src/database_engine/query_language/ql_manager.cpp:157-196 | and so its values are those of the last set clauses, or the old ones |
| Statements.CheckSetMeaning | src/database_engine/query_language/ql_manager.cpp:157-163 | a set clause passes exactly when the first column of its name can hold its value; otherwise the missing column, the type or the length is reported, in this order |
| Statements.CheckUpdate | src/database_engine/query_language/ql_manager.cpp:154-167 | the checks of an update in their order, before anything is changed |
| Statements.RewrittenUnique | src/database_engine/query_language/ql_manager.cpp:193-196 | the assignments determine the new record |
| Statements.CheckSets | src/database_engine/query_language/ql_manager.cpp:157-163 | the set clauses pass exactly when each names a column and fits it |
| Statements.BuildIndex | src/database_engine/system_management/sm_manager.cpp:374-379 | the new index mirrors all records of the file |
| Statements.CreateIndex | src/database_engine/system_management/sm_manager.cpp:354-392 | reports a missing column if and only if no column has the name, and an existing index if the first column of the name has one; otherwise gives that column an index in step with the table |
| Statements.DropIndex | src/database_engine/system_management/sm_manager.cpp:394-415 | reports a missing column if and only if no column has the name, and a missing index if the first column of the name has none; otherwise drops its index and leaves records and other indexes alone |
| TableRuns.RunOne | src/database_engine/query_language/ql_manager.cpp:71-211 | one statement has its effect on columns and records: a row stored, the qualifying rows gone or rewritten, an index flag changed |
| TableRuns.RunStatements | src/database_engine/query_language/ql_manager.cpp:71-211 | over every run of statements the states of the table follow one another by the effects of the statements, and in the end each index holds exactly the column value and record id of each live record |
| TableRuns.UpdateDetermined | src/database_engine/query_language/ql_manager.cpp:183-205 | the records after an update are determined by those before it |
| Plans.PlanLaidOut | src/database_engine/query_language/ql_node.cpp:227-237 | the columns of a join are laid out like those of a table |
| Plans.PlanRowOk | src/database_engine/query_language/ql_node.cpp:269-275 | a combined record is a sound row of the combined columns |
| Plans.JoinEnv | src/database_engine/query_language/ql_node.cpp:269-275 | the values of a combined record are those of its two parts |
| Plans.TypedReady | src/database_engine/query_language/ql_node.cpp:179-186 | well-typed conditions can be evaluated at every scan, whatever values are fed |
| Plans.YieldMeaning | src/database_engine/query_language/ql_node.cpp:239-287 | for any tree of scans and joins: pushing conditions down and feeding left values to the right loses and adds no combination of rows |
| QueryNodes.QlNode.Leaf | src/database_engine/query_language/ql_node.cpp:70-91 | a scan as a plan node |
| QueryNodes.QlNode.Over | src/database_engine/query_language/ql_node.cpp:227-237 | a join as a plan node: columns and length of both sides |
| QueryNodes.QlNode.Begin | src/database_engine/query_language/ql_node.cpp:239-254 | the node is about to deliver exactly what its plan yields |
| QueryNodes.QlNode.Next | src/database_engine/query_language/ql_node.cpp:256-267 | takes the current combination out of what is left, and no other |
| QueryNodes.QlNode.Rec | src/database_engine/query_language/ql_node.cpp:269-275 | the record of the current combination |
| QueryNodes.QlNode.Feed | src/database_engine/query_language/ql_node.cpp:277-280 | passes the values on to the leftmost scan and remembers them |
| QueryNodes.QlNode.FeedRight | src/database_engine/query_language/ql_node.cpp:282-287 | the right side is fed the left row's values behind those fed before |
| QueryNodes.QlNode.EndIff | src/database_engine/query_language/ql_node.h:105-105 | a node is at its end exactly when nothing is left to deliver |
| Product.OwnedTyped | src/database_engine/query_language/ql_manager.cpp:251-255 | a condition can be evaluated at the table that it was given to |
| Product.SwapHolds | src/database_engine/query_language/ql_node.cpp:81-89 | the side swapping of table nodes keeps the meaning of checked conditions |
| Product.QueryMeaning | src/database_engine/query_language/ql_manager.cpp:250-260 | the joins that select_from builds yield a combination exactly when its rows are live and every condition of the where clause holds of it, date-times included as long as no two that a turned condition compares by order clash |
| QueryMeanings.CombinedAt | src/database_engine/query_language/ql_node.cpp:269-275 | a combination of rows has, in a column of its j-th table, the value of the j-th row |
| QueryMeanings.ChainValues | src/database_engine/query_language/ql_node.cpp:269-275 | the combined record of the chain of joins has the values of the combination |
| QueryMeanings.CombinationMeaning | src/database_engine/query_language/ql_manager.cpp:249-260 | the checked conditions hold of a combined record exactly when the where clause holds of the values of the combination |
| Queries.ProjectCols | src/database_engine/query_language/ql_node.cpp:39-53 | the output columns, laid out from the start, for the chosen columns; fails exactly when one is missing |
| Queries.ProjectRec | src/database_engine/query_language/ql_node.cpp:55-68 | each output field is the chosen input field |
| Queries.BuildPlan | src/database_engine/query_language/ql_manager.cpp:250-260 | the chain of joins over the from list |
| Queries.RunPlan | src/database_engine/query_language/ql_manager.cpp:269-290 | the rows are the projections of the combinations that the plan yields, each once |
| Queries.Selectors | src/database_engine/query_language/ql_manager.cpp:236-247 | all columns, or each given one resolved; reports the first that cannot be |
| Queries.SelectFrom | src/database_engine/query_language/ql_manager.cpp:230-293 | answers if and only if all conditions and selectors check out within the from list; the rows of the answer are, as a bag, the combinations of live rows of whose values the where clause holds, each with the values of the columns asked for, in the order asked for; otherwise reports the first selector that cannot be resolved, then the first failing condition, then the failed assertion on a foreign table, then a selected column outside the from list |
| Queries.AnswerMeaning | src/database_engine/query_language/ql_manager.cpp:230-293 | projections of the filtered product are the values asked for of the combinations asked for |
| Queries.AllColsAt | src/database_engine/query_language/ql_manager.cpp:32-39 | selecting everything gives the columns of the tables in the order of the from list |
| Pager.PagerCache.constructor | src/database_engine/page_file_handler/pf_pager.cpp:6-12 | a new cache is coherent and empty |
| Pager.PagerCache.GetPage | src/database_engine/page_file_handler/pf_pager.cpp:99-133 | the page is in front, the lists stay a partition of the frames, and no other page changes |
| Pager.PagerCache.FetchPage | src/database_engine/page_file_handler/pf_pager.cpp:75-75 | no page's content changes, and the order of use is the LRU order |
| Pager.PagerCache.CreatePage | src/database_engine/page_file_handler/pf_pager.cpp:69-73 | no other page's content changes; the page is marked dirty |
| Pager.PagerCache.MakeRoom | src/database_engine/page_file_handler/pf_pager.cpp:108-117 | eviction changes no content |
| Pager.PagerCache.Access | src/database_engine/page_file_handler/pf_pager.cpp:135-138 | a cached page moves to the front |
| Pager.PagerCache.ForcePage | src/database_engine/page_file_handler/pf_pager.cpp:92-97 | afterwards the disk has the page, and no other disk page changed |
| Pager.PagerCache.FlushPage | src/database_engine/page_file_handler/pf_pager.cpp:140-148 | the page leaves the cache for the disk and no content changes |
| Pager.PagerCache.FlushFile | src/database_engine/page_file_handler/pf_pager.cpp:77-90 | nothing of the file stays cached, the disk holds its content, other files' pages stay cached |
| Pager.PagerCache.FlushAll | src/database_engine/page_file_handler/pf_pager.cpp:150-161 | every frame is free and the disk holds all content |
| Pager.PagerCache.WritePage | src/database_engine/page_file_handler/pf_defs.h:38-44 | a write marked dirty changes that page's content and no other |
| Pager.CloseAndReopen | src/database_engine/page_file_handler/pf_manager.cpp:80-98 | a file closed and opened under another descriptor reads as before, page by page, through the same cache; other files are untouched |
| Pager.Restart | src/database_engine/page_file_handler/pf_pager.cpp:14-17 | after the pager has shut down, another one over the same disk reads every page as before |
| Pager.PagerCache.WriteThrough | src/database_engine/page_file_handler/pf_pager.cpp:46-67 | writing past the cache replaces the first bytes of that page and nothing else |
| PageImages.NodeRoundTrip | src/database_engine/index_handler/ndx_handler.h:24-34 | every node that fits its page is read back as it was written: header, keys and record ids |
| PageImages.NodeLayout | src/database_engine/index_handler/ndx_handler.h:24-38 | where each field, key and record id of a node lies in its page |
| PageImages.HeaderRoundTrip | src/database_engine/index_handler/ndx_defs.h:54-87 | the index file header is read back as it was written |
| PageImages.HeaderLayout | src/database_engine/index_handler/ndx_defs.h:58-74 | the ten ints of the index file header in order |
| PageImages.RecordPageRoundTrip | src/database_engine/record_manager/rm_file_handle.h:8-22 | every record page is read back with the same header, bitmap and records |
| PageImages.RecordPageLayout | src/database_engine/record_manager/rm_file_handle.h:8-22 | where the header and the bitmap of a record page lie |
| PageImages.SlotLayout | src/database_engine/record_manager/rm_file_handle.h:21-21 | where the slots of a record page lie |
| PageImages.RmHeaderRoundTrip | src/database_engine/record_manager/rm_defs.h:12-18 | the record file header is read back as it was written |
| PageImages.RmHeaderLayout | src/database_engine/record_manager/rm_defs.h:12-18 | the five ints of the record file header in order |
| FileStore.CreateIndexFile | src/database_engine/index_handler/ndx_manager.cpp:9-52 | the file of a new index reads back as the header and the two pages of an empty tree |
| FileStore.StoreNode | src/database_engine/index_handler/ndx_handler.cpp:179-200 | a node written in its frame is what the file then holds, and no other page changes |
| FileStore.ReopenIndex | src/database_engine/index_handler/ndx_manager.cpp:59-68 | closing an index and opening it again gives the same header, pages and entries, still in step with its table |
| FileStore.StoreRecordPage | src/database_engine/record_manager/rm_file_handle.cpp:66-91 | a record page written in its frame is what the file then holds, and no other page changes |
| FileStore.AlikeFile | src/database_engine/record_manager/rm_file_handle.cpp:9-19 | what lies in slots without a record does not matter |
| FileStore.ReopenRecords | src/database_engine/record_manager/rm_manager.cpp:23-31 | closing a record file and opening it again gives the same records |
| Pager.RunRequests | src/database_engine/page_file_handler/pf_pager.cpp:99-138 | after any trace the busy list is the LRU list and every page reads as on disk |
| Pager.ApplyCacheOp | src/database_engine/page_file_handler/pf_pager.cpp:69-161 | a write sets the content of one page, a creation may change the page created, and no other operation changes any content |
| Pager.RunCache | src/database_engine/page_file_handler/pf_pager.cpp:69-161 | over every run of fetches, creations, writes and flushes the contents follow one another by the writes and creations alone |
| Pager.LastWriteRead | src/database_engine/page_file_handler/pf_pager.cpp:69-161 | what was last written to a page is what it reads, whatever is fetched, evicted or flushed afterwards |
| Pager.KeepsFrame | src/database_engine/page_file_handler/pf_pager.cpp:99-138 | requesting a trace on a cache in use touches it page by page in LRU order, and a frame keeps its page as long as fewer other distinct pages are requested than there are frames |
| Lru.LruExact | src/database_engine/page_file_handler/pf_pager.cpp:100-138 | a cache of n pages holds exactly the n most recent of the distinct pages requested, most recent first |
| Lru.RecencyOrder | src/database_engine/page_file_handler/pf_pager.cpp:135-138 | that list is ordered by last request |
| Lru.LargerHoldsMore | src/database_engine/page_file_handler/pf_pager.cpp:100-138 | a larger cache always holds what a smaller one holds |
| Lru.Retained | src/database_engine/page_file_handler/pf_pager.cpp:100-138 | a page is still cached while fewer than n other distinct pages were requested since |
| Semaphores.OperationDisciplined | src/database_engine/system_management/sm_manager.cpp:172-274 | every operation waits in the order metadata, file handles, index handles, fd map, cache and releases all it took, and makes exactly the accesses listed to what these protect, holding exactly the semaphores listed |
| Semaphores.OperationCovered | src/database_engine/system_management/sm_manager.cpp:172-415 | in every operation every update is made with the semaphore held that protects it; every read is, if and only if the operation looks nothing up outside |
| Semaphores.MutualExclusion | src/database_engine/page_file_handler/pf_pager.cpp:77-161 | in no reachable state are two threads about to update one structure, nor one to update and one to read it unless that one runs an operation that looks things up outside |
| Semaphores.LookUpRace | src/database_engine/query_language/ql_manager.cpp:75-75 | a statement can be about to look a table up while another thread is about to change the metadata |
| Semaphores.SessionDisciplined | src/database_engine/system_management/sm_manager.cpp:301-415 | so does any sequence of operations, with all updates protected |
| Semaphores.StepInv | src/database_engine/page_file_handler/pf_manager.cpp:80-98 | a step keeps: no semaphore is held twice, and one is at 0 exactly when held |
| Semaphores.NoDeadlock | src/database_engine/system_management/sm_manager.cpp:172-415 | for any number of threads and any schedule, as long as a thread is unfinished some thread can go on |
| Semaphores.CanFinish | src/database_engine/page_file_handler/pf_pager.cpp:77-133 | from every such state all threads can finish, and then every semaphore is free |
| Catalog.ReadColumns | src/database_engine/system_management/sm_meta.h:61-70 | the column loop of the reader |
| Catalog.ReadTables | src/database_engine/system_management/sm_meta.h:95-104 | the table loop of the reader |
| Catalog.GetColumnPut | src/database_engine/system_management/sm_meta.h:26-33 | a printed column is read back |
| Catalog.WordRead | src/database_engine/system_management/sm_meta.h:31-33 | reading a name skips white space and takes everything up to the next |
| Catalog.NumberRead | src/database_engine/system_management/sm_meta.h:31-33 | reading a number skips white space, takes the digits, and fails when there are none or the number is too large |
| Catalog.LengthTooLarge | src/database_engine/system_management/sm_meta.h:31-33 | a column length that an int cannot hold is not read back |
| Catalog.ColumnText | src/database_engine/system_management/sm_meta.h:26-29 | the line of a column: table, name, type code, length, offset and index flag, with blanks between them |
| Catalog.DecimalMeaning | src/database_engine/system_management/sm_meta.h:26-29 | numbers are printed in decimal without leading zeros |
| Catalog.TableText | src/database_engine/system_management/sm_meta.h:53-59 | the text of a table: name, number of columns, columns |
| Catalog.DbText | src/database_engine/system_management/sm_meta.h:87-93 | the text of the catalog: name, number of tables, tables |
| Catalog.TablesText | src/database_engine/system_management/sm_meta.h:89-91 | an empty line follows each table |
| Catalog.GetTablePut | src/database_engine/system_management/sm_meta.h:53-70 | a printed table is read back |
| Catalog.CatalogRoundTrip | src/database_engine/system_management/sm_meta.h:87-104 | a printed catalog is read back exactly, in whatever order its tables were printed |

## Left out

- Sockets, client, server, result formatting, lexer, grammar, tree printer and interpreter dispatch: no state or arithmetic of the engine depends on them.
- Real files, file locks, directories, the list of databases and operating system errors: the disk is a map from page ids to bytes.
- A page handle that edits a page inside its frame: index and record pages are values that the operations replace, and `FileStore.StoreNode` and `FileStore.StoreRecordPage` put such a value into its frame. That each operation stores every page it changes, and so marks it dirty, is not derived from the operations.
- Node pages in `IndexHandle` hold their keys and record ids as sequences; the shift loops on arrays behind `insert_keys`, `erase_key` and the others are proved once, in `IndexNodes.NodeArrays`, as are the in-place bit operations in `Bitmap.Init`, `Set` and `Reset`; pages being values, the operations use the functions these methods are proved against.
- `lower_bound` and `upper_bound` of the tree have one common body, `Bound`, and the merges with the left and the right brother one common method, `MergeNeighbours`; the source writes each out twice.
- The order in which unrelated fields are updated inside one split or merge is grouped by purpose (allocation, moving slots, attaching to the parent); aliasing of two page handles to one page does not occur in the model.
- Statements.CreateIndex: does not cover DATETIME columns, since two dates of a month and the next may clash (`KeyOrder.JanuaryClash`) and an index over clashing keys is not ordered. The index theorems hold for DATETIME keys under any `KeyOrd` that `KeyOrder.DateLawfulIff` makes lawful.
- Statements.BuildIndex: does not cover DATETIME columns, for the same reason.
- TableRuns.RunStatements: does not cover creating an index on a DATETIME column, for the same reason.
- TableIndexes.RangeScanComplete: does not cover DATETIME indexes, for the same reason.
- Queries.SelectFrom: does not cover order comparisons between DATETIME columns of two tables, the left one earlier in the from list, when dates in them clash: the comparison is turned round and changes its meaning then (`Conditions.SwapExact`). All other DATETIME conditions are covered.
- Statements.CreateTable: does not cover accepted column lists with a negative length, for which the columns overlap or leave the record (`Rows.TilesIff`).
- Tables.Table.constructor: requires lengths that are not negative, for the same reason.
- Rows.CreateColumns: requires lengths that are not negative, for the same reason.
- NaN in FLOAT columns: excluded from stored rows and literals, since no order extends to it.
- Conditions.EvalCond: requires a right side at least as wide as the left column, because `eval_cond` reads as many bytes as the left column has and would read past the end. In a query, a condition whose left column is of an earlier table is turned round, so that the two widths must be equal there.
- Repeated tables in a from list, and two columns of one name in a table that feeds others of a query, for which `rec2dict` aborts: their absence is required. Tables with such columns are otherwise covered.
- 32-bit wrap-around of page numbers, counters and record ids: they are unbounded integers; stored INT values are 32-bit.
- The contents of a page fresh from `create_page`: arbitrary until it is initialised.
- `Catalog.CatalogRoundTrip` requires names without white space, as identifiers are; stream failure states are a `None` result.
- Exceptions thrown while a semaphore is held, some of which leave it at 0, and threads that change one tree at the same time, which the source does not protect: the semaphore theorems cover operations that return normally, and trees, record files and queries run sequentially.
- Dropping tables and opening and closing databases, apart from their semaphore traces: they only compose the operations proved here.
- Semaphores.OperationDisciplined: loops over tables, columns, records and files take their lengths and flags as given, without the data they handle; the contents of pages and files, which no semaphore protects, are not among the accesses.
