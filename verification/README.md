# A verified model of the kvs storage engines

kvs is a key-value store: a hash table of binary search trees over an append-only log of records.
The repository holds two generations of it, an older one in C (`kvs/src/engine/bak/`) and a newer
one in C++ (`kvs/src/engine/`), with a configuration-file format, a message buffer (PACK) and a job
queue (JOBS) around them. This project models both engines, their file formats, PACK and JOBS, and
proves what each operation does to the map, the trees, the node array and the bytes on file.

`dafny verify dfyconfig.toml` checks everything.

| module | part of the system |
|---|---|
| `Trees` | the search trees as values: the walk every operation starts with, insertion, removal with the in-order successor |
| `Arena` | trees laid out in a node array, and what one write through "the link that led here" does to every tree of a table |
| `Tables` | a hash table of such trees: which map it represents, which cells it uses |
| `HashIndex`, `IndexImage` | the older index (`bak/index.c`) and its file image |
| `DataLog` | the older data file (`bak/data.c`) |
| `KeyValueStore` | `kv_put`, `kv_get`, `kv_delete` (`bak/kvs_api.c`), single calls and whole runs |
| `EngineIndex` | the newer index (`index.cc`) |
| `Posix`, `Space` | positioned file access and the record log (`posix.cc`, `space.cc`) |
| `EngineLog`, `Engine` | index and log together, `Put`/`Get`/`Delete`, the compaction scan, `Close` (`engine.cc`, `arrange.cc`) |
| `Shapes`, `EngineRun` | tree shapes without cells and values, and whole runs of the newer engine |
| `ConfigItem`, `Layout`, `Configure` | 32-byte cells, their layout on file, `CONFIGURE` (`item.h`, `configure.cc`) |
| `Pack`, `Jobs` | `kvspack.cc`, `jobs.cc` |
| `Bytes`, `Parts`, `Options` | little-endian fields, files made of parts laid end to end, result types |

How the model is read:

- The classes `HashIndex.Index`, `DataLog.Data`, `KeyValueStore.Kvs`, `EngineIndex.Index`,
  `Space.Log`, `Engine.HashEngine`, `Configure.Configuration`, `Pack.Packer` and `Jobs.JobQueue`
  carry the fields of the C structs and C++ classes and change them in place, with the loops of the
  source. Their ghost fields (the trees as values, the abstract map, the list of records) are tied
  to the real fields by `Valid()`, which every call keeps, except for the one failure of `kv_put`
  described below.
- A file is a sequence of bytes with positioned reads and writes that succeed. Struct layouts are
  those of a 64-bit little-endian machine with 4-byte `int` and 8-byte `long long`; a gap left by
  a positioned write reads as zero.
- Where the integer width decides what happens it is written out: the `int` that holds the result
  of `lseek`, the `int` append offset of the data header, two's-complement lengths and keys,
  64-bit words in the index image.
- `create_key_sign` is an arbitrary function given to the store. Two keys with one sign are one key
  to kvs, and the plain map the store is compared with is keyed by sign accordingly.
- `FREE_SLOT` of the newer index is declared in `index.h`; its bodies are in none of the
  repository's files and not part of this model. It is taken to be the last-in first-out stack that
  the older engine's free pool is. `std::map` is the ascending sequence it iterates. `time(NULL)` is
  any value that never goes back.
- Capacity the C code does not check is a precondition: a free node when an absent key is inserted,
  a free slot in the pool when a node is freed, a node array no longer than the id that stands for
  "none" (123456789 or 10001806), a record no longer than the 10 KiB buffer of `SPACE`, a name of at
  most 31 characters in a black item, a key of the newer engine that has a slot in its table
  (`EngineIndex.SlotInTable`).
- When a base search fails, `ArrangeScan` leaves `index_off` and `index_len` unset and compares
  them anyway (`kvs/src/engine/arrange.cc:128-130`). What they hold then is a parameter of the model,
  required not to be the extent of the very record that was looked up.

Where the code does not do what one would expect, the model keeps the code and the project says
exactly when the expectation holds:

- `kv_put` binds the sign in the index before it writes the log, and `data_insert` takes an offset
  whose bit 31 is set for a failed seek; from 2^63 on the seek does fail. The store stays coherent
  exactly when the sign was already bound or the offset can be sought (`Kvs.Put`); two puts on a fresh
  store reach the other case (`KeyValueStore.BreakStore`).
- The data header keeps `append_offset` in a 32-bit `int`: saving and loading restores it exactly
  below 2^31 (or within 2^31 of 2^64) (`DataLog.HeadRoundTrip`).
- `ArrangeScan` returns the status of the last thing it did, so a log whose last record's key is no
  longer bound ends in "not exist" although the copy is complete, and `Arrange` then gives up
  (`Engine.ArrangeScan`). One put and its delete are such a log (`Engine.DeleteThenCompact`).
- A covering insert hangs an empty leaf over the node it finds. Other keys survive exactly when
  that node was a leaf (`Trees.PutKeepsOthers`); otherwise exactly the keys below it are forgotten
  (`Trees.PutForgets`) and all cells of the subtree are lost to the free list (`EngineIndex.Index.Insert`); three puts make
  such a node (`EngineIndex.CoverFork`).
- The two-child case of the newer `BSTDelete` tests the deleted node in its loop guard, passes the
  successor and reads outside the node array (`EngineIndex.TwoChildLoopOverruns`); three puts reach a
  state where it would (`EngineIndex.MakeFork`). `Del` is proved for every other shape.
- A visual cell reads back exactly when its key has no colon and the line has at most 31 characters
  without the newline, and at 31 the value must not itself end in a newline; a black header exactly
  when no colon byte lies in its name or its length and the name ends where the length begins.
- A first `Solid` can be loaded whole exactly when at most one item is open-ended and no cell starts
  at offset 10001806, the value that stands for "open-ended" (`Layout.OrderedSeen`).
- The counter behind `_kv_consequence_id` is not saved. A store loaded by a new process hands out smaller
  timestamps than the saved ones until the counter has caught up (`Kvs.Load`).
- `kv_close` is a stub that returns 0 without saving; persistence is stated for `idx_exit` and `data_exit`.
- `idx_create` and `idx_load` allocate 8 bytes for the free pool, because the multiplication stands
  inside the `sizeof` (`kvs/src/engine/bak/index.c:84`); the model gives it its declared length.

## Model

| member | source | states |
|---|---|---|
| Trees.FindIsMembership | kvs/src/engine/bak/index.c:220-231 | in a sorted tree the search finds a value if and only if the pair is somewhere in the tree |
| Trees.WalkStops | kvs/src/engine/bak/index.c:249-265 | the walk ends at the node with the key or at the empty link where it belongs, and path and rest together are the tree |
| Trees.WithoutLeftmost | kvs/src/engine/bak/index.c:325-332 | unhooking the leftmost node of a subtree keeps it sorted, loses that key and that cell only, and that key comes before all others |
| Trees.JoinRemoves | kvs/src/engine/bak/index.c:320-340 | what replaces a deleted node, in all four shapes, is sorted, lacks exactly that cell, and answers every other key as before |
| Trees.JoinTakes | kvs/src/engine/bak/index.c:320-340 | which node takes the place: an only child, or the first node of the right subtree, with the left subtree as it was |
| Trees.PutBinds | kvs/src/engine/bak/index.c:237-282 | an insert binds the key, stays sorted, and trades the covered cells for the new one |
| Trees.PutKeepsOthers | kvs/src/engine/index.cc:102-131 | an insert leaves every other key alone if and only if it stopped at an empty link or a leaf |
| Trees.PutForgets | kvs/src/engine/index.cc:102-131 | a covering insert forgets exactly the keys below the covered node |
| Trees.RemoveUnbinds | kvs/src/engine/bak/index.c:284-347 | a delete keeps the tree sorted, frees one cell, unbinds one key, and no other key changes |
| Arena.StoreReplaces | kvs/src/engine/bak/index.c:277-277 | writing a finished subtree's id through the last link of the walk plugs it there and leaves every other tree of the table as it was |
| Arena.AttachLeaf | kvs/src/engine/bak/index.c:267-277 | filling a cell nobody uses and storing its id makes the new tree of that slot, and no other slot changes |
| Arena.BypassNode | kvs/src/engine/bak/index.c:320-340 | the leaf and one-child writes produce the tree without the node |
| Arena.SpliceSuccessor | kvs/src/engine/bak/index.c:325-335 | the four writes of a two-child delete, with the successor directly below or deeper, produce the joined tree although they overlap in the array |
| Tables.PutChanges | kvs/src/engine/index.cc:102-131 | a put changes the represented map by one binding less the forgotten keys, and the used cells by one less the covered ones |
| Tables.RemoveDrops | kvs/src/engine/bak/index.c:284-347 | a remove takes one binding from the map and one cell from the table |
| Tables.TablePut | kvs/src/engine/bak/index.c:237-282 | an insert's writes to the arrays take a table for one map to a table for the next, with every cell accounted for |
| Tables.TableAdd | kvs/src/engine/bak/index.c:267-277 | for an absent key that is one binding more and nothing given up |
| Tables.TableBypass | kvs/src/engine/bak/index.c:320-340 | the same for deletes of nodes with at most one child |
| Tables.TableSplice | kvs/src/engine/bak/index.c:323-335 | the same for deletes of nodes with two children |
| Tables.TableCount | kvs/src/engine/bak/index.c:360-378 | bindings plus unused cells are the horizon |
| Tables.OneOwner | kvs/src/engine/bak/index.c:360-378 | every id below the horizon has one owner: a tree, the free stack or the leaked cells |
| IndexImage.ImageRoundTrip | kvs/src/engine/bak/index.c:27-48 | a file that starts with an index image reads back as the same pool, heads, free pool, horizon and counts |
| IndexImage.ImageLayout | kvs/src/engine/bak/index.h:5-28 | which 64-bit word of the file holds what: the eight header fields, key sign, offset, left and right id of each node, the heads, the free pool |
| HashIndex.Index.Create | kvs/src/engine/bak/index.c:50-116 | a new index is sound, stands for the empty map and is saved |
| HashIndex.Index.Sync | kvs/src/engine/bak/index.c:27-48 | the file then starts with the image of memory, memory is unchanged and the change flag is down |
| HashIndex.Index.FindLink | kvs/src/engine/bak/index.c:249-265 | the loop terminates at the node of the sign if and only if it is bound, with the link that leads there |
| HashIndex.Index.Search | kvs/src/engine/bak/index.c:209-235 | found if and only if bound, with the bound offset |
| HashIndex.Index.GetFreeNode | kvs/src/engine/bak/index.c:360-372 | the id handed out is in no tree and is taken from the stack or the horizon |
| HashIndex.Index.Insert | kvs/src/engine/bak/index.c:237-282 | one binding more if the sign was absent, nothing at all changed otherwise; soundness kept; other buckets untouched |
| HashIndex.Index.Attach | kvs/src/engine/bak/index.c:273-277 | filling the cell and storing its id leaves a table with the one new binding |
| HashIndex.Index.FindNearest | kvs/src/engine/bak/index.c:325-330 | the loop finds the in-order successor and the link to it |
| HashIndex.Index.PutFreeNode | kvs/src/engine/bak/index.c:374-378 | the id is pushed on the stack |
| HashIndex.Index.Unlink | kvs/src/engine/bak/index.c:320-340 | in all four shapes the arrays afterwards spell out the table without the key, with the node's id free |
| HashIndex.Index.Splice | kvs/src/engine/bak/index.c:325-335 | the two-child shape: four overlapping writes leave a table without the key, with the node's id free |
| HashIndex.Index.Delete | kvs/src/engine/bak/index.c:284-347 | one binding less and the old offset reported if the sign was bound, nothing changed otherwise; other buckets untouched |
| HashIndex.Index.NodesPartition | kvs/src/engine/bak/index.c:360-378 | in every sound state the ids below the horizon are split between the trees, each once, and the used part of the free pool, without duplicates |
| HashIndex.Index.CountNodes | kvs/src/engine/bak/index.c:360-378 | bindings plus free ids are the horizon |
| HashIndex.Index.Placed | kvs/src/engine/bak/kvs_utils.c:11-15 | bucket b is a tree, greater signs to the left, of exactly the bound signs with remainder b |
| HashIndex.Index.Exit | kvs/src/engine/bak/index.c:182-207 | whether or not a sync was needed, the file then holds this index |
| HashIndex.Index.Load | kvs/src/engine/bak/index.c:118-157 | loading a file that holds an index restores the same heads, pool, free stack, horizon and map |
| DataLog.RecordRoundTrip | kvs/src/engine/bak/data.c:143-184 | an intact record reads back as its key and value |
| DataLog.HeadWords | kvs/src/engine/bak/data.c:28-32 | the three words of a record's head are timestamp, key length and value length |
| DataLog.SeekResult | kvs/src/engine/bak/data.c:198-201 | a seek fails if and only if the offset is negative as a signed 64-bit number or its low 32 bits are as an `int` |
| DataLog.LogRoundTrip | kvs/src/engine/bak/data.c:186-210 | a log parses front to back into exactly the records appended, without a gap |
| DataLog.IntField | kvs/src/engine/bak/data.c:16-26 | when a 64-bit field survives being stored in an `int` |
| DataLog.HeadRoundTrip | kvs/src/engine/bak/data.c:230-257 | counters survive the header; append_offset comes back as its low 32 bits read as an `int`, and so unchanged if and only if it fits |
| DataLog.HeadMagic | kvs/src/engine/bak/data.c:230-239 | the header starts with the magic number and the version |
| DataLog.AppendKeepsLog | kvs/src/engine/bak/data.c:198-205 | a write at the end extends the log by one record and keeps every earlier byte |
| DataLog.Data.Create | kvs/src/engine/bak/data.c:59-97 | an empty log behind a header that is on file; bytes the file had behind it stay |
| DataLog.Data.Load | kvs/src/engine/bak/data.c:99-133 | the saved records and counters |
| DataLog.Data.HeadSync | kvs/src/engine/bak/data.c:44-57 | only the header's bytes change |
| DataLog.Data.Exit | kvs/src/engine/bak/data.c:135-141 | the header is current and every byte behind it as before |
| DataLog.Data.Insert | kvs/src/engine/bak/data.c:186-210 | three writes are one record; at the end of the log they extend it; a seek that fails, or seems to, changes nothing |
| DataLog.Data.Get | kvs/src/engine/bak/data.c:143-184 | the key and value announced at the offset, or nothing when the seek fails |
| DataLog.Data.Delete | kvs/src/engine/bak/data.c:212-217 | one record fewer in the count, the log untouched |
| KeyValueStore.LastPutWins | kvs/src/engine/bak/kvs_api.c:87-152 | after any run a sign is bound to a pair if and only if some successful put of that pair stands, undeleted |
| KeyValueStore.BoundWhenPutStands | kvs/src/engine/bak/kvs_api.c:87-152 | a sign is bound if and only if some put of it stands |
| KeyValueStore.GetAnswers | kvs/src/engine/bak/kvs_api.c:112-130 | in any run a get answers a pair if and only if a put of that pair stands, and nothing if and only if none of its sign does |
| KeyValueStore.PutAndDeleteAnswers | kvs/src/engine/bak/kvs_api.c:87-152 | in any run a put succeeds if and only if no put of its sign stands, a delete if and only if one does |
| KeyValueStore.Kvs.Create | kvs/src/engine/bak/kvs_api.c:11-60 | a fresh store is coherent and empty |
| KeyValueStore.Kvs.Put | kvs/src/engine/bak/kvs_api.c:87-110 | a put step of the plain map; refused if and only if bound or the seek fails; coherent afterwards if and only if bound or the seek works; record appended at the end; equal timestamps, larger than before |
| KeyValueStore.Kvs.Get | kvs/src/engine/bak/kvs_api.c:112-130 | the bytes of the record the plain map holds for the sign, or nothing |
| KeyValueStore.Kvs.Delete | kvs/src/engine/bak/kvs_api.c:132-152 | a delete step of the plain map; count stays the number of bound signs; equal timestamps, larger than before |
| KeyValueStore.Kvs.Unbind | kvs/src/engine/bak/kvs_api.c:140-151 | the node leaves the index and the counters of the data file follow, or nothing happens |
| KeyValueStore.Kvs.FreeIsRest | kvs/src/engine/bak/index.c:360-378 | the nodes ever used that are not bound are on the free stack |
| KeyValueStore.Kvs.RoomToDelete | kvs/src/engine/bak/index.c:374-378 | with fewer nodes than free slots the free pool cannot overflow |
| KeyValueStore.Kvs.Exit | kvs/src/engine/bak/data.c:135-141 | both files hold the store when append_offset fits the header, and the header is right if and only if it fits |
| KeyValueStore.Kvs.Load | kvs/src/engine/bak/kvs_api.c:32-60 | from two such files the same map, index, log and counts; timestamps keep growing if and only if the counter has reached the saved ones |
| KeyValueStore.Call | kvs/src/engine/bak/kvs_api.c:87-152 | any one call there is room for is one step of the plain map; only a put of an absent sign and a delete of a bound one need room |
| KeyValueStore.Replay | kvs/src/engine/bak/kvs_api.c:87-152 | every run on a fresh store that there is room for gives the plain map's answers, call by call, and ends standing for it, with the log's length and count that run implies |
| KeyValueStore.LongPutFits | kvs/src/engine/bak/data.c:198-205 | the long put itself is a run there is room for, and the log then ends where the seek seems to fail |
| KeyValueStore.BreakStore | kvs/src/engine/bak/kvs_api.c:87-110 | a fresh store, one long put and a put of another sign: the index then binds a sign the log has no record of |
| EngineIndex.KeyOfInjective | kvs/src/engine/index.cc:267-282 | keys of one length are told apart by the words copied out of them |
| EngineIndex.KeyWords | kvs/src/engine/index.cc:267-282 | the words of a key are its eight-byte halves, lowest byte first, as signed numbers |
| EngineIndex.CRemainderMeans | kvs/src/engine/index.cc:364-364 | what `%` leaves: less than the divisor, of the sign of the key, and apart from it by a multiple |
| EngineIndex.SlotInTable | kvs/src/engine/index.cc:353-365 | C's remainder is a slot of the table if and only if the key's first word is not negative or divides evenly |
| EngineIndex.TwoChildLoopOverruns | kvs/src/engine/index.cc:161-171 | the loop passes the successor with its guard still true and leaves the node array |
| EngineIndex.MakeFork | kvs/src/engine/index.cc:102-171 | three inserts reach a state in which Del's loop would leave the node array |
| EngineIndex.CoverFork | kvs/src/engine/index.cc:102-131 | covering the middle one of three keys forgets the other two and leaks three cells |
| EngineIndex.Index.Born | kvs/src/engine/index.cc:33-38 | a sound, empty index with an empty free stack |
| EngineIndex.Index.FindLink | kvs/src/engine/index.cc:84-100 | the walk terminates at the key's node if and only if it is bound, with the link that leads there |
| EngineIndex.Index.Search | kvs/src/engine/index.cc:40-55 | the bound extent, "not exist", or "invalid parameter" for a key of the wrong length |
| EngineIndex.Index.PopFreeNode | kvs/src/engine/index.cc:225-236 | a node in no tree, from the stack or the horizon |
| EngineIndex.Index.Insert | kvs/src/engine/index.cc:57-67 | which of three statuses; on success the map with the key bound less exactly the covered keys, and the cells leaked; otherwise nothing changed |
| EngineIndex.Index.Attach | kvs/src/engine/index.cc:126-128 | filling the node and storing its id leaves the table with the key bound less the covered keys |
| EngineIndex.Index.NothingBelow | kvs/src/engine/index.cc:102-131 | an insert of an absent key forgets and leaks nothing |
| EngineIndex.Index.KeyNotBelow | kvs/src/engine/index.cc:102-131 | a covering insert never forgets the key it binds |
| EngineIndex.Index.BoundNode | kvs/src/engine/index.cc:84-100 | a walk ends at a node if and only if the key is bound |
| EngineIndex.Index.PushFreeNode | kvs/src/engine/index.cc:238-251 | the freed cell keeps its links, loses its key and is on top of the stack |
| EngineIndex.Index.Unlink | kvs/src/engine/index.cc:157-176 | the leaf and one-child writes leave a table without the key |
| EngineIndex.Index.Del | kvs/src/engine/index.cc:69-79 | one key less if it was bound, nothing changed otherwise |
| EngineIndex.Index.CountNodes | kvs/src/engine/index.cc:225-251 | bindings, free and leaked nodes add up to the horizon |
| EngineIndex.Index.Placed | kvs/src/engine/index.cc:353-393 | bucket b is an ascending tree of exactly the bound keys whose first word leaves remainder b |
| Posix.File.Write | kvs/src/engine/posix.cc:37-47 | the written range holds the data, every other byte of the file is as before, a gap reads zero, and the file is no longer than that needs |
| Bytes.WriteAtBytes | kvs/src/engine/posix.cc:37-47 | exactly one sequence of bytes is what such a write leaves behind |
| Bytes.LeByte | kvs/src/engine/posix.cc:37-47 | a number on file has its lowest byte first |
| Posix.File.Read | kvs/src/engine/posix.cc:60-72 | what there is of the range at the front of the buffer; end of file if and only if nothing was read |
| Posix.File.Last | kvs/src/engine/posix.cc:74-81 | the end of the file as an `int` says it; right if and only if the file is shorter than 2 GiB |
| Space.EntryParts | kvs/src/engine/space.cc:44-74 | the length of a record, and its id, key, value size and value at their places |
| Space.Log.constructor | kvs/src/engine/space.cc:12-34 | the log goes on where `GetFileLast` says the file ends |
| Space.Log.Write | kvs/src/engine/space.cc:44-62 | the buffer copies and one write put the whole record at the offset and move the end by its length |
| Space.Log.ReadValue | kvs/src/engine/space.cc:36-42 | the bytes behind the head of the extent; what the file lacks of it is left over from the buffer; end of file if and only if the extent begins there |
| Space.Log.ReadEntry | kvs/src/engine/space.cc:77-100 | at a written record its key, its value and its total length; at the end of the file that status |
| EngineLog.ExtentsDisjoint | kvs/src/engine/engine.cc:76-89 | two bound keys never share a byte of the log, and no extent leaves it |
| EngineLog.AllApart | kvs/src/engine/engine.cc:76-89 | no two extents of the index share a byte, and none leaves the log |
| EngineLog.AppendEntry | kvs/src/engine/space.cc:44-62 | a record written at the end extends the log and moves no other record |
| EngineLog.PointsAfterPut | kvs/src/engine/engine.cc:76-85 | index and log still agree after a put, and stand for the map with the new value |
| EngineLog.ScanPosition | kvs/src/engine/arrange.cc:120-145 | a scan stands at the next record or, if and only if there is none, at the end |
| EngineLog.ValueAt | kvs/src/engine/engine.cc:91-98 | behind the head of a bound extent lies the value of the map |
| EngineLog.SurvivorsAreLive | kvs/src/engine/arrange.cc:127-143 | every record of the new log is live |
| EngineLog.SurvivorsInOrder | kvs/src/engine/arrange.cc:127-143 | every live record is carried over, and they keep their order |
| EngineLog.SurvivorComesFrom | kvs/src/engine/arrange.cc:127-143 | nothing but live records is carried over, with fresh ids in sequence |
| EngineLog.SameModel | kvs/src/engine/arrange.cc:111-147 | the surviving records stand for the same map |
| EngineLog.SurvivorBytes | kvs/src/engine/arrange.cc:135-143 | the new log is as long as the live records together |
| EngineLog.AliveByExtent | kvs/src/engine/arrange.cc:127-133 | comparing offset and length decides exactly whether a record is the current one of its key |
| EngineLog.MovedStep | kvs/src/engine/arrange.cc:135-143 | a live record's key was not copied before, so nothing is covered and nodes suffice |
| EngineLog.CopyStep | kvs/src/engine/arrange.cc:135-143 | after one copied record destination index and log agree again |
| Engine.HashEngine.constructor | kvs/src/engine/engine.cc:27-48 | a new engine over a new index and a data file without records stands for the empty map |
| Engine.HashEngine.Over | kvs/src/engine/arrange.cc:91-101 | an index and a log that agree make an engine for the map they stand for |
| Engine.HashEngine.Put | kvs/src/engine/engine.cc:76-89 | which status; on success exactly one record more and the map with the key set less the covered keys; otherwise map and file as before |
| Engine.HashEngine.Get | kvs/src/engine/engine.cc:91-98 | the value the map holds, or which error |
| Engine.HashEngine.Delete | kvs/src/engine/engine.cc:100-105 | the map without the key, or which error; nothing written |
| Engine.HashEngine.CloseData | kvs/src/engine/engine.cc:69-74 | writing the configuration back in place leaves the record log and the map untouched |
| Engine.ArrangeScan | kvs/src/engine/arrange.cc:111-147 | the new index and log are coherent, hold live records only, stand for the same map, have the predicted size; status Ok if and only if the log is empty or its last record's key is still bound |
| Engine.CopyRecord | kvs/src/engine/arrange.cc:135-142 | insert and write of one live record succeed without covering anything |
| Engine.Compact | kvs/src/engine/arrange.cc:79-80 | what the scan leaves in the destination is an engine again, for the same map, with live records only |
| Engine.DeleteThenCompact | kvs/src/engine/arrange.cc:120-146 | a put, its delete and the scan: the copy is complete, the status says "not exist" |
| Engine.PutThenCompact | kvs/src/engine/arrange.cc:120-146 | a put and the scan: the copy stands for the one binding, the status is Ok |
| Shapes.ErasePut | kvs/src/engine/index.cc:102-131 | so does what an insert leaves |
| Shapes.EraseRemove | kvs/src/engine/index.cc:133-180 | what a delete leaves depends on keys and their places only |
| EngineRun.Call | kvs/src/engine/engine.cc:76-105 | one such call is one step of the plain map and of the tree shapes |
| EngineRun.Replay | kvs/src/engine/engine.cc:76-105 | every allowed run of non-covering puts, gets and deletes on a new engine gives the plain map's answers, ends standing for it, and leaves every bound key a record of its own |
| EngineRun.LastPutWins | kvs/src/engine/engine.cc:76-105 | after any run a key has a value if and only if a successful put of it stands, undeleted |
| EngineRun.GetAnswers | kvs/src/engine/engine.cc:91-98 | a get finds a value if and only if a put of that value stands |
| EngineRun.StatusAnswers | kvs/src/engine/engine.cc:76-105 | what every call of a run answers: by the length of its key and whether a put of it stands |
| ConfigItem.VisualRoundTrip | kvs/src/engine/item.h:107-165 | a visual cell reads back if and only if the key has no colon and the line fits |
| ConfigItem.BlackRoundTrip | kvs/src/engine/item.h:107-165 | a black header reads back if and only if it holds no colon byte and the name ends before the length |
| ConfigItem.VisualCell | kvs/src/engine/item.h:157-163 | the bytes of a visual cell, padded or cut |
| ConfigItem.BlackCell | kvs/src/engine/item.h:148-156 | the bytes of a black header |
| ConfigItem.ParseMeans | kvs/src/engine/item.h:107-138 | what any 32 bytes read as, byte by byte |
| Layout.InsertKeepsOrder | kvs/src/engine/configure.cc:99-107 | erase and insert keep the map ordered and replace exactly the item with that key |
| Layout.LessMeans | kvs/src/engine/configure.cc:99-107 | the order of the map: at the first difference the smaller byte decides, and a prefix comes first |
| Layout.ReadCell | kvs/src/engine/configure.cc:266-286 | at a cell's offset a reader finds that item and where the next one starts |
| Layout.ReachedAll | kvs/src/engine/configure.cc:180-198 | a scan sees all cells if and only if none but the last stops it |
| Layout.SeenPrefix | kvs/src/engine/configure.cc:180-198 | cells no scan reaches count as what lies behind the layout, so every layout has a part that is seen whole |
| Layout.OrderedSeen | kvs/src/engine/configure.cc:127-153 | the order of a first Solid can be scanned whole if and only if one item at most is open-ended and no offset clashes |
| Layout.OrderedGroups | kvs/src/engine/configure.cc:127-153 | visual items before sized ones before open-ended ones, each kind in map order |
| Layout.OrderedDistinct | kvs/src/engine/configure.cc:127-153 | reordering keeps keys distinct |
| Layout.RewrittenLayout | kvs/src/engine/configure.cc:161-168 | writing items back moves no cell and keeps the layout readable |
| Layout.OverwriteCell | kvs/src/engine/configure.cc:253-264 | overwriting one cell replaces that item and no other byte of the layout or the tail |
| Layout.SetStep | kvs/src/engine/configure.cc:33-46 | one Set does to the map what one more setting does to the cells |
| Layout.LastSetIs | kvs/src/engine/configure.cc:33-46 | the value settings leave is that of the last one of the key, if there is one |
| Layout.SetsWriteBack | kvs/src/engine/configure.cc:161-168 | the map after any settings may be written back, and the cells are then those with the settings applied |
| Layout.SameMembersSameMap | kvs/src/engine/configure.cc:99-107 | an ordered map is determined by its members |
| Configure.Configuration.Create | kvs/src/engine/configure.cc:223-233 | an empty, blank configuration |
| Configure.Configuration.NewItem | kvs/src/engine/configure.cc:99-107 | the item under its key, all others as before |
| Configure.Configuration.Get | kvs/src/engine/configure.cc:17-30 | the value of an existing visual key |
| Configure.Configuration.Set | kvs/src/engine/configure.cc:33-46 | only an existing key is set, and then only it |
| Configure.Configuration.AppendItem | kvs/src/engine/configure.cc:236-251 | cell and bytes are written as one piece at the offset, which moves behind them |
| Configure.Configuration.SolidBlank | kvs/src/engine/configure.cc:124-160 | one pass and two lists print the map in the order visual, sized, open-ended, whether or not the items would read back |
| Configure.Configuration.SearchItemOffset | kvs/src/engine/configure.cc:289-320 | the offset of the cell with the key, or "not exist" when there is none |
| Configure.Configuration.InjectItem | kvs/src/engine/configure.cc:253-264 | the item is in its own cell and the rest of the file as before |
| Configure.Configuration.SolidInPlace | kvs/src/engine/configure.cc:161-171 | every item in its cell and the tail untouched; the first key without a cell stops it |
| Configure.Configuration.FetchItem | kvs/src/engine/configure.cc:182-192 | the item that was printed in that cell |
| Configure.Configuration.Load | kvs/src/engine/configure.cc:173-205 | the map holds exactly the cells a scan reaches, over what it held before |
| Configure.SolidThenLoad | kvs/src/engine/configure.cc:124-205 | a first Solid and a Load give back the map if and only if the layout can be scanned whole |
| Configure.ResolidThenLoad | kvs/src/engine/configure.cc:161-205 | items that may be written back: Solid and Load give exactly the map in memory, offsets and tail unchanged |
| Configure.LoadSetSolidLoad | kvs/src/engine/configure.cc:33-205 | a load, any settings that fit, Solid and a load: every cell shows its last setting, nothing else of the file changes, and exactly those items are loaded |
| Configure.WrittenBack | kvs/src/engine/configure.cc:161-168 | the rewritten layout is fully readable and holds the map |
| Parts.OverwritePart | kvs/src/engine/configure.cc:253-264 | overwriting one part of a file in place changes that part only |
| Pack.NamesCompare | kvs/src/pack/kvspack.cc:61-61 | the bounded comparison is equality of names, whatever follows the stored one |
| Pack.ItemFields | kvs/src/pack/kvspack.cc:59-66 | the fields at an item's offset are those of the item |
| Pack.PutBytes | kvs/src/pack/kvspack.cc:31-51 | a put appends one item to the bytes in use |
| Pack.FirstNamedAt | kvs/src/pack/kvspack.cc:53-71 | what "the first value under a name" means by position |
| Pack.Packer.Init | kvs/src/pack/kvspack.cc:15-21 | an empty pack |
| Pack.Packer.Load | kvs/src/pack/kvspack.cc:23-29 | the items somebody else has put into the same bytes |
| Pack.Packer.Put | kvs/src/pack/kvspack.cc:31-51 | one item more, behind all others; the length grows by its size |
| Pack.Packer.Get | kvs/src/pack/kvspack.cc:53-71 | type and bytes of the first item with the name, or none if and only if there is none; a scan that finds nothing ends exactly at the used length |
| Jobs.InjectBalances | kvs/src/server/jobs.cc:57-78 | an inject step keeps every job accounted for and the number of slots |
| Jobs.FetchBalances | kvs/src/server/jobs.cc:27-55 | a fetch step, with the expired jobs it drops, does too |
| Jobs.RunBalances | kvs/src/server/jobs.cc:27-78 | over every interleaving of calls accepted jobs are fetched, timed out or still waiting, each once |
| Jobs.InjectedWaits | kvs/src/server/jobs.cc:57-78 | an injected job is in the first free slot with the time of the call, and no other slot changes |
| Jobs.FetchFirstMet | kvs/src/server/jobs.cc:32-54 | the first job a fetch meets is returned if and only if it has waited no longer than the timeout, and dropped otherwise |
| Jobs.InjectThenFetch | kvs/src/server/jobs.cc:27-78 | a job put into an empty pool at t is what a fetch returns at t + timeout or before, and is dropped by a later one |
| Jobs.JobQueue.constructor | kvs/src/server/jobs.cc:10-25 | all slots free |
| Jobs.JobQueue.Inject | kvs/src/server/jobs.cc:57-78 | the loop takes the first free slot; refused if and only if all are used |
| Jobs.JobQueue.Fetch | kvs/src/server/jobs.cc:27-55 | the loop drops expired jobs up to the first one still in time and returns that one, or none |

## Left out

- Sockets, epoll, threads, client and server programs (`kvs/src/server/server.cc`, `kvs/src/server/worker.cc`, `kvs/src/client/`): plumbing around the parts modelled. JOBS is modelled as steps under its lock.
- I/O failures and short reads or writes of real files, and the rollback paths that are never taken.
- EngineIndex.Index.Del: does not cover nodes with two children; TwoChildLoopOverruns shows what the code does there.
- Engine.HashEngine.Delete: excludes nodes with two children for the same reason.
- `INDEX::Load` (`kvs/src/engine/index.cc:17-31`): it reinserts cells with stale links and freed cells; persistence is proved for the older index.
- `HashEngine::Arrange` outside the scan, file naming and health codes, and the buffer sharing of `CONFIGURE::Reborn`: `ArrangeScan` is given separate arrays and a fresh destination.
- Engine.ArrangeScan: is stated for unset variables that do not happen to hold the extent of the record looked up; with that extent the scan would carry a dead record over.
- DataLog.Data.Get: does not model an offset with less than a record head behind it, where the source goes on with a partly unset head.
- Configure.Configuration.SearchItemOffset, InjectItem and SolidInPlace are stated for layouts that are seen whole; SeenPrefix gives every layout such a part.
- Engine.HashEngine.CloseData: `Close` writes two more configuration files; only the data file, which carries the log, is modelled.
- `CONFIGURE::GetBuffer` and changes to a black item's bytes through the returned pointer: a black item is a value that `NewItem` replaces.
- C memory management, the allocation size of the older free pool, and dead checks such as `new_node_id == -1`.
- `cur_kv_count` of the older index, which is always 0.
- KeyValueStore.Replay: runs end where a put of an absent sign lacks a node or an offset that can be sought, or a delete lacks a free slot; `Kvs.Put` and `BreakStore` say what the first call beyond does. The 64-bit id counter does not wrap in a run.
- Configure.SolidThenLoad: is stated for items that fit; VisualRoundTrip and BlackRoundTrip say exactly which headers do. A sized item of length 0 makes `Load` stop with end of file, so lengths are positive.
- EngineIndex.Index.FindLink, and with it Search, Insert and Del: keys without a slot in the table are excluded, because C reads in front of the hash heads there; SlotInTable says exactly which these are.
- The bodies of `create_key_sign`, Status, Slice and the option types, `trash/`, and the unit-test drivers.
