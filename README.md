# Robin-hood hash map and unit compiler, modelled in Dafny

This project models two parts of a game engine's C++ code base.

**The open-addressing hash map** of `src/core/containers/hash_map.h`.
- The container keeps parallel `_index` (hash and state word) and `_data` (key/value pair) arrays. They are folded into one `array<Slot<K, V>>` whose slots are `Free`, `Tombstone(hash)` or `Occupied(hash, key, value)`.
- Lookup stops early in robin-hood fashion. Insertion "steals from the rich" by swapping the carried entry with every occupant that has probed less. Removal leaves a tombstone. The table grows from 0 to 16 slots, then doubles, whenever it is 90% full.
- The files are `hash_map_slots.dfy`, `hash_map_table.dfy` and `hash_map.dfy`:
  - `hash_map_slots.dfy` covers the state word, the probe arithmetic and the capacity rules.
  - `hash_map_table.dfy` covers the invariants of a slot table and the specification of lookup.
  - `hash_map.dfy` covers the specification and the loop of insertion, rehashing, and the `HashMap` class with the public operations.
- The pairs a table holds are `Contents(slots)`, a `map<K, V>`. The robin-hood order is `RobinHood(slots)`: a non-free slot whose entry is away from its home slot follows a non-free slot whose entry has probed at most one step less.
- Lookup is exact in a table in robin-hood order with unique keys (`FindSlotExact`). The class's operations keep that state, or state when they do not: see `HashMap.HashMap.Set` below.

**The unit compiler** of `src/resource/unit_compiler.cpp`. It is modelled in `unit_compiler.dfy` and covers:
- the projection and light name tables;
- `component_index`;
- the merge of a unit with the chain of prefabs it derives from: components are added, deleted by swap-with-last on the two parallel arrays, and have their data replaced;
- the per-type accumulation of compiled component data (`add_component_data`) and its counters;
- the header count and the size and padding arithmetic of `blob`.

JSON is opaque text. What the compiler parses out of it is given as already-parsed fields of the `Prefab` and `Component` datatypes. The blob is a sequence of `Item`s (headers, 32-bit words, bytes), so its size in bytes can be stated.

## Model

The functions `HashMapSlots.Full`, `UnitCompiler.PadAsWritten`, `UnitCompiler.Section` and `UnitCompiler.Sections` carry no contract of their own. `Full` is stated through `HashMap.HashMap.Set` and `HashMap.HashMap.Capacity`, and the others through the rows of `SectionAsWrittenMisaligned`, `SectionSizeRecorded`, `SectionSizeAligned`, `WriteSection`, `WriteSections` and `UnitCompiler.UnitCompiler.Blob`.

| member | source | states |
|---|---|---|
| HashMapSlots.IsDeleted | src/core/containers/hash_map.h:69-73 | a state word is a tombstone exactly when its most significant bit is set |
| HashMapSlots.IndexWordDecodes | src/core/containers/hash_map.h:51-53 | the tests `== FREE`, `is_deleted` and `== 0x0123abcd` on a slot's state word tell free, tombstoned and occupied slots apart, each exactly |
| HashMapSlots.RemoveMarksTombstone | src/core/containers/hash_map.h:250-260 | setting the DELETED bit on an occupied slot's word gives the tombstone word, which is deleted and not free |
| HashMapSlots.GrowCapacity | src/core/containers/hash_map.h:184-189 | growth keeps the capacity 0 or a power of two of at least 16, and strictly increases it |
| HashMapSlots.ProbeDistance | src/core/containers/hash_map.h:75-80 | the probe distance of an entry is below the capacity |
| HashMapSlots.ProbeDistanceBack | src/core/containers/hash_map.h:75-80 | the probe distance is 0 exactly at the home slot, and stepping back by it from a slot reaches the home slot |
| HashMapSlots.ProbeDistanceNext | src/core/containers/hash_map.h:75-80 | one step forward adds one to the probe distance, below the capacity |
| HashMapSlots.WrappedArithmetic | src/core/containers/hash_map.h:75-80 | the next slot is `(i + 1)` and the probe distance `(slot + capacity - home)`, each taken modulo the capacity: the source's masked expressions with the mask read as a remainder |
| HashMapTable.Probe | src/core/containers/hash_map.h:88-102 | the probe loop of `find`: any slot it returns is occupied, in range, holds the key and carries the key's hash |
| HashMapTable.FindSlot | src/core/containers/hash_map.h:82-103 | `find` gives nothing on an empty map, and any slot it gives is occupied, holds the key and carries the key's hash |
| HashMapTable.FindSlotExact | src/core/containers/hash_map.h:82-103 | in robin-hood order with unique keys and agreeing hashes, `find` succeeds exactly for held keys, and the slot found holds the key's value |
| HashMapTable.FoundHeld | src/core/containers/hash_map.h:82-103 | whatever the state of the table, a slot `find` returns holds a key that is in the contents |
| HashMapTable.KeyPresence | src/core/containers/hash_map.h:82-103 | a key is held by an occupied slot exactly when it is in the table's contents |
| HashMapTable.RobinHoodPlace | src/core/containers/hash_map.h:118-131 | writing an entry where its probe distance is at least the occupant's, behind a predecessor that probed at most one step less, keeps the robin-hood order |
| HashMapTable.ValueUpdate | src/core/containers/hash_map.h:242-245 | overwriting a found entry's value keeps the occupancy, the hashes, the order and the keys, and updates exactly that key's value in the contents |
| HashMapTable.Bury | src/core/containers/hash_map.h:257-259 | tombstoning an entry lowers the occupancy by one, keeps the order and the hashes, and removes exactly that key from the contents |
| HashMapTable.AllFreeOrdered | src/core/containers/hash_map.h:158-162 | an all-free table has no tombstones, is in robin-hood order and has agreeing hashes |
| HashMapTable.AllFreeContents | src/core/containers/hash_map.h:262-273 | an all-free table holds nothing |
| HashMapTable.CopiesUpdate | src/core/containers/hash_map.h:242-245 | rewriting one slot changes the count of each live pair by exactly the pair it removes and the pair it writes |
| HashMapTable.EmptyCopies | src/core/containers/hash_map.h:231-233 | a table with no occupied slot holds no pair |
| HashMapTable.AllFreeCopies | src/core/containers/hash_map.h:158-162 | a table of free slots holds no pair |
| HashMapTable.ContentsCount | src/core/containers/hash_map.h:201-205 | with unique keys, the number of pairs held equals the number of occupied slots |
| HashMap.Walk | src/core/containers/hash_map.h:118-144 | the insertion walk from a slot keeps the table length |
| HashMap.Inserted | src/core/containers/hash_map.h:105-145 | the table `insert` leaves keeps the table length |
| HashMap.WalkCount | src/core/containers/hash_map.h:105-145 | the insertion walk adds exactly one occupied slot |
| HashMap.WalkHashes | src/core/containers/hash_map.h:105-145 | the insertion walk keeps every entry's hash equal to its key's hash |
| HashMap.WalkOrdered | src/core/containers/hash_map.h:105-145 | in a tombstone-free table in robin-hood order, the insertion walk keeps the order and adds no tombstone |
| HashMap.WalkContents | src/core/containers/hash_map.h:105-145 | inserting an absent key keeps keys unique and adds exactly that pair to the contents |
| HashMap.WalkCopies | src/core/containers/hash_map.h:105-145 | on any table, the insertion walk moves entries without losing or duplicating any: each pair is held as often as before, plus once for the carried entry |
| HashMap.WalkFrame | src/core/containers/hash_map.h:105-145 | the insertion walk leaves every slot beyond the free slot it stops at unchanged |
| HashMap.WalkFinds | src/core/containers/hash_map.h:82-145 | when the probe loop misses a key, it finds the key after the insertion walk has placed it, on the slot holding the inserted value |
| HashMap.InsertedCount | src/core/containers/hash_map.h:105-145 | `insert` adds exactly one occupied slot |
| HashMap.InsertedHashes | src/core/containers/hash_map.h:105-145 | `insert` keeps every entry's hash equal to its key's hash |
| HashMap.InsertedOrdered | src/core/containers/hash_map.h:105-145 | `insert` into a tombstone-free table in robin-hood order keeps both |
| HashMap.InsertedContents | src/core/containers/hash_map.h:105-145 | `insert` of an absent key adds exactly its pair to the contents |
| HashMap.InsertedCopies | src/core/containers/hash_map.h:105-145 | on any table, `insert` adds exactly the new pair to the live pairs, counted with multiplicity |
| HashMap.InsertThenFind | src/core/containers/hash_map.h:82-145 | on any table, after `insert` of a key that `find` missed, `find` locates the key and its slot holds the inserted value |
| HashMap.InsertedAtHome | src/core/containers/hash_map.h:112-117 | when the home slot is not occupied, `insert` writes the entry there and changes nothing else |
| HashMap.TombstoneReuseLosesKey | src/core/containers/hash_map.h:122-125 | on a 16-slot table in robin-hood order holding keys 1 and 3 (hash 0) around the tombstone of key 2, inserting key 4 with hash 1 breaks the order, and `find` then misses key 3 although it is held |
| HashMap.Insert | src/core/containers/hash_map.h:105-145 | the loop of `insert` leaves the table its specification `Inserted` describes |
| HashMap.Written | src/core/containers/hash_map.h:235-245 | the table after the find-or-make step of `set` keeps the table length |
| HashMap.WrittenShape | src/core/containers/hash_map.h:235-245 | the find-or-make step of `set` adds an entry exactly when `find` misses, keeps the hashes, keeps a tombstone-free table in robin-hood order, and with unique keys in robin-hood order maps the key to the value and leaves every other pair |
| HashMap.WrittenFinds | src/core/containers/hash_map.h:235-245 | with unique keys in robin-hood order, `find` locates the key after the find-or-make step and its slot holds the new value, tombstones or not |
| HashMap.WrittenCopies | src/core/containers/hash_map.h:235-245 | the find-or-make step replaces the pair in the slot `find` returns, or none, by the new pair; no other pair is lost or duplicated |
| HashMap.Rebuilt | src/core/containers/hash_map.h:168-175 | the table `rehash` builds holds as many entries as the old table and the target together, and has the target's length |
| HashMap.RebuiltStep | src/core/containers/hash_map.h:168-176 | taking one more old slot in the copy loop is the reinsertion of its entry into the table built so far, which has room for it |
| HashMap.RebuiltCopies | src/core/containers/hash_map.h:168-175 | rebuilding moves the live pairs of the old table into the target with multiplicity: nothing is lost or duplicated, whether or not keys are unique |
| HashMap.RebuiltFresh | src/core/containers/hash_map.h:158-175 | rebuilding into free slots holds exactly the live pairs of the old table, with multiplicity |
| HashMap.RebuiltOrder | src/core/containers/hash_map.h:168-175 | rebuilding entries that carry their keys' hashes into a tombstone-free table in robin-hood order keeps the hashes, the order and the absence of tombstones |
| HashMap.RebuiltContents | src/core/containers/hash_map.h:168-175 | rebuilding entries with unique keys into an empty table gives unique keys and the old contents |
| HashMap.RebuiltTable | src/core/containers/hash_map.h:153-175 | the table `rehash` builds has the new capacity, the old number of entries, agreeing hashes, no tombstones and robin-hood order, and with unique old keys the old contents |
| HashMap.Reinsert | src/core/containers/hash_map.h:168-175 | the copy loop of `rehash` leaves the new array as `Rebuilt` describes: every live old entry inserted, in slot order |
| HashMap.HashMap.constructor | src/core/containers/hash_map.h:277-286 | a new map owns a freshly allocated slot array, has capacity 0 and size 0, and holds nothing |
| HashMap.HashMap.Size | src/core/containers/hash_map.h:201-205 | `size` is the number of occupied slots, at most the capacity, and the number of pairs held when keys are unique |
| HashMap.HashMap.Capacity | src/core/containers/hash_map.h:207-211 | `capacity` is the table length, 0 or a power of two of at least 16, and an allocated table is below 90% full |
| HashMap.HashMap.Find | src/core/containers/hash_map.h:82-103 | the probe loop terminates and returns what the lookup specification `FindSlot` gives |
| HashMap.HashMap.Has | src/core/containers/hash_map.h:213-217 | `has` is exactly whether `find` locates the key, on any table; a key it reports is held, and in robin-hood order with unique keys it reports exactly the held keys |
| HashMap.HashMap.Get | src/core/containers/hash_map.h:219-227 | `get` gives the value in the slot `find` locates, or the default when it locates none, on any table; an absent key gives the default, and in robin-hood order with unique keys it gives the held value or the default |
| HashMap.HashMap.Rehash | src/core/containers/hash_map.h:147-182 | rehashing gives the new capacity, the old size, no tombstones and robin-hood order; the new table is exactly the old live entries reinserted in slot order, so each pair is held as often as before, on any table; with unique keys the pairs are unchanged |
| HashMap.HashMap.Grow | src/core/containers/hash_map.h:184-189 | growth moves to 16 slots or to twice the capacity, keeps the size, drops tombstones, restores robin-hood order, keeps each pair as often as before on any table, and with unique keys keeps the pairs |
| HashMap.HashMap.FindOrMake | src/core/containers/hash_map.h:235-245 | the find-or-make step: the table becomes `Written`, and the size grows by one exactly when `find` missed the key |
| HashMap.HashMap.Set | src/core/containers/hash_map.h:229-248 | the map keeps its slot array or installs a fresh one; the table grows first when unallocated and afterwards when full, and ends with at least 16 slots, below the load ceiling; the size grows by one exactly when `find` missed the key; on any table the new pair replaces the pair of the slot `find` returned, or none, with no other pair lost or duplicated; with unique keys in robin-hood order the key then maps to the value, `find` locates it, and nothing else changes; tombstone-free robin-hood tables stay so |
| HashMap.HashMap.Remove | src/core/containers/hash_map.h:250-260 | the slot `find` returns becomes a tombstone with the same hash and the size drops by one, otherwise nothing changes; with unique keys `find` then misses the key, so a second `remove` is a no-op, and a found key leaves the pairs; healthy tables stay healthy |
| HashMap.HashMap.Clear | src/core/containers/hash_map.h:262-273 | every slot is freed, the capacity is kept, the size is 0 and nothing is held |
| HashMap.SetThree | src/core/containers/hash_map.h:229-248 | a client: a new map after `set` of keys 1, 2 and 3 is healthy, owns its slot array and holds exactly those pairs |
| HashMap.SetThreeRemoveTwo | src/core/containers/hash_map.h:250-260 | a client: removing key 2 from that map leaves it healthy, holding exactly the pairs of keys 1 and 3 |
| HashMap.SetRemoveSet | src/core/containers/hash_map.h:213-248 | a client: after the removal `has` reports key 2 absent and `get` of key 1 gives 1; after `set` of key 2 to 5, `has` reports it and `get` gives 5 |
| UnitCompiler.FindName | src/resource/unit_compiler.cpp:55-75 | the search loop over a name table gives the type of the first row with the name, or the count |
| UnitCompiler.ProjectionNameToEnum | src/resource/unit_compiler.cpp:55-64 | "perspective" and "orthographic" map to their projection types, and every other name maps to the count, each in both directions |
| UnitCompiler.LightNameToEnum | src/resource/unit_compiler.cpp:66-75 | "directional", "omni" and "spot" map to their light types, and every other name maps to the count, each in both directions |
| UnitCompiler.IndexOf | src/resource/unit_compiler.cpp:304-316 | the reference search: the first index holding the id, or the length when none does |
| UnitCompiler.ComponentIndex | src/resource/unit_compiler.cpp:304-316 | `component_index` gives UINT32_MAX exactly when no component has the id, and otherwise the smallest index holding it |
| UnitCompiler.Removed | src/resource/unit_compiler.cpp:409-416 | swap-with-last removal shrinks both parallel arrays by one |
| UnitCompiler.RemovedDropsOne | src/resource/unit_compiler.cpp:409-416 | swap-with-last removal on the two parallel arrays drops exactly the (component, data) pair at the index; every other component keeps its own data |
| UnitCompiler.Patched | src/resource/unit_compiler.cpp:451-457 | a modification replaces only the data at the index and leaves the components and all other data unchanged |
| UnitCompiler.DeleteAll | src/resource/unit_compiler.cpp:388-427 | a successful run of deletions shrinks both arrays by one per deleted id and keeps them equal length |
| UnitCompiler.DeleteStep | src/resource/unit_compiler.cpp:407-425 | a deletion of an id no component holds is an error; otherwise it is the swap-with-last removal at the id's first index |
| UnitCompiler.DeleteComponents | src/resource/unit_compiler.cpp:388-427 | the deletion loop computes `DeleteAll` |
| UnitCompiler.ModifyAll | src/resource/unit_compiler.cpp:429-469 | successful modifications leave the components and the length of the data unchanged |
| UnitCompiler.ModifyStep | src/resource/unit_compiler.cpp:449-467 | a modification of an id no component holds is an error; otherwise it patches the data at the id's first index |
| UnitCompiler.ModifyComponents | src/resource/unit_compiler.cpp:429-469 | the modification loop computes `ModifyAll` |
| UnitCompiler.ApplyPrefab | src/resource/unit_compiler.cpp:370-469 | a prefab's additions, then deletions, then modifications leave as many components as before plus those added less those deleted, with data of equal length |
| UnitCompiler.MergePrefab | src/resource/unit_compiler.cpp:370-469 | the three loops for one prefab compute `ApplyPrefab` |
| UnitCompiler.MergeFrom | src/resource/unit_compiler.cpp:367-370 | merging the rest of the chain, root first, leaves the components added less those deleted |
| UnitCompiler.MergeStep | src/resource/unit_compiler.cpp:367-370 | a failing prefab ends the merge with its error; otherwise the merge goes on from the merged arrays |
| UnitCompiler.MergeCount | src/resource/unit_compiler.cpp:367-469 | a successful merge of the whole chain holds as many components as the chain adds less those it deletes |
| UnitCompiler.AddComponents | src/resource/unit_compiler.cpp:372-385 | the addition loop appends the prefab's components and their data |
| UnitCompiler.Added | src/resource/unit_compiler.cpp:583-591 | `add_component_data` keeps the set of registered types |
| UnitCompiler.AddedShaped | src/resource/unit_compiler.cpp:583-591 | adding an instance appends its bytes and its unit index and counts one more instance of that type only, so `_num` stays the number of unit indices |
| UnitCompiler.Accumulate | src/resource/unit_compiler.cpp:490-507 | the compile loop keeps the set of registered types |
| UnitCompiler.AccumulateCounts | src/resource/unit_compiler.cpp:490-507 | the compile loop keeps every type's count equal to its unit indices, and a complete loop adds to each type's count the number of merged components of that type |
| UnitCompiler.Pad | src/resource/unit_compiler.cpp:565-568 | the corrected padding is below the alignment, makes the size a multiple of it, and is 0 for an aligned size |
| UnitCompiler.ByteSizeAppend | src/resource/unit_compiler.cpp:570-576 | the byte size of pushed items adds up |
| UnitCompiler.PayloadSize | src/resource/unit_compiler.cpp:565-576 | for any padding function, the unit indices, the data and the padding written for a type take its raw size plus the padding |
| UnitCompiler.SectionSizeRecorded | src/resource/unit_compiler.cpp:560-577 | for any padding function, a type's header records exactly the byte size of what follows it |
| UnitCompiler.SectionSizeAligned | src/resource/unit_compiler.cpp:560-577 | with the corrected padding, a type's header records exactly the byte size of what follows it, and that size is a multiple of the alignment |
| UnitCompiler.SectionAsWrittenMisaligned | src/resource/unit_compiler.cpp:565-568 | with the padding as written, one instance with one byte of data and one unit index gives a raw size of 5, padding 1 and a recorded size of 6, not a multiple of the alignment |
| UnitCompiler.SectionCountMatches | src/resource/unit_compiler.cpp:536-578 | when each type is listed once, the listed types with instances are as many as the sections written |
| UnitCompiler.HeaderCount | src/resource/unit_compiler.cpp:536-578 | when the listed types are exactly the registered ones, each listed once, the header's type count equals the number of sections written |
| UnitCompiler.CountNonEmpty | src/resource/unit_compiler.cpp:536-546 | the counting loop gives the number of types with instances |
| UnitCompiler.WriteSection | src/resource/unit_compiler.cpp:560-577 | the per-type writing gives that type's header, unit indices, data and the padding the given function computes: exactly `Section` |
| UnitCompiler.WriteSections | src/resource/unit_compiler.cpp:548-578 | the per-type loop of `blob` gives exactly the sections of the listed types, in order |
| UnitCompiler.UnitCompiler.constructor | src/resource/unit_compiler.cpp:269-286 | a compiler with no units and no names, and with the given types registered as `register_component_compiler` (lines 598-611) does, each with no instances and no data |
| UnitCompiler.UnitCompiler.AddComponentData | src/resource/unit_compiler.cpp:583-591 | the type's data grows by the bytes and the unit index, and nothing else changes |
| UnitCompiler.UnitCompiler.MergePrefabs | src/resource/unit_compiler.cpp:362-488 | the merge loop computes `Merge` of the chain, and the root's name is recorded exactly when the root merges |
| UnitCompiler.UnitCompiler.CompileComponents | src/resource/unit_compiler.cpp:490-508 | the compile loop computes `Accumulate` over the merged components for the current unit |
| UnitCompiler.UnitCompiler.CompileUnitFromJson | src/resource/unit_compiler.cpp:347-512 | the compiler stays valid; a failed merge gives -1 and changes only the names; otherwise the data is the accumulation, 0 is returned and the unit counted exactly when every component compiled |
| UnitCompiler.UnitCompiler.Blob | src/resource/unit_compiler.cpp:529-581 | the blob is the unit header, whose type count is the number of types with instances and also the number of sections, then the sections of the listed types in order, padded by the given function |

## Left out

- HashMap.HashMap.Set: the robin-hood order, and so exact lookup of the other keys afterwards, is promised only for tables without tombstones. `insert` takes the first tombstone it meets whatever the probe distance of the entry that left it. On a table with tombstones this can break the order and hide another held key from `find`, as `HashMap.TombstoneReuseLosesKey` shows. On a table in robin-hood order with unique keys, the key just set is still found. Tables built by `set` and `clear` alone, and tables straight after `rehash`, have no tombstones.
- HashMap.HashMap.Remove: that the key is gone afterwards is promised only for tables with unique keys. With a duplicated key, `find` locates one copy and `remove` tombstones only that one. On a table out of robin-hood order, `find` can miss a held key, and `remove` then leaves the pair; the contract states this outright as "nothing changes when `find` misses".
- HashMap.HashMap.Has, HashMap.HashMap.Get: on every table the result is tied to what `find` locates. Exactness against the held pairs is stated only for tables in robin-hood order with unique keys, for the reason above: on the table of `HashMap.TombstoneReuseLosesKey`, `has` reports a held key as absent.
- `& _mask` is modelled as the remainder by the capacity, which is a power of two. The bit-level identity is not proved.
- 32-bit wrap-around of `_size`, `_capacity`, `dist` and `hash_i` is not modelled. `full()` compares in `float`; it is modelled as the integer test `10 * size >= 9 * capacity`.
- HashMap.HashMap.Find returns an option instead of the `END_OF_LIST` sentinel.
- The allocator, placement `new`, `memcpy` and destructor calls are not modelled. The free-flagging loop of `rehash` is an array initialiser of free slots. The hash and equality functors are a parameter `keyHash` and Dafny equality.
- UnitCompiler.ComponentIndex, UnitCompiler.DeleteComponents, UnitCompiler.ModifyComponents and UnitCompiler.MergePrefab require fewer than UINT32_MAX components, so that the sentinel cannot be a real index. The source's arrays have 32-bit sizes.
- UnitCompiler.UnitCompiler.MergePrefabs and UnitCompiler.UnitCompiler.CompileUnitFromJson take the prefab chain as already collected: `collect_units`, file reads, and JSON and GUID parsing are not modelled.
- A failed deletion or modification is modelled as the error return of `DATA_COMPILER_ASSERT`, which ends the compilation of the unit with -1.
- The per-type compile functions are a parameter `compile`. An unregistered type ends the loop as `compile_component` does.
- `register_component_compiler` is modelled only as the constructor's list of registered types; the sort by `spawn_order` is not modelled.
- `blob` does not write the version word, and the byte layout of the `UnitResource` and `ComponentData` structs is not part of this model. Their alignment is taken to be 4 (32-bit fields). Words are items, not four bytes in native byte order.
- The 32-bit counters `_num` and `_num_units` are unbounded here.

## Findings

| source | as written | input that shows it | evidently intended | confidence | as-written member | corrected member |
|---|---|---|---|---|---|---|
| src/resource/unit_compiler.cpp:567-568 | `pad = size % alignof(cd)` | one instance with 1 byte of data and one unit index: size 1 + 4 = 5, pad 1, recorded size 6, not a multiple of 4 | `pad = (align - size % align) % align`, so that the next header is aligned | not executed | UnitCompiler.SectionAsWrittenMisaligned | UnitCompiler.SectionSizeAligned |
