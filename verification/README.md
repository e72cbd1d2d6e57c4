# cppds hash table, FNV-1, vector and stack in Dafny

This project models the core of the header-only C++ container library
`cppds` and proves properties of the model:

- **`cppds::map` and `cppds::set`**: open-addressing hash tables. Each table
  keeps parallel buffers of one capacity: a hash marker per slot (0 = empty),
  plus keys and values (map) or values (set). Every operation hashes its key
  with FNV-1. It starts probing at `hash % capacity`, or at 0 when the
  capacity is 0, and walks forward without wrap-around. It stops at the
  first empty slot or the first slot whose marker equals the hash.
  - `insert` writes at that slot. When the probe runs off the end, `insert`
    reserves room and retries: one slot for an empty table, otherwise twice
    the capacity.
  - `reserve` reallocates the buffers and zeroes the new markers. It then
    re-inserts every old occupied slot in index order, so it re-enters
    `insert`.
  - `erase` zeroes the marker where the probe stops.
  - `contains` tests for a marker match.
  - `size` counts the non-zero markers.
- **`__fnv1hash`**: FNV-1 over the bytes of a key. It starts from the
  offset basis `0x811c9dc5`. For each byte it multiplies by `0x01000193`
  and then XORs in the byte, in a `size_t` accumulator.
- **`cppds::vector`**: a buffer reallocated to exactly `length` cells on
  every push and every pop from a non-empty vector.
- **`cppds::stack`**: a LIFO adapter over `vector`.

The project has these modules, one per file:

- `Fnv` (fnv.dfy): the fold `Fnv1`, and the loop `Fnv1Hash` proved equal
  to it.
- `Probing` (probing.dfy): the probe discipline on the sequence of markers.
  It defines the slot count, the set of markers and the well-formedness
  invariant: markers are distinct and every probe chain is gap-free. It
  also holds the rehashing invariant that `reserve` keeps while doubling.
- `Maps` (maps.dfy) and `Sets` (sets.dfy): the two table classes. Their
  fields are arrays, their methods are loops over those arrays, and each
  method is proved against the sequence-level definitions.
- `Buffers` (buffers.dfy): `realloc` as a fresh array that keeps the common
  prefix.
- `Vectors` (vectors.dfy) and `Stacks` (stacks.dfy).

Keys (map) and values (set) are byte sequences: the object representation
that the source hashes. A key's identity in the table is its hash, as in
the source.

Termination of the mutual recursion between `insert` and `reserve` rests
on a bound on the number of occupied slots: below 2^64 for `insert` (at
most 2^64 inside `reserve`). A probe that runs off the end of a table of
capacity `c` passes `c - hash % c` occupied slots. So the capacity can only
grow while it is below 2^65, and a lexicographic measure on
`2^66 - capacity` decreases. The preconditions that carry this bound are
listed under "Left out".

Every table the public operations produce has each marker at or after its
start slot `hash % capacity`: the constructor, `clear` and the map's
`operator=` establish it, and `insert`, `erase` and the set's `operator=`
keep it. For such a table a
doubling's re-insertion never runs off the end, so each growth step of
`insert` reaches exactly 1 slot (from an empty table) or twice the
capacity, well-formed or not.

## Model

| member | source | states |
|---|---|---|
| Fnv.XorByte | include/cppds/hash.hpp:17 | `hash ^= byte` leaves every bit above the low byte of the `size_t` unchanged |
| Fnv.Fnv1Snoc | include/cppds/hash.hpp:15-18 | appending a byte applies exactly one more round, so the hash is a left fold over the bytes and depends only on their contents |
| Fnv.OneByte | include/cppds/hash.hpp:13-17 | for any single byte, the first round multiplies the 32-bit basis by the prime into the 64-bit value 0x811d69050c5d1f before the XOR |
| Fnv.MultiplyBeforeXor | include/cppds/hash.hpp:16-17 | the hash of the byte 1 is 0x811d69050c5d1e, which differs from XOR-then-multiply (FNV-1a), so each round multiplies first |
| Fnv.OneZeroByte | include/cppds/hash.hpp:13-18 | the hash of one zero byte is the full 64-bit product basis × prime; nothing is truncated to 32 bits |
| Fnv.TwoZeroBytes | include/cppds/hash.hpp:15-18 | the hash of two zero bytes is 0x344658b0117697cd |
| Fnv.WrapsAtSixtyFourBits | include/cppds/hash.hpp:13-20 | the accumulator is wider than 32 bits and the second round wraps modulo 2^64 |
| Fnv.Fnv1Hash | include/cppds/hash.hpp:7-21 | the byte loop over a local accumulator returns the FNV-1 fold of the bytes |
| Probing.Start | include/cppds/map.hpp:109 | the first probed slot is inside the table, and is 0 for an empty table |
| Probing.Probe | include/cppds/map.hpp:111-115 | the forward probe stops at the first empty slot or matching marker, or at the end; every slot it skips is occupied by another marker |
| Probing.FindSlot | include/cppds/map.hpp:109-115 | the probe for a marker ends inside the table or exactly at its end |
| Probing.FindSlotAfterWrite | include/cppds/map.hpp:127-129 | writing the marker (or 0) at the slot its probe stopped at leaves that probe stopping there |
| Probing.FoundIffPresent | include/cppds/map.hpp:162-175 | in a well-formed table, the probe finds a non-zero marker exactly when the marker is stored somewhere |
| Probing.RunOffBound | include/cppds/map.hpp:111-117 | a probe that runs off the end passed at least `capacity - hash % capacity` occupied slots |
| Probing.CountAtLeast | include/cppds/map.hpp:204-214 | a fully occupied suffix contributes its length to the count |
| Probing.CountUpdate | include/cppds/map.hpp:204-214 | overwriting one marker changes the count by what was removed and what was added |
| Probing.CountAtMost | include/cppds/map.hpp:204-214 | the size never exceeds the capacity |
| Probing.CountZeroTail | include/cppds/map.hpp:258-259 | zeroed slots added at the end change neither the count nor the markers |
| Probing.CountPositive | include/cppds/map.hpp:204-214 | one occupied slot makes the size at least 1 |
| Probing.EmptyIffNoMarkers | include/cppds/map.hpp:221-223 | the size is 0 exactly when no marker is stored |
| Probing.MarkerSetSnoc | include/cppds/map.hpp:204-214 | the markers of a table are those of all slots but the last, plus the last slot's marker if it is non-zero |
| Probing.CountIsMarkers | include/cppds/map.hpp:204-214 | with distinct markers, the size equals the number of stored markers |
| Probing.CountAllEmpty | include/cppds/map.hpp:258-259 | an all-zero marker buffer has size 0 and no markers |
| Probing.MarkerSetWrite | include/cppds/map.hpp:127-129 | writing a marker into an empty or matching slot adds exactly that marker, unless it is 0 |
| Probing.MarkerSetClear | include/cppds/map.hpp:149-150 | zeroing a slot removes at most that slot's marker |
| Probing.WriteKeepsWellFormed | include/cppds/map.hpp:109-129 | writing a marker at the slot its probe stops at keeps markers distinct and probe chains gap-free |
| Probing.StartAfterDoubling | include/cppds/map.hpp:122 | after doubling, a marker's start slot is its old start or the old start plus the old capacity |
| Probing.RehashingStart | include/cppds/map.hpp:258-259 | right after the buffers double and the new markers are zeroed, the rehashing invariant holds with nothing processed |
| Probing.RehashingSkip | include/cppds/map.hpp:261-262 | an empty old slot is skipped without breaking the rehashing invariant |
| Probing.MoveKeepsDistinct | include/cppds/map.hpp:263-264 | moving a marker from its slot to an empty slot keeps the markers distinct |
| Probing.RehashLanding | include/cppds/map.hpp:261-266 | re-inserting the marker of old slot `i` lands in an empty slot inside the table: either at or before `i`, or in the upper half when its new start is there |
| Probing.SettledAfterMove | include/cppds/map.hpp:263-264 | moving another marker does not break the probe chain of a slot it does not cross |
| Probing.RehashingStep | include/cppds/map.hpp:261-266 | each re-insertion during a doubling finds an empty slot without growing and extends the rehashing invariant by one slot |
| Probing.RehashingDone | include/cppds/map.hpp:261-266 | once every old slot is processed, the doubled table is well-formed |
| Probing.WellFormedAfterStart | include/cppds/map.hpp:109-115 | in a well-formed table every marker sits at or after its start slot |
| Probing.AfterStartWrite | include/cppds/map.hpp:109-129 | writing a marker where its probe stops keeps every marker at or after its start slot |
| Probing.AfterStartClear | include/cppds/map.hpp:149-150 | zeroing a slot keeps every marker at or after its start slot |
| Probing.SpreadingStart | include/cppds/map.hpp:249-259 | right after the buffers double and the new markers are zeroed, the general doubling invariant holds with nothing processed |
| Probing.SpreadingSkip | include/cppds/map.hpp:261-262 | an empty old slot is skipped without breaking the general doubling invariant |
| Probing.SpreadingStep | include/cppds/map.hpp:261-266 | in any table whose markers sit at or after their start, re-inserting old slot `i` during a doubling stops inside the table, so no further growth happens, and extends the general doubling invariant by one slot |
| Probing.SpreadingDone | include/cppds/map.hpp:261-266 | once every old slot is processed, every marker of the doubled table sits at or after its start slot |
| Probing.GrowthCanRepeat | include/cppds/map.hpp:117-125 | one doubling need not make room: in `[2, 3]` the probe for 7 runs off the end, and again in the re-inserted `[0, 0, 2, 3]` |
| Probing.ClearHides | include/cppds/map.hpp:149-150 | after erasing, the erased non-zero marker is not found |
| Probing.EraseCanHideAnotherKey | include/cppds/map.hpp:141-150 | without tombstones, erasing one key can make a different, still stored key unfindable |
| Probing.InsertAfterEraseDuplicates | include/cppds/map.hpp:109-129 | inserting a key hidden by an erasure again writes a second copy of its marker: `[0, 8]` becomes `[8, 8]`, whose size is 2 for one marker |
| Maps.MarkersAreKeyHashes | include/cppds/map.hpp:127-129 | a non-zero marker is stored exactly when some stored key hashes to it |
| Maps.EntriesClear | include/cppds/map.hpp:149-153 | zeroing an occupied slot removes its key-value pair from the entries, and nothing else |
| Maps.EntriesWrite | include/cppds/map.hpp:127-129 | writing key and value at the probe's stop adds only that pair; in a well-formed table it replaces the entry whose key hashes the same (upsert) |
| Maps.EntriesErase | include/cppds/map.hpp:141-153 | in a well-formed table, erasing removes exactly the entries whose key hashes like the erased key |
| Maps.EntriesMove | include/cppds/map.hpp:263-264 | moving a slot's marker, key and value to an empty slot keeps the entries |
| Maps.EntriesZeroTail | include/cppds/map.hpp:258-259 | slots with zeroed markers added at the end hold no entries |
| Maps.KeepsTrans | include/cppds/map.hpp:108-125 | the facts each growth step keeps (same markers, no larger size, no new entries, markers at or after their start, well-formedness with equal entries) chain across the retry loop |
| Maps.WriteSlot | include/cppds/map.hpp:127-129 | the final write keeps markers consistent with keys, adds the key's hash to the markers, and, in a well-formed table, keeps it well-formed and upserts the pair |
| Maps.WriteAfterGrowth | include/cppds/map.hpp:108-129 | the same facts measured from the table before any growth; markers at or after their start stay so; when nothing grew and the key was present, the size is unchanged |
| Maps.GrownTable | include/cppds/map.hpp:249-259 | buffers extended by zero-marker slots keep markers, size and entries; a doubling of a well-formed table starts the rehashing invariant |
| Maps.KeyHashesSnoc | include/cppds/map.hpp:85-87 | the markers of a list of pairs grow by the next key's hash, unless it is 0 |
| Maps.KeyHashesBound | include/cppds/map.hpp:85-87 | a list of pairs has at most as many key hashes as pairs |
| Maps.KeyHashesCount | include/cppds/map.hpp:85-87 | keys with distinct non-zero hashes give exactly one marker each |
| Maps.UpsertFresh | include/cppds/map.hpp:111-129 | inserting a key whose non-zero hash is new just adds the pair |
| Maps.UpsertAllDistinct | include/cppds/map.hpp:85-87 | inserting pairs with distinct non-zero key hashes into an empty map stores exactly those pairs |
| Maps.AssignStep | include/cppds/map.hpp:85-87 | one loop step of assignment is one upsert and adds at most one marker |
| Maps.TableOfPairs | include/cppds/map.hpp:83-89 | a well-formed table built from a list has size equal to the number of distinct key hashes and finds every key; with distinct non-zero hashes it holds exactly the pairs and has one slot per pair |
| Maps.Map.constructor | include/cppds/map.hpp:269-272 | a new map has capacity 0 and no entries, so every marker trivially sits at or after its start |
| Maps.Map.Find | include/cppds/map.hpp:109-115 | the probe loop computes the probe's stopping slot |
| Maps.Map.MakeRoom | include/cppds/map.hpp:108-125 | the retry loop ends with the probe stopping inside the table. The capacity never shrinks, and stays the same exactly when the first probe already stopped inside. The markers are kept, the size does not grow, no entry is added, and a well-formed table stays well-formed with exactly its entries |
| Maps.Map.Grow | include/cppds/map.hpp:117-123 | when the probe runs off the end, the capacity grows to at least 1 (empty table) or at least twice the old capacity, and to exactly that whenever every marker sits at or after its start slot (every table the public operations produce). The markers are kept, no entry is added, and a well-formed table stays well-formed with exactly its entries |
| Maps.Map.Insert | include/cppds/map.hpp:104-130 | afterwards the key is found, and its slot holds the key, the value and its hash. The capacity never shrinks. The markers gain the key's hash unless it is 0. A key the probe finds is overwritten in place with the size unchanged. Markers at or after their start stay so. A well-formed table stays well-formed, and its entries are the old ones upserted with the pair |
| Maps.Map.Store | include/cppds/map.hpp:127-129 | the three stores change exactly the chosen slot of each buffer |
| Maps.Map.Reserve | include/cppds/map.hpp:240-267 | a request below the capacity changes nothing; otherwise the capacity reaches at least the request, markers are kept, the size does not grow and no entry is added. Reserving 1 slot for an empty table, or doubling a table whose markers sit at or after their start, gives exactly the requested capacity and keeps that property. Doubling a well-formed table also gives a well-formed table holding the same entries and size |
| Maps.Map.Regrow | include/cppds/map.hpp:245-259 | the three buffers take the new capacity and keep their old slots, slot by slot; the new markers are zeroed |
| Maps.Map.ReinsertAll | include/cppds/map.hpp:261-266 | the loop over the old slots keeps the markers; during a doubling it keeps the capacity and completes the rehashing invariant (well-formed table) and the general doubling invariant (markers at or after their start) |
| Maps.Map.ReinsertSlot | include/cppds/map.hpp:261-266 | re-inserting one old slot keeps the markers and, during a doubling, keeps the capacity and extends the rehashing and general doubling invariants |
| Maps.Map.Erase | include/cppds/map.hpp:137-154 | only the marker where the probe stops is zeroed, and nothing changes when the probe runs off the end. For a key with a non-zero hash, the key is no longer found afterwards, and the size drops by one exactly when the key was found before. A key with hash 0 leaves the size unchanged. Markers at or after their start stay so. In a well-formed table exactly the entries hashing like the key are removed |
| Maps.Map.Contains | include/cppds/map.hpp:162-175 | the result is "the probe stops inside the table on the key's hash", and nothing changes; in a well-formed table this holds exactly when a stored key has that hash |
| Maps.Map.Clear | include/cppds/map.hpp:180-197 | capacity 0, size 0, no entries, a well-formed table |
| Maps.Map.Size | include/cppds/map.hpp:204-214 | the counting loop returns the number of non-zero markers, at most the capacity, and with distinct markers the number of stored markers |
| Maps.Map.Empty | include/cppds/map.hpp:221-223 | true exactly when the size is 0, that is, when no marker is stored |
| Maps.Map.Capacity | include/cppds/map.hpp:231-233 | the capacity equals the length of the buffers |
| Maps.Map.Assign | include/cppds/map.hpp:68-89 | clearing and then inserting each pair gives a well-formed table, with every marker at or after its start, whose entries are the pairs upserted in order and whose markers are the key hashes. Every key with a non-zero hash is found. With distinct non-zero hashes the size is the number of pairs and the entries are exactly the pairs |
| Sets.MarkersAreHashes | include/cppds/set.hpp:70-71 | a non-zero marker is stored exactly when some stored element hashes to it |
| Sets.ElementsClear | include/cppds/set.hpp:85-88 | zeroing an occupied slot removes only its element |
| Sets.ElementsWrite | include/cppds/set.hpp:70-71 | writing at the probe's stop adds only that element; in a well-formed table it replaces the element hashing the same |
| Sets.ElementsErase | include/cppds/set.hpp:77-88 | in a well-formed table, erasing removes exactly the elements hashing like the erased one |
| Sets.ElementsMove | include/cppds/set.hpp:162-163 | moving a slot's marker and element to an empty slot keeps the elements |
| Sets.ElementsZeroTail | include/cppds/set.hpp:157-158 | slots with zeroed markers added at the end hold no elements |
| Sets.KeepsTrans | include/cppds/set.hpp:51-68 | the facts kept by each growth step (same markers, no larger size, no new elements, markers at or after their start, well-formedness with equal elements) chain across the retry loop |
| Sets.WriteAfterGrowth | include/cppds/set.hpp:51-71 | the write after growth adds the element's hash to the original markers, keeps markers at or after their start and, from a well-formed table, keeps it well-formed and adds the element; with no growth and the element present, the size is unchanged |
| Sets.GrownTable | include/cppds/set.hpp:151-158 | buffers extended by zero-marker slots keep markers, size and elements; doubling a well-formed table starts the rehashing invariant |
| Sets.HashesSnoc | include/cppds/set.hpp:38-40 | the markers of a list grow by the next element's hash, unless it is 0 |
| Sets.HashesCount | include/cppds/set.hpp:38-40 | elements with distinct non-zero hashes give one marker each |
| Sets.AddFresh | include/cppds/set.hpp:54-71 | inserting an element whose non-zero hash is new just adds it |
| Sets.AddAllDistinct | include/cppds/set.hpp:38-40 | inserting elements with distinct non-zero hashes, all different from those present, adds exactly those elements |
| Sets.AssignStep | include/cppds/set.hpp:38-40 | one loop step of assignment is one insertion and adds at most one marker |
| Sets.FindsAll | include/cppds/set.hpp:91-103 | in a well-formed table holding the hashes of a list, every element of the list with a non-zero hash is found |
| Sets.FilledFromEmpty | include/cppds/set.hpp:37-42 | filling an empty table with elements of distinct non-zero hashes holds exactly those elements with one slot each |
| Sets.Set.constructor | include/cppds/set.hpp:168-170 | a new set has capacity 0 and no elements, so every marker trivially sits at or after its start |
| Sets.Set.Find | include/cppds/set.hpp:52-58 | the probe loop computes the probe's stopping slot |
| Sets.Set.MakeRoom | include/cppds/set.hpp:51-68 | the retry loop ends with the probe stopping inside the table; the capacity never shrinks and stays the same exactly when the first probe stopped inside. The markers are kept, the size does not grow, no element is added, and a well-formed table stays well-formed with exactly its elements |
| Sets.Set.Grow | include/cppds/set.hpp:60-66 | the capacity grows to at least 1 (empty table) or at least twice the old capacity, and to exactly that whenever every marker sits at or after its start slot (every table the public operations produce). The markers are kept, no element is added, and a well-formed table stays well-formed with exactly its elements |
| Sets.Set.Insert | include/cppds/set.hpp:48-72 | afterwards the element is found, and its slot holds it and its hash. The capacity never shrinks. An element the probe finds is overwritten in place with the size unchanged. Markers at or after their start stay so. A well-formed table stays well-formed, and gains the element in place of any element hashing the same |
| Sets.Set.Store | include/cppds/set.hpp:70-71 | the two stores change exactly the chosen slot |
| Sets.Set.Reserve | include/cppds/set.hpp:142-166 | a request below the capacity changes nothing. Otherwise the capacity reaches at least the request, the set of markers is kept, the size does not grow, and the elements afterwards are a subset of those before. Reserving 1 slot for an empty table, or doubling a table whose markers sit at or after their start, gives exactly the requested capacity and keeps that property. Doubling a well-formed table also gives a well-formed table holding the same elements and size |
| Sets.Set.Regrow | include/cppds/set.hpp:147-158 | both buffers take the new capacity and keep their old slots, slot by slot; the new markers are zeroed |
| Sets.Set.ReinsertAll | include/cppds/set.hpp:160-165 | the loop over the old slots keeps the markers; during a doubling it keeps the capacity and completes the rehashing invariant (well-formed table) and the general doubling invariant (markers at or after their start) |
| Sets.Set.ReinsertSlot | include/cppds/set.hpp:160-165 | re-inserting one old slot keeps the markers and, during a doubling, keeps the capacity and extends the rehashing and general doubling invariants |
| Sets.Set.Erase | include/cppds/set.hpp:74-89 | only the marker where the probe stops is zeroed, and nothing changes when the probe runs off the end. For an element with a non-zero hash, it is no longer found afterwards, and the size drops by one exactly when it was found before. An element with hash 0 leaves the size unchanged. Markers at or after their start stay so. In a well-formed table exactly the elements hashing like it are removed |
| Sets.Set.Contains | include/cppds/set.hpp:91-103 | the result is "the probe stops inside the table on the hash", and in a well-formed table it holds exactly when a stored element has that hash |
| Sets.Set.Clear | include/cppds/set.hpp:105-119 | capacity 0, size 0, no elements, a well-formed table |
| Sets.Set.Size | include/cppds/set.hpp:121-131 | the number of non-zero markers, at most the capacity |
| Sets.Set.Empty | include/cppds/set.hpp:133-135 | true exactly when the size is 0 and no marker is stored |
| Sets.Set.Capacity | include/cppds/set.hpp:138-140 | the capacity equals the buffer length |
| Sets.Set.AssignOne | include/cppds/set.hpp:38-40 | one round of the loop inserts the next element: the markers gain its hash, the size grows by at most one, markers at or after their start stay so, and a well-formed set stays well-formed with the element added |
| Sets.Set.Assign | include/cppds/set.hpp:29-42 | inserting each element without clearing keeps every old marker and adds the elements' hashes, and markers at or after their start stay so. A well-formed set stays well-formed, its elements are the old ones with the new ones inserted in order, and every new element is found. From an empty set, distinct non-zero hashes give size equal to the list length and exactly the listed elements |
| Vectors.Popped | include/cppds/vector.hpp:39-47 | popping a non-empty sequence removes exactly its last element; popping an empty one changes nothing |
| Vectors.PopUndoesPush | include/cppds/vector.hpp:33-47 | `pop_back` right after `push_back` restores the previous contents |
| Vectors.Vector.constructor | include/cppds/vector.hpp:21 | a new vector is empty |
| Vectors.Vector.FromList | include/cppds/vector.hpp:23-27 | construction from a list holds exactly the list's elements in order |
| Vectors.Vector.PushBack | include/cppds/vector.hpp:33-37 | the length grows by one, the new last element is the pushed value, and earlier elements are unchanged |
| Vectors.Vector.PopBack | include/cppds/vector.hpp:39-47 | a no-op on an empty vector; otherwise the last element is removed and the prefix kept |
| Vectors.Vector.Length | include/cppds/vector.hpp:49-51 | the number of elements |
| Vectors.Vector.IsEmpty | include/cppds/vector.hpp:53-55 | true exactly when there are no elements |
| Vectors.Vector.Clear | include/cppds/vector.hpp:57-61 | popping until empty leaves no elements |
| Vectors.Vector.At | include/cppds/vector.hpp:63-69 | an in-range index reads the element at that position |
| Vectors.Vector.Put | include/cppds/vector.hpp:63-64 | writing through the returned reference changes only that element |
| Stacks.PushAllAppends | include/cppds/stack.hpp:19-21 | pushing a list onto a stack appends it, so the list's last element ends on top |
| Stacks.PopTimesDrops | include/cppds/stack.hpp:23-25 | `n` pops remove the top `n` elements, or all of them when there are fewer |
| Stacks.LastInFirstOut | include/cppds/stack.hpp:19-29 | after pushing a list, successive pops expose its elements in reverse order, and popping as many times as were pushed restores the stack |
| Stacks.Stack.constructor | include/cppds/stack.hpp:14 | a new stack is empty |
| Stacks.Stack.FromList | include/cppds/stack.hpp:16-17 | construction from a list holds the list, with its last element on top |
| Stacks.Stack.Push | include/cppds/stack.hpp:19-21 | the pushed value becomes the top and the elements below are unchanged |
| Stacks.Stack.Pop | include/cppds/stack.hpp:23-25 | the top is removed, and nothing changes when the stack is empty |
| Stacks.Stack.Top | include/cppds/stack.hpp:27-29 | on a non-empty stack, the most recently pushed element still present |
| Stacks.Stack.Length | include/cppds/stack.hpp:31-33 | the number of elements |
| Stacks.Stack.IsEmpty | include/cppds/stack.hpp:35-37 | true exactly when there are no elements |
| Stacks.Stack.Clear | include/cppds/stack.hpp:39-41 | no elements remain |

## Left out

- Memory management is not modelled: `malloc`/`realloc`/`free`, destructor calls on erased or cleared slots, and allocation failure. `realloc` is modelled as a fresh array that keeps the common prefix. New key and value cells hold default values.
- The byte size of the map's key buffer is not modelled. Its `realloc` is sized with `sizeof(value_type)` (include/cppds/map.hpp:252-253), which is too small whenever a key is larger than a value. In the model every buffer has `capacity` cells.
- `reserve` passes `_M_kdata[i]` and `_M_vdata[i]` by reference to a nested `insert`, which may reallocate them. The model copies the key and value before re-inserting.
- Maps.Map.Insert, Maps.Map.MakeRoom, Maps.Map.Grow, Sets.Set.Insert, Sets.Set.MakeRoom and Sets.Set.Grow require fewer than 2^64 occupied slots. Maps.Map.Reserve, Maps.Map.ReinsertAll, Maps.Map.ReinsertSlot and the set's three counterparts require at most 2^64, and Reserve a request of at most 2^66 slots. Maps.Map.Assign requires at most 2^64 pairs, and Sets.Set.Assign and Sets.Set.AssignOne at most 2^64 slots once the new elements are counted. These bounds only prove that growth terminates; `size_t` makes every one of them hold in the source. The capacity is an unbounded `nat` capped at 2^66, so the `size_t` overflow of `capacity * 2` is not modelled.
- Maps.Map.Insert and Sets.Set.Insert: the entry and element effect is stated exactly only for a well-formed table (distinct markers, gap-free probe chains). After an `erase` has cut a chain, the contract says only that nothing but the new pair is added.
- A key whose hash is 0 is written with marker 0 and is neither counted nor recorded in the entries. The model keeps this behaviour; it is not corrected.
- `erase` leaves no tombstone. No contract claims that the other keys stay findable, and Probing.EraseCanHideAnotherKey shows a counterexample.
- Maps.Map.Insert and Sets.Set.Insert: once a key is hidden that way, inserting it again stores a second copy, and `size()` counts both (Probing.InsertAfterEraseDuplicates). The model keeps this behaviour; the size is stated unchanged only for a key the probe finds.
- Maps.Map.MakeRoom, Maps.Map.Grow, Maps.Map.Reserve, Sets.Set.MakeRoom, Sets.Set.Grow and Sets.Set.Reserve: growing a table that is not well-formed can lose an entry. With duplicate markers, the second re-insertion overwrites the first. The contracts therefore promise only that no entry is added, and exactly the same entries only from a well-formed table.
- Keys and set values are modelled as the byte sequences of their object representation. Reading an object's bytes (`&_key, sizeof(_key)`) and float keys are not modelled.
- FNV-1 is modelled on integers, with `size_t` taken as 64 bits wide.
- `capacity` and `reserve` are protected members of both the map (include/cppds/map.hpp:225) and the set (include/cppds/set.hpp:137). Both are modelled as methods of the class, like the public operations.
- `vector::back()`, which `stack::top` calls, is not part of this model: vector.hpp does not define it. Stacks.Stack.Top returns the last element and requires a non-empty stack.
- Vector lengths are unbounded: the wrap-around of `++m_length` at 2^64 is not modelled.
- Destructors (`~map`, `~set`, `~vector`) only release memory and are not modelled.
