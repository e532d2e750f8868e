# domino-jna handle registry (NotesGC) and ID tables (NotesIDTable)

domino-jna wraps the HCL/Lotus Notes C API for Java. Native resources, such as Domino
objects and allocated memory blocks, are reached through integer handles. `NotesGC` is a
per-thread registry of the handles that are open. `runWithAutoGC` opens a scope. Inside
the scope, a wrapper that owns its native resource registers the handle when it is
created and unregisters it when it is released. Whatever is still registered when the
outermost scope ends is released in reverse creation order. Each failure is swallowed,
and then the scope's state is discarded. A nested `runWithAutoGC` simply runs inside
the enclosing scope.

`NotesIDTable` is a registry client: a wrapper around a native ID table (a set of note
ids plus header flags).
- A table made by `new NotesIDTable()` owns its native table and registers it.
- A table made by the package-private wrapping constructors is marked `noRecycle`. It is
  never registered, and `recycle()` leaves it alone.
- The operations that read or change the native table go through `checkHandle()`. That
  call rejects a zero handle and, for an owned table only, a handle the registry does not
  hold. The one exception is `equalsTable`, which is not part of this model: it calls the
  native comparison on both handles with no check.
- `addNotes` / `removeNotes` check nothing themselves; each `addNote` / `removeNote` they
  make does. An empty set therefore passes even on a dead table.
- `isRecycled`, `setNoRecycle` and `recycle` make no check.
- `recycle()` unregisters the table only after its native destroy succeeded.

The model is imperative, like the Java:

- `Common.dfy`:
  - the exceptions, as an `Error` datatype with `Result`/`Outcome` wrappers;
  - `NotesErrorUtils.checkResult`, as `CheckResult`;
  - the insertion-ordered key list that stands for a `LinkedHashMap`, with `Without` for `remove`;
  - `DrainOrder`, the reference definition of the release order of the drain, and its lemmas.
- `NotesGC.dfy`:
  - class `NotesGC`: one instance is one thread's ThreadLocal state. It holds the scope
    flag, the two handle maps (object and memory, each a `map` plus its key order), and
    the custom-value map.
  - Ghost logs `recycleLog` / `freeLog` record, in order, the handles that the drain calls
    `recycle()` / `free()` on.
  - class `AllocatedMemory`: a stand-in for an `IAllocatedMemory`.
  - `runWithAutoGC` is split into `EnterAutoGC` (the entry) and `ExitAutoGC` (the
    `finally` block). The callable runs between the two.
- `NotesIDTable.dfy`:
  - class `NotesIDTable`, with the handle, the `m_isRecycled` and `m_noRecycle` fields,
    and the native table's contents and flags;
  - functions for the sorting done by `addNotes`.
- `Scenarios.dfy`: small client programs whose conclusions follow from the contracts:
  - three tables are released in the order 13, 12, 11;
  - a nested scope leaves the registrations alone;
  - a custom value can be read back, and it is gone after the scope;
  - a table that outlives its scope is destroyed twice by two `recycle()` calls (see
    "## Findings").

Native calls are parameters:
- the status of `IDCreateTable` and the handle it returns, for `Create`;
- the status of `IDDestroyTable`, for `Recycle`, or a function from handle to status, for the drain;
- the status of the memory free call;
- the sequence that successive `IDScan` calls return, for `ToArray`.

Source paths in the table are relative to the repository root.

Where the documentation and the code disagree, the model follows the code:
- `__objectBeeingBeRecycled` throws when the object ALREADY reports itself recycled.
  This is why `recycle()` unregisters the table before it zeroes the handle.
- A `recycle()` whose destroy call fails throws before it unregisters or zeroes anything.
  The table stays registered and live. The drain swallows the error and then removes
  the entry itself.
- `__objectCreated` / `__memoryAllocated` store the new entry BEFORE they check for a
  duplicate. After "Duplicate handle detected", the map therefore holds the new object
  in the old entry's place. The old entry's position in the key order is kept.
- `__objectBeeingBeRecycled` / `__memoryBeeingFreed` of a handle that the map does not
  hold do not fail: `remove` of an absent key changes nothing. `ObjectBeingRecycled` and
  `MemoryBeingFreed` then pass with the map unchanged.
- `new NotesIDTable()` outside a scope creates the native table and then throws from
  `__objectCreated`. The table is neither registered nor returned, and nothing destroys
  it. `Create` states this error after a successful `IDCreateTable`.

## Model

| member | source | states |
|---|---|---|
| CheckResult | domino-jna/src/main/java/com/mindoo/domino/jna/NotesIDTable.java:122-124 | a native status passes exactly when it is 0; otherwise the failure is a NotesError carrying the status |
| Without | domino-jna/src/main/java/com/mindoo/domino/jna/gc/NotesGC.java:224-229 | removing a key from the LinkedHashMap key order drops exactly that key and keeps the rest |
| WithoutNoDuplicates | domino-jna/src/main/java/com/mindoo/domino/jna/gc/NotesGC.java:224-229 | after a removal, the key order still has no duplicates |
| WithoutAbsent | domino-jna/src/main/java/com/mindoo/domino/jna/gc/NotesGC.java:350 | removing a key that was already unregistered leaves the key order unchanged (the drain's `remove` after `recycle()` already unregistered) |
| WithoutLast | domino-jna/src/main/java/com/mindoo/domino/jna/gc/NotesGC.java:213-230 | register-then-unregister round trip: removing the last-registered handle gives back the key order from before its registration |
| OrderedKeysEntries | domino-jna/src/main/java/com/mindoo/domino/jna/gc/NotesGC.java:330 | every entry of the copied `entrySet()` array is a key of the map |
| OrderedKeysCardinality | domino-jna/src/main/java/com/mindoo/domino/jna/gc/NotesGC.java:49-59 | the map's `size()` equals the length of its key order |
| DrainOrderStep | domino-jna/src/main/java/com/mindoo/domino/jna/gc/NotesGC.java:336-351 | one loop step: the drain of the suffix from position i is the drain of the suffix after it, then entry i if it is live |
| DrainOrderMembers | domino-jna/src/main/java/com/mindoo/domino/jna/gc/NotesGC.java:336-351 | the drain releases exactly the registered handles that are live when their turn comes |
| DrainOrderNoDuplicates | domino-jna/src/main/java/com/mindoo/domino/jna/gc/NotesGC.java:336-351 | the drain releases each handle at most once |
| DrainOrderReverses | domino-jna/src/main/java/com/mindoo/domino/jna/gc/NotesGC.java:336-351 | last created, first released: of two live handles, the one registered later is released earlier |
| AllocatedMemory.Free | domino-jna/src/main/java/com/mindoo/domino/jna/gc/NotesGC.java:373-377 | `free()` reports the free call's status; the block is freed afterwards if it was already freed or the call succeeded |
| NotesGC.constructor | domino-jna/src/main/java/com/mindoo/domino/jna/gc/NotesGC.java:20-27 | a thread starts with no scope, empty maps and no custom-value map |
| NotesGC.RegisteredObjectsAreLive | domino-jna/src/main/java/com/mindoo/domino/jna/gc/NotesGC.java:340 | a registered ID table never reports itself recycled, so the drain's `isRecycled()` filter skips none of them |
| NotesGC.GetNumberOfOpenObjectHandles | domino-jna/src/main/java/com/mindoo/domino/jna/gc/NotesGC.java:49-59 | outside a scope: IllegalStateException; inside: the number of registered objects |
| NotesGC.GetNumberOfOpenMemoryHandles | domino-jna/src/main/java/com/mindoo/domino/jna/gc/NotesGC.java:66-76 | outside a scope: IllegalStateException; inside: the number of registered memory blocks |
| NotesGC.CheckValidObjectHandle | domino-jna/src/main/java/com/mindoo/domino/jna/gc/NotesGC.java:147-155 | passes exactly when a scope is active and the handle is registered; otherwise IllegalStateException or NotesError(0) |
| NotesGC.CheckValidMemHandle | domino-jna/src/main/java/com/mindoo/domino/jna/gc/NotesGC.java:164-172 | the same gate for memory handles |
| NotesGC.ObjectCreated | domino-jna/src/main/java/com/mindoo/domino/jna/gc/NotesGC.java:83-107 | fails outside a scope or for a recycled object, changing nothing; otherwise puts the object under its handle (a new key goes last); duplicate detection after the put; registering the same object again is a no-op; afterwards the handle passes the gate; registry invariant kept |
| NotesGC.MemoryAllocated | domino-jna/src/main/java/com/mindoo/domino/jna/gc/NotesGC.java:114-138 | the same for memory blocks, with "Memory is already freed" |
| NotesGC.ObjectBeingRecycled | domino-jna/src/main/java/com/mindoo/domino/jna/gc/NotesGC.java:213-230 | fails outside a scope or for an already recycled object, changing nothing; otherwise removes exactly that handle's entry, keeps the other keys in order, and the handle then fails the gate; a handle the map does not hold passes with nothing changed |
| NotesGC.RemoveObjectKey | domino-jna/src/main/java/com/mindoo/domino/jna/gc/NotesGC.java:224-229 | `remove(handle)` on the object map: the entry goes, the key order keeps the rest, and the registry invariant is kept |
| NotesGC.MemoryBeingFreed | domino-jna/src/main/java/com/mindoo/domino/jna/gc/NotesGC.java:237-254 | the same for memory blocks, with "Memory has already been freed"; a handle the map does not hold passes with nothing changed |
| NotesGC.RemoveMemoryKey | domino-jna/src/main/java/com/mindoo/domino/jna/gc/NotesGC.java:248-253 | `remove(handle)` on the memory map, keeping the rest in order |
| NotesGC.GetCustomValue | domino-jna/src/main/java/com/mindoo/domino/jna/gc/NotesGC.java:264-270 | outside a scope: IllegalStateException; inside: the stored value, or null when the key is absent |
| NotesGC.HasCustomValue | domino-jna/src/main/java/com/mindoo/domino/jna/gc/NotesGC.java:272-278 | fails exactly when getCustomValue fails; otherwise true exactly when getCustomValue finds a value |
| NotesGC.SetCustomValue | domino-jna/src/main/java/com/mindoo/domino/jna/gc/NotesGC.java:256-262 | returns what getCustomValue returned before; afterwards getCustomValue(key) is the new value and every other key reads as before; outside a scope it fails and changes nothing |
| NotesGC.EnterAutoGC | domino-jna/src/main/java/com/mindoo/domino/jna/gc/NotesGC.java:291-320 | nested call: nothing changes; outermost call: scope active, empty handle maps, empty custom-value map |
| NotesGC.ExitAutoGC | domino-jna/src/main/java/com/mindoo/domino/jna/gc/NotesGC.java:324-463 | nested: nothing changes; outermost: `recycle()` is called on the live registered objects in DrainOrder (reverse registration), then `free()` on the live memory blocks in DrainOrder, failures swallowed; every entry ends released or untouched according to its native status; maps empty, custom values gone, scope inactive |
| NotesGC.DrainObjects | domino-jna/src/main/java/com/mindoo/domino/jna/gc/NotesGC.java:327-359 | the object drain: recycle log extended by DrainOrder of the copied entries, each table recycled as its destroy status decides, map cleared |
| NotesGC.RecycleEntries | domino-jna/src/main/java/com/mindoo/domino/jna/gc/NotesGC.java:336-351 | the reverse loop over the copied entries calls recycle exactly in DrainOrder, every entry ends as its status decides, and the loop itself removes every copied key from the map and from the key order |
| NotesGC.DrainObjectEntry | domino-jna/src/main/java/com/mindoo/domino/jna/gc/NotesGC.java:339-350 | one step: recycle unless already recycled, swallow any failure, then remove the key |
| NotesGC.DrainMemory | domino-jna/src/main/java/com/mindoo/domino/jna/gc/NotesGC.java:360-392 | the memory drain: free log extended by DrainOrder of the copied entries over the blocks not yet freed, each block freed as its status decides, map cleared |
| NotesGC.FreeEntries | domino-jna/src/main/java/com/mindoo/domino/jna/gc/NotesGC.java:369-384 | the reverse loop over the copied memory entries calls free exactly in DrainOrder, and the loop itself removes every copied key from the memory map and from its key order |
| NotesGC.DrainMemoryEntry | domino-jna/src/main/java/com/mindoo/domino/jna/gc/NotesGC.java:372-383 | one step: free unless already freed, swallow any failure, then remove the key |
| HasFlag | domino-jna/src/main/java/com/mindoo/domino/jna/NotesIDTable.java:493 | the mask test `(flags & bit) == bit`; for IDTABLE_MODIFIED and IDTABLE_INVERTED it holds exactly when that bit is set |
| ComposeFlags | domino-jna/src/main/java/com/mindoo/domino/jna/NotesIDTable.java:561 | the new flags word has the inverted bit exactly when asked, the modified bit exactly when asked, and no other bit |
| AdjacentSortedIsSorted | domino-jna/src/main/java/com/mindoo/domino/jna/NotesIDTable.java:215-227 | the neighbour-by-neighbour `isSorted` test implies the whole iteration is sorted |
| AdjacentAscendingIsAscending | domino-jna/src/main/java/com/mindoo/domino/jna/NotesIDTable.java:238-239 | strictly ascending neighbours imply a strictly ascending sequence |
| SortedDistinctAscending | domino-jna/src/main/java/com/mindoo/domino/jna/NotesIDTable.java:230-234 | a sorted iteration of a set is strictly ascending |
| InsertSorted | domino-jna/src/main/java/com/mindoo/domino/jna/NotesIDTable.java:238-239 | inserting a new element into an ascending sequence keeps it ascending and adds exactly that element |
| SortAscending | domino-jna/src/main/java/com/mindoo/domino/jna/NotesIDTable.java:238-239 | `Arrays.sort` of the set's array: strictly ascending, with exactly the set's elements |
| AddNotesOrder | domino-jna/src/main/java/com/mindoo/domino/jna/NotesIDTable.java:214-244 | addNotes passes every element of the set exactly once, in ascending order, whichever branch it takes |
| ScanSorted | domino-jna/src/main/java/com/mindoo/domino/jna/NotesIDTable.java:216-227 | the early-exit scan yields true exactly when each element is at most the next |
| NotesIDTable.Init | domino-jna/src/main/java/com/mindoo/domino/jna/NotesIDTable.java:44-46 | a table freshly created by IDCreateTable: its handle, owned, empty, not recycled |
| NotesIDTable.Create | domino-jna/src/main/java/com/mindoo/domino/jna/NotesIDTable.java:35-64 | a failing create status or a zero handle throws before registration; otherwise the table is registered (new handles go last), and the outcomes outside a scope and on a duplicate handle are those of `__objectCreated` |
| NotesIDTable.Wrap | domino-jna/src/main/java/com/mindoo/domino/jna/NotesIDTable.java:71-88 | a wrapped table keeps the given handle, is marked noRecycle and is not registered |
| NotesIDTable.IsRecycled | domino-jna/src/main/java/com/mindoo/domino/jna/NotesIDTable.java:90-97 | the handle is zero; a table whose `m_isRecycled` is set always reports itself recycled |
| NotesIDTable.Recycle | domino-jna/src/main/java/com/mindoo/domino/jna/NotesIDTable.java:115-140 | as written: a wrapped, already recycled or zero-handle table is left alone; a failed destroy leaves everything unchanged and throws its NotesError; outside a scope the native table is destroyed once more but the handle is kept and IllegalStateException is thrown; otherwise it unregisters exactly its handle, then zeroes the handle and sets the flag; inside a scope the native table is destroyed at most once; the registry invariant is kept |
| NotesIDTable.RecycleOnce | domino-jna/src/main/java/com/mindoo/domino/jna/NotesIDTable.java:115-140 | corrected recycle (see Findings): the same guards and outcomes, but a successful destroy always zeroes the handle and sets the flag, so the native table is destroyed at most once; inside a scope it is identical to Recycle, which the drain calls |
| NotesIDTable.SetNoRecycle | domino-jna/src/main/java/com/mindoo/domino/jna/NotesIDTable.java:142-144 | afterwards the table is marked noRecycle |
| NotesIDTable.CheckHandle | domino-jna/src/main/java/com/mindoo/domino/jna/NotesIDTable.java:154-167 | passes exactly when the handle is non-zero and the table is wrapped or registered in an active scope; a zero handle is "ID table already recycled"; an owned table gets the registry gate's error |
| NotesIDTable.AddNote | domino-jna/src/main/java/com/mindoo/domino/jna/NotesIDTable.java:175-189 | on a failed check: the error, nothing changes; otherwise the id is added and the result is true exactly when it was new |
| NotesIDTable.RemoveNote | domino-jna/src/main/java/com/mindoo/domino/jna/NotesIDTable.java:281-295 | on a failed check: the error, nothing changes; otherwise the id is removed and the result is true exactly when it was present |
| NotesIDTable.AddNotes | domino-jna/src/main/java/com/mindoo/domino/jna/NotesIDTable.java:214-244 | empty set: no call, passes; failed check: the error, nothing changes; otherwise the table holds the old ids plus the set's, added in AddNotesOrder |
| NotesIDTable.AddEach | domino-jna/src/main/java/com/mindoo/domino/jna/NotesIDTable.java:230-242 | the addNote loop: every element added in the given order; the first failure stops it with nothing changed |
| NotesIDTable.RemoveNotes | domino-jna/src/main/java/com/mindoo/domino/jna/NotesIDTable.java:251-255 | empty set: passes; failed check: the error, nothing changes; otherwise the table holds exactly the old ids not in the set |
| NotesIDTable.GetCount | domino-jna/src/main/java/com/mindoo/domino/jna/NotesIDTable.java:346-357 | the check's error, or the number of ids |
| NotesIDTable.Contains | domino-jna/src/main/java/com/mindoo/domino/jna/NotesIDTable.java:666-675 | the check's error, or whether the id is in the table |
| NotesIDTable.IsModified | domino-jna/src/main/java/com/mindoo/domino/jna/NotesIDTable.java:470-507 | the check's error, or whether the header has IDTABLE_MODIFIED |
| NotesIDTable.IsInverted | domino-jna/src/main/java/com/mindoo/domino/jna/NotesIDTable.java:515-552 | the check's error, or whether the header has IDTABLE_INVERTED |
| NotesIDTable.SetModified | domino-jna/src/main/java/com/mindoo/domino/jna/NotesIDTable.java:559-590 | on a passed check, isModified afterwards returns the new value and isInverted is unchanged; the word holds only these two bits |
| NotesIDTable.SetInverted | domino-jna/src/main/java/com/mindoo/domino/jna/NotesIDTable.java:598-629 | on a passed check, isInverted afterwards returns the new value and isModified is unchanged; the word holds only these two bits |
| NotesIDTable.ToArray | domino-jna/src/main/java/com/mindoo/domino/jna/NotesIDTable.java:636-658 | an array of getCount() slots filled with the scanned ids in order, zero elsewhere; a scan longer than the count fails with ArrayIndexOutOfBoundsException; a scan that enumerates the table gives exactly its ids |
| ThreeTablesScenario | domino-jna/src/main/java/com/mindoo/domino/jna/gc/NotesGC.java:336-351 | three tables registered as 11, 12, 13 are recycled as 13, 12, 11 and the map ends empty |
| NestedScenario | domino-jna/src/main/java/com/mindoo/domino/jna/gc/NotesGC.java:292-294 | a nested block's exit leaves the enclosing block active with its registration in place |
| CustomValueScenario | domino-jna/src/main/java/com/mindoo/domino/jna/gc/NotesGC.java:256-270 | a value set inside a block reads back inside it, and reading fails once the block has ended |
| DoubleDestroyOutsideScope | domino-jna/src/main/java/com/mindoo/domino/jna/NotesIDTable.java:122-127 | as written: two recycle() calls on a table that outlived its scope destroy its native table twice, both throwing IllegalStateException |
| SingleDestroyOutsideScope | domino-jna/src/main/java/com/mindoo/domino/jna/NotesIDTable.java:122-127 | corrected: the same calls with RecycleOnce destroy the native table once and leave it recycled |

## Left out

- Debug logging (`setDebugLoggingEnabled`, the `System.out` messages, the reset of the flag in the `finally` block) and `printStackTrace` of swallowed failures: output only.
- ThreadLocal storage and threads: one `NotesGC` object is one thread's state, so there is no concurrency.
- The 32-bit/64-bit split: the two map families, the two handle fields with their `getHandle32`/`getHandle64` getters, and the `int`/`long` handle types are one unbounded `int` handle and one map family. So the "Constructor is 32bit only" / "64bit only" exceptions of the wrapping constructors are not modelled.
- The callable of `runWithAutoGC`: it runs between `EnterAutoGC` and `ExitAutoGC`. Its result, or the exception it throws, passes through unchanged.
- `m_b64OpenHandles…set(null)` after a non-empty drain: the model clears the maps instead. Once the scope is inactive, no member reads them.
- The native C API: create/destroy/free statuses and the `IDScan` sequence are parameters. The statuses of `IDInsert` and `IDDelete`, which the source passes to `checkResult`, are assumed to be 0. `OSLockObject` / `OSUnlockObject`, `IDTableSizeP`, `IDTableFlags` and `IDTableSetFlags` return no status that the source checks. The model reads and writes the flags word directly. The native table is a set of ids plus its flags. Native changes to `IDTABLE_MODIFIED` by inserts and deletes are not modelled.
- `AllocatedMemory`: the implementations of `IAllocatedMemory` are not part of this model. Its `Free` does not itself call `__memoryBeeingFreed`.
- Only `NotesIDTable` is an `IRecyclableNotesObject` here: the object map holds ID tables.
- Null elements of the `Set<Integer>` given to `addNotes`/`removeNotes`, and null custom values, are not modelled. A Java `Set` is given as its iteration order, a sequence without duplicates.
- Exception messages: only their constant part is kept. The handle, the class name and the `toString` of objects are dropped.
- `NotesIDTable` operations outside the listed ones: `equalsTable`, `addTable`, `removeTable`, `clear`, `sizeInBytes`, `toString`, `setTime`/`getTime`, `intersect`, `clone`, and the handle getters. These are further native calls with no registry logic of their own.
- NotesIDTable.AddNotes: the new contents are stated by membership (old ids plus the set's ids) rather than by a multiset of addNote calls. The order of the calls is stated exactly, through `insertCalls` and `AddNotesOrder`.
- SortAscending: stated by ascending order and membership, not as a multiset permutation. For a set, which has no duplicates, the two are equivalent.
- CheckResult: `NotesErrorUtils.checkResult` is not part of this model. It is assumed to pass exactly when the status is 0 and otherwise to throw a NotesError carrying the status. Whether the library masks status bits before comparing is not known here.
- `new NotesIDTable()` outside a scope leaves its native table undestroyed. The model has no native-table log for `Create`, so this leak is stated only through the error `Create` returns.
- IdTableModified / IdTableInverted: the values 0x0001 and 0x0002 of IDTABLE_MODIFIED and IDTABLE_INVERTED come from the Notes C API header, which is not part of this model. That a newly created native table has a zero flags word, as `Init` and `Create` state, is likewise assumed.

## Findings

| source | as written | input that shows it | evidently intended | confidence | as-written member | corrected member |
|---|---|---|---|---|---|---|
| domino-jna/src/main/java/com/mindoo/domino/jna/NotesIDTable.java:122-127 | `recycle()` destroys the native table, then calls `__objectBeeingBeRecycled`, and only then zeroes the handle; outside a scope that call throws, so the handle stays non-zero | a table whose destroy failed during the drain (the drain swallows it) outlives its scope; two `recycle()` calls after the scope each destroy the same native table (DoubleDestroyOutsideScope) | a native table is destroyed at most once: once IDDestroyTable succeeds the wrapper is marked recycled even when the unregistration throws (SingleDestroyOutsideScope) | medium, not executed | DoubleDestroyOutsideScope | NotesIDTable.RecycleOnce |
