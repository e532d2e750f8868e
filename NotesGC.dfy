// The per-thread handle registry of com.mindoo.domino.jna.gc.NotesGC. The Java class
// keeps its state in static ThreadLocals; here one NotesGC object is the state of one
// thread. The 32-bit and 64-bit maps of the Java class are one map over `int` handles.

/**
 * Stand-in for an IAllocatedMemory: a memory handle and whether it reports itself
 * freed. The implementations of IAllocatedMemory are not part of this model.
 */
class AllocatedMemory {
  const handle: int
  var freed: bool

  constructor (handle: int)
    ensures this.handle == handle && !freed
  {
    this.handle := handle;
    freed := false;
  }

  /** After `free()` with this native status: freed if it was before or the call succeeded. */
  twostate predicate FreedByDrain(status: int)
    reads this
  {
    freed == (old(freed) || status == 0)
  }

  /** `free()`: the native free call's status decides whether the memory is now freed. */
  method Free(status: int) returns (r: Outcome)
    modifies this
    ensures r == CheckResult(status)
    ensures FreedByDrain(status)
  {
    r := CheckResult(status);
    if status == 0 {
      freed := true;
    }
  }
}

class NotesGC {
  /** m_activeAutoGC: whether a runWithAutoGC block is running on this thread. */
  var active: bool
  /** The open Domino object handles (a LinkedHashMap): the map, and its keys in insertion order. */
  var objects: map<int, NotesIDTable>
  var objOrder: seq<int>
  /** The open memory handles (a LinkedHashMap): the map, and its keys in insertion order. */
  var memory: map<int, AllocatedMemory>
  var memOrder: seq<int>
  /** m_activeAutoGCCustomValues; None stands for the ThreadLocal holding null. */
  var customValues: Option<map<string, CustomValue>>

  /** The handles of the objects the drain has called `recycle()` on, in call order. */
  ghost var recycleLog: seq<int>
  /** The handles of the memory blocks the drain has called `free()` on, in call order. */
  ghost var freeLog: seq<int>

  /** The object map and its key order agree, and each entry is keyed by its own live table's handle. */
  ghost predicate ObjectsValid()
    reads this`objects, this`objOrder, objects.Values
  {
    && OrderedKeys(objOrder, objects.Keys)
    && 0 !in objects
    && (forall h :: h in objects ==> objects[h].handle == h && objects[h].Valid())
  }

  /** The memory map and its key order agree, and each entry is keyed by its own block's handle. */
  ghost predicate MemoryValid()
    reads this`memory, this`memOrder
  {
    && OrderedKeys(memOrder, memory.Keys)
    && (forall h :: h in memory ==> memory[h].handle == h)
  }

  ghost predicate Valid()
    reads this, objects.Values
  {
    && ObjectsValid()
    && MemoryValid()
    // the custom-value map exists exactly while a block is active; outside one nothing is open
    && (customValues.Some? <==> active)
    && (!active ==> objects == map[] && memory == map[])
  }

  /** The thread's state before any runWithAutoGC block. */
  constructor ()
    ensures Valid() && !active && customValues == None
    ensures objects == map[] && objOrder == [] && memory == map[] && memOrder == []
    ensures recycleLog == [] && freeLog == []
  {
    active := false;
    objects, objOrder := map[], [];
    memory, memOrder := map[], [];
    customValues := None;
    recycleLog, freeLog := [], [];
  }

  /** The registered handles whose objects do not report themselves recycled. */
  ghost function LiveObjectHandles(): set<int>
    reads this`objects, objects.Values
  {
    set h | h in objects && !objects[h].IsRecycled()
  }

  /** The registered memory handles whose blocks do not report themselves freed. */
  ghost function LiveMemoryHandles(): set<int>
    reads this`memory, memory.Values
  {
    set h | h in memory && !memory[h].freed
  }

  /**
   * A registered ID table never reports itself recycled: `recycle()` unregisters the
   * table before it zeroes the handle, so the drain's "already recycled" test never skips one.
   */
  lemma RegisteredObjectsAreLive()
    requires Valid()
    ensures LiveObjectHandles() == objects.Keys
  {
    assert forall h :: h in objects ==> objects[h].handle == h != 0;
  }

  /** getNumberOfOpenObjectHandles: the number of registered objects, while a block is active. */
  function GetNumberOfOpenObjectHandles(): (r: Result<int>)
    requires Valid()
    reads this, objects.Values, memory.Values
    ensures r.Ok? <==> active
    ensures !active ==> r == Err(IllegalState(AutoGCNotActive))
    ensures r.Ok? ==> r.value == |objOrder| && r.value == |objects|
  {
    OrderedKeysCardinality(objOrder, objects.Keys);
    if !active then Err(IllegalState(AutoGCNotActive)) else Ok(|objects|)
  }

  /** getNumberOfOpenMemoryHandles: the number of registered memory blocks, while a block is active. */
  function GetNumberOfOpenMemoryHandles(): (r: Result<int>)
    requires Valid()
    reads this, objects.Values, memory.Values
    ensures r.Ok? <==> active
    ensures !active ==> r == Err(IllegalState(AutoGCNotActive))
    ensures r.Ok? ==> r.value == |memOrder| && r.value == |memory|
  {
    OrderedKeysCardinality(memOrder, memory.Keys);
    if !active then Err(IllegalState(AutoGCNotActive)) else Ok(|memory|)
  }

  /** The validity gate for object handles (`__b64_checkValidObjectHandle` / `__b32_…`). */
  function CheckValidObjectHandle(handle: int): (r: Outcome)
    reads this
    ensures r.Pass? <==> active && handle in objects
    ensures !active ==> r == Fail(IllegalState(AutoGCNotActive))
    ensures active && handle !in objects ==> r == Fail(NotesError(0, HandleDoesNotExist))
  {
    if !active then Fail(IllegalState(AutoGCNotActive))
    else if handle !in objects then Fail(NotesError(0, HandleDoesNotExist))
    else Pass
  }

  /** The validity gate for memory handles (`__b64_checkValidMemHandle` / `__b32_…`). */
  function CheckValidMemHandle(handle: int): (r: Outcome)
    reads this
    ensures r.Pass? <==> active && handle in memory
    ensures !active ==> r == Fail(IllegalState(AutoGCNotActive))
    ensures active && handle !in memory ==> r == Fail(NotesError(0, HandleDoesNotExist))
  {
    if !active then Fail(IllegalState(AutoGCNotActive))
    else if handle !in memory then Fail(NotesError(0, HandleDoesNotExist))
    else Pass
  }

  /**
   * `__objectCreated`: registers an object under its handle. The Java code stores the
   * object BEFORE it looks at what was there, so after "Duplicate handle detected" the
   * map holds the new object in the old entry's place.
   */
  method ObjectCreated(obj: NotesIDTable) returns (r: Outcome)
    requires Valid() && obj.Valid()
    modifies this`objects, this`objOrder
    ensures Valid()
    ensures !active ==> r == Fail(IllegalState(AutoGCNotActive))
    ensures active && obj.IsRecycled() ==> r == Fail(NotesError(0, "Object is already recycled"))
    ensures !active || obj.IsRecycled() ==> objects == old(objects) && objOrder == old(objOrder)
    ensures active && !obj.IsRecycled() ==>
      && objects == old(objects)[obj.handle := obj]
      && objOrder == (if obj.handle in old(objects) then old(objOrder) else old(objOrder) + [obj.handle])
      && r == (if obj.handle in old(objects) && old(objects)[obj.handle] != obj
               then Fail(IllegalState(DuplicateHandle)) else Pass)
    // registering the same object again changes nothing
    ensures active && obj.handle in old(objects) && old(objects)[obj.handle] == obj ==>
      r == Pass && objects == old(objects) && objOrder == old(objOrder)
    ensures r.Pass? ==> CheckValidObjectHandle(obj.handle).Pass?
  {
    if !active {
      return Fail(IllegalState(AutoGCNotActive));
    }
    if obj.IsRecycled() {
      return Fail(NotesError(0, "Object is already recycled"));
    }
    var h := obj.handle;
    var previous := if h in objects then Some(objects[h]) else None;
    objects := objects[h := obj];
    if previous.None? {
      objOrder := objOrder + [h];
      assert NoDuplicates(objOrder) by {
        assert forall i :: 0 <= i < |objOrder| - 1 ==> objOrder[i] == old(objOrder)[i];
      }
    }
    if previous.Some? && previous.value != obj {
      return Fail(IllegalState(DuplicateHandle));
    }
    return Pass;
  }

  /** `__memoryAllocated`: registers a memory block under its handle (put before the duplicate check). */
  method MemoryAllocated(mem: AllocatedMemory) returns (r: Outcome)
    requires Valid()
    modifies this`memory, this`memOrder
    ensures Valid()
    ensures !active ==> r == Fail(IllegalState(AutoGCNotActive))
    ensures active && mem.freed ==> r == Fail(NotesError(0, "Memory is already freed"))
    ensures !active || mem.freed ==> memory == old(memory) && memOrder == old(memOrder)
    ensures active && !mem.freed ==>
      && memory == old(memory)[mem.handle := mem]
      && memOrder == (if mem.handle in old(memory) then old(memOrder) else old(memOrder) + [mem.handle])
      && r == (if mem.handle in old(memory) && old(memory)[mem.handle] != mem
               then Fail(IllegalState(DuplicateHandle)) else Pass)
    ensures r.Pass? ==> CheckValidMemHandle(mem.handle).Pass?
  {
    if !active {
      return Fail(IllegalState(AutoGCNotActive));
    }
    if mem.freed {
      return Fail(NotesError(0, "Memory is already freed"));
    }
    var h := mem.handle;
    var previous := if h in memory then Some(memory[h]) else None;
    memory := memory[h := mem];
    if previous.None? {
      memOrder := memOrder + [h];
      assert NoDuplicates(memOrder) by {
        assert forall i :: 0 <= i < |memOrder| - 1 ==> memOrder[i] == old(memOrder)[i];
      }
    }
    if previous.Some? && previous.value != mem {
      return Fail(IllegalState(DuplicateHandle));
    }
    return Pass;
  }

  /**
   * `__objectBeeingBeRecycled`: unregisters an object. It must be called while the
   * object still reports itself live; it removes that handle's entry and nothing else.
   */
  method ObjectBeingRecycled(obj: NotesIDTable) returns (r: Outcome)
    modifies this`objects, this`objOrder
    ensures old(Valid()) ==> Valid()
    ensures !active ==> r == Fail(IllegalState(AutoGCNotActive))
    ensures active && obj.IsRecycled() ==> r == Fail(NotesError(0, "Object is already recycled"))
    ensures r.Fail? ==> objects == old(objects) && objOrder == old(objOrder)
    ensures active && !obj.IsRecycled() ==>
      r == Pass && objects == old(objects) - {obj.handle} && objOrder == Without(old(objOrder), obj.handle)
    ensures r.Pass? ==> CheckValidObjectHandle(obj.handle).Fail?
    // unregistering a handle the map does not hold is not an error and changes nothing
    ensures old(Valid()) && obj.handle !in old(objects) ==> objects == old(objects) && objOrder == old(objOrder)
  {
    if !active {
      return Fail(IllegalState(AutoGCNotActive));
    }
    if obj.IsRecycled() {
      return Fail(NotesError(0, "Object is already recycled"));
    }
    if Valid() && obj.handle !in objects {
      WithoutAbsent(objOrder, obj.handle);
    }
    RemoveObjectKey(obj.handle);
    return Pass;
  }

  /** `remove(handle)` on the object LinkedHashMap: the entry goes, the other keys keep their order. */
  method RemoveObjectKey(h: int)
    modifies this`objects, this`objOrder
    ensures old(ObjectsValid()) ==> ObjectsValid()
    ensures objects == old(objects) - {h} && objOrder == Without(old(objOrder), h)
  {
    if ObjectsValid() {
      WithoutNoDuplicates(objOrder, h);
    }
    objects := objects - {h};
    objOrder := Without(objOrder, h);
  }

  /** `__memoryBeeingFreed`: unregisters a memory block that does not yet report itself freed. */
  method MemoryBeingFreed(mem: AllocatedMemory) returns (r: Outcome)
    requires Valid()
    modifies this`memory, this`memOrder
    ensures Valid()
    ensures !active ==> r == Fail(IllegalState(AutoGCNotActive))
    ensures active && mem.freed ==> r == Fail(NotesError(0, "Memory has already been freed"))
    ensures r.Fail? ==> memory == old(memory) && memOrder == old(memOrder)
    ensures active && !mem.freed ==>
      r == Pass && memory == old(memory) - {mem.handle} && memOrder == Without(old(memOrder), mem.handle)
    ensures r.Pass? ==> CheckValidMemHandle(mem.handle).Fail?
    // unregistering a handle the map does not hold is not an error and changes nothing
    ensures mem.handle !in old(memory) ==> memory == old(memory) && memOrder == old(memOrder)
  {
    if !active {
      return Fail(IllegalState(AutoGCNotActive));
    }
    if mem.freed {
      return Fail(NotesError(0, "Memory has already been freed"));
    }
    if mem.handle !in memory {
      WithoutAbsent(memOrder, mem.handle);
    }
    RemoveMemoryKey(mem.handle);
    return Pass;
  }

  /** `remove(handle)` on the memory LinkedHashMap: the entry goes, the other keys keep their order. */
  method RemoveMemoryKey(h: int)
    modifies this`memory, this`memOrder
    ensures old(MemoryValid()) ==> MemoryValid()
    ensures memory == old(memory) - {h} && memOrder == Without(old(memOrder), h)
  {
    if MemoryValid() {
      WithoutNoDuplicates(memOrder, h);
    }
    memory := memory - {h};
    memOrder := Without(memOrder, h);
  }

  /** `getCustomValue`: the value stored under `key`, or null, while a block is active. */
  function GetCustomValue(key: string): (r: Result<Option<CustomValue>>)
    reads this
    ensures r.Err? <==> customValues.None?
    ensures r.Err? ==> r.error == IllegalState(NoAutoGCBlock)
    ensures r.Ok? ==> (r.value.Some? <==> key in customValues.value)
    ensures r.Ok? && r.value.Some? ==> r.value.value == customValues.value[key]
  {
    match customValues
    case None => Err(IllegalState(NoAutoGCBlock))
    case Some(m) => Ok(if key in m then Some(m[key]) else None)
  }

  /** `hasCustomValue`: whether the map holds `key`, while a block is active. */
  function HasCustomValue(key: string): (r: Result<bool>)
    reads this
    ensures r.Err? <==> GetCustomValue(key).Err?
    ensures r.Err? ==> r.error == IllegalState(NoAutoGCBlock)
    ensures r.Ok? ==> (r.value <==> GetCustomValue(key).value.Some?)
  {
    match customValues
    case None => Err(IllegalState(NoAutoGCBlock))
    case Some(m) => Ok(key in m)
  }

  /**
   * `setCustomValue`: stores `value` under `key` and returns what was stored there
   * before; a following `getCustomValue(key)` returns `value`.
   */
  method SetCustomValue(key: string, value: CustomValue) returns (r: Result<Option<CustomValue>>)
    requires Valid()
    modifies this`customValues
    ensures Valid()
    ensures r == old(GetCustomValue(key))
    ensures old(customValues).None? ==> customValues == None
    ensures old(customValues).Some? ==> customValues == Some(old(customValues).value[key := value])
    ensures r.Ok? ==> GetCustomValue(key) == Ok(Some(value))
    ensures forall k :: k != key ==> GetCustomValue(k) == old(GetCustomValue(k))
  {
    match customValues
    case None =>
      r := Err(IllegalState(NoAutoGCBlock));
    case Some(m) =>
      r := Ok(if key in m then Some(m[key]) else None);
      customValues := Some(m[key := value]);
  }

  /**
   * Entry of `runWithAutoGC`. When a block is already active the call is nested: it
   * changes nothing, and the work then runs against the enclosing block's maps. Otherwise
   * it marks the block active with empty handle maps and an empty custom-value map.
   * `outermost` tells the matching ExitAutoGC whether this call owns the cleanup.
   */
  method EnterAutoGC() returns (outermost: bool)
    requires Valid()
    modifies this
    ensures Valid() && active
    ensures outermost == !old(active)
    ensures !outermost ==> unchanged(this)
    ensures outermost ==>
      && customValues == Some(map[])
      && objects == map[] && objOrder == [] && memory == map[] && memOrder == []
      && recycleLog == old(recycleLog) && freeLog == old(freeLog)
  {
    if active {
      return false;
    }
    active := true;
    customValues := Some(map[]);
    objects, objOrder := map[], [];
    memory, memOrder := map[], [];
    return true;
  }

  /**
   * The `finally` block of `runWithAutoGC`, run whether the work returned or threw.
   * A nested call has no cleanup. The outermost call drains the object map and then the
   * memory map, each in reverse insertion order, calling `recycle()` / `free()` on every
   * entry that does not already report itself released, swallowing any failure and
   * removing every key; it then drops the custom-value map and marks the block inactive.
   * `destroyStatus` and `freeStatus` give what the native destroy and free calls return.
   */
  method ExitAutoGC(outermost: bool, destroyStatus: int -> int, freeStatus: int -> int)
    requires Valid() && (outermost ==> active)
    modifies this, objects.Values, memory.Values
    ensures Valid()
    ensures !outermost ==> unchanged(this) && unchanged(old(objects.Values)) && unchanged(old(memory.Values))
    ensures outermost ==>
      && !active && customValues == None
      && objects == map[] && objOrder == [] && memory == map[] && memOrder == []
      && recycleLog == old(recycleLog) + DrainOrder(old(objOrder), old(LiveObjectHandles()))
      && freeLog == old(freeLog) + DrainOrder(old(memOrder), old(LiveMemoryHandles()))
    ensures outermost ==> forall h :: h in old(objects) ==> old(objects)[h].RecycledByDrain(destroyStatus(h))
    ensures outermost ==> forall h :: h in old(memory) ==> old(memory)[h].FreedByDrain(freeStatus(h))
  {
    if !outermost {
      return;
    }
    DrainObjects(destroyStatus);
    DrainMemory(freeStatus, LiveMemoryHandles());
    customValues := None;
    active := false;
  }

  /**
   * The object half of the drain (the Domino-object loop of the `finally` block): the
   * entries are copied first, walked last-first, and the map is cleared afterwards.
   */
  method DrainObjects(destroyStatus: int -> int)
    requires Valid() && active
    modifies this`objects, this`objOrder, this`recycleLog, objects.Values
    ensures Valid()
    ensures objects == map[] && objOrder == []
    ensures recycleLog == old(recycleLog) + DrainOrder(old(objOrder), old(LiveObjectHandles()))
    ensures forall h :: h in old(objects) ==> old(objects)[h].RecycledByDrain(destroyStatus(h))
  {
    var entries := objOrder;
    var snapshot := objects;
    RegisteredObjectsAreLive();
    assert ObjectsValid();
    OrderedKeysEntries(entries, snapshot.Keys);
    assert forall a, b :: a in snapshot && b in snapshot && a != b ==> snapshot[a] != snapshot[b] by {
      assert forall a :: a in snapshot ==> snapshot[a].handle == a;
    }
    RecycleEntries(entries, snapshot, destroyStatus);
    forall h | h in snapshot
      ensures snapshot[h].RecycledByDrain(destroyStatus(h))
    {
      var k := IndexOf(entries, h);
    }
    objects, objOrder := map[], [];
  }

  /** The loop of the object drain, over the copied entries, last first. */
  method RecycleEntries(entries: seq<int>, snapshot: map<int, NotesIDTable>, destroyStatus: int -> int)
    requires active && NoDuplicates(entries)
    requires forall k :: 0 <= k < |entries| ==> entries[k] in snapshot
    requires forall h :: h in snapshot ==> snapshot[h].handle == h != 0 && snapshot[h].Valid()
    requires forall a, b :: a in snapshot && b in snapshot && a != b ==> snapshot[a] != snapshot[b]
    modifies this`objects, this`objOrder, this`recycleLog, snapshot.Values
    ensures objects == old(objects) - (set k | k in entries)
    ensures forall x :: x in objOrder <==> x in old(objOrder) && x !in entries
    ensures recycleLog == old(recycleLog) + DrainOrder(entries, snapshot.Keys)
    ensures forall k :: 0 <= k < |entries| ==> snapshot[entries[k]].RecycledByDrain(destroyStatus(entries[k]))
  {
    var i := |entries|;
    while i > 0
      invariant 0 <= i <= |entries|
      invariant forall k :: 0 <= k < i ==> unchanged(snapshot[entries[k]])
      invariant objects == old(objects) - (set k | k in entries[i..])
      invariant forall x :: x in objOrder <==> x in old(objOrder) && x !in entries[i..]
      invariant recycleLog == old(recycleLog) + DrainOrder(entries[i..], snapshot.Keys)
      invariant forall k :: i <= k < |entries| ==> snapshot[entries[k]].RecycledByDrain(destroyStatus(entries[k]))
    {
      i := i - 1;
      var h := entries[i];
      DrainOrderStep(entries, snapshot.Keys, i);
      assert forall x :: x in entries[i..] <==> x == h || x in entries[i + 1..];
      DrainObjectEntry(snapshot[h], h, destroyStatus(h));
    }
  }

  /**
   * One step of the object drain, on the copied entry (`h`, `t`): `recycle()` unless the
   * object already reports itself recycled (any failure is swallowed), then `remove(h)`.
   */
  method DrainObjectEntry(t: NotesIDTable, h: int, status: int)
    requires active && t.handle == h != 0 && t.Valid()
    modifies this`objects, this`objOrder, this`recycleLog, t
    ensures objects == old(objects) - {h} && objOrder == Without(old(objOrder), h)
    ensures recycleLog == old(recycleLog) + (if old(t.IsRecycled()) then [] else [h])
    ensures t.RecycledByDrain(status)
  {
    WithoutAbsent(Without(objOrder, h), h);
    if !t.IsRecycled() {
      recycleLog := recycleLog + [h];
      var _ := t.Recycle(this, status);
    }
    assert objOrder == old(objOrder) || objOrder == Without(old(objOrder), h);
    RemoveObjectKey(h);
  }

  /**
   * The memory half of the drain (the allocated-memory loop of the `finally` block).
   * `live` names the registered blocks not yet freed when the drain starts.
   */
  method DrainMemory(freeStatus: int -> int, ghost live: set<int>)
    requires Valid()
    requires forall h :: h in memory ==> (h in live <==> !memory[h].freed)
    modifies this`memory, this`memOrder, this`freeLog, memory.Values
    ensures Valid()
    ensures memory == map[] && memOrder == []
    ensures freeLog == old(freeLog) + DrainOrder(old(memOrder), live)
    ensures forall h :: h in old(memory) ==> old(memory)[h].FreedByDrain(freeStatus(h))
  {
    var entries := memOrder;
    var snapshot := memory;
    assert MemoryValid();
    OrderedKeysEntries(entries, snapshot.Keys);
    assert forall a, b :: a in snapshot && b in snapshot && a != b ==> snapshot[a] != snapshot[b] by {
      assert forall a :: a in snapshot ==> snapshot[a].handle == a;
    }
    FreeEntries(entries, snapshot, freeStatus, live);
    forall h | h in snapshot
      ensures snapshot[h].FreedByDrain(freeStatus(h))
    {
      var k := IndexOf(entries, h);
    }
    memory, memOrder := map[], [];
  }

  /** The loop of the memory drain, over the copied entries, last first. */
  method FreeEntries(entries: seq<int>, snapshot: map<int, AllocatedMemory>, freeStatus: int -> int,
                     ghost live: set<int>)
    requires NoDuplicates(entries)
    requires forall k :: 0 <= k < |entries| ==> entries[k] in snapshot
    requires forall h :: h in snapshot ==> (h in live <==> !snapshot[h].freed)
    requires forall a, b :: a in snapshot && b in snapshot && a != b ==> snapshot[a] != snapshot[b]
    modifies this`memory, this`memOrder, this`freeLog, snapshot.Values
    ensures memory == old(memory) - (set k | k in entries)
    ensures forall x :: x in memOrder <==> x in old(memOrder) && x !in entries
    ensures freeLog == old(freeLog) + DrainOrder(entries, live)
    ensures forall k :: 0 <= k < |entries| ==> snapshot[entries[k]].FreedByDrain(freeStatus(entries[k]))
  {
    var i := |entries|;
    while i > 0
      invariant 0 <= i <= |entries|
      invariant forall k :: 0 <= k < i ==> snapshot[entries[k]].freed == old(snapshot[entries[k]].freed)
      invariant memory == old(memory) - (set k | k in entries[i..])
      invariant forall x :: x in memOrder <==> x in old(memOrder) && x !in entries[i..]
      invariant freeLog == old(freeLog) + DrainOrder(entries[i..], live)
      invariant forall k :: i <= k < |entries| ==> snapshot[entries[k]].FreedByDrain(freeStatus(entries[k]))
    {
      i := i - 1;
      var h := entries[i];
      DrainOrderStep(entries, live, i);
      assert forall x :: x in entries[i..] <==> x == h || x in entries[i + 1..];
      DrainMemoryEntry(snapshot[h], h, freeStatus(h));
    }
  }

  /**
   * One step of the memory drain, on the copied entry (`h`, `m`): `free()` unless the
   * block already reports itself freed (any failure is swallowed), then `remove(h)`.
   */
  method DrainMemoryEntry(m: AllocatedMemory, h: int, status: int)
    modifies this`memory, this`memOrder, this`freeLog, m
    ensures memory == old(memory) - {h} && memOrder == Without(old(memOrder), h)
    ensures freeLog == old(freeLog) + (if old(m.freed) then [] else [h])
    ensures m.FreedByDrain(status)
  {
    if !m.freed {
      freeLog := freeLog + [h];
      var _ := m.Free(status);
    }
    RemoveMemoryKey(h);
  }
}
