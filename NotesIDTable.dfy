// com.mindoo.domino.jna.NotesIDTable: a wrapper around a Notes C API ID table, the
// registry's consumer. The native table behind the handle is modelled by its contents
// (a set of note ids, as IDInsert / IDDelete / IDIsPresent / IDEntries return them) and
// its header flags; the status of each lifecycle call into the C API is a parameter.

/** The ID table header flags (IDTABLE_MODIFIED and IDTABLE_INVERTED of the Notes C API). */
const IdTableModified: bv16 := 0x0001
const IdTableInverted: bv16 := 0x0002

/**
 * The test `(flags & bit) == bit` of isModified / isInverted; for the single-bit masks
 * used there it holds exactly when that bit of the flags word is set.
 */
function HasFlag(flags: bv16, bit: bv16): (r: bool)
  ensures bit == IdTableModified ==> (r <==> flags & 1 != 0)
  ensures bit == IdTableInverted ==> (r <==> (flags >> 1) & 1 != 0)
{
  flags & bit == bit
}

/**
 * The flags word written by setModified / setInverted: the inverted bit for `inverted`
 * plus the modified bit for `modified`, and no other bit.
 */
function ComposeFlags(inverted: bool, modified: bool): (f: bv16)
  ensures HasFlag(f, IdTableInverted) == inverted
  ensures HasFlag(f, IdTableModified) == modified
  ensures f & !(IdTableInverted | IdTableModified) == 0
{
  (if inverted then IdTableInverted else 0) + (if modified then IdTableModified else 0)
}

/** Each element is at most the next one: the `isSorted` test of addNotes. */
predicate AdjacentSorted(s: seq<int>)
{
  forall i :: 0 < i < |s| ==> s[i - 1] <= s[i]
}

/** Every element is smaller than every later one: each occurs once, in ascending order. */
predicate StrictlyAscending(s: seq<int>)
{
  forall i, j :: 0 <= i < j < |s| ==> s[i] < s[j]
}

/** Every element is at most every later one. */
predicate Sorted(s: seq<int>)
{
  forall i, j :: 0 <= i < j < |s| ==> s[i] <= s[j]
}

/** Each element is smaller than the next one. */
predicate AdjacentAscending(s: seq<int>)
{
  forall i :: 0 < i < |s| ==> s[i - 1] < s[i]
}

/** Comparing neighbours is enough: adjacent order gives global order. */
lemma {:induction false} AdjacentSortedIsSorted(s: seq<int>)
  requires AdjacentSorted(s)
  ensures Sorted(s)
{
  if |s| > 1 {
    var t := s[1..];
    assert AdjacentSorted(t) by {
      forall i | 0 < i < |t| ensures t[i - 1] <= t[i] {
        assert t[i - 1] == s[i] && t[i] == s[i + 1];
      }
    }
    AdjacentSortedIsSorted(t);
    forall i, j | 0 <= i < j < |s| ensures s[i] <= s[j] {
      if i == 0 {
        assert s[1] == t[0];
        if j > 1 { assert s[j] == t[j - 1]; }
      } else {
        assert s[i] == t[i - 1] && s[j] == t[j - 1];
      }
    }
  }
}

/** The same for strict order. */
lemma {:induction false} AdjacentAscendingIsAscending(s: seq<int>)
  requires AdjacentAscending(s)
  ensures StrictlyAscending(s)
{
  if |s| > 1 {
    var t := s[1..];
    assert AdjacentAscending(t) by {
      forall i | 0 < i < |t| ensures t[i - 1] < t[i] {
        assert t[i - 1] == s[i] && t[i] == s[i + 1];
      }
    }
    AdjacentAscendingIsAscending(t);
    forall i, j | 0 <= i < j < |s| ensures s[i] < s[j] {
      if i == 0 {
        assert s[1] == t[0];
        if j > 1 { assert s[j] == t[j - 1]; }
      } else {
        assert s[i] == t[i - 1] && s[j] == t[j - 1];
      }
    }
  }
}

/** A sorted sequence without duplicates is strictly ascending. */
lemma {:induction false} SortedDistinctAscending(s: seq<int>)
  requires Sorted(s) && NoDuplicates(s)
  ensures StrictlyAscending(s)
{
  forall i, j | 0 <= i < j < |s| ensures s[i] < s[j] {
    assert s[i] <= s[j] && s[i] != s[j];
  }
}

/** `x`, which is not in the ascending sequence `s`, put into its place. */
function InsertSorted(x: int, s: seq<int>): (r: seq<int>)
  requires AdjacentAscending(s) && x !in s
  ensures AdjacentAscending(r)
  ensures forall y :: y in r <==> y == x || y in s
  ensures |r| == |s| + 1 && r[0] == (if s == [] || x < s[0] then x else s[0])
{
  if s == [] then [x]
  else if x < s[0] then
    var r := [x] + s;
    assert forall i :: 1 < i < |r| ==> r[i] == s[i - 1];
    r
  else
    var t := s[1..];
    assert AdjacentAscending(t) by {
      assert forall i :: 0 < i < |t| ==> t[i - 1] == s[i] && t[i] == s[i + 1];
    }
    assert s == [s[0]] + t;
    var rest := InsertSorted(x, t);
    var r := [s[0]] + rest;
    assert t != [] ==> t[0] == s[1];
    assert forall i :: 0 < i < |r| ==> r[i] == rest[i - 1];
    r
}

/**
 * `Arrays.sort` of the Integer[] copy of a set: its elements in ascending order,
 * each once.
 */
function SortAscending(s: seq<int>): (r: seq<int>)
  requires NoDuplicates(s)
  ensures AdjacentAscending(r) && StrictlyAscending(r)
  ensures forall y :: y in r <==> y in s
{
  if s == [] then []
  else
    var t := s[1..];
    assert NoDuplicates(t) by {
      assert forall i :: 0 <= i < |t| ==> t[i] == s[i + 1];
    }
    assert s[0] !in t by {
      assert forall i :: 0 < i < |s| ==> s[i] != s[0];
    }
    assert s == [s[0]] + t;
    var r := InsertSorted(s[0], SortAscending(t));
    AdjacentAscendingIsAscending(r);
    r
}

/**
 * The order in which addNotes passes the set's elements to addNote: the iteration
 * order when it is already sorted, the sorted order otherwise. Either way each element
 * comes exactly once and in ascending order.
 */
function AddNotesOrder(iteration: seq<int>): (o: seq<int>)
  requires NoDuplicates(iteration)
  ensures StrictlyAscending(o)
  ensures forall x :: x in o <==> x in iteration
{
  if AdjacentSorted(iteration) then
    AdjacentSortedIsSorted(iteration);
    SortedDistinctAscending(iteration);
    iteration
  else
    SortAscending(iteration)
}

/**
 * The `isSorted` scan of addNotes: it walks the iteration and stops at the first
 * element smaller than the one before it.
 */
method ScanSorted(iteration: seq<int>) returns (isSorted: bool)
  ensures isSorted == AdjacentSorted(iteration)
{
  isSorted := true;
  var i := 1;
  while i < |iteration|
    invariant 1 <= i
    invariant isSorted
    invariant forall k :: 0 < k < i && k < |iteration| ==> iteration[k - 1] <= iteration[k]
  {
    if iteration[i - 1] > iteration[i] {
      isSorted := false;
      break;
    }
    i := i + 1;
  }
}

class NotesIDTable {
  /** m_idTableHandle64 / m_idTableHandle32; 0 once recycled. */
  var handle: int
  /** m_isRecycled */
  var recycledFlag: bool
  /** m_noRecycle: the table wraps a handle owned elsewhere and is neither registered nor destroyed. */
  var noRecycle: bool
  /** The note ids in the native table. */
  var ids: set<int>
  /** The native table's header flags. */
  var flags: bv16
  /** The note ids IDInsert was called with through addNote, in call order. */
  ghost var insertCalls: seq<int>
  /** How many times IDDestroyTable has succeeded on this table's handle. */
  ghost var destroyed: nat

  ghost predicate Valid()
    reads this
  {
    recycledFlag ==> handle == 0
  }

  /** The state right after the native table has been created, before registration. */
  constructor Init(newHandle: int)
    ensures Valid()
    ensures handle == newHandle && !recycledFlag && !noRecycle
    ensures ids == {} && flags == 0 && insertCalls == [] && destroyed == 0
  {
    handle := newHandle;
    recycledFlag := false;
    noRecycle := false;
    ids := {};
    flags := 0;
    insertCalls := [];
    destroyed := 0;
  }

  /**
   * The owning constructor `NotesIDTable()`: IDCreateTable returned `createStatus` and
   * `createdHandle`. A failing status or a zero handle is an error and nothing is
   * registered; otherwise the new table is registered with the thread's registry and
   * `noRecycle` stays false. A registration failure is thrown out of the constructor;
   * on a duplicate handle the new table has then already replaced the old entry.
   */
  static method Create(gc: NotesGC, createStatus: int, createdHandle: int) returns (r: Result<NotesIDTable>)
    requires gc.Valid()
    modifies gc`objects, gc`objOrder
    ensures gc.Valid()
    ensures createStatus != 0 ==> r == Err(CheckResult(createStatus).error)
    ensures createStatus == 0 && createdHandle == 0 ==>
      r == Err(NotesError(0, "Null handle received for id table"))
    ensures createStatus == 0 && createdHandle != 0 && !gc.active ==> r == Err(IllegalState(AutoGCNotActive))
    ensures createStatus != 0 || createdHandle == 0 || !gc.active ==>
      gc.objects == old(gc.objects) && gc.objOrder == old(gc.objOrder)
    ensures createStatus == 0 && createdHandle != 0 && gc.active ==>
      && createdHandle in gc.objects && fresh(gc.objects[createdHandle])
      && gc.objects == old(gc.objects)[createdHandle := gc.objects[createdHandle]]
      && gc.objOrder == (if createdHandle in old(gc.objects) then old(gc.objOrder) else old(gc.objOrder) + [createdHandle])
      && (r.Ok? <==> createdHandle !in old(gc.objects))
      && (r.Err? ==> r.error == IllegalState(DuplicateHandle))
    ensures r.Ok? ==>
      && r.value == gc.objects[createdHandle]
      && r.value.Valid() && r.value.handle == createdHandle && !r.value.IsRecycled()
      && !r.value.noRecycle && !r.value.recycledFlag && r.value.ids == {} && r.value.flags == 0
      && r.value.insertCalls == [] && r.value.destroyed == 0
  {
    var status := CheckResult(createStatus);
    if status.Fail? {
      return Err(status.error);
    }
    if createdHandle == 0 {
      return Err(NotesError(0, "Null handle received for id table"));
    }
    var t := new NotesIDTable.Init(createdHandle);
    var registered := gc.ObjectCreated(t);
    if registered.Fail? {
      return Err(registered.error);
    }
    t.noRecycle := false;
    return Ok(t);
  }

  /**
   * The wrapping constructors `NotesIDTable(int)` / `NotesIDTable(long)`: a table whose
   * handle is owned elsewhere. It is marked `noRecycle` and never registered.
   */
  constructor Wrap(wrapped: int, contents: set<int>, headerFlags: bv16)
    ensures Valid()
    ensures handle == wrapped && noRecycle && !recycledFlag
    ensures ids == contents && flags == headerFlags && insertCalls == [] && destroyed == 0
  {
    handle := wrapped;
    recycledFlag := false;
    noRecycle := true;
    ids := contents;
    flags := headerFlags;
    insertCalls := [];
    destroyed := 0;
  }

  /** `isRecycled()`: the handle is zero; a table whose `m_isRecycled` is set always reports it. */
  function IsRecycled(): (r: bool)
    reads this
    ensures Valid() && recycledFlag ==> r
  {
    handle == 0
  }

  /**
   * The effect of a successful first `recycle()`: the native table destroyed once more,
   * handle zeroed, flag set, nothing else changed.
   */
  twostate predicate RecycledNow()
    reads this
  {
    && handle == 0 && recycledFlag && destroyed == old(destroyed) + 1
    && noRecycle == old(noRecycle) && ids == old(ids) && flags == old(flags)
    && insertCalls == old(insertCalls)
  }

  /** The native table has been destroyed at most once, and only by a recycle that marked the table recycled. */
  ghost predicate DestroyedAtMostOnce()
    reads this
  {
    destroyed <= 1 && (destroyed == 1 ==> recycledFlag)
  }

  /**
   * What the drain's `recycle()` call leaves behind on a registered table, given the
   * native destroy status: recycled when the table is owned and the destroy succeeded,
   * untouched otherwise.
   */
  twostate predicate RecycledByDrain(status: int)
    reads this
  {
    if !old(noRecycle) && status == 0 then RecycledNow() else unchanged(this)
  }

  /**
   * `recycle()`, as written. A wrapped table, or one already recycled, is left alone.
   * Otherwise the native table is destroyed (its status is `destroyStatus`), the table is
   * unregistered while it still reports itself live, and then its handle is zeroed and
   * `m_isRecycled` set. Each step that throws stops the rest, so outside a scope the
   * native table is destroyed but the handle is kept, and the next call destroys it again.
   * Inside a scope a native table is destroyed at most once.
   */
  method Recycle(gc: NotesGC, destroyStatus: int) returns (r: Outcome)
    requires Valid()
    modifies this, gc`objects, gc`objOrder
    ensures Valid()
    ensures old(gc.Valid()) ==> gc.Valid()
    ensures gc.active && old(DestroyedAtMostOnce()) ==> DestroyedAtMostOnce()
    ensures old(noRecycle || recycledFlag || handle == 0) ==>
      r == Pass && unchanged(this) && gc.objects == old(gc.objects) && gc.objOrder == old(gc.objOrder)
    ensures !old(noRecycle || recycledFlag || handle == 0) && destroyStatus != 0 ==>
      r == CheckResult(destroyStatus) && unchanged(this)
      && gc.objects == old(gc.objects) && gc.objOrder == old(gc.objOrder)
    ensures !old(noRecycle || recycledFlag || handle == 0) && destroyStatus == 0 && !gc.active ==>
      && r == Fail(IllegalState(AutoGCNotActive))
      && destroyed == old(destroyed) + 1
      && handle == old(handle) && recycledFlag == old(recycledFlag) && noRecycle == old(noRecycle)
      && ids == old(ids) && flags == old(flags) && insertCalls == old(insertCalls)
      && gc.objects == old(gc.objects) && gc.objOrder == old(gc.objOrder)
    ensures !old(noRecycle || recycledFlag || handle == 0) && destroyStatus == 0 && gc.active ==>
      && r == Pass && RecycledNow() && IsRecycled()
      && gc.objects == old(gc.objects) - {old(handle)}
      && gc.objOrder == Without(old(gc.objOrder), old(handle))
      && gc.CheckValidObjectHandle(old(handle)).Fail?
  {
    if noRecycle {
      return Pass;
    }
    if recycledFlag {
      return Pass;
    }
    if handle != 0 {
      var status := CheckResult(destroyStatus);
      if status.Fail? {
        return status;
      }
      destroyed := destroyed + 1;
      var unregistered := gc.ObjectBeingRecycled(this);
      if unregistered.Fail? {
        return unregistered;
      }
      if gc.Valid() {
        assert forall k :: k in gc.objects ==> gc.objects[k] != this;
      }
      handle := 0;
      recycledFlag := true;
    }
    return Pass;
  }

  /**
   * `recycle()` with the handle zeroed whenever the native destroy succeeded: the
   * unregistration's failure is still thrown, but only after the table is marked
   * recycled, so a native table is destroyed at most once, inside a scope or not. Inside
   * a scope it behaves exactly like Recycle.
   */
  method RecycleOnce(gc: NotesGC, destroyStatus: int) returns (r: Outcome)
    requires Valid()
    modifies this, gc`objects, gc`objOrder
    ensures Valid()
    ensures old(gc.Valid()) ==> gc.Valid()
    ensures old(DestroyedAtMostOnce()) ==> DestroyedAtMostOnce()
    ensures old(noRecycle || recycledFlag || handle == 0) ==>
      r == Pass && unchanged(this) && gc.objects == old(gc.objects) && gc.objOrder == old(gc.objOrder)
    ensures !old(noRecycle || recycledFlag || handle == 0) && destroyStatus != 0 ==>
      r == CheckResult(destroyStatus) && unchanged(this)
      && gc.objects == old(gc.objects) && gc.objOrder == old(gc.objOrder)
    ensures !old(noRecycle || recycledFlag || handle == 0) && destroyStatus == 0 ==>
      && RecycledNow() && IsRecycled()
      && r == (if gc.active then Pass else Fail(IllegalState(AutoGCNotActive)))
      && gc.objects == old(gc.objects) - (if gc.active then {old(handle)} else {})
      && gc.objOrder == (if gc.active then Without(old(gc.objOrder), old(handle)) else old(gc.objOrder))
      && (gc.active ==> gc.CheckValidObjectHandle(old(handle)).Fail?)
  {
    if noRecycle {
      return Pass;
    }
    if recycledFlag {
      return Pass;
    }
    if handle != 0 {
      var status := CheckResult(destroyStatus);
      if status.Fail? {
        return status;
      }
      destroyed := destroyed + 1;
      r := gc.ObjectBeingRecycled(this);
      if gc.Valid() {
        assert forall k :: k in gc.objects ==> gc.objects[k] != this;
      }
      handle := 0;
      recycledFlag := true;
      return r;
    }
    return Pass;
  }

  /** `setNoRecycle()`: from now on `recycle()` leaves the table alone. */
  method SetNoRecycle()
    modifies this`noRecycle
    ensures noRecycle
  {
    noRecycle := true;
  }

  /**
   * `checkHandle()`: a zero handle is "already recycled"; an owned table must also pass
   * the registry's gate, a wrapped one is trusted.
   */
  function CheckHandle(gc: NotesGC): (r: Outcome)
    reads this, gc
    ensures r.Pass? <==> handle != 0 && (noRecycle || (gc.active && handle in gc.objects))
    ensures handle == 0 ==> r == Fail(Runtime("ID table already recycled"))
    ensures handle != 0 && !noRecycle ==> r == gc.CheckValidObjectHandle(handle)
  {
    if handle == 0 then Fail(Runtime("ID table already recycled"))
    else if !noRecycle then gc.CheckValidObjectHandle(handle)
    else Pass
  }

  /** `addNote`: inserts a note id; true when it was not in the table before. */
  method AddNote(gc: NotesGC, noteId: int) returns (r: Result<bool>)
    modifies this`ids, this`insertCalls
    ensures CheckHandle(gc).Fail? ==>
      r == Err(CheckHandle(gc).error) && ids == old(ids) && insertCalls == old(insertCalls)
    ensures CheckHandle(gc).Pass? ==>
      r == Ok(noteId !in old(ids)) && ids == old(ids) + {noteId} && insertCalls == old(insertCalls) + [noteId]
  {
    var check := CheckHandle(gc);
    if check.Fail? {
      return Err(check.error);
    }
    r := Ok(noteId !in ids);
    ids := ids + {noteId};
    insertCalls := insertCalls + [noteId];
  }

  /** `removeNote`: deletes a note id; true when it was in the table before. */
  method RemoveNote(gc: NotesGC, noteId: int) returns (r: Result<bool>)
    modifies this`ids
    ensures CheckHandle(gc).Fail? ==> r == Err(CheckHandle(gc).error) && ids == old(ids)
    ensures CheckHandle(gc).Pass? ==> r == Ok(noteId in old(ids)) && ids == old(ids) - {noteId}
  {
    var check := CheckHandle(gc);
    if check.Fail? {
      return Err(check.error);
    }
    r := Ok(noteId in ids);
    ids := ids - {noteId};
  }

  /**
   * `addNotes`: adds every element of a set, given in its iteration order. It calls
   * addNote once per element in ascending order, sorting first when the iteration is
   * not already ascending. An empty set makes no call and so passes even on a dead table.
   */
  method AddNotes(gc: NotesGC, iteration: seq<int>) returns (r: Outcome)
    requires NoDuplicates(iteration)
    modifies this`ids, this`insertCalls
    ensures iteration == [] ==> r == Pass && ids == old(ids) && insertCalls == old(insertCalls)
    ensures iteration != [] && CheckHandle(gc).Fail? ==>
      r == Fail(CheckHandle(gc).error) && ids == old(ids) && insertCalls == old(insertCalls)
    ensures CheckHandle(gc).Pass? ==>
      && r == Pass
      && (forall x :: x in ids <==> x in old(ids) || x in iteration)
      && insertCalls == old(insertCalls) + AddNotesOrder(iteration)
  {
    var isSorted := ScanSorted(iteration);
    if isSorted {
      r := AddEach(gc, iteration);
    } else {
      var sorted := SortAscending(iteration);
      r := AddEach(gc, sorted);
    }
    if iteration != [] {
      assert iteration[0] in AddNotesOrder(iteration);
    }
  }

  /** The `for` loops of addNotes: addNote for each element, in the given order. */
  method AddEach(gc: NotesGC, order: seq<int>) returns (r: Outcome)
    modifies this`ids, this`insertCalls
    ensures order == [] ==> r == Pass && ids == old(ids) && insertCalls == old(insertCalls)
    ensures order != [] && CheckHandle(gc).Fail? ==>
      r == Fail(CheckHandle(gc).error) && ids == old(ids) && insertCalls == old(insertCalls)
    ensures CheckHandle(gc).Pass? ==>
      && r == Pass
      && (forall x :: x in ids <==> x in old(ids) || x in order)
      && insertCalls == old(insertCalls) + order
  {
    var i := 0;
    while i < |order|
      invariant 0 <= i <= |order|
      invariant forall x :: x in ids <==> x in old(ids) || x in order[..i]
      invariant i == 0 ==> ids == old(ids)
      invariant insertCalls == old(insertCalls) + order[..i]
      invariant i > 0 ==> CheckHandle(gc).Pass?
    {
      var added := AddNote(gc, order[i]);
      if added.Err? {
        return Fail(added.error);
      }
      assert order[..i + 1] == order[..i] + [order[i]];
      i := i + 1;
    }
    assert order[..i] == order;
    return Pass;
  }

  /** `removeNotes`: removes every element of a set, given in its iteration order. */
  method RemoveNotes(gc: NotesGC, iteration: seq<int>) returns (r: Outcome)
    modifies this`ids
    ensures iteration == [] ==> r == Pass && ids == old(ids)
    ensures iteration != [] && CheckHandle(gc).Fail? ==> r == Fail(CheckHandle(gc).error) && ids == old(ids)
    ensures CheckHandle(gc).Pass? ==> r == Pass && forall x :: x in ids <==> x in old(ids) && x !in iteration
  {
    var i := 0;
    while i < |iteration|
      invariant 0 <= i <= |iteration|
      invariant forall x :: x in ids <==> x in old(ids) && x !in iteration[..i]
      invariant i == 0 ==> ids == old(ids)
      invariant i > 0 ==> CheckHandle(gc).Pass?
    {
      var removed := RemoveNote(gc, iteration[i]);
      if removed.Err? {
        return Fail(removed.error);
      }
      assert iteration[..i + 1] == iteration[..i] + [iteration[i]];
      i := i + 1;
    }
    assert iteration[..i] == iteration;
    return Pass;
  }

  /** `getCount`: the number of note ids in the table. */
  function GetCount(gc: NotesGC): (r: Result<int>)
    reads this, gc
    ensures r.Ok? <==> CheckHandle(gc).Pass?
    ensures r.Err? ==> r.error == CheckHandle(gc).error
    ensures r.Ok? ==> r.value == |ids|
  {
    var check := CheckHandle(gc);
    if check.Fail? then Err(check.error) else Ok(|ids|)
  }

  /** `contains`: whether the note id is in the table. */
  function Contains(gc: NotesGC, noteId: int): (r: Result<bool>)
    reads this, gc
    ensures r.Ok? <==> CheckHandle(gc).Pass?
    ensures r.Err? ==> r.error == CheckHandle(gc).error
    ensures r.Ok? ==> (r.value <==> noteId in ids)
  {
    var check := CheckHandle(gc);
    if check.Fail? then Err(check.error) else Ok(noteId in ids)
  }

  /** `isModified`: whether the header has the modified bit. */
  function IsModified(gc: NotesGC): (r: Result<bool>)
    reads this, gc
    ensures r.Ok? <==> CheckHandle(gc).Pass?
    ensures r.Err? ==> r.error == CheckHandle(gc).error
    ensures r.Ok? ==> (r.value <==> HasFlag(flags, IdTableModified))
  {
    var check := CheckHandle(gc);
    if check.Fail? then Err(check.error) else Ok(HasFlag(flags, IdTableModified))
  }

  /** `isInverted`: whether the header has the inverted bit. */
  function IsInverted(gc: NotesGC): (r: Result<bool>)
    reads this, gc
    ensures r.Ok? <==> CheckHandle(gc).Pass?
    ensures r.Err? ==> r.error == CheckHandle(gc).error
    ensures r.Ok? ==> (r.value <==> HasFlag(flags, IdTableInverted))
  {
    var check := CheckHandle(gc);
    if check.Fail? then Err(check.error) else Ok(HasFlag(flags, IdTableInverted))
  }

  /**
   * `setModified`: writes the flags word made of the current inverted bit and the
   * modified bit for `modified`; afterwards isModified is `modified`, isInverted as before.
   */
  method SetModified(gc: NotesGC, modified: bool) returns (r: Outcome)
    modifies this`flags
    ensures r == CheckHandle(gc)
    ensures r.Fail? ==> flags == old(flags)
    ensures r.Pass? ==> flags == ComposeFlags(HasFlag(old(flags), IdTableInverted), modified)
    ensures r.Pass? ==> IsModified(gc) == Ok(modified) && IsInverted(gc) == old(IsInverted(gc))
  {
    r := CheckHandle(gc);
    if r.Fail? {
      return;
    }
    var inverted := IsInverted(gc);
    flags := ComposeFlags(inverted.value, modified);
  }

  /**
   * `setInverted`: writes the flags word made of the current modified bit and the
   * inverted bit for `inverted`; afterwards isInverted is `inverted`, isModified as before.
   */
  method SetInverted(gc: NotesGC, inverted: bool) returns (r: Outcome)
    modifies this`flags
    ensures r == CheckHandle(gc)
    ensures r.Fail? ==> flags == old(flags)
    ensures r.Pass? ==> flags == ComposeFlags(inverted, HasFlag(old(flags), IdTableModified))
    ensures r.Pass? ==> IsInverted(gc) == Ok(inverted) && IsModified(gc) == old(IsModified(gc))
  {
    r := CheckHandle(gc);
    if r.Fail? {
      return;
    }
    var modified := IsModified(gc);
    flags := ComposeFlags(inverted, modified.value);
  }

  /**
   * `toArray`: an int[] of getCount() elements filled with what successive IDScan calls
   * return (`scan`), position by position; positions the scan does not reach stay 0, and
   * a scan longer than the count runs off the array's end.
   */
  method ToArray(gc: NotesGC, scan: seq<int>) returns (r: Result<array<int>>)
    ensures CheckHandle(gc).Fail? ==> r == Err(CheckHandle(gc).error)
    ensures CheckHandle(gc).Pass? && |scan| > |ids| ==> r == Err(IndexOutOfBounds(|ids|))
    ensures CheckHandle(gc).Pass? && |scan| <= |ids| ==>
      && r.Ok? && fresh(r.value) && r.value.Length == |ids|
      && r.value[..|scan|] == scan
      && forall k :: |scan| <= k < |ids| ==> r.value[k] == 0
    // when the scan enumerates the table, the array holds exactly the scanned ids
    ensures CheckHandle(gc).Pass? && OrderedKeys(scan, ids) ==> r.Ok? && r.value[..] == scan
  {
    var check := CheckHandle(gc);
    if check.Fail? {
      return Err(check.error);
    }
    if OrderedKeys(scan, ids) {
      OrderedKeysCardinality(scan, ids);
    }
    var count := GetCount(gc).value;
    var a := new int[count](_ => 0);
    var cnt := 0;
    while cnt < |scan|
      invariant 0 <= cnt <= |scan| && cnt <= count
      invariant a[..cnt] == scan[..cnt]
      invariant forall k :: cnt <= k < count ==> a[k] == 0
    {
      if cnt >= count {
        return Err(IndexOutOfBounds(cnt));
      }
      a[cnt] := scan[cnt];
      cnt := cnt + 1;
    }
    return Ok(a);
  }
}
