// Client programs that use the registry inside and outside a runWithAutoGC block; each
// conclusion follows from the contracts of the members it calls.

/**
 * Three ID tables created inside a block are recycled when it ends, last created
 * first, and their handles are unregistered.
 */
method ThreeTablesScenario() returns (gc: NotesGC)
  ensures gc.recycleLog == [13, 12, 11]
  ensures !gc.active && gc.objects == map[]
{
  gc := RegisterThree();
  gc.ExitAutoGC(true, _ => 0, _ => 0);
  assert DrainOrder([11, 12, 13], {11, 12, 13}) == [13, 12, 11] by {
    assert [11, 12, 13][1..] == [12, 13];
    assert [12, 13][1..] == [13];
    assert [13][1..] == [];
  }
}

/** A fresh thread enters a block and registers three new ID tables with handles 11, 12, 13. */
method RegisterThree() returns (gc: NotesGC)
  ensures gc.Valid() && gc.active && gc.recycleLog == []
  ensures gc.objOrder == [11, 12, 13] && gc.LiveObjectHandles() == {11, 12, 13}
  ensures fresh(gc) && gc.memory == map[] && fresh(gc.objects.Values)
{
  gc := new NotesGC();
  var outermost := gc.EnterAutoGC();
  var a := RegisterNew(gc, 11);
  var b := RegisterNew(gc, 12);
  var c := RegisterNew(gc, 13);
  gc.RegisteredObjectsAreLive();
}

/** A nested block leaves the enclosing block's registrations in place. */
method NestedScenario() returns (gc: NotesGC)
  ensures gc.active && gc.objOrder == [21]
{
  gc := new NotesGC();
  var outer := gc.EnterAutoGC();
  var t := NotesIDTable.Create(gc, 0, 21);
  var inner := gc.EnterAutoGC();
  assert !inner;
  gc.ExitAutoGC(inner, _ => 0, _ => 0);
}

/** A custom value read back inside the block; after the block the map is gone. */
method CustomValueScenario() returns (gc: NotesGC)
  ensures gc.GetCustomValue("k").Err?
{
  gc := new NotesGC();
  var outer := gc.EnterAutoGC();
  var previous := gc.SetCustomValue("k", ObjectRef(7));
  assert previous == Ok(None);
  assert gc.GetCustomValue("k") == Ok(Some(ObjectRef(7)));
  gc.ExitAutoGC(outer, _ => 0, _ => 0);
}

/** A new ID table with an unused handle `h` is created and registered: `h` joins the key order at its end. */
method RegisterNew(gc: NotesGC, h: int) returns (t: NotesIDTable)
  requires gc.Valid() && gc.active && h != 0 && h !in gc.objects
  modifies gc`objects, gc`objOrder
  ensures gc.Valid() && gc.objOrder == old(gc.objOrder) + [h]
  ensures h in gc.objects && fresh(t) && gc.objects == old(gc.objects)[h := t]
  ensures t.handle == h && !t.noRecycle && !t.recycledFlag && t.destroyed == 0
{
  var r := NotesIDTable.Create(gc, 0, h);
  t := r.value;
}

/**
 * A table whose destroy failed during the drain outlives its scope still live. Each later
 * `recycle()` outside a scope destroys the native table and then throws before the handle
 * is zeroed, so the second call destroys the same native table again.
 */
method DoubleDestroyOutsideScope() returns (t: NotesIDTable, first: Outcome, second: Outcome)
  ensures first == Fail(IllegalState(AutoGCNotActive)) && second == first
  ensures t.destroyed == 2 && t.handle == 5 && !t.IsRecycled()
{
  var gc: NotesGC;
  gc, t := TableSurvivingScope();
  first := t.Recycle(gc, 0);
  second := t.Recycle(gc, 0);
}

/** The same sequence of calls with RecycleOnce: the native table is destroyed once. */
method SingleDestroyOutsideScope() returns (t: NotesIDTable, first: Outcome, second: Outcome)
  ensures first == Fail(IllegalState(AutoGCNotActive)) && second == Pass
  ensures t.destroyed == 1 && t.IsRecycled() && t.DestroyedAtMostOnce()
{
  var gc: NotesGC;
  gc, t := TableSurvivingScope();
  first := t.RecycleOnce(gc, 0);
  second := t.RecycleOnce(gc, 0);
}

/** A block registers table 5, its destroy fails in the drain, and the block ends with the table still live. */
method TableSurvivingScope() returns (gc: NotesGC, t: NotesIDTable)
  ensures fresh(gc) && fresh(t) && gc.Valid() && !gc.active && t.Valid()
  ensures t.handle == 5 && !t.noRecycle && !t.recycledFlag && t.destroyed == 0
{
  gc := new NotesGC();
  var outermost := gc.EnterAutoGC();
  t := RegisterNew(gc, 5);
  gc.ExitAutoGC(outermost, _ => 1, _ => 0);
}
