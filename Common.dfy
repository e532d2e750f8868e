// Shared definitions for the model of the domino-jna handle registry (NotesGC) and
// its ID-table consumer (NotesIDTable): the exceptions the Java code throws, the
// insertion-ordered key lists that stand for java.util.LinkedHashMap, and the order
// in which the registry drains them.

/** The Java exceptions thrown by the modelled code. */
datatype Error =
  | IllegalState(message: string)            // java.lang.IllegalStateException
  | NotesError(id: int, message: string)     // com.mindoo.domino.jna.errors.NotesError
  | Runtime(message: string)                 // java.lang.RuntimeException
  | IndexOutOfBounds(index: int)             // java.lang.ArrayIndexOutOfBoundsException

/** A call that returns a value or throws. */
datatype Result<T> = Ok(value: T) | Err(error: Error)

/** A void call that returns normally or throws. */
datatype Outcome = Pass | Fail(error: Error)

/** A Java reference that may be null. */
datatype Option<T> = None | Some(value: T)

/** Some arbitrary java.lang.Object stored in the custom-value map, known only by its identity. */
datatype CustomValue = ObjectRef(identity: nat)

// Exception messages used by more than one member.
const AutoGCNotActive := "Auto GC is not active"
const NoAutoGCBlock := "No auto gc block is active"
const DuplicateHandle := "Duplicate handle detected"
const HandleDoesNotExist := "The provided C handle does not seem to exist (anymore)."

/**
 * NotesErrorUtils.checkResult, which is not part of this model: a native status of 0
 * means success, any other status becomes a NotesError carrying it.
 */
function CheckResult(status: int): (r: Outcome)
  ensures r.Pass? <==> status == 0
  ensures r.Fail? ==> r.error.NotesError? && r.error.id == status
{
  if status == 0 then Pass else Fail(NotesError(status, "Notes C API call failed"))
}

/** No element occurs twice: a LinkedHashMap's key order, or a java.util.Set's iteration. */
predicate NoDuplicates(s: seq<int>)
{
  forall i, j :: 0 <= i < j < |s| ==> s[i] != s[j]
}

/** `order` lists the keys of a LinkedHashMap whose key set is `keys`, each once. */
ghost predicate OrderedKeys(order: seq<int>, keys: set<int>)
{
  NoDuplicates(order) && forall k :: k in order <==> k in keys
}

/** The key order of a LinkedHashMap after `remove(k)`: `k` is dropped, the rest keeps its order. */
function Without(s: seq<int>, k: int): (r: seq<int>)
  ensures forall x :: x in r <==> x in s && x != k
  ensures |r| <= |s|
{
  if s == [] then []
  else if s[0] == k then Without(s[1..], k)
  else [s[0]] + Without(s[1..], k)
}

/** Every entry of a key order is a key. */
lemma {:induction false} OrderedKeysEntries(order: seq<int>, keys: set<int>)
  requires OrderedKeys(order, keys)
  ensures forall k :: 0 <= k < |order| ==> order[k] in keys
{
  forall k | 0 <= k < |order| ensures order[k] in keys {
    assert order[k] in order;
  }
}

/** Removing a key that is not there leaves the key order as it is. */
lemma {:induction false} WithoutAbsent(s: seq<int>, k: int)
  requires k !in s
  ensures Without(s, k) == s
{
  if s != [] {
    WithoutAbsent(s[1..], k);
  }
}

/** Removing the last-registered key of a duplicate-free order gives the order before it. */
lemma {:induction false} WithoutLast(s: seq<int>, k: int)
  requires NoDuplicates(s + [k])
  ensures Without(s + [k], k) == s
{
  if s == [] {
    assert [k][1..] == [];
  } else {
    assert (s + [k])[1..] == s[1..] + [k];
    assert NoDuplicates(s[1..] + [k]) by {
      forall i, j | 0 <= i < j < |s[1..] + [k]|
        ensures (s[1..] + [k])[i] != (s[1..] + [k])[j]
      {
        assert (s[1..] + [k])[i] == (s + [k])[i + 1];
        assert (s[1..] + [k])[j] == (s + [k])[j + 1];
      }
    }
    WithoutLast(s[1..], k);
    assert (s + [k])[0] == s[0] && (s + [k])[|s|] == k;
  }
}

/** Removing a key keeps the order free of duplicates. */
lemma {:induction false} WithoutNoDuplicates(s: seq<int>, k: int)
  requires NoDuplicates(s)
  ensures NoDuplicates(Without(s, k))
{
  if s != [] {
    assert NoDuplicates(s[1..]) by {
      forall i, j | 0 <= i < j < |s[1..]| ensures s[1..][i] != s[1..][j] {
        assert s[1..][i] == s[i + 1] && s[1..][j] == s[j + 1];
      }
    }
    WithoutNoDuplicates(s[1..], k);
    if s[0] != k {
      var r := Without(s[1..], k);
      assert s[0] !in r by {
        assert forall i :: 0 < i < |s| ==> s[i] != s[0];
        assert s[0] !in s[1..];
      }
      forall i, j | 0 <= i < j < |[s[0]] + r| ensures ([s[0]] + r)[i] != ([s[0]] + r)[j] {
        if i == 0 {
          assert ([s[0]] + r)[j] == r[j - 1];
        } else {
          assert ([s[0]] + r)[i] == r[i - 1] && ([s[0]] + r)[j] == r[j - 1];
        }
      }
    }
  }
}

/**
 * The handles whose release the registry's drain invokes, in call order: the entries
 * of `order` (insertion order) taken last-first, skipping those not in `live` (the
 * ones that already report themselves released when their turn comes).
 */
function DrainOrder(order: seq<int>, live: set<int>): seq<int>
{
  if order == [] then []
  else DrainOrder(order[1..], live) + (if order[0] in live then [order[0]] else [])
}

/** One drain step: the suffix from position `i` is drained as the suffix after it, then `order[i]`. */
lemma {:induction false} DrainOrderStep(order: seq<int>, live: set<int>, i: nat)
  requires i < |order|
  ensures DrainOrder(order[i..], live)
       == DrainOrder(order[i + 1..], live) + (if order[i] in live then [order[i]] else [])
{
  assert order[i..][1..] == order[i + 1..];
  assert order[i..][0] == order[i];
}

/** The drain releases exactly the live registered handles. */
lemma {:induction false} DrainOrderMembers(order: seq<int>, live: set<int>)
  ensures forall x :: x in DrainOrder(order, live) <==> x in order && x in live
{
  if order != [] {
    DrainOrderMembers(order[1..], live);
    assert forall x :: x in order <==> x == order[0] || x in order[1..];
  }
}

/** The drain releases each live registered handle once. */
lemma {:induction false} DrainOrderNoDuplicates(order: seq<int>, live: set<int>)
  requires NoDuplicates(order)
  ensures NoDuplicates(DrainOrder(order, live))
{
  if order != [] {
    assert NoDuplicates(order[1..]) by {
      forall i, j | 0 <= i < j < |order[1..]| ensures order[1..][i] != order[1..][j] {
        assert order[1..][i] == order[i + 1] && order[1..][j] == order[j + 1];
      }
    }
    DrainOrderNoDuplicates(order[1..], live);
    DrainOrderMembers(order[1..], live);
    var d := DrainOrder(order[1..], live);
    if order[0] in live {
      assert order[0] !in order[1..] by {
        assert forall i :: 0 < i < |order| ==> order[i] != order[0];
      }
      assert order[0] !in d;
      forall i, j | 0 <= i < j < |d + [order[0]]| ensures (d + [order[0]])[i] != (d + [order[0]])[j] {
        if j == |d| {
          assert (d + [order[0]])[i] == d[i];
        } else {
          assert (d + [order[0]])[i] == d[i] && (d + [order[0]])[j] == d[j];
        }
      }
    } else {
      assert DrainOrder(order, live) == d + [];
    }
  }
}

/** The position of `x` in `s`. */
function IndexOf(s: seq<int>, x: int): (i: nat)
  requires x in s
  ensures i < |s| && s[i] == x
  ensures forall j :: 0 <= j < i ==> s[j] != x
{
  if s[0] == x then 0 else 1 + IndexOf(s[1..], x)
}

/**
 * Last registered, first released: of two live handles, the one registered later
 * (position j in the insertion order) is released before the one registered earlier.
 */
lemma {:induction false} DrainOrderReverses(order: seq<int>, live: set<int>, i: nat, j: nat)
  requires NoDuplicates(order)
  requires i < j < |order| && order[i] in live && order[j] in live
  ensures order[i] in DrainOrder(order, live) && order[j] in DrainOrder(order, live)
  ensures IndexOf(DrainOrder(order, live), order[j]) < IndexOf(DrainOrder(order, live), order[i])
{
  DrainOrderMembers(order, live);
  DrainOrderMembers(order[1..], live);
  var d := DrainOrder(order[1..], live);
  var full := DrainOrder(order, live);
  assert full == d + [order[0]] || full == d;
  assert d <= full;
  assert order[j] == order[1..][j - 1];
  if i == 0 {
    // order[0] is released last: it is the element appended after the tail's drain.
    assert order[0] !in order[1..] by {
      assert forall k :: 0 < k < |order| ==> order[k] != order[0];
    }
    assert order[0] !in d;
    assert full == d + [order[0]];
    var a := IndexOf(full, order[0]);
    assert a == |d| by {
      assert full[|d|] == order[0];
      assert a <= |d|;
      assert forall q :: 0 <= q < |d| ==> full[q] == d[q] != order[0];
    }
    var b := IndexOf(d, order[j]);
    assert full[b] == order[j];
  } else {
    assert NoDuplicates(order[1..]) by {
      forall p, q | 0 <= p < q < |order[1..]| ensures order[1..][p] != order[1..][q] {
        assert order[1..][p] == order[p + 1] && order[1..][q] == order[q + 1];
      }
    }
    assert order[i] == order[1..][i - 1];
    DrainOrderReverses(order[1..], live, i - 1, j - 1);
    IndexOfPrefix(d, full, order[i]);
    IndexOfPrefix(d, full, order[j]);
  }
}

/** Positions found in a prefix stay the same in the whole sequence. */
lemma {:induction false} IndexOfPrefix(p: seq<int>, s: seq<int>, x: int)
  requires p <= s && x in p
  ensures x in s && IndexOf(s, x) == IndexOf(p, x)
{
  var i := IndexOf(p, x);
  assert s[i] == x;
  var k := IndexOf(s, x);
  assert k <= i;
  assert p[k] == x;
}

/** A duplicate-free sequence has as many elements as the set it enumerates. */
lemma {:induction false} OrderedKeysCardinality(order: seq<int>, keys: set<int>)
  requires OrderedKeys(order, keys)
  ensures |keys| == |order|
{
  if order != [] {
    var rest := order[1..];
    assert NoDuplicates(rest) by {
      forall i, j | 0 <= i < j < |rest| ensures rest[i] != rest[j] {
        assert rest[i] == order[i + 1] && rest[j] == order[j + 1];
      }
    }
    assert order[0] !in rest by {
      assert forall i :: 0 < i < |order| ==> order[i] != order[0];
    }
    assert forall k :: k in order <==> k == order[0] || k in rest;
    OrderedKeysCardinality(rest, keys - {order[0]});
  } else {
    assert forall k :: k !in keys;
  }
}
