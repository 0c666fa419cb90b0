/** The methods of ObjectLockingIndexedCollection as one thread runs them: which stripes are locked
    around which writes, how often, and that every path unlocks what it locked. What other threads
    do meanwhile is the subject of module Stripes.
 */
module Locking {
  import opened Model
  import opened Wrappers
  import C = Scopes
  import S = Sequential
  import T = Stripes

  /** Whether and where an operation on one object raises an exception: before its store write, or
      between it and the index write, which on the heap nothing takes back. */
  datatype Failure = Never | BeforeWrites | BetweenWrites

  /** The objects whose store write a bulk call that fails at element `failAt` has made. */
  function Stored(c: S.Argument, failAt: nat, failure: Failure): (stored: set<Obj>)
    ensures c.This? ==> stored == {}
    ensures c.Other? ==> forall o :: o in stored <==>
              exists i :: 0 <= i < |c.elems| && c.elems[i] == o && (i < failAt || (i == failAt && failure.BetweenWrites?))
  {
    if c.This? then {}
    else if failAt >= |c.elems| then SetOf(c.elems)
    else SetOf(c.elems[..if failure.BetweenWrites? then failAt + 1 else failAt])
  }

  /** The objects whose index writes it has made. */
  function Indexed(c: S.Argument, failAt: nat): (indexed: set<Obj>)
    ensures c.This? ==> indexed == {}
    ensures c.Other? ==> forall o :: o in indexed <==> exists i :: 0 <= i < |c.elems| && c.elems[i] == o && i < failAt
  {
    if c.This? then {} else if failAt >= |c.elems| then SetOf(c.elems) else SetOf(c.elems[..failAt])
  }

  /** A write of an object made while its stripe was held `holds` times by this thread. */
  datatype Write = Write(obj: Obj, holds: nat)

  class LockingCollection {
    const inner: S.IndexedCollection
    const level: Int32
    /** How often this thread holds each stripe. */
    var holds: map<int, nat>
    /** The operations on single objects so far, for the record. */
    ghost var writes: seq<Write>

    ghost predicate Valid()
      reads this
    {
      level > 0 && forall i | i in holds :: holds[i] > 0
    }

    constructor (concurrencyLevel: Int32)
      requires concurrencyLevel > 0
      ensures Valid() && fresh(inner) && holds == map[] && writes == [] && inner.objectStore == {} && inner.index == {}
    {
      level, holds, writes := concurrencyLevel, map[], [];
      inner := new S.IndexedCollection();
    }

    function StripeOf(o: Obj): int
      requires level > 0
    {
      T.StripeIndex(o.hash, level)
    }

    /** How often this thread holds the stripe of `o`. */
    function Held(o: Obj): nat
      requires level > 0
      reads this
    {
      if StripeOf(o) in holds then holds[StripeOf(o)] else 0
    }

    /** An operation on `o` made holding its stripe once more than in `outside`. */
    ghost function LockedOnceMore(o: Obj, outside: map<int, nat>): Write
      requires level > 0
    {
      Write(o, (if StripeOf(o) in outside then outside[StripeOf(o)] else 0) + 1)
    }

    /** One such operation for each of `objects`, in order. */
    ghost function EachLocked(objects: seq<Obj>, outside: map<int, nat>): seq<Write>
      requires level > 0
    {
      if objects == [] then []
      else EachLocked(objects[..|objects| - 1], outside) + [LockedOnceMore(objects[|objects| - 1], outside)]
    }

    lemma EachLockedNext(objects: seq<Obj>, i: nat, outside: map<int, nat>)
      requires level > 0 && i < |objects|
      ensures EachLocked(objects[..i + 1], outside) == EachLocked(objects[..i], outside) + [LockedOnceMore(objects[i], outside)]
    {
      assert objects[..i + 1][..i] == objects[..i];
    }

    /** The writes for `o` happen under the lock of its stripe. */
    ghost predicate Guarded(o: Obj)
      requires level > 0
      reads this
    {
      StripeOf(o) in holds
    }

    method Lock(i: int)
      requires Valid()
      modifies `holds
      ensures Valid() && holds == old(holds)[i := if i in old(holds) then old(holds)[i] + 1 else 1]
    {
      holds := holds[i := if i in holds then holds[i] + 1 else 1];
    }

    method Unlock(i: int)
      requires Valid() && i in holds
      modifies `holds
      ensures Valid()
      ensures holds == if old(holds)[i] == 1 then old(holds) - {i} else old(holds)[i := (old(holds)[i] - 1) as nat]
    {
      holds := if holds[i] == 1 then holds - {i} else holds[i := holds[i] - 1];
    }

    /** `super.add`, which may raise an exception before its writes or between them. */
    method GuardedAdd(o: Obj, failure: Failure) returns (modified: bool)
      requires Valid() && Guarded(o)
      modifies `writes, inner
      ensures writes == old(writes) + [Write(o, Held(o))]
      ensures inner.objectStore == old(inner.objectStore) + (if failure.BeforeWrites? then {} else {o})
      ensures inner.index == old(inner.index) + (if failure.Never? then PostingsOf({o}) else {})
      ensures modified <==> inner.objectStore != old(inner.objectStore)
    {
      writes := writes + [Write(o, Held(o))];
      if failure.BeforeWrites? {
        return false;
      }
      modified := inner.StoreAdd(o);
      if failure.Never? {
        inner.IndexAddAll({o});
      }
    }

    method GuardedRemove(o: Obj, failure: Failure) returns (modified: bool)
      requires Valid() && Guarded(o)
      modifies `writes, inner
      ensures writes == old(writes) + [Write(o, Held(o))]
      ensures inner.objectStore == old(inner.objectStore) - (if failure.BeforeWrites? then {} else {o})
      ensures inner.index == old(inner.index) - (if failure.Never? then PostingsOf({o}) else {})
      ensures modified <==> inner.objectStore != old(inner.objectStore)
    {
      writes := writes + [Write(o, Held(o))];
      if failure.BeforeWrites? {
        return false;
      }
      modified := inner.StoreRemove(o);
      if failure.Never? {
        inner.IndexRemoveAll({o});
      }
    }

    method Add(o: Obj, failure: Failure) returns (modified: bool)
      requires Valid()
      modifies this, inner
      ensures Valid() && holds == old(holds)
      ensures writes == old(writes) + [Write(o, old(Held(o)) + 1)]
      ensures inner.objectStore == old(inner.objectStore) + (if failure.BeforeWrites? then {} else {o})
      ensures inner.index == old(inner.index) + (if failure.Never? then PostingsOf({o}) else {})
      ensures modified <==> inner.objectStore != old(inner.objectStore)
    {
      var stripe := StripeOf(o);
      Lock(stripe);
      modified := GuardedAdd(o, failure);
      Unlock(stripe);
    }

    method Remove(o: Obj, failure: Failure) returns (modified: bool)
      requires Valid()
      modifies this, inner
      ensures Valid() && holds == old(holds)
      ensures writes == old(writes) + [Write(o, old(Held(o)) + 1)]
      ensures inner.objectStore == old(inner.objectStore) - (if failure.BeforeWrites? then {} else {o})
      ensures inner.index == old(inner.index) - (if failure.Never? then PostingsOf({o}) else {})
      ensures modified <==> inner.objectStore != old(inner.objectStore)
    {
      var stripe := StripeOf(o);
      Lock(stripe);
      modified := GuardedRemove(o, failure);
      Unlock(stripe);
    }

    /** Locks, adds and unlocks one element at a time; the element at `failAt`, if there is one,
        raises an exception, which ends the walk. Adding the collection to itself does nothing. */
    method AddAll(c: S.Argument, failAt: nat, failure: Failure) returns (modified: bool)
      requires Valid() && !failure.Never?
      modifies this, inner
      ensures Valid() && holds == old(holds)
      ensures c.This? ==> writes == old(writes)
      ensures c.Other? ==> writes == old(writes) + EachLocked(if failAt < |c.elems| then c.elems[..failAt + 1] else c.elems, old(holds))
      ensures inner.objectStore == old(inner.objectStore) + Stored(c, failAt, failure)
      ensures inner.index == old(inner.index) + PostingsOf(Indexed(c, failAt))
      ensures c.This? || failAt >= |c.elems| ==> (modified <==> inner.objectStore != old(inner.objectStore))
    {
      if c.This? {
        modified := inner.DoAddAllOf(c);
        return;
      }
      modified := AddUntil(c.elems, if failAt < |c.elems| then failAt else |c.elems|);
      if failAt < |c.elems| {
        SetOfNext(c.elems, failAt);
        EachLockedNext(c.elems, failAt, old(holds));
        var _ := Add(c.elems[failAt], failure);
      } else {
        assert c.elems[..|c.elems|] == c.elems;
      }
    }

    /** The elements before the failing one. */
    method AddUntil(elems: seq<Obj>, n: nat) returns (modified: bool)
      requires Valid() && n <= |elems|
      modifies this, inner
      ensures Valid() && holds == old(holds)
      ensures writes == old(writes) + EachLocked(elems[..n], old(holds))
      ensures inner.objectStore == old(inner.objectStore) + SetOf(elems[..n])
      ensures inner.index == old(inner.index) + PostingsOf(SetOf(elems[..n]))
      ensures modified <==> inner.objectStore != old(inner.objectStore)
    {
      modified := false;
      for i := 0 to n
        invariant Valid() && holds == old(holds)
        invariant writes == old(writes) + EachLocked(elems[..i], old(holds))
        invariant inner.objectStore == old(inner.objectStore) + SetOf(elems[..i])
        invariant inner.index == old(inner.index) + PostingsOf(SetOf(elems[..i]))
        invariant modified <==> inner.objectStore != old(inner.objectStore)
      {
        SetOfNext(elems, i);
        EachLockedNext(elems, i, old(holds));
        var now := Add(elems[i], Never);
        modified := now || modified;
      }
    }

    /** The same for removal. Removing the collection from itself clears it, without any stripe. */
    method RemoveAll(c: S.Argument, failAt: nat, failure: Failure) returns (modified: bool)
      requires Valid() && !failure.Never?
      modifies this, inner
      ensures Valid() && holds == old(holds)
      ensures c.This? ==> writes == old(writes)
      ensures c.Other? ==> writes == old(writes) + EachLocked(if failAt < |c.elems| then c.elems[..failAt + 1] else c.elems, old(holds))
      ensures c.This? ==> inner.objectStore == {} && inner.index == {}
      ensures c.Other? ==>
                && inner.objectStore == old(inner.objectStore) - Stored(c, failAt, failure)
                && inner.index == old(inner.index) - PostingsOf(Indexed(c, failAt))
      ensures c.This? || failAt >= |c.elems| ==> (modified <==> inner.objectStore != old(inner.objectStore))
    {
      if c.This? {
        modified := inner.objectStore != {};
        inner.DoClear();
        return;
      }
      modified := RemoveUntil(c.elems, if failAt < |c.elems| then failAt else |c.elems|);
      if failAt < |c.elems| {
        SetOfNext(c.elems, failAt);
        EachLockedNext(c.elems, failAt, old(holds));
        var _ := Remove(c.elems[failAt], failure);
      } else {
        assert c.elems[..|c.elems|] == c.elems;
      }
    }

    /** The elements before the failing one. */
    method RemoveUntil(elems: seq<Obj>, n: nat) returns (modified: bool)
      requires Valid() && n <= |elems|
      modifies this, inner
      ensures Valid() && holds == old(holds)
      ensures writes == old(writes) + EachLocked(elems[..n], old(holds))
      ensures inner.objectStore == old(inner.objectStore) - SetOf(elems[..n])
      ensures inner.index == old(inner.index) - PostingsOf(SetOf(elems[..n]))
      ensures modified <==> inner.objectStore != old(inner.objectStore)
    {
      modified := false;
      for i := 0 to n
        invariant Valid() && holds == old(holds)
        invariant writes == old(writes) + EachLocked(elems[..i], old(holds))
        invariant inner.objectStore == old(inner.objectStore) - SetOf(elems[..i])
        invariant inner.index == old(inner.index) - PostingsOf(SetOf(elems[..i]))
        invariant modified <==> inner.objectStore != old(inner.objectStore)
      {
        SetOfNext(elems, i);
        EachLockedNext(elems, i, old(holds));
        var now := Remove(elems[i], Never);
        modified := now || modified;
      }
    }

    /** `remove` of this collection's iterator: in the open scope, or, after exhaustion, through
        `remove` of the collection, which locks the stripe again. A failure closes the iterator after
        the stripe is unlocked. */
    method IteratorRemove(it: C.CollectionIterator, removal: C.Removal, delegateCloseFails: bool, scopeCloseFails: bool)
      returns (ok: bool)
      requires Valid() && it.Valid() && it.collection == inner
      modifies this, inner, it, it.scope
      ensures Valid() && holds == old(holds)
      ensures it.Valid() && it.State() == C.Step(old(it.State()), C.Call.Remove(removal, delegateCloseFails, scopeCloseFails))
      ensures ok <==> old(it.currentObject).Some? && removal.Removed?
      ensures old(it.currentObject).None? ==> unchanged(inner) && unchanged(`writes)
      ensures old(it.currentObject).Some? ==>
                var o := old(it.currentObject).value;
                writes == old(writes) + [Write(o, old(Held(o)) + if old(it.autoClosed) then 2 else 1)]
      ensures old(it.currentObject).Some? ==>
                var o := old(it.currentObject).value;
                && inner.objectStore == old(inner.objectStore) - (if removal in {C.OpenFails, C.WriteFails} then {} else {o})
                && inner.index == old(inner.index) - (if removal in {C.Removed, C.CloseFails} then PostingsOf({o}) else {})
      ensures it.commits == old(it.commits) + (if ok && !old(it.autoClosed) then 1 else 0)
    {
      if it.currentObject == None {
        return false;
      }
      ok := LockedRemove(it, it.currentObject.value, removal);
      if ok {
        it.currentObject := None;
      } else {
        it.DoFail(delegateCloseFails, scopeCloseFails);
      }
    }

    /** The part under the lock. */
    method LockedRemove(it: C.CollectionIterator, o: Obj, removal: C.Removal) returns (ok: bool)
      requires Valid() && it.collection == inner
      modifies `holds, `writes, inner, it`commits, it`reopened, it`reclosings
      ensures Valid() && holds == old(holds) && (ok <==> removal.Removed?)
      ensures writes == old(writes) + [Write(o, old(Held(o)) + if it.autoClosed then 2 else 1)]
      ensures inner.objectStore == old(inner.objectStore) - removal.FromStore(o)
      ensures inner.index == old(inner.index) - PostingsOf(removal.FromIndex(o))
      ensures it.commits == old(it.commits) + (if ok && !it.autoClosed then 1 else 0)
      ensures if it.autoClosed && !removal.OpenFails? then
                it.reopened == old(it.reopened) + 1 && it.reclosings == old(it.reclosings) + [removal.ScopeOutcome()]
              else
                unchanged(it`reopened, it`reclosings)
    {
      var stripe := StripeOf(o);
      Lock(stripe);
      if it.autoClosed {
        Lock(stripe);
        assert Guarded(o);
        writes := writes + [Write(o, Held(o))];
        ok := it.RemoveInOwnScope(o, removal);
        Unlock(stripe);
      } else {
        assert Guarded(o);
        writes := writes + [Write(o, Held(o))];
        ok := it.RemoveInOpenScope(o, removal);
      }
      Unlock(stripe);
    }
  }
}
