/** ConcurrentIndexedCollection called by one thread at a time: every mutator writes the object
    store and then the indexes, and must behave like a `java.util.Set` while keeping them in step.
 */
module Sequential {
  import opened Model

  /** The argument of `addAll` or `removeAll`: the collection itself, or another one. */
  datatype Argument = This | Other(elems: seq<Obj>)

  datatype Op =
    | Add(o: Obj) | Remove(o: Obj)
    | AddAll(c: Argument) | RemoveAll(c: Argument) | RetainAll(keep: seq<Obj>)
    | Update(remove: Iterable, add: Iterable)
    | Clear

  /** The elements after the operation, as the contract of `java.util.Set` (and, for `update`, the
      documentation of IndexedCollection) has it. */
  function After(store: set<Obj>, op: Op): set<Obj> {
    match op
    case Add(o) => store + {o}
    case Remove(o) => store - {o}
    case AddAll(c) => if c.This? then store else store + SetOf(c.elems)
    case RemoveAll(c) => if c.This? then {} else store - SetOf(c.elems)
    case RetainAll(keep) => store * SetOf(keep)
    case Update(remove, add) => (store - Elems(remove)) + Elems(add)
    case Clear => {}
  }

  /** What the operation reports. All but `update` with overlapping arguments report whether the
      set changed; `update` reports whether either of its two steps changed it. */
  predicate Report(store: set<Obj>, op: Op) {
    match op
    case Update(remove, add) => store * Elems(remove) != {} || !(Elems(add) <= store - Elems(remove))
    case Clear => false
    case _ => After(store, op) != store
  }

  /** The store after a history, by the contract of a set alone. */
  function AfterAll(store: set<Obj>, ops: seq<Op>): set<Obj> {
    if ops == [] then store else After(AfterAll(store, ops[..|ops| - 1]), ops[|ops| - 1])
  }

  /** Half way through `retainAll`: of the objects already visited only those to keep are left. */
  predicate Retaining(was: set<Obj>, now: set<Obj>, unvisited: set<Obj>, keep: set<Obj>, modified: bool) {
    && unvisited <= now <= was
    && (forall o | o in was :: o in now <==> o in unvisited || o in keep)
    && (modified <==> now != was)
  }

  lemma RetainingStep(was: set<Obj>, now: set<Obj>, unvisited: set<Obj>, keep: set<Obj>, modified: bool, o: Obj)
    requires Retaining(was, now, unvisited, keep, modified) && o in unvisited
    ensures if o in keep then Retaining(was, now, unvisited - {o}, keep, modified)
            else Retaining(was, now - {o}, unvisited - {o}, keep, true)
  {
    assert o in was && o !in now - {o};
  }

  lemma RemovedOneMore(index: set<Posting>, was: set<Obj>, now: set<Obj>, o: Obj)
    requires o in now && now <= was
    ensures index - PostingsOf(was - now) - PostingsOf({o}) == index - PostingsOf(was - (now - {o}))
  {
    assert was - (now - {o}) == (was - now) + {o};
  }

  lemma RetainingDone(was: set<Obj>, now: set<Obj>, keep: set<Obj>, modified: bool)
    requires Retaining(was, now, {}, keep, modified)
    ensures now == was * keep && (modified <==> now != was) && (modified <==> !(was <= keep))
  {
    assert forall o :: o in now <==> o in was * keep;
  }

  lemma RemovalKeepsAgreement(db: Db, keep: set<Obj>)
    ensures Agrees(db) ==> Agrees(Db(db.store * keep, db.index - PostingsOf(db.store - keep)))
  {
  }

  class IndexedCollection {
    var objectStore: set<Obj>
    var index: set<Posting>

    constructor ()
      ensures objectStore == {} && index == {}
    {
      objectStore, index := {}, {};
    }

    ghost function Contents(): Db
      reads this
    {
      Db(objectStore, index)
    }

    // ----- The object store and the query engine -----

    method StoreAdd(o: Obj) returns (modified: bool)
      modifies `objectStore
      ensures objectStore == old(objectStore) + {o} && (modified <==> objectStore != old(objectStore))
    {
      modified := o !in objectStore;
      objectStore := objectStore + {o};
    }

    method StoreRemove(o: Obj) returns (modified: bool)
      modifies `objectStore
      ensures objectStore == old(objectStore) - {o} && (modified <==> objectStore != old(objectStore))
    {
      modified := o in objectStore;
      objectStore := objectStore - {o};
      assert modified ==> o !in objectStore;
    }

    method StoreAddAll(c: seq<Obj>) returns (modified: bool)
      modifies `objectStore
      ensures objectStore == old(objectStore) + SetOf(c) && (modified <==> objectStore != old(objectStore))
    {
      modified := false;
      for i := 0 to |c|
        invariant objectStore == old(objectStore) + SetOf(c[..i])
        invariant modified <==> objectStore != old(objectStore)
      {
        SetOfNext(c, i);
        var added := StoreAdd(c[i]);
        modified := added || modified;
      }
      assert c[..|c|] == c;
    }

    method StoreRemoveAll(c: seq<Obj>) returns (modified: bool)
      modifies `objectStore
      ensures objectStore == old(objectStore) - SetOf(c) && (modified <==> objectStore != old(objectStore))
    {
      modified := false;
      for i := 0 to |c|
        invariant objectStore == old(objectStore) - SetOf(c[..i])
        invariant modified <==> objectStore != old(objectStore)
      {
        SetOfNext(c, i);
        var removed := StoreRemove(c[i]);
        modified := removed || modified;
      }
      assert c[..|c|] == c;
    }

    method IndexAddAll(objects: set<Obj>)
      modifies `index
      ensures index == old(index) + PostingsOf(objects)
    {
      index := index + PostingsOf(objects);
    }

    method IndexRemoveAll(objects: set<Obj>)
      modifies `index
      ensures index == old(index) - PostingsOf(objects)
    {
      index := index - PostingsOf(objects);
    }

    // ----- doAddAll and doRemoveAll -----

    /** Whether the argument is handed over in one call or walked element by element, duplicates
        and all, makes no difference to the store, the indexes or the report. */
    method DoAddAll(objects: Iterable) returns (modified: bool)
      modifies this
      ensures objectStore == old(objectStore) + Elems(objects)
      ensures index == old(index) + PostingsOf(Elems(objects))
      ensures modified <==> objectStore != old(objectStore)
    {
      if objects.Collection? {
        modified := StoreAddAll(objects.elems);
        IndexAddAll(Elems(objects));
      } else {
        modified := false;
        for i := 0 to |objects.elems|
          invariant objectStore == old(objectStore) + SetOf(objects.elems[..i])
          invariant index == old(index) + PostingsOf(SetOf(objects.elems[..i]))
          invariant modified <==> objectStore != old(objectStore)
        {
          SetOfNext(objects.elems, i);
          var added := StoreAdd(objects.elems[i]);
          IndexAddAll({objects.elems[i]});
          modified := added || modified;
        }
        assert objects.elems[..|objects.elems|] == objects.elems;
      }
    }

    method DoRemoveAll(objects: Iterable) returns (modified: bool)
      modifies this
      ensures objectStore == old(objectStore) - Elems(objects)
      ensures index == old(index) - PostingsOf(Elems(objects))
      ensures modified <==> objectStore != old(objectStore)
    {
      if objects.Collection? {
        modified := StoreRemoveAll(objects.elems);
        IndexRemoveAll(Elems(objects));
      } else {
        modified := false;
        for i := 0 to |objects.elems|
          invariant objectStore == old(objectStore) - SetOf(objects.elems[..i])
          invariant index == old(index) - PostingsOf(SetOf(objects.elems[..i]))
          invariant modified <==> objectStore != old(objectStore)
        {
          SetOfNext(objects.elems, i);
          var removed := StoreRemove(objects.elems[i]);
          IndexRemoveAll({objects.elems[i]});
          modified := removed || modified;
        }
        assert objects.elems[..|objects.elems|] == objects.elems;
      }
    }

    // ----- The mutators -----

    method DoAdd(o: Obj) returns (modified: bool)
      modifies this
      ensures objectStore == old(objectStore) + {o} == After(old(objectStore), Add(o))
      ensures modified == (o !in old(objectStore)) == Report(old(objectStore), Add(o))
      ensures index == old(index) + PostingsOf({o})
      ensures Agrees(old(Contents())) ==> Agrees(Contents())
    {
      modified := StoreAdd(o);
      IndexAddAll({o});
    }

    method DoRemove(o: Obj) returns (modified: bool)
      modifies this
      ensures objectStore == old(objectStore) - {o} == After(old(objectStore), Remove(o))
      ensures modified == (o in old(objectStore)) == Report(old(objectStore), Remove(o))
      ensures index == old(index) - PostingsOf({o})
      ensures Agrees(old(Contents())) ==> Agrees(Contents())
    {
      modified := StoreRemove(o);
      IndexRemoveAll({o});
    }

    method DoAddAllOf(c: Argument) returns (modified: bool)
      modifies this
      ensures objectStore == old(objectStore) + (if c.This? then {} else SetOf(c.elems)) == After(old(objectStore), AddAll(c))
      ensures modified == (objectStore != old(objectStore)) == Report(old(objectStore), AddAll(c))
      ensures index == old(index) + (if c.This? then {} else PostingsOf(SetOf(c.elems)))
      ensures Agrees(old(Contents())) ==> Agrees(Contents())
    {
      if c.This? {
        return false;
      }
      modified := StoreAddAll(c.elems);
      IndexAddAll(SetOf(c.elems));
    }

    method DoRemoveAllOf(c: Argument) returns (modified: bool)
      modifies this
      ensures objectStore == (if c.This? then {} else old(objectStore) - SetOf(c.elems)) == After(old(objectStore), RemoveAll(c))
      ensures modified == (objectStore != old(objectStore)) == Report(old(objectStore), RemoveAll(c))
      ensures index == if c.This? then {} else old(index) - PostingsOf(SetOf(c.elems))
      ensures Agrees(old(Contents())) ==> Agrees(Contents())
    {
      if c.This? {
        modified := objectStore != {};
        DoClear();
        return;
      }
      modified := StoreRemoveAll(c.elems);
      IndexRemoveAll(SetOf(c.elems));
    }

    /** Walks the store's iterator and removes what `keep` does not contain. */
    method DoRetainAll(keep: seq<Obj>) returns (modified: bool)
      modifies this
      ensures objectStore == old(objectStore) * SetOf(keep) == After(old(objectStore), RetainAll(keep))
      ensures modified == Report(old(objectStore), RetainAll(keep)) == !(old(objectStore) <= SetOf(keep))
      ensures index == old(index) - PostingsOf(old(objectStore) - SetOf(keep))
      ensures Agrees(old(Contents())) ==> Agrees(Contents())
    {
      modified := false;
      var unvisited := objectStore;
      while unvisited != {}
        invariant Retaining(old(objectStore), objectStore, unvisited, SetOf(keep), modified)
        invariant index == old(index) - PostingsOf(old(objectStore) - objectStore)
        decreases |unvisited|
      {
        var next :| next in unvisited;
        RetainingStep(old(objectStore), objectStore, unvisited, SetOf(keep), modified, next);
        unvisited := unvisited - {next};
        if next !in keep {
          assert Elems(Collection([next])) == {next};
          RemovedOneMore(old(index), old(objectStore), objectStore, next);
          var removed := DoRemoveAll(Collection([next]));
          modified := true;
        }
      }
      RetainingDone(old(objectStore), objectStore, SetOf(keep), modified);
      assert old(objectStore) - objectStore == old(objectStore) - SetOf(keep);
      RemovalKeepsAgreement(old(Contents()), SetOf(keep));
    }

    method DoUpdate(remove: Iterable, add: Iterable) returns (modified: bool)
      modifies this
      ensures objectStore == (old(objectStore) - Elems(remove)) + Elems(add) == After(old(objectStore), Update(remove, add))
      ensures modified == Report(old(objectStore), Update(remove, add))
                       == (old(objectStore) * Elems(remove) != {} || !(Elems(add) <= old(objectStore) - Elems(remove)))
      ensures index == (old(index) - PostingsOf(Elems(remove))) + PostingsOf(Elems(add))
      ensures Elems(remove) !! Elems(add) ==> (modified <==> objectStore != old(objectStore))
      ensures Agrees(old(Contents())) ==> Agrees(Contents())
    {
      var added;
      modified := DoRemoveAll(remove);
      ghost var between := objectStore;
      assert between != old(objectStore) <==> old(objectStore) * Elems(remove) != {} by {
        assert forall o :: o in old(objectStore) * Elems(remove) <==> o in old(objectStore) && o !in between;
      }
      added := DoAddAll(add);
      assert objectStore != between <==> !(Elems(add) <= between);
      modified := added || modified;
      if Elems(remove) !! Elems(add) && modified {
        if o :| o in old(objectStore) && o !in between {
          assert o !in objectStore;
        } else {
          assert between == old(objectStore);
        }
      }
    }

    method DoClear()
      modifies this
      ensures objectStore == {} && index == {}
    {
      objectStore := {};
      index := {};
    }

    method Perform(op: Op) returns (modified: bool)
      modifies this
      ensures objectStore == After(old(objectStore), op) && modified == Report(old(objectStore), op)
      ensures Agrees(old(Contents())) ==> Agrees(Contents())
    {
      match op {
        case Add(o) => modified := DoAdd(o);
        case Remove(o) => modified := DoRemove(o);
        case AddAll(c) => modified := DoAddAllOf(c);
        case RemoveAll(c) => modified := DoRemoveAllOf(c);
        case RetainAll(keep) => modified := DoRetainAll(keep);
        case Update(remove, add) => modified := DoUpdate(remove, add);
        case Clear =>
          DoClear();
          modified := false;
      }
    }
  }

  /** Every operation has reported what a set would. */
  predicate Reported(ops: seq<Op>, reports: seq<bool>) {
    && |reports| <= |ops|
    && forall i | 0 <= i < |reports| :: reports[i] == Report(AfterAll({}, ops[..i]), ops[i])
  }

  lemma ReportedOneMore(ops: seq<Op>, reports: seq<bool>, modified: bool)
    requires Reported(ops, reports) && |reports| < |ops|
    requires modified == Report(AfterAll({}, ops[..|reports|]), ops[|reports|])
    ensures Reported(ops, reports + [modified])
  {
  }

  lemma AfterOneMore(ops: seq<Op>, i: nat)
    requires i < |ops|
    ensures AfterAll({}, ops[..i + 1]) == After(AfterAll({}, ops[..i]), ops[i])
  {
    assert ops[..i + 1][..i] == ops[..i];
  }

  lemma KeysFindStored(db: Db)
    requires Agrees(db)
    ensures forall key :: IndexAnswer(db, key, {}) == Matching(db.store, key)
  {
    assert Outside(db, {}) == db;
    assert db.store - {} == db.store;
    forall key ensures IndexAnswer(db, key, {}) == Matching(db.store, key) {
      AnswersAgree(db, {}, key);
    }
  }

  /** After any history, the collection holds and has reported what a set would, and every key
      finds exactly the stored objects that have it. */
  method History(ops: seq<Op>) returns (c: IndexedCollection, reports: seq<bool>)
    ensures c.objectStore == AfterAll({}, ops)
    ensures |reports| == |ops| && Reported(ops, reports)
    ensures forall key :: IndexAnswer(c.Contents(), key, {}) == Matching(c.objectStore, key)
  {
    c := new IndexedCollection();
    reports := [];
    for i := 0 to |ops|
      invariant fresh(c) && |reports| == i && Reported(ops, reports)
      invariant c.objectStore == AfterAll({}, ops[..i]) && Agrees(c.Contents())
    {
      AfterOneMore(ops, i);
      var modified := c.Perform(ops[i]);
      ReportedOneMore(ops, reports, modified);
      reports := reports + [modified];
    }
    assert ops[..|ops|] == ops;
    KeysFindStored(c.Contents());
  }
}
