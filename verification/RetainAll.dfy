/** `retainAll` of TransactionalIndexedCollection publishes, as the set readers must not see, the
    lazily evaluated result of "objects not in the retained set". Asking it whether it contains
    an object consults the live store, so the exclusion shrinks while the removal goes on.

    The removal walks the result element by element: one store write, then the index writes of
    the same object. Between the two an index can still hand readers an object that the exclusion
    no longer names. This module says exactly when.
 */
module RetainAll {
  import opened Model

  /** `base` is what was stored when the version was published; `pending` are the index writes owed
      for the object last removed from the store; `modified` is the report so far. */
  datatype State = State(base: set<Obj>, retain: set<Obj>, db: Db, pending: set<Posting>, modified: bool)

  datatype Event = StoreRemove(o: Obj) | IndexRemove(p: Posting)

  /** The objects the published exclusion names at this moment. */
  function LiveExclusion(s: State): set<Obj> {
    s.db.store - s.retain
  }

  /** The objects it named when it was published. */
  function FrozenExclusion(s: State): set<Obj> {
    s.base - s.retain
  }

  function Publish(base: set<Obj>, retain: set<Obj>): State {
    State(base, retain, Db(base, PostingsOf(base)), {}, false)
  }

  predicate Enabled(s: State, e: Event) {
    match e
    case StoreRemove(o) => s.pending == {} && o in LiveExclusion(s)
    case IndexRemove(p) => p in s.pending
  }

  function Apply(s: State, e: Event): State
    requires Enabled(s, e)
  {
    match e
    case StoreRemove(o) =>
      s.(db := s.db.(store := s.db.store - {o}),
         pending := PostingsOf({o}),
         modified := s.modified || o in s.db.store)
    case IndexRemove(p) => s.(db := s.db.(index := s.db.index - {p}), pending := s.pending - {p})
  }

  predicate CanRun(s: State, events: seq<Event>)
    decreases |events|
  {
    events == [] || (Enabled(s, events[0]) && CanRun(Apply(s, events[0]), events[1..]))
  }

  function Run(s: State, events: seq<Event>): State
    requires CanRun(s, events)
    decreases |events|
  {
    if events == [] then s else Run(Apply(s, events[0]), events[1..])
  }

  predicate Inv(s: State) {
    && s.base * s.retain <= s.db.store <= s.base
    && s.db.index == PostingsOf(s.db.store) + s.pending
    && (s.modified <==> s.db.store != s.base)
    && (forall p | p in s.pending :: p.obj in s.base && p.obj !in s.db.store && p.key in p.obj.keys)
    && forall p, q | p in s.pending && q in s.pending :: p.obj == q.obj
  }

  lemma StepKeepsInv(s: State, e: Event)
    requires Inv(s) && Enabled(s, e)
    ensures Inv(Apply(s, e))
  {
  }

  lemma {:induction false} RunKeepsInv(s: State, events: seq<Event>)
    requires Inv(s) && CanRun(s, events)
    ensures Inv(Run(s, events)) && Run(s, events).base == s.base && Run(s, events).retain == s.retain
    decreases |events|
  {
    if events != [] {
      StepKeepsInv(s, events[0]);
      RunKeepsInv(Apply(s, events[0]), events[1..]);
    }
  }

  /** While `retainAll` runs, a reader of its version that scans the store always sees exactly the
      retained objects. One that reads an index sees their postings if and only if no index write
      is owed for the object last removed; had the exclusion been evaluated once, when it was
      published, it always would. */
  lemma LazyExclusionIsSafeBetweenObjects(base: set<Obj>, retain: set<Obj>, events: seq<Event>)
    requires CanRun(Publish(base, retain), events)
    ensures var s := Run(Publish(base, retain), events);
      var seen := base * retain;
      && Outside(s.db, LiveExclusion(s)).store == seen
      && (Outside(s.db, LiveExclusion(s)).index == PostingsOf(seen) <==> s.pending == {})
      && Outside(s.db, FrozenExclusion(s)) == Db(seen, PostingsOf(seen))
  {
    var s := Run(Publish(base, retain), events);
    RunKeepsInv(Publish(base, retain), events);
    var seen := base * retain;
    var live := Outside(s.db, LiveExclusion(s));
    assert live.store == seen;
    assert forall p | p in s.pending :: p in live.index && p !in PostingsOf(seen);
    assert s.pending == {} ==> live.index == PostingsOf(seen);
    var frozen := Outside(s.db, FrozenExclusion(s));
    assert frozen.store == seen;
    assert frozen.index == PostingsOf(seen);
  }

  /** The gap is real: for any object with an index entry that is to go, the first store write of
      some run of `retainAll` makes the index answer a query with an object no longer stored. */
  lemma LazyExclusionLeaks(base: set<Obj>, retain: set<Obj>, o: Obj, key: Key)
    requires o in base && o !in retain && key in o.keys
    ensures exists events ::
      && CanRun(Publish(base, retain), events)
      && var s := Run(Publish(base, retain), events);
         && o in IndexAnswer(s.db, key, LiveExclusion(s))
         && o !in ScanAnswer(s.db, key, LiveExclusion(s))
  {
    var events := [StoreRemove(o)];
    var s := Apply(Publish(base, retain), StoreRemove(o));
    assert events[1..] == [] && CanRun(s, []) && Run(s, []) == s;
    assert Run(Publish(base, retain), events) == s;
    assert Posting(key, o) in s.db.index;
  }

  /** With no index entries to remove, no index write is ever owed. */
  lemma {:induction false} NothingOwed(s: State, events: seq<Event>)
    requires CanRun(s, events) && s.pending == {}
    requires forall o | o in s.db.store - s.retain :: o.keys == {}
    ensures Run(s, events).pending == {}
    decreases |events|
  {
    if events != [] {
      NothingOwed(Apply(s, events[0]), events[1..]);
    }
  }

  /** Index and scan answers agree at every moment of every run. */
  ghost predicate AlwaysAgree(base: set<Obj>, retain: set<Obj>) {
    forall events, key | CanRun(Publish(base, retain), events) ::
      var s := Run(Publish(base, retain), events);
      IndexAnswer(s.db, key, LiveExclusion(s)) == ScanAnswer(s.db, key, LiveExclusion(s))
  }

  /** Exactly which calls are safe: readers can rely on the indexes throughout `retainAll` if and
      only if none of the objects it removes has an index entry. */
  lemma RetainAllIsSafeForUnindexedObjects(base: set<Obj>, retain: set<Obj>)
    ensures AlwaysAgree(base, retain) <==> forall o | o in base - retain :: o.keys == {}
  {
    if o :| o in base - retain && o.keys != {} {
      var key :| key in o.keys;
      LazyExclusionLeaks(base, retain, o, key);
    } else {
      forall events, key | CanRun(Publish(base, retain), events)
        ensures var s := Run(Publish(base, retain), events);
          IndexAnswer(s.db, key, LiveExclusion(s)) == ScanAnswer(s.db, key, LiveExclusion(s))
      {
        var s := Run(Publish(base, retain), events);
        NothingOwed(Publish(base, retain), events);
        LazyExclusionIsSafeBetweenObjects(base, retain, events);
        AnswersAgree(s.db, LiveExclusion(s), key);
      }
    }
  }

  /** When the removal has nothing left to do, store and index hold exactly the retained objects, and the report
      says whether anything else had been stored. */
  lemma RetainAllRetains(base: set<Obj>, retain: set<Obj>, events: seq<Event>)
    requires CanRun(Publish(base, retain), events)
    requires forall e :: !Enabled(Run(Publish(base, retain), events), e)
    ensures var s := Run(Publish(base, retain), events);
      && s.db == Db(base * retain, PostingsOf(base * retain))
      && (s.modified <==> exists o :: o in base && o !in retain)
  {
    var s := Run(Publish(base, retain), events);
    RunKeepsInv(Publish(base, retain), events);
    forall p ensures p !in s.pending {
      assert !Enabled(s, IndexRemove(p));
    }
    forall o | o in s.db.store ensures o !in LiveExclusion(s) {
      assert !Enabled(s, StoreRemove(o));
    }
    assert s.db.store == base * retain;
    assert base * retain == base <==> forall o | o in base :: o in retain;
  }

  /** It comes to that: each step leaves less to do. */
  lemma RemovalTerminates(s: State, e: Event)
    requires Enabled(s, e)
    ensures var t := Apply(s, e);
      |t.db.store| < |s.db.store| || (t.db.store == s.db.store && |t.pending| < |s.pending|)
  {
    var t := Apply(s, e);
    if e.StoreRemove? {
      assert t.db.store == s.db.store - {e.o};
    } else {
      assert t.pending == s.pending - {e.p};
    }
  }

  /** If an exception ends the removal early, the version published next shows the store as it is:
      no retained object is lost, and store and index disagree if and only if an index write is
      still owed; then exactly the postings owed are left over, all of one removed object. */
  lemma RetainAllInterrupted(base: set<Obj>, retain: set<Obj>, events: seq<Event>)
    requires CanRun(Publish(base, retain), events)
    ensures var s := Run(Publish(base, retain), events);
      && base * retain <= s.db.store <= base
      && (s.modified <==> s.db.store != base)
      && s.db.index - PostingsOf(s.db.store) == s.pending
      && (Agrees(s.db) <==> s.pending == {})
      && (forall p, q | p in s.pending && q in s.pending :: p.obj == q.obj)
  {
    RunKeepsInv(Publish(base, retain), events);
  }
}
