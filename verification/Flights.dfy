/** Concurrent `add` and `remove` of ConcurrentIndexedCollection without any lock: each call is
    one write to the store followed by the index writes for the same object.
 */
module Flights {
  import opened Model

  datatype Kind = Adding | Removing

  /** A call between its store write and its return. */
  datatype Flight = Flight(kind: Kind, obj: Obj, pending: set<Posting>)

  /** A store write, in the order they happened; `changed` is what the store reported. */
  datatype Entry = Entry(thread: nat, kind: Kind, obj: Obj, changed: bool)

  datatype State = State(db: Db, flights: map<nat, Flight>, log: seq<Entry>)

  datatype Event = StoreWrite(t: nat, kind: Kind, o: Obj) | IndexWrite(t: nat, p: Posting) | Return(t: nat)

  predicate Enabled(s: State, e: Event) {
    match e
    case StoreWrite(t, _, _) => t !in s.flights
    case IndexWrite(t, p) => t in s.flights && p in s.flights[t].pending
    case Return(t) => t in s.flights && s.flights[t].pending == {}
  }

  /** The discipline the class asks of its callers: nobody else is adding or removing this object. */
  predicate Distinct(s: State, e: Event) {
    e.StoreWrite? ==> forall t | t in s.flights :: s.flights[t].obj != e.o
  }

  /** What is really needed: calls that overlap on an object with index entries are of one kind. */
  predicate Compatible(s: State, e: Event) {
    e.StoreWrite? && e.o.keys != {} ==>
      forall t | t in s.flights && s.flights[t].obj == e.o :: s.flights[t].kind == e.kind
  }

  function Apply(s: State, e: Event): State
    requires Enabled(s, e)
  {
    match e
    case StoreWrite(t, kind, o) =>
      State(s.db.(store := if kind.Adding? then s.db.store + {o} else s.db.store - {o}),
            s.flights[t := Flight(kind, o, PostingsOf({o}))],
            s.log + [Entry(t, kind, o, (o in s.db.store) != kind.Adding?)])
    case IndexWrite(t, p) =>
      var f := s.flights[t];
      s.(db := s.db.(index := if f.kind.Adding? then s.db.index + {p} else s.db.index - {p}),
         flights := s.flights[t := f.(pending := f.pending - {p})])
    case Return(t) => s.(flights := s.flights - {t})
  }

  function Init(objects: set<Obj>): State {
    State(Db(objects, PostingsOf(objects)), map[], [])
  }

  /** Store and index agree about one object. */
  predicate AgreesAt(db: Db, o: Obj) {
    forall k | k in o.keys :: Posting(k, o) in db.index <==> o in db.store
  }

  /** A call in flight has made its store write, and owes the index writes not made yet. */
  predicate FlightOk(db: Db, f: Flight) {
    && (f.obj.keys != {} ==> (f.obj in db.store <==> f.kind.Adding?))
    && f.pending <= PostingsOf({f.obj})
    && forall k | k in f.obj.keys ::
         Posting(k, f.obj) !in f.pending ==> (Posting(k, f.obj) in db.index <==> f.kind.Adding?)
  }

  predicate InFlight(s: State, o: Obj) {
    exists t :: t in s.flights && s.flights[t].obj == o
  }

  ghost predicate Inv(s: State) {
    && WellFormed(s.db)
    && (forall t, u | t in s.flights && u in s.flights ::
          s.flights[t].obj == s.flights[u].obj && s.flights[t].obj.keys != {} ==>
            s.flights[t].kind == s.flights[u].kind)
    && (forall t | t in s.flights :: FlightOk(s.db, s.flights[t]))
    && (forall o :: InFlight(s, o) || AgreesAt(s.db, o))
  }

  lemma StepKeepsInv(s: State, e: Event)
    requires Inv(s) && Enabled(s, e) && Compatible(s, e)
    ensures Inv(Apply(s, e))
  {
    match e {
      case StoreWrite(t, kind, o) => StoreWriteKeepsInv(s, t, kind, o);
      case IndexWrite(t, p) => IndexWriteKeepsInv(s, t, p);
      case Return(t) => ReturnKeepsInv(s, t);
    }
  }

  lemma StoreWriteKeepsInv(s: State, t: nat, kind: Kind, o: Obj)
    requires Inv(s) && Enabled(s, StoreWrite(t, kind, o)) && Compatible(s, StoreWrite(t, kind, o))
    ensures Inv(Apply(s, StoreWrite(t, kind, o)))
  {
    var s' := Apply(s, StoreWrite(t, kind, o));
    forall u | u in s'.flights ensures FlightOk(s'.db, s'.flights[u]) {
      if u != t {
        assert FlightOk(s.db, s.flights[u]);
      }
    }
    assert s'.flights[t].obj == o;
    forall x | !InFlight(s', x) ensures AgreesAt(s'.db, x) {
      NotInFlightBefore(s, s', x);
      assert AgreesAt(s.db, x);
    }
  }

  lemma IndexWriteKeepsInv(s: State, t: nat, p: Posting)
    requires Inv(s) && Enabled(s, IndexWrite(t, p))
    ensures Inv(Apply(s, IndexWrite(t, p)))
  {
    var s' := Apply(s, IndexWrite(t, p));
    forall u | u in s'.flights ensures FlightOk(s'.db, s'.flights[u]) {
      assert FlightOk(s.db, s.flights[u]);
      assert FlightOk(s.db, s.flights[t]);
    }
    assert s'.flights[t].obj == s.flights[t].obj == p.obj;
    forall x | !InFlight(s', x) ensures AgreesAt(s'.db, x) {
      NotInFlightBefore(s, s', x);
      assert AgreesAt(s.db, x);
    }
  }

  lemma ReturnKeepsInv(s: State, t: nat)
    requires Inv(s) && Enabled(s, Return(t))
    ensures Inv(Apply(s, Return(t)))
  {
    var s' := Apply(s, Return(t));
    forall x | !InFlight(s', x) ensures AgreesAt(s'.db, x) {
      if x == s.flights[t].obj {
        assert FlightOk(s.db, s.flights[t]);
      } else {
        assert forall u | u in s.flights && s.flights[u].obj == x :: u in s'.flights && s'.flights[u].obj == x;
        assert AgreesAt(s.db, x);
      }
    }
  }

  lemma NotInFlightBefore(s: State, t: State, o: Obj)
    requires forall u | u in s.flights :: u in t.flights && t.flights[u].obj == s.flights[u].obj
    requires !InFlight(t, o)
    ensures !InFlight(s, o)
  {
  }

  predicate CanRun(s: State, events: seq<Event>)
    decreases |events|
  {
    events == [] || (Enabled(s, events[0]) && CanRun(Apply(s, events[0]), events[1..]))
  }

  function Run(s: State, events: seq<Event>): State
    requires CanRun(s, events)
    decreases |events|
  {
    if events == [] then s else Run(Apply(s, events[0]), events[1..])
  }

  predicate DistinctRun(s: State, events: seq<Event>)
    requires CanRun(s, events)
    decreases |events|
  {
    events != [] ==> Distinct(s, events[0]) && DistinctRun(Apply(s, events[0]), events[1..])
  }

  predicate CompatibleRun(s: State, events: seq<Event>)
    requires CanRun(s, events)
    decreases |events|
  {
    events != [] ==> Compatible(s, events[0]) && CompatibleRun(Apply(s, events[0]), events[1..])
  }

  lemma {:induction false} DistinctIsCompatible(s: State, events: seq<Event>)
    requires CanRun(s, events) && DistinctRun(s, events)
    ensures CompatibleRun(s, events)
    decreases |events|
  {
    if events != [] {
      DistinctIsCompatible(Apply(s, events[0]), events[1..]);
    }
  }

  lemma {:induction false} RunKeepsInv(s: State, events: seq<Event>)
    requires Inv(s) && CanRun(s, events) && CompatibleRun(s, events)
    ensures Inv(Run(s, events))
    decreases |events|
  {
    if events != [] {
      StepKeepsInv(s, events[0]);
      RunKeepsInv(Apply(s, events[0]), events[1..]);
    }
  }

  lemma AgreeEverywhere(db: Db)
    requires WellFormed(db) && forall o :: AgreesAt(db, o)
    ensures Agrees(db)
  {
    forall p ensures p in db.index <==> p in PostingsOf(db.store) {
      assert AgreesAt(db, p.obj);
      assert p == Posting(p.key, p.obj);
    }
  }

  /** Whatever the interleaving of calls that overlap only on the same side, an object nobody is
      writing is in the store iff it is in the index, and when all calls have returned the whole
      index agrees with the store. */
  lemma CompatibleCallsNeedNoLock(objects: set<Obj>, events: seq<Event>)
    requires CanRun(Init(objects), events) && CompatibleRun(Init(objects), events)
    ensures var s := Run(Init(objects), events);
      && (forall o :: InFlight(s, o) || AgreesAt(s.db, o))
      && (s.flights == map[] ==> Agrees(s.db))
  {
    var s := Run(Init(objects), events);
    RunKeepsInv(Init(objects), events);
    if s.flights == map[] {
      forall o ensures AgreesAt(s.db, o) {
        assert !InFlight(s, o);
      }
      AgreeEverywhere(s.db);
    }
  }

  /** So the class is safe for concurrent writes of different objects, as it documents. */
  lemma DistinctObjectsNeedNoLock(objects: set<Obj>, events: seq<Event>)
    requires CanRun(Init(objects), events) && DistinctRun(Init(objects), events)
    ensures var s := Run(Init(objects), events);
      && (forall o :: InFlight(s, o) || AgreesAt(s.db, o))
      && (s.flights == map[] ==> Agrees(s.db))
  {
    DistinctIsCompatible(Init(objects), events);
    CompatibleCallsNeedNoLock(objects, events);
  }

  lemma Before(s: State, e: Event, rest: seq<Event>, end: State)
    requires Enabled(s, e) && CanRun(Apply(s, e), rest) && Run(Apply(s, e), rest) == end
    ensures CanRun(s, [e] + rest) && Run(s, [e] + rest) == end
  {
    assert ([e] + rest)[1..] == rest;
  }

  lemma {:induction false} RunConcat(s: State, first: seq<Event>, second: seq<Event>)
    requires CanRun(s, first) && CanRun(Run(s, first), second)
    ensures CanRun(s, first + second) && Run(s, first + second) == Run(Run(s, first), second)
    decreases |first|
  {
    if first == [] {
      assert first + second == second;
    } else {
      RunConcat(Apply(s, first[0]), first[1..], second);
      assert (first + second)[1..] == first[1..] + second;
    }
  }

  /** Every call in `events` is on `o`: of kind `a` by thread 0 or of kind `b` by thread 1. */
  predicate CallsOf(events: seq<Event>, o: Obj, a: Kind, b: Kind) {
    forall i | 0 <= i < |events| && events[i].StoreWrite? ::
      events[i].o == o && ((events[i].t == 0 && events[i].kind == a) || (events[i].t == 1 && events[i].kind == b))
  }

  /** A call makes the index writes it owes, and returns. */
  lemma {:induction false} FinishCall(s: State, t: nat) returns (events: seq<Event>)
    requires t in s.flights
    ensures forall i | 0 <= i < |events| :: !events[i].StoreWrite?
    ensures CanRun(s, events)
    ensures var f := s.flights[t];
      Run(s, events) ==
        s.(db := s.db.(index := if f.kind.Adding? then s.db.index + f.pending else s.db.index - f.pending),
           flights := s.flights - {t})
    decreases |s.flights[t].pending|
  {
    var f := s.flights[t];
    if f.pending == {} {
      var s' := Apply(s, Return(t));
      assert CanRun(s', []) && Run(s', []) == s';
      Before(s, Return(t), [], s');
      events := [Return(t)] + [];
      assert s.db.index + {} == s.db.index && s.db.index - {} == s.db.index;
    } else {
      var p :| p in f.pending;
      var s' := Apply(s, IndexWrite(t, p));
      var rest := FinishCall(s', t);
      Before(s, IndexWrite(t, p), rest, Run(s', rest));
      events := [IndexWrite(t, p)] + rest;
      assert s'.flights - {t} == s.flights - {t};
      assert s.db.index + {p} + (f.pending - {p}) == s.db.index + f.pending;
      assert s.db.index - {p} - (f.pending - {p}) == s.db.index - f.pending;
    }
  }

  /** An `add` overtaken between its two writes by a `remove` of the same object leaves postings of
      an object that is not stored, whatever the collection held. */
  lemma AddOvertakenByRemove(objects: set<Obj>, o: Obj, adder: nat, remover: nat) returns (events: seq<Event>)
    requires adder != remover && adder <= 1 && remover <= 1 && o.keys != {}
    ensures CanRun(Init(objects), events)
    ensures CallsOf(events, o, if adder == 0 then Adding else Removing, if adder == 0 then Removing else Adding)
    ensures var s := Run(Init(objects), events);
      s.flights == map[] && o !in s.db.store && PostingsOf({o}) <= s.db.index && !Agrees(s.db)
  {
    var s0 := Init(objects);
    var s1 := Apply(s0, StoreWrite(adder, Adding, o));
    var s2 := Apply(s1, StoreWrite(remover, Removing, o));
    var finish := FinishCall(s2, remover);
    var s3 := Run(s2, finish);
    var last := FinishCall(s3, adder);
    var s4 := Run(s3, last);
    RunConcat(s2, finish, last);
    var rest := finish + last;
    Before(s1, StoreWrite(remover, Removing, o), rest, s4);
    Before(s0, StoreWrite(adder, Adding, o), [StoreWrite(remover, Removing, o)] + rest, s4);
    events := [StoreWrite(adder, Adding, o)] + ([StoreWrite(remover, Removing, o)] + rest);
    assert s4.flights == map[];
    var k :| k in o.keys;
    assert Posting(k, o) in PostingsOf({o});
    assert Posting(k, o) in s4.db.index && Posting(k, o) !in PostingsOf(s4.db.store);
  }

  lemma {:induction false} OneKindIsCompatible(s: State, events: seq<Event>, o: Obj, a: Kind, b: Kind)
    requires CanRun(s, events) && CallsOf(events, o, a, b) && (a == b || o.keys == {})
    requires forall t | t in s.flights :: s.flights[t].obj == o && (a == b ==> s.flights[t].kind == a)
    ensures CompatibleRun(s, events)
    decreases |events|
  {
    if events != [] {
      var t := Apply(s, events[0]);
      assert forall i | 0 <= i < |events[1..]| :: events[1..][i] == events[i + 1];
      OneKindIsCompatible(t, events[1..], o, a, b);
    }
  }

  /** Calls of two threads on one object can end in disagreement exactly if one adds, the other
      removes, and the object has index entries; for any collection to begin with. */
  lemma SameObjectIsSafeForOneKind(objects: set<Obj>, o: Obj, a: Kind, b: Kind)
    ensures (exists events ::
               && CallsOf(events, o, a, b) && CanRun(Init(objects), events)
               && Run(Init(objects), events).flights == map[]
               && !Agrees(Run(Init(objects), events).db))
       <==> a != b && o.keys != {}
  {
    if a != b && o.keys != {} {
      var adder := if a.Adding? then 0 else 1;
      var events := AddOvertakenByRemove(objects, o, adder, 1 - adder);
    } else {
      forall events | CallsOf(events, o, a, b) && CanRun(Init(objects), events)
        ensures Run(Init(objects), events).flights == map[] ==> Agrees(Run(Init(objects), events).db)
      {
        OneKindIsCompatible(Init(objects), events, o, a, b);
        CompatibleCallsNeedNoLock(objects, events);
      }
    }
  }

  // ----- The serial meaning of a history of store writes -----

  /** One call run on its own. */
  function SerialOne(db: Db, kind: Kind, o: Obj): Db {
    if kind.Adding? then Db(db.store + {o}, db.index + PostingsOf({o}))
    else Db(db.store - {o}, db.index - PostingsOf({o}))
  }

  function Serial(db: Db, log: seq<Entry>): Db {
    if log == [] then db
    else
      var last := log[|log| - 1];
      SerialOne(Serial(db, log[..|log| - 1]), last.kind, last.obj)
  }

  /** Every store write reported what the calls before it, run one at a time, would have led to. */
  predicate SerialReports(db: Db, log: seq<Entry>) {
    forall i | 0 <= i < |log| ::
      log[i].changed <==> (log[i].obj in Serial(db, log[..i]).store) != log[i].kind.Adding?
  }

  predicate History(objects: set<Obj>, s: State) {
    var db := Db(objects, PostingsOf(objects));
    && s.db.store == Serial(db, s.log).store
    && SerialReports(db, s.log)
  }

  lemma StepKeepsHistory(objects: set<Obj>, s: State, e: Event)
    requires History(objects, s) && Enabled(s, e)
    ensures History(objects, Apply(s, e))
  {
    var t := Apply(s, e);
    var db := Db(objects, PostingsOf(objects));
    if e.StoreWrite? {
      assert t.log[..|s.log|] == s.log;
      forall i | 0 <= i < |t.log|
        ensures t.log[i].changed <==> (t.log[i].obj in Serial(db, t.log[..i]).store) != t.log[i].kind.Adding?
      {
        assert i < |s.log| ==> t.log[..i] == s.log[..i] && t.log[i] == s.log[i];
      }
    }
  }

  lemma {:induction false} SerialAgrees(db: Db, log: seq<Entry>)
    requires Agrees(db)
    ensures Agrees(Serial(db, log))
    decreases |log|
  {
    if log != [] {
      SerialAgrees(db, log[..|log| - 1]);
      var before := Serial(db, log[..|log| - 1]);
      var last := log[|log| - 1];
      var after := SerialOne(before, last.kind, last.obj);
      assert forall p :: p in after.index <==> p in PostingsOf(after.store);
    }
  }
}
