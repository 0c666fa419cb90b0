/** ObjectLockingIndexedCollection: the same two-step calls, each under the lock of its object's
    stripe. Bulk calls lock one element at a time; removing the last element through an
    iterator that has closed itself locks its stripe twice.
 */
module Stripes {
  import opened Model
  import F = Flights

  // ----- Choosing a stripe -----

  /** Java's `%`: the remainder has the sign of the dividend. */
  function JavaRemainder(a: int, b: int): int
    requires b > 0
  {
    if a >= 0 then a % b else -((-a) % b)
  }

  /** `Math.abs(int)`, which returns the smallest int unchanged. */
  function JavaAbs(a: int): int {
    if a == -0x8000_0000 then a else if a < 0 then -a else a
  }

  function StripeIndex(hash: Int32, level: Int32): int
    requires level > 0
  {
    JavaAbs(JavaRemainder(hash, level))
  }

  function Magnitude(hash: int): nat {
    if hash < 0 then -hash else hash
  }

  /** Every hash code, the smallest included, selects an existing stripe: its magnitude modulo the level. */
  lemma StripeSelection(hash: Int32, level: Int32)
    requires level > 0
    ensures 0 <= StripeIndex(hash, level) < level
    ensures StripeIndex(hash, level) == Magnitude(hash) % level
  {
    var m := Magnitude(hash) % level;
    assert 0 <= m < level;
    assert JavaRemainder(hash, level) == if hash >= 0 then m else -m;
  }

  class ReentrantLock {
    constructor () {
    }
  }

  class StripedLock {
    const concurrencyLevel: Int32
    const locks: array<ReentrantLock?>

    ghost predicate Valid()
      reads this, locks
    {
      && concurrencyLevel > 0 && locks.Length == concurrencyLevel
      && (forall i | 0 <= i < locks.Length :: locks[i] != null)
      && (forall i, j | 0 <= i < j < locks.Length :: locks[i] != locks[j])
    }

    constructor (level: Int32)
      requires level > 0
      ensures Valid() && concurrencyLevel == level && fresh(locks)
    {
      concurrencyLevel := level;
      locks := new ReentrantLock?[level](_ => null);
      new;
      for i := 0 to level
        invariant fresh(locks) && locks.Length == level
        invariant forall j | 0 <= j < i :: locks[j] != null && fresh(locks[j])
        invariant forall j, k | 0 <= j < k < i :: locks[j] != locks[k]
      {
        locks[i] := new ReentrantLock();
      }
    }

    method GetLockForObject(o: Obj) returns (lock: ReentrantLock)
      requires Valid()
      ensures exists i :: 0 <= i < locks.Length && locks[i] == lock
      ensures forall other: Obj ::
                StripeIndex(o.hash, concurrencyLevel) == StripeIndex(other.hash, concurrencyLevel) <==>
                lock == LockOf(other)
    {
      StripeSelection(o.hash, concurrencyLevel);
      lock := locks[StripeIndex(o.hash, concurrencyLevel)];
      forall other: Obj
        ensures StripeIndex(o.hash, concurrencyLevel) == StripeIndex(other.hash, concurrencyLevel)
           <==> lock == LockOf(other)
      {
        StripeSelection(other.hash, concurrencyLevel);
      }
    }

    ghost function LockOf(o: Obj): ReentrantLock?
      requires Valid()
      reads this, locks
    {
      StripeSelection(o.hash, concurrencyLevel);
      locks[StripeIndex(o.hash, concurrencyLevel)]
    }
  }

  // ----- The machine -----

  datatype Call =
    | Add(o: Obj) | Remove(o: Obj)
    | AddAll(os: seq<Obj>) | RemoveAll(os: seq<Obj>)
    | IteratorRemove(o: Obj, autoClosed: bool)

  function KindOf(c: Call): F.Kind {
    if c.Add? || c.AddAll? then F.Adding else F.Removing
  }

  function Elements(c: Call): seq<Obj> {
    match c
    case Add(o) => [o]
    case Remove(o) => [o]
    case AddAll(os) => os
    case RemoveAll(os) => os
    case IteratorRemove(o, _) => [o]
  }

  /** How often the stripe is locked around the writes. */
  function Depth(c: Call): nat {
    if c.IteratorRemove? && c.autoClosed then 2 else 1
  }

  datatype Pc = Ready | Locked(depth: nat) | Writing(depth: nat, pending: set<Posting>)

  /** A call in progress: `todo` starts with the element in hand, `first` is where in the log
      of store writes the call began. */
  datatype Thread = Thread(call: Call, todo: seq<Obj>, pc: Pc, modified: bool, first: nat)

  datatype Hold = Hold(owner: nat, count: nat)

  /** A call that returned `modified`; its store writes are in `log[first..last]`. */
  datatype Result = Result(thread: nat, call: Call, modified: bool, first: nat, last: nat)

  datatype State = State(level: Int32, db: Db, threads: map<nat, Thread>, locks: map<int, Hold>,
                         log: seq<F.Entry>, results: seq<Result>)

  datatype Event =
    | Start(t: nat, call: Call) | Lock(t: nat) | StoreWrite(t: nat) | IndexWrite(t: nat, p: Posting)
    | Unlock(t: nat) | Return(t: nat)

  function Stripe(s: State, o: Obj): int
    requires s.level > 0
  {
    StripeIndex(o.hash, s.level)
  }

  function Count(pc: Pc): nat {
    if pc.Ready? then 0 else pc.depth
  }

  predicate Enabled(s: State, e: Event) {
    && s.level > 0
    && if e.Start? then e.t !in s.threads
       else
         && e.t in s.threads
         && var me := s.threads[e.t];
         && (!e.Return? ==> me.todo != [])
         && match e
            case Lock(t) =>
              && !me.pc.Writing? && Count(me.pc) < Depth(me.call)
              && var i := Stripe(s, me.todo[0]);
                 i !in s.locks || s.locks[i].owner == t
            case StoreWrite(_) => me.pc == Locked(Depth(me.call))
            case IndexWrite(_, p) => me.pc.Writing? && p in me.pc.pending
            case Unlock(_) => me.pc.Writing? && me.pc.pending == {} && me.pc.depth > 0
            case _ => me.pc.Ready? && me.todo == []
  }

  function Apply(s: State, e: Event): State
    requires Enabled(s, e)
  {
    match e
    case Start(t, call) =>
      s.(threads := s.threads[t := Thread(call, Elements(call), Ready, false, |s.log|)])
    case Lock(t) =>
      var me := s.threads[t];
      var n := Count(me.pc) + 1;
      s.(threads := s.threads[t := me.(pc := Locked(n))], locks := s.locks[Stripe(s, me.todo[0]) := Hold(t, n)])
    case StoreWrite(t) =>
      var me := s.threads[t];
      var o, kind := me.todo[0], KindOf(me.call);
      var changed := (o in s.db.store) != kind.Adding?;
      s.(db := s.db.(store := if kind.Adding? then s.db.store + {o} else s.db.store - {o}),
         threads := s.threads[t := me.(pc := Writing(me.pc.depth, PostingsOf({o})), modified := changed || me.modified)],
         log := s.log + [F.Entry(t, kind, o, changed)])
    case IndexWrite(t, p) =>
      var me := s.threads[t];
      s.(db := s.db.(index := if KindOf(me.call).Adding? then s.db.index + {p} else s.db.index - {p}),
         threads := s.threads[t := me.(pc := me.pc.(pending := me.pc.pending - {p}))])
    case Unlock(t) =>
      var me := s.threads[t];
      var i := Stripe(s, me.todo[0]);
      if me.pc.depth > 1 then
        s.(threads := s.threads[t := me.(pc := me.pc.(depth := me.pc.depth - 1))],
           locks := s.locks[i := Hold(t, me.pc.depth - 1)])
      else
        s.(threads := s.threads[t := me.(pc := Ready, todo := me.todo[1..])], locks := s.locks - {i})
    case Return(t) =>
      var me := s.threads[t];
      s.(threads := s.threads - {t},
         results := s.results + [Result(t, me.call, me.modified, me.first, |s.log|)])
  }

  function Init(level: Int32, objects: set<Obj>): State {
    State(level, Db(objects, PostingsOf(objects)), map[], map[], [], [])
  }

  predicate CanRun(s: State, events: seq<Event>)
    decreases |events|
  {
    events == [] || (Enabled(s, events[0]) && CanRun(Apply(s, events[0]), events[1..]))
  }

  function Run(s: State, events: seq<Event>): State
    requires CanRun(s, events)
    decreases |events|
  {
    if events == [] then s else Run(Apply(s, events[0]), events[1..])
  }

  // ----- Lock discipline -----

  /** A thread that is not between elements holds its element's stripe, as often as it locked it. */
  predicate HoldsItsStripe(level: Int32, locks: map<int, Hold>, t: nat, me: Thread)
    requires level > 0
  {
    !me.pc.Ready? ==>
      && me.todo != []
      && 0 < me.pc.depth <= Depth(me.call)
      && StripeIndex(me.todo[0].hash, level) in locks
      && locks[StripeIndex(me.todo[0].hash, level)] == Hold(t, me.pc.depth)
  }

  /** A held stripe is that of its owner's element in hand. */
  predicate IsHeldFor(level: Int32, threads: map<nat, Thread>, i: int, owner: nat)
    requires level > 0
  {
    && owner in threads
    && !threads[owner].pc.Ready?
    && threads[owner].todo != []
    && StripeIndex(threads[owner].todo[0].hash, level) == i
  }

  predicate LocksOk(s: State) {
    && s.level > 0
    && (forall t | t in s.threads :: HoldsItsStripe(s.level, s.locks, t, s.threads[t]))
    && (forall i | i in s.locks :: IsHeldFor(s.level, s.threads, i, s.locks[i].owner))
  }

  lemma StepKeepsLocks(s: State, e: Event)
    requires LocksOk(s) && Enabled(s, e)
    ensures LocksOk(Apply(s, e))
  {
    var s' := Apply(s, e);
    forall t | t in s'.threads ensures HoldsItsStripe(s'.level, s'.locks, t, s'.threads[t]) {
      if t in s.threads {
        assert HoldsItsStripe(s.level, s.locks, t, s.threads[t]);
      }
      StepKeepsThreadLock(s, e, t);
    }
    forall i | i in s'.locks ensures IsHeldFor(s'.level, s'.threads, i, s'.locks[i].owner) {
      StepKeepsHeld(s, e, i);
    }
  }

  lemma StepKeepsThreadLock(s: State, e: Event, t: nat)
    requires LocksOk(s) && Enabled(s, e) && t in Apply(s, e).threads
    ensures var s' := Apply(s, e); HoldsItsStripe(s'.level, s'.locks, t, s'.threads[t])
  {
    if t in s.threads {
      assert HoldsItsStripe(s.level, s.locks, t, s.threads[t]);
    }
    if e.t in s.threads {
      assert HoldsItsStripe(s.level, s.locks, e.t, s.threads[e.t]);
    }
  }

  lemma StepKeepsHeld(s: State, e: Event, i: int)
    requires LocksOk(s) && Enabled(s, e) && i in Apply(s, e).locks
    ensures var s' := Apply(s, e); IsHeldFor(s'.level, s'.threads, i, s'.locks[i].owner)
  {
    if i in s.locks {
      assert IsHeldFor(s.level, s.threads, i, s.locks[i].owner);
    }
    if e.t in s.threads {
      assert HoldsItsStripe(s.level, s.locks, e.t, s.threads[e.t]);
    }
  }

  // ----- Refinement: the locks enforce the discipline of module Flights -----

  function Abstract(s: State): F.State {
    F.State(s.db,
            map t | t in s.threads && s.threads[t].pc.Writing? && s.threads[t].todo != [] ::
              F.Flight(KindOf(s.threads[t].call), s.threads[t].todo[0], s.threads[t].pc.pending),
            s.log)
  }

  /** Two threads writing the same object would hold the same stripe. */
  lemma StoreWriteIsDistinct(s: State, t: nat)
    requires LocksOk(s) && Enabled(s, StoreWrite(t))
    ensures t !in Abstract(s).flights
    ensures forall u | u in Abstract(s).flights :: Abstract(s).flights[u].obj != s.threads[t].todo[0]
  {
    var o := s.threads[t].todo[0];
    assert HoldsItsStripe(s.level, s.locks, t, s.threads[t]);
    forall u | u in Abstract(s).flights ensures Abstract(s).flights[u].obj != o {
      assert HoldsItsStripe(s.level, s.locks, u, s.threads[u]);
      assert s.locks[Stripe(s, s.threads[u].todo[0])].owner == u;
      assert s.locks[Stripe(s, o)].owner == t;
    }
  }

  /** A locked store write is an unlocked one that keeps to the discipline. */
  lemma StoreWriteRefines(s: State, t: nat)
    requires LocksOk(s) && Enabled(s, StoreWrite(t))
    ensures var e := F.StoreWrite(t, KindOf(s.threads[t].call), s.threads[t].todo[0]);
      && F.Enabled(Abstract(s), e) && F.Distinct(Abstract(s), e)
      && Abstract(Apply(s, StoreWrite(t))) == F.Apply(Abstract(s), e)
  {
    StoreWriteIsDistinct(s, t);
    var e := F.StoreWrite(t, KindOf(s.threads[t].call), s.threads[t].todo[0]);
    assert Abstract(Apply(s, StoreWrite(t))).flights == F.Apply(Abstract(s), e).flights;
  }

  lemma IndexWriteRefines(s: State, t: nat, p: Posting)
    requires LocksOk(s) && Enabled(s, IndexWrite(t, p))
    ensures F.Enabled(Abstract(s), F.IndexWrite(t, p))
    ensures Abstract(Apply(s, IndexWrite(t, p))) == F.Apply(Abstract(s), F.IndexWrite(t, p))
  {
    assert Abstract(Apply(s, IndexWrite(t, p))).flights == F.Apply(Abstract(s), F.IndexWrite(t, p)).flights;
  }

  /** Releasing the outer lock is the return of the unlocked call. */
  lemma OuterUnlockRefines(s: State, t: nat)
    requires LocksOk(s) && Enabled(s, Unlock(t)) && s.threads[t].pc.depth == 1
    ensures F.Enabled(Abstract(s), F.Event.Return(t))
    ensures Abstract(Apply(s, Unlock(t))) == F.Apply(Abstract(s), F.Event.Return(t))
  {
    assert Abstract(Apply(s, Unlock(t))).flights == F.Apply(Abstract(s), F.Event.Return(t)).flights;
  }

  /** Releasing an inner lock is nothing. */
  lemma InnerUnlockRefines(s: State, t: nat)
    requires LocksOk(s) && Enabled(s, Unlock(t)) && s.threads[t].pc.depth > 1
    ensures Abstract(Apply(s, Unlock(t))) == Abstract(s)
  {
    assert Abstract(Apply(s, Unlock(t))).flights == Abstract(s).flights;
  }

  lemma OtherStepsRefine(s: State, e: Event)
    requires LocksOk(s) && Enabled(s, e) && (e.Start? || e.Lock? || e.Return?)
    ensures Abstract(Apply(s, e)) == Abstract(s)
  {
    assert Abstract(Apply(s, e)).flights == Abstract(s).flights;
  }

  // ----- Results -----

  /** The store writes of thread `t` from position `first` on. */
  function Own(log: seq<F.Entry>, t: nat, first: nat): seq<F.Entry>
    decreases |log|
  {
    if |log| <= first then []
    else
      var last := log[|log| - 1];
      Own(log[..|log| - 1], t, first) + (if last.thread == t then [last] else [])
  }

  predicate AnyChanged(log: seq<F.Entry>) {
    exists i :: 0 <= i < |log| && log[i].changed
  }

  /** `own` are one store write for each of `objects`, in order, and `modified` is whether any changed the store. */
  predicate Accounts(own: seq<F.Entry>, kind: F.Kind, objects: seq<Obj>, modified: bool) {
    && |own| == |objects|
    && (forall i | 0 <= i < |own| :: own[i].kind == kind && own[i].obj == objects[i])
    && (modified <==> AnyChanged(own))
  }

  predicate ThreadOk(log: seq<F.Entry>, t: nat, me: Thread) {
    && me.first <= |log|
    && |me.todo| <= |Elements(me.call)|
    && (me.pc.Writing? ==> me.todo != [])
    && var done := |Elements(me.call)| - |me.todo|;
    && me.todo == Elements(me.call)[done..]
    && Accounts(Own(log, t, me.first), KindOf(me.call),
                Elements(me.call)[..done + (if me.pc.Writing? then 1 else 0)], me.modified)
  }

  predicate ResultOk(log: seq<F.Entry>, r: Result) {
    && r.first <= r.last <= |log|
    && Accounts(Own(log[..r.last], r.thread, r.first), KindOf(r.call), Elements(r.call), r.modified)
  }

  predicate ResultsOk(s: State) {
    && ThreadsOk(s)
    && (forall i | 0 <= i < |s.results| :: ResultOk(s.log, s.results[i]))
  }

  lemma AccountsOneMore(own: seq<F.Entry>, kind: F.Kind, objects: seq<Obj>, modified: bool, e: F.Entry)
    requires Accounts(own, kind, objects, modified) && e.kind == kind
    ensures Accounts(own + [e], kind, objects + [e.obj], e.changed || modified)
  {
    var more := own + [e];
    if e.changed {
      assert more[|own|].changed;
    } else if modified {
      var i :| 0 <= i < |own| && own[i].changed;
      assert more[i].changed;
    }
  }

  lemma OwnAppend(log: seq<F.Entry>, e: F.Entry, t: nat, first: nat)
    requires first <= |log|
    ensures Own(log + [e], t, first) == Own(log, t, first) + (if e.thread == t then [e] else [])
  {
    assert (log + [e])[..|log|] == log;
  }

  lemma OtherWrites(log: seq<F.Entry>, e: F.Entry, t: nat, me: Thread)
    requires ThreadOk(log, t, me) && e.thread != t
    ensures ThreadOk(log + [e], t, me)
  {
    OwnAppend(log, e, t, me.first);
    assert Own(log + [e], t, me.first) == Own(log, t, me.first);
  }

  lemma ThreadWrites(log: seq<F.Entry>, e: F.Entry, t: nat, me: Thread, pc: Pc)
    requires ThreadOk(log, t, me) && me.todo != [] && !me.pc.Writing? && pc.Writing?
    requires e.thread == t && e.kind == KindOf(me.call) && e.obj == me.todo[0]
    ensures ThreadOk(log + [e], t, me.(pc := pc, modified := e.changed || me.modified))
  {
    var all := Elements(me.call);
    var done := |all| - |me.todo|;
    OwnAppend(log, e, t, me.first);
    AccountsOneMore(Own(log, t, me.first), KindOf(me.call), all[..done], me.modified, e);
    TakeOneMore(all, done, me.todo);
  }

  lemma TakeOneMore(all: seq<Obj>, done: nat, todo: seq<Obj>)
    requires done < |all| && todo == all[done..]
    ensures all[..done] + [todo[0]] == all[..done + 1]
  {
  }

  lemma ThreadMovesOn(log: seq<F.Entry>, t: nat, me: Thread)
    requires ThreadOk(log, t, me) && me.pc.Writing?
    ensures ThreadOk(log, t, me.(pc := Ready, todo := me.todo[1..]))
  {
    var done := |Elements(me.call)| - |me.todo|;
    assert Elements(me.call)[done..][1..] == Elements(me.call)[done + 1..];
  }

  lemma CallStarts(log: seq<F.Entry>, t: nat, call: Call)
    ensures ThreadOk(log, t, Thread(call, Elements(call), Ready, false, |log|))
  {
    assert Elements(call)[..0] == [];
  }

  predicate ThreadsOk(s: State) {
    forall t | t in s.threads :: ThreadOk(s.log, t, s.threads[t])
  }

  lemma StoreWriteKeepsThreads(s: State, t: nat)
    requires ThreadsOk(s) && Enabled(s, StoreWrite(t))
    ensures ThreadsOk(Apply(s, StoreWrite(t)))
  {
    var s' := Apply(s, StoreWrite(t));
    var e := s'.log[|s.log|];
    forall u | u in s'.threads ensures ThreadOk(s'.log, u, s'.threads[u]) {
      if u == t {
        ThreadWrites(s.log, e, t, s.threads[t], s'.threads[t].pc);
      } else {
        OtherWrites(s.log, e, u, s.threads[u]);
      }
    }
  }

  lemma UnlockKeepsThreads(s: State, t: nat)
    requires ThreadsOk(s) && Enabled(s, Unlock(t))
    ensures ThreadsOk(Apply(s, Unlock(t)))
  {
    var s' := Apply(s, Unlock(t));
    forall u | u in s'.threads ensures ThreadOk(s'.log, u, s'.threads[u]) {
      if u != t {
        assert ThreadOk(s.log, u, s.threads[u]);
      } else if s.threads[t].pc.depth == 1 {
        ThreadMovesOn(s.log, t, s.threads[t]);
      } else {
        PcMoves(s.log, t, s.threads[t], s'.threads[t].pc);
      }
    }
  }

  /** Locking and index writes are no concern of the accounts. */
  lemma PcMoves(log: seq<F.Entry>, t: nat, me: Thread, pc: Pc)
    requires ThreadOk(log, t, me) && me.pc.Writing? == pc.Writing?
    ensures ThreadOk(log, t, me.(pc := pc))
  {
  }

  lemma ThreadReplaced(log: seq<F.Entry>, threads: map<nat, Thread>, t: nat, me: Thread, all: map<nat, Thread>)
    requires (forall u | u in threads :: ThreadOk(log, u, threads[u])) && ThreadOk(log, t, me)
    requires all == threads[t := me]
    ensures forall u | u in all :: ThreadOk(log, u, all[u])
  {
  }

  lemma OtherStepsKeepThreads(s: State, e: Event)
    requires ThreadsOk(s) && Enabled(s, e) && !e.StoreWrite? && !e.Unlock?
    ensures ThreadsOk(Apply(s, e))
  {
    var s' := Apply(s, e);
    assert s'.log == s.log;
    if e.Start? {
      CallStarts(s.log, e.t, e.call);
      ThreadReplaced(s.log, s.threads, e.t, s'.threads[e.t], s'.threads);
    } else if e.Return? {
      assert s'.threads == s.threads - {e.t};
    } else {
      PcMoves(s.log, e.t, s.threads[e.t], s'.threads[e.t].pc);
      ThreadReplaced(s.log, s.threads, e.t, s'.threads[e.t], s'.threads);
    }
  }

  lemma ReturnOk(log: seq<F.Entry>, t: nat, me: Thread)
    requires ThreadOk(log, t, me) && me.todo == [] && me.pc.Ready?
    ensures ResultOk(log, Result(t, me.call, me.modified, me.first, |log|))
  {
    assert log[..|log|] == log;
    assert Elements(me.call)[..|Elements(me.call)|] == Elements(me.call);
  }

  lemma ResultLasts(log: seq<F.Entry>, more: seq<F.Entry>, r: Result)
    requires ResultOk(log, r)
    ensures ResultOk(log + more, r)
  {
    assert (log + more)[..r.last] == log[..r.last];
  }

  lemma StepKeepsResults(s: State, e: Event)
    requires ResultsOk(s) && Enabled(s, e)
    ensures ResultsOk(Apply(s, e))
  {
    var t := Apply(s, e);
    match e {
      case StoreWrite(u) => StoreWriteKeepsThreads(s, u);
      case Unlock(u) => UnlockKeepsThreads(s, u);
      case _ => OtherStepsKeepThreads(s, e);
    }
    ResultsLast(s, e);
  }

  lemma ResultsLast(s: State, e: Event)
    requires ResultsOk(s) && Enabled(s, e)
    ensures var t := Apply(s, e); forall i | 0 <= i < |t.results| :: ResultOk(t.log, t.results[i])
  {
    var t := Apply(s, e);
    if e.Return? {
      ReturnOk(s.log, e.t, s.threads[e.t]);
      AppendResult(s.log, s.results, t.results[|s.results|]);
    } else {
      assert t.results == s.results;
      assert t.log == s.log + t.log[|s.log|..];
      AllResultsLast(s.log, t.log[|s.log|..], s.results);
    }
  }

  lemma AppendResult(log: seq<F.Entry>, results: seq<Result>, r: Result)
    requires (forall i | 0 <= i < |results| :: ResultOk(log, results[i])) && ResultOk(log, r)
    ensures forall i | 0 <= i < |results + [r]| :: ResultOk(log, (results + [r])[i])
  {
  }

  lemma AllResultsLast(log: seq<F.Entry>, more: seq<F.Entry>, results: seq<Result>)
    requires forall i | 0 <= i < |results| :: ResultOk(log, results[i])
    ensures forall i | 0 <= i < |results| :: ResultOk(log + more, results[i])
  {
    forall i | 0 <= i < |results| ensures ResultOk(log + more, results[i]) {
      ResultLasts(log, more, results[i]);
    }
  }

  // ----- The invariant and the theorems -----

  ghost predicate Inv(objects: set<Obj>, s: State) {
    && LocksOk(s)
    && ResultsOk(s)
    && F.Inv(Abstract(s))
    && F.History(objects, Abstract(s))
  }

  lemma InitInv(level: Int32, objects: set<Obj>)
    requires level > 0
    ensures Inv(objects, Init(level, objects))
  {
    var s := Init(level, objects);
    assert Abstract(s) == F.Init(objects);
  }

  lemma StepKeepsInv(objects: set<Obj>, s: State, e: Event)
    requires Inv(objects, s) && Enabled(s, e)
    ensures Inv(objects, Apply(s, e))
  {
    StepKeepsLocks(s, e);
    StepKeepsResults(s, e);
    match e {
      case StoreWrite(t) =>
        StoreWriteRefines(s, t);
        FlightKeepsInv(objects, Abstract(s), F.StoreWrite(t, KindOf(s.threads[t].call), s.threads[t].todo[0]));
      case IndexWrite(t, p) =>
        IndexWriteRefines(s, t, p);
        FlightKeepsInv(objects, Abstract(s), F.IndexWrite(t, p));
      case Unlock(t) =>
        if s.threads[t].pc.depth > 1 {
          InnerUnlockRefines(s, t);
        } else {
          OuterUnlockRefines(s, t);
          FlightKeepsInv(objects, Abstract(s), F.Event.Return(t));
        }
      case _ =>
        OtherStepsRefine(s, e);
    }
  }

  lemma FlightKeepsInv(objects: set<Obj>, s: F.State, e: F.Event)
    requires F.Inv(s) && F.History(objects, s) && F.Enabled(s, e) && F.Compatible(s, e)
    ensures F.Inv(F.Apply(s, e)) && F.History(objects, F.Apply(s, e))
  {
    F.StepKeepsInv(s, e);
    F.StepKeepsHistory(objects, s, e);
  }

  lemma {:induction false} RunKeepsInv(objects: set<Obj>, s: State, events: seq<Event>)
    requires Inv(objects, s) && CanRun(s, events)
    ensures Inv(objects, Run(s, events))
    decreases |events|
  {
    if events != [] {
      StepKeepsInv(objects, s, events[0]);
      RunKeepsInv(objects, Apply(s, events[0]), events[1..]);
    }
  }

  lemma FreeStripeAgrees(s: State, o: Obj)
    requires LocksOk(s) && F.Inv(Abstract(s)) && Stripe(s, o) !in s.locks
    ensures F.AgreesAt(s.db, o)
  {
    forall t | t in Abstract(s).flights ensures Stripe(s, Abstract(s).flights[t].obj) in s.locks {
      assert HoldsItsStripe(s.level, s.locks, t, s.threads[t]);
    }
    assert F.InFlight(Abstract(s), o) || F.AgreesAt(Abstract(s).db, o);
  }

  /** In every interleaving of locked calls, over equal and different objects alike, an object
      whose stripe is free is in the store iff it is in the index. */
  lemma FreeStripesAgree(level: Int32, objects: set<Obj>, events: seq<Event>, o: Obj)
    requires level > 0 && CanRun(Init(level, objects), events)
    requires var s := Run(Init(level, objects), events); s.level > 0 ==> Stripe(s, o) !in s.locks
    ensures F.AgreesAt(Run(Init(level, objects), events).db, o)
  {
    var s := Run(Init(level, objects), events);
    InitInv(level, objects);
    RunKeepsInv(objects, Init(level, objects), events);
    FreeStripeAgrees(s, o);
  }

  /** Every interleaving is equivalent to running the element operations one at a time in the
      order of their store writes: same store at any time, same store and index when all stripes
      are free, and the same answer from every store write. */
  lemma LockedCallsSerialize(level: Int32, objects: set<Obj>, events: seq<Event>)
    requires level > 0 && CanRun(Init(level, objects), events)
    ensures var s := Run(Init(level, objects), events);
      var db := Db(objects, PostingsOf(objects));
      && s.db.store == F.Serial(db, s.log).store
      && F.SerialReports(db, s.log)
      && (s.locks == map[] ==> s.db == F.Serial(db, s.log))
  {
    var s := Run(Init(level, objects), events);
    var db := Db(objects, PostingsOf(objects));
    InitInv(level, objects);
    RunKeepsInv(objects, Init(level, objects), events);
    if s.locks == map[] {
      forall o ensures F.AgreesAt(s.db, o) {
        FreeStripesAgree(level, objects, events, o);
      }
      F.AgreeEverywhere(s.db);
      F.SerialAgrees(db, s.log);
    }
  }

  /** A returned call made exactly one store write per element, in order and between its start and
      its return: an addition for each if it was to add, a removal for each if it was to remove; and it
      reported whether any of them changed the store. */
  lemma ResultsMatchSerialOrder(level: Int32, objects: set<Obj>, events: seq<Event>, i: nat)
    requires level > 0 && CanRun(Init(level, objects), events)
    requires i < |Run(Init(level, objects), events).results|
    ensures var s := Run(Init(level, objects), events); var r := s.results[i];
      && r.first <= r.last <= |s.log|
      && var own := Own(s.log[..r.last], r.thread, r.first);
         match r.call
         case Add(o) => Accounts(own, F.Adding, [o], r.modified)
         case Remove(o) => Accounts(own, F.Removing, [o], r.modified)
         case AddAll(os) => Accounts(own, F.Adding, os, r.modified)
         case RemoveAll(os) => Accounts(own, F.Removing, os, r.modified)
         case IteratorRemove(o, _) => Accounts(own, F.Removing, [o], r.modified)
  {
    var s := Run(Init(level, objects), events);
    InitInv(level, objects);
    RunKeepsInv(objects, Init(level, objects), events);
    assert ResultOk(s.log, s.results[i]);
  }

  // ----- A call on its own -----

  predicate OnlyThread(events: seq<Event>, t: nat) {
    forall i | 0 <= i < |events| :: events[i].t == t
  }

  /** What one thread alone has led to, up to the return of its first call. */
  predicate FirstCall(s: State, t: nat) {
    && s.threads.Keys <= {t}
    && (forall i | 0 <= i < |s.log| :: s.log[i].thread == t)
    && (s.results == [] && t in s.threads ==> s.threads[t].first == 0)
    && (s.results == [] && t !in s.threads ==> s.log == [])
    && (|s.results| == 1 && t !in s.threads ==>
          s.results[0].thread == t && s.results[0].first == 0 && s.results[0].last == |s.log|)
  }

  lemma StepKeepsFirstCall(s: State, e: Event)
    requires Enabled(s, e) && FirstCall(s, e.t)
    ensures FirstCall(Apply(s, e), e.t)
  {
  }

  lemma {:induction false} RunKeepsFirstCall(s: State, events: seq<Event>, t: nat)
    requires CanRun(s, events) && OnlyThread(events, t) && FirstCall(s, t)
    ensures FirstCall(Run(s, events), t)
    decreases |events|
  {
    if events != [] {
      StepKeepsFirstCall(s, events[0]);
      RunKeepsFirstCall(Apply(s, events[0]), events[1..], t);
    }
  }

  lemma {:induction false} OwnIsAll(log: seq<F.Entry>, t: nat)
    requires forall i | 0 <= i < |log| :: log[i].thread == t
    ensures Own(log, t, 0) == log
    decreases |log|
  {
    if log != [] {
      OwnIsAll(log[..|log| - 1], t);
    }
  }

  /** One write of each of `objects`, one at a time, is one write of all of them. */
  lemma {:induction false} SerialAddsUp(db: Db, log: seq<F.Entry>, kind: F.Kind, objects: seq<Obj>)
    requires |log| == |objects| && F.SerialReports(db, log)
    requires forall i | 0 <= i < |log| :: log[i].kind == kind && log[i].obj == objects[i]
    ensures F.Serial(db, log).store == if kind.Adding? then db.store + SetOf(objects) else db.store - SetOf(objects)
    ensures AnyChanged(log) <==> F.Serial(db, log).store != db.store
    decreases |log|
  {
    if log != [] {
      var n := |log| - 1;
      ReportsSoFar(db, log, n);
      SerialAddsUp(db, log[..n], kind, objects[..n]);
      var before, after := F.Serial(db, log[..n]).store, F.Serial(db, log).store;
      OneMoreWrite(db.store, before, after, kind, objects);
      OneMoreChange(db.store, before, after, log, kind);
    }
  }

  lemma ReportsSoFar(db: Db, log: seq<F.Entry>, n: nat)
    requires F.SerialReports(db, log) && n <= |log|
    ensures F.SerialReports(db, log[..n])
  {
    assert forall i | 0 <= i < n :: log[..n][..i] == log[..i];
  }

  lemma OneMoreWrite(was: set<Obj>, before: set<Obj>, after: set<Obj>, kind: F.Kind, objects: seq<Obj>)
    requires objects != []
    requires var n := |objects| - 1;
      if kind.Adding? then before == was + SetOf(objects[..n]) && after == before + {objects[n]}
      else before == was - SetOf(objects[..n]) && after == before - {objects[n]}
    ensures after == if kind.Adding? then was + SetOf(objects) else was - SetOf(objects)
  {
    SetOfNext(objects, |objects| - 1);
    assert objects[..|objects|] == objects;
  }

  lemma OneMoreChange(was: set<Obj>, before: set<Obj>, after: set<Obj>, log: seq<F.Entry>, kind: F.Kind)
    requires log != []
    requires var last := log[|log| - 1];
      && after == (if kind.Adding? then before + {last.obj} else before - {last.obj})
      && (last.changed <==> (last.obj in before) != kind.Adding?)
    requires if kind.Adding? then was <= before else before <= was
    requires AnyChanged(log[..|log| - 1]) <==> before != was
    ensures AnyChanged(log) <==> after != was
  {
    var n := |log| - 1;
    if before != was {
      var i :| 0 <= i < n && log[..n][i].changed;
      assert log[i].changed;
    } else {
      assert forall i | 0 <= i < n :: log[i] == log[..n][i];
      assert log[n].changed <==> after != was;
    }
  }

  /** A call that runs alone does and reports what its name says, as on a set, and leaves store and
      index in agreement. */
  lemma CallAloneActsAsOnSet(level: Int32, objects: set<Obj>, events: seq<Event>, t: nat)
    requires level > 0 && CanRun(Init(level, objects), events) && OnlyThread(events, t)
    requires var s := Run(Init(level, objects), events); s.threads == map[] && |s.results| == 1
    ensures var s := Run(Init(level, objects), events);
      && s.db.index == PostingsOf(s.db.store)
      && s.locks == map[]
      && s.db.store == (match s.results[0].call
                        case Add(o) => objects + {o}
                        case Remove(o) => objects - {o}
                        case AddAll(os) => objects + SetOf(os)
                        case RemoveAll(os) => objects - SetOf(os)
                        case IteratorRemove(o, _) => objects - {o})
      && (s.results[0].modified <==> s.db.store != objects)
  {
    var s := Run(Init(level, objects), events);
    AloneInTheLog(level, objects, events, t);
    ResultsMatchSerialOrder(level, objects, events, 0);
    var db, r := Db(objects, PostingsOf(objects)), s.results[0];
    match r.call {
      case Add(o) => AccountsAddUp(db, s.log, F.Adding, [o], r.modified);
      case Remove(o) => AccountsAddUp(db, s.log, F.Removing, [o], r.modified);
      case AddAll(os) => AccountsAddUp(db, s.log, F.Adding, os, r.modified);
      case RemoveAll(os) => AccountsAddUp(db, s.log, F.Removing, os, r.modified);
      case IteratorRemove(o, _) => AccountsAddUp(db, s.log, F.Removing, [o], r.modified);
    }
  }

  lemma AccountsAddUp(db: Db, own: seq<F.Entry>, kind: F.Kind, objects: seq<Obj>, modified: bool)
    requires Accounts(own, kind, objects, modified) && F.SerialReports(db, own)
    ensures var after := F.Serial(db, own).store;
      && after == (if kind.Adding? then db.store + SetOf(objects) else db.store - SetOf(objects))
      && (|objects| == 1 ==> after == if kind.Adding? then db.store + {objects[0]} else db.store - {objects[0]})
      && (modified <==> after != db.store)
  {
    SerialAddsUp(db, own, kind, objects);
    assert |objects| == 1 ==> SetOf(objects) == {objects[0]};
  }

  lemma AloneInTheLog(level: Int32, objects: set<Obj>, events: seq<Event>, t: nat)
    requires level > 0 && CanRun(Init(level, objects), events) && OnlyThread(events, t)
    requires var s := Run(Init(level, objects), events); s.threads == map[] && |s.results| == 1
    ensures var s := Run(Init(level, objects), events);
      var db, r := Db(objects, PostingsOf(objects)), s.results[0];
      && r.first <= r.last <= |s.log| && Own(s.log[..r.last], r.thread, r.first) == s.log
      && s.locks == map[] && s.db == F.Serial(db, s.log) && F.SerialReports(db, s.log) && Agrees(s.db)
  {
    var s := Run(Init(level, objects), events);
    RunKeepsFirstCall(Init(level, objects), events, t);
    OwnIsAll(s.log, t);
    assert s.log[..|s.log|] == s.log;
    NoLocksLeft(level, objects, events);
    LockedCallsSerialize(level, objects, events);
    F.SerialAgrees(Db(objects, PostingsOf(objects)), s.log);
  }

  lemma NoLocksLeft(level: Int32, objects: set<Obj>, events: seq<Event>)
    requires level > 0 && CanRun(Init(level, objects), events)
    requires Run(Init(level, objects), events).threads == map[]
    ensures Run(Init(level, objects), events).locks == map[]
  {
    var s := Run(Init(level, objects), events);
    InitInv(level, objects);
    RunKeepsInv(objects, Init(level, objects), events);
    assert forall i | i in s.locks :: IsHeldFor(s.level, s.threads, i, s.locks[i].owner);
    assert s.locks.Keys == {};
  }

  /** What a thread in its element still has to do: first lock, then write and unlock. */
  function Stage(pc: Pc): int {
    if pc.Writing? then 0 else 3 - Count(pc)
  }

  function Owed(pc: Pc): nat {
    if pc.Writing? then |pc.pending| + pc.depth else 0
  }

  /** Every step but a start brings its own call nearer to its return and leaves all others as they
      are; as some thread can always step, all calls come to an end. */
  lemma CallsFinish(s: State, e: Event)
    requires LocksOk(s) && Enabled(s, e) && !e.Start?
    ensures var t := Apply(s, e);
      && t.threads - {e.t} == s.threads - {e.t}
      && e.t in s.threads
      && if e.Return? then e.t !in t.threads && |t.results| == |s.results| + 1
         else
           && e.t in t.threads
           && var me, now := s.threads[e.t], t.threads[e.t];
              && 0 <= Stage(now.pc)
              && (|now.todo| < |me.todo|
                  || (|now.todo| == |me.todo|
                      && (Stage(now.pc) < Stage(me.pc) || (Stage(now.pc) == Stage(me.pc) && Owed(now.pc) < Owed(me.pc)))))
  {
    assert HoldsItsStripe(s.level, s.locks, e.t, s.threads[e.t]);
    if e.IndexWrite? {
      var me, now := s.threads[e.t], Apply(s, e).threads[e.t];
      assert now.pc.pending == me.pc.pending - {e.p};
    }
  }

  /** A thread never holds two stripes, and holds none between elements; so whenever calls are
      unfinished some thread can take a step. */
  lemma NoDeadlock(level: Int32, objects: set<Obj>, events: seq<Event>)
    requires level > 0 && CanRun(Init(level, objects), events)
    ensures var s := Run(Init(level, objects), events);
      && (forall i, j | i in s.locks && j in s.locks && s.locks[i].owner == s.locks[j].owner :: i == j)
      && (forall i | i in s.locks :: s.locks[i].owner in s.threads && !s.threads[s.locks[i].owner].pc.Ready?)
      && (s.threads != map[] ==> exists e: Event :: !e.Start? && Enabled(s, e))
  {
    var s := Run(Init(level, objects), events);
    InitInv(level, objects);
    RunKeepsInv(objects, Init(level, objects), events);
    forall i | i in s.locks ensures IsHeldFor(s.level, s.threads, i, s.locks[i].owner) {
    }
    if s.threads != map[] {
      SomeThreadCanStep(s);
    }
  }

  lemma SomeThreadCanStep(s: State)
    requires LocksOk(s) && s.threads != map[]
    ensures exists e: Event :: !e.Start? && Enabled(s, e)
  {
    forall i | i in s.locks
      ensures s.locks[i].owner in s.threads && !s.threads[s.locks[i].owner].pc.Ready?
    {
      assert IsHeldFor(s.level, s.threads, i, s.locks[i].owner);
    }
    if exists t :: t in s.threads && !s.threads[t].pc.Ready? {
      var t :| t in s.threads && !s.threads[t].pc.Ready?;
      var me := s.threads[t];
      assert HoldsItsStripe(s.level, s.locks, t, me);
      if me.pc.Writing? {
        if me.pc.pending == {} {
          assert Enabled(s, Unlock(t));
        } else {
          var p :| p in me.pc.pending;
          assert Enabled(s, IndexWrite(t, p));
        }
      } else {
        assert Enabled(s, if me.pc.depth < Depth(me.call) then Lock(t) else StoreWrite(t));
      }
    } else {
      var t :| t in s.threads.Keys;
      if s.threads[t].todo == [] {
        assert Enabled(s, Return(t));
      } else {
        assert Enabled(s, Lock(t));
      }
    }
  }
}
