/** The multi-version protocol of TransactionalIndexedCollection as a step machine.

    One atomic step is: loading `currentVersion`, one `tryLock`, publishing a version,
    acquiring a superseded version's write lock, one object entering or leaving the store,
    one posting entering or leaving an index. Any number of reading threads interleave
    with any number of READ_COMMITTED updates, which the write mutex serialises.
 */
module Mvcc {
  import opened Model

  /** A published version. `exclude` and `locked` are the fields of the Java object (`locked`: a
      writer holds the write lock, which is never released); `snapshot` and `at` are history:
      what a reader of the version saw when it was published, and how many commits preceded. */
  datatype Version = Version(exclude: set<Obj>, locked: bool, snapshot: Db, at: nat)

  /** A thread inside `acquireReadLockForCurrentVersion` or holding an open result set.
      `first` is the version it loaded first and `retries` the number of failed `tryLock`s. */
  datatype Reader =
    | Loaded(v: nat, retries: nat, first: nat)
    | Refused(retries: nat, first: nat)
    | Holding(v: nat)

  datatype Request = Request(remove: Iterable, add: Iterable, strict: bool, skipValidation: bool)

  /** An entry in the history of committed states. `partial` marks what a failed update left. */
  datatype Commit =
    Commit(remove: set<Obj>, add: set<Obj>, strict: bool, partial: bool, before: set<Obj>, after: set<Obj>)

  /** A call of `update` that returned: it committed as entry `seen - 1`, or (`!effective`)
      declined to change anything after `seen` commits. */
  datatype Return = Return(req: Request, modified: bool, effective: bool, seen: nat)

  /** Progress inside one `doAddAll` or `doRemoveAll`: groups not begun, then the store
      and index writes still owed for the group in hand. */
  datatype Work = Work(chunks: seq<set<Obj>>, storePending: set<Obj>, indexPending: set<Posting>)

  /** Where the thread holding the write mutex is; `Recovering` remembers which step was abandoned. */
  datatype Phase =
    | Idle | Entered
    | AddDrain | Adding
    | RemoveDrain | Removing
    | FinalDrain | Closing
    | Recovering(adding: bool) | RestoreDrain

  /** `tainted` is history: the objects of every add or remove step that was abandoned half way. */
  datatype State = State(
    db: Db,
    versions: seq<Version>,
    readers: map<nat, Reader>,
    phase: Phase,
    req: Request,
    work: Work,
    modified: bool,
    effective: bool,
    tainted: set<Obj>,
    initial: set<Obj>,
    log: seq<Commit>,
    returned: seq<Return>)
  {
    function Cur(): int { |versions| - 1 }
    function Add(): set<Obj> { Elems(req.add) }
    function Remove(): set<Obj> { Elems(req.remove) }
    function Committed(): set<Obj> { CommittedAt(initial, log, |log|) }

    predicate Draining() {
      phase in {AddDrain, RemoveDrain, FinalDrain, RestoreDrain}
    }

    /** The current version is one that hides the objects being added. */
    predicate AddHidden() {
      phase in {AddDrain, Adding, Recovering(true)}
    }

    /** The update returns false without publishing anything. */
    predicate Declines() {
      || (Add() == {} && Remove() == {})
      || (req.strict && !(Remove() <= db.store))
    }
  }

  /** The committed set after the first `n` commits. */
  function CommittedAt(initial: set<Obj>, log: seq<Commit>, n: nat): set<Obj>
    requires n <= |log|
  {
    if n == 0 then initial else log[n - 1].after
  }

  predicate WorkDone(w: Work) {
    w.chunks == [] && w.storePending == {} && w.indexPending == {}
  }

  /** The disjointness check of `update`, unless the caller skips it. */
  predicate Accepts(req: Request) {
    req.skipValidation || Elems(req.remove) !! Elems(req.add)
  }

  datatype Event =
    | Load(r: nat) | TryLock(r: nat) | Close(r: nat)
    | Enter(req: Request) | Decline
    | PublishAdd | PublishRemove | PublishFinal
    | Drain
    | NextChunk | StoreStep(o: Obj) | IndexStep(p: Posting)
    | Finish
    | Fail | PublishRestore

  predicate IsReaderEvent(e: Event) {
    e.Load? || e.TryLock? || e.Close?
  }

  predicate Enabled(s: State, e: Event) {
    && s.versions != []
    && match e
       case Load(r) => r !in s.readers || s.readers[r].Refused?
       case TryLock(r) => r in s.readers && s.readers[r].Loaded? && s.readers[r].v < |s.versions|
       case Close(r) => r in s.readers && s.readers[r].Holding?
       case Enter(req) => s.phase.Idle? && Accepts(req)
       case Decline => s.phase.Entered? && s.Declines()
       case PublishAdd => s.phase.Entered? && !s.Declines() && s.Add() != {}
       case PublishRemove =>
         && s.Remove() != {}
         && ((s.phase.Entered? && !s.Declines() && s.Add() == {}) || (s.phase.Adding? && WorkDone(s.work)))
       case PublishFinal =>
         && WorkDone(s.work)
         && ((s.phase.Adding? && s.Remove() == {}) || s.phase.Removing?)
       case Drain =>
         && s.Draining() && |s.versions| >= 2
         && Holders(s, s.Cur() - 1) == {}
       case NextChunk =>
         && (s.phase.Adding? || s.phase.Removing?)
         && s.work.storePending == {} && s.work.indexPending == {} && s.work.chunks != []
       case StoreStep(o) => (s.phase.Adding? || s.phase.Removing?) && o in s.work.storePending
       case IndexStep(p) =>
         && (s.phase.Adding? || s.phase.Removing?)
         && s.work.storePending == {} && p in s.work.indexPending
       case Finish => s.phase.Closing?
       case Fail => s.phase in {Entered, Adding, Removing, Closing}
       case PublishRestore => s.phase.Recovering?
  }

  /** Threads holding the read lock of version `v`. */
  function Holders(s: State, v: int): set<nat> {
    set r | r in s.readers && s.readers[r].Holding? && s.readers[r].v == v
  }

  /** Threads that loaded version `v` and have not tried its lock yet. */
  function Loaders(s: State, v: int): set<nat> {
    set r | r in s.readers && s.readers[r].Loaded? && s.readers[r].v == v
  }

  /** The first half of `incrementVersion`: a new version becomes current. */
  function Publish(s: State, exclude: set<Obj>, phase: Phase, log: seq<Commit>): State {
    s.(versions := s.versions + [Version(exclude, false, Outside(s.db, exclude), |log|)], phase := phase, log := log)
  }

  function NewCommit(s: State): Commit {
    Commit(s.Remove(), s.Add(), s.req.strict, false, s.Committed(), (s.Committed() + s.Add()) - s.Remove())
  }

  /** What the update being abandoned leaves behind becomes visible as it is. */
  function PartialCommit(s: State): Commit {
    Commit(s.Remove(), s.Add(), s.req.strict, true, s.Committed(), s.db.store)
  }

  function Begin(it: Iterable): Work {
    Work(Chunks(it), {}, {})
  }

  /** The second half of `incrementVersion`, once nobody reads the superseded version: its write
      lock is taken for good, and the writer goes on. */
  function TakeWriteLock(s: State): State
    requires |s.versions| >= 2
  {
    var prev := |s.versions| - 2;
    s.(versions := s.versions[prev := s.versions[prev].(locked := true)],
       phase := if s.phase.AddDrain? then Adding
                else if s.phase.RemoveDrain? then Removing
                else if s.phase.FinalDrain? then Closing
                else Idle,
       work := if s.phase.AddDrain? then Begin(s.req.add)
               else if s.phase.RemoveDrain? then Begin(s.req.remove)
               else s.work)
  }

  function Apply(s: State, e: Event): State
    requires Enabled(s, e)
  {
    match e
    case Load(r) =>
      var cur := |s.versions| - 1;
      s.(readers := s.readers[r := if r in s.readers then Loaded(cur, s.readers[r].retries, s.readers[r].first)
                                   else Loaded(cur, 0, cur)])
    case TryLock(r) =>
      var me := s.readers[r];
      s.(readers := s.readers[r := if s.versions[me.v].locked then Refused(me.retries + 1, me.first)
                                   else Holding(me.v)])
    case Close(r) => s.(readers := s.readers - {r})
    case Enter(req) => s.(phase := Entered, req := req, modified := false, effective := true)
    case Decline => s.(phase := Closing, effective := false)
    case PublishAdd => Publish(s, s.Add(), AddDrain, s.log)
    case PublishRemove => Publish(s, s.Remove(), RemoveDrain, s.log + [NewCommit(s)])
    case PublishFinal =>
      Publish(s, {}, FinalDrain, if s.phase.Adding? then s.log + [NewCommit(s)] else s.log)
    case Drain => TakeWriteLock(s)
    case NextChunk =>
      var c := s.work.chunks[0];
      s.(work := Work(s.work.chunks[1..], c, PostingsOf(c)))
    case StoreStep(o) =>
      var w := s.work.(storePending := s.work.storePending - {o});
      if s.phase.Adding? then
        s.(db := s.db.(store := s.db.store + {o}), work := w, modified := s.modified || o !in s.db.store)
      else
        s.(db := s.db.(store := s.db.store - {o}), work := w, modified := s.modified || o in s.db.store)
    case IndexStep(p) =>
      var w := s.work.(indexPending := s.work.indexPending - {p});
      s.(db := s.db.(index := if s.phase.Adding? then s.db.index + {p} else s.db.index - {p}), work := w)
    case Finish =>
      s.(phase := Idle, returned := s.returned + [Return(s.req, s.modified, s.effective, |s.log|)])
    case Fail =>
      if s.phase.Adding? then s.(phase := Recovering(true), tainted := s.tainted + s.Add())
      else if s.phase.Removing? then s.(phase := Recovering(false), tainted := s.tainted + s.Remove())
      else s.(phase := Idle)
    case PublishRestore => Publish(s, {}, RestoreDrain, s.log + [PartialCommit(s)])
  }

  /** A new collection holding `objects`, with its indexes built. */
  function Init(objects: set<Obj>): State {
    var db := Db(objects, PostingsOf(objects));
    State(db, [Version({}, false, db, 0)], map[], Idle,
          Request(Collection([]), Collection([]), false, false), Work([], {}, {}),
          false, false, {}, objects, [], [])
  }

  predicate CanRun(s: State, events: seq<Event>)
    decreases |events|
  {
    events == [] || (Enabled(s, events[0]) && CanRun(Apply(s, events[0]), events[1..]))
  }

  function Run(s: State, events: seq<Event>): State
    requires CanRun(s, events)
    decreases |events|
  {
    if events == [] then s else Run(Apply(s, events[0]), events[1..])
  }
}
