/** `update`, `incrementVersion` and `acquireReadLockForCurrentVersion` as the imperative code
    they are. Every action the class takes is a step of the machine in module Mvcc, so every
    theorem about its runs holds of this class; the loops are proved to terminate under any
    interference by reading threads.
 */
module TransactionalUpdate {
  import opened Model
  import opened Mvcc
  import opened MvccInvariant
  import opened MvccTheorems

  datatype Outcome = Returned(modified: bool) | Rejected | Thrown

  /** Where the body of `update` raises an exception, if it does: before it publishes anything; in the
      add or the remove step, `writes` writes to the store or an index after that step's version was
      published and drained (with as many writes as the step makes: at its end); or on closing the
      request scope. A step that ends after fewer writes is not interrupted. */
  datatype Fault = NoFault | OnOpen | InAddStep(writes: nat) | InRemoveStep(writes: nat) | OnClose

  /** Some object is in both. */
  predicate Overlap(remove: seq<Obj>, add: seq<Obj>) {
    exists o :: o in remove && o in add
  }

  datatype VersionObject = VersionObject(objectsToExclude: set<Obj>, writeLocked: bool)

  lemma {:induction false} RunAppend(s: State, events: seq<Event>, e: Event)
    requires CanRun(s, events) && Enabled(Run(s, events), e)
    ensures CanRun(s, events + [e]) && Run(s, events + [e]) == Apply(Run(s, events), e)
    decreases |events|
  {
    if events == [] {
      assert events + [e] == [e] && [e][1..] == [];
      assert CanRun(Apply(s, e), []);
    } else {
      assert (events + [e])[1..] == events[1..] + [e];
      RunAppend(Apply(s, events[0]), events[1..], e);
    }
  }

  /** What the writer did in a run, without the steps of reading threads. */
  function WriterSteps(events: seq<Event>): seq<Event> {
    if events == [] then []
    else
      var last := events[|events| - 1];
      WriterSteps(events[..|events| - 1]) + if IsReaderEvent(last) then [] else [last]
  }

  lemma OneMoreStep(events: seq<Event>, e: Event)
    ensures WriterSteps(events + [e]) == WriterSteps(events) + if IsReaderEvent(e) then [] else [e]
  {
    assert (events + [e])[..|events|] == events;
  }

  /** `m` differs from `n` only in what reading threads do. */
  predicate OnlyReadersMoved(m: State, n: State) {
    && n == m.(readers := n.readers)
    && forall v | 0 <= v < m.Cur() :: DrainMeasure(n, v) <= DrainMeasure(m, v)
  }

  /** `m` differs from `n` only in readers and in what an add or remove loop writes. */
  predicate OnlyWorked(m: State, n: State) {
    n == m.(db := n.db, work := n.work, modified := n.modified, readers := n.readers)
  }

  /** What other threads do: the steps they take each time the writer lets them, and how many times
      it does before one of those it waits for has to close its results. */
  datatype Others = Others(steps: nat -> seq<Event>, patience: nat -> nat)

  /** `n` is `m` after the superseded version's write lock was taken, readers moving before and after. */
  ghost predicate Drained(m: State, n: State) {
    |m.versions| >= 2 && n == Mvcc.TakeWriteLock(m).(readers := n.readers)
  }

  lemma DrainedWhile(m: State, waited: State, taken: State, n: State)
    requires |m.versions| >= 2 && OnlyReadersMoved(m, waited)
    requires taken == Mvcc.TakeWriteLock(waited) && OnlyReadersMoved(taken, n)
    ensures Drained(m, n)
  {
  }

  lemma DrainedAfter(published: State, moved: State, n: State)
    requires OnlyReadersMoved(published, moved) && Drained(moved, n)
    ensures Drained(published, n)
  {
  }

  /** The version that publication `e` makes current hides exactly `exclude`. */
  ghost predicate Publishes(m: State, e: Event, exclude: set<Obj>)
    requires Enabled(m, e)
  {
    var n := Apply(m, e);
    n.versions != [] && n.versions[n.Cur()].exclude == exclude
  }

  /** Publishing adds one open version and touches neither data nor readers. */
  lemma PublishAddsOne(m: State, e: Event, exclude: set<Obj>)
    requires Enabled(m, e) && IsPublish(e) && Publishes(m, e, exclude)
    ensures var n := Apply(m, e);
      && n.db == m.db && n.readers == m.readers && n.Draining()
      && |n.versions| == |m.versions| + 1 && n.versions[..|m.versions|] == m.versions
      && n.versions[n.Cur()].exclude == exclude && !n.versions[n.Cur()].locked
  {
  }

  /** The fields of the collection are what the machine's state says. */
  ghost predicate Shows(m: State, db: Db, versions: seq<VersionObject>, readers: map<nat, Reader>) {
    && m.db == db
    && m.readers == readers
    && |m.versions| == |versions| > 0
    && (forall i | 0 <= i < |versions| :: versions[i] == VersionObject(m.versions[i].exclude, m.versions[i].locked))
    && (forall r | r in readers && readers[r].Loaded? :: readers[r].v < |versions|)
  }

  lemma PublishShows(m: State, e: Event, exclude: set<Obj>, versions: seq<VersionObject>)
    requires Enabled(m, e) && IsPublish(e) && Publishes(m, e, exclude) && Shows(m, m.db, versions, m.readers)
    ensures Shows(Apply(m, e), m.db, versions + [VersionObject(exclude, false)], m.readers)
  {
    PublishAddsOne(m, e, exclude);
    assert forall i | 0 <= i < |versions| :: Apply(m, e).versions[i] == Apply(m, e).versions[..|versions|][i];
  }

  lemma DrainShows(m: State, versions: seq<VersionObject>)
    requires Enabled(m, Drain) && Shows(m, m.db, versions, m.readers)
    ensures var prev := |versions| - 2;
      Shows(Apply(m, Drain), m.db, versions[prev := versions[prev].(writeLocked := true)], m.readers)
  {
  }

  /** The same call of `update` is in progress in `m` and `n`, and no step of it has failed between. */
  ghost predicate SameCall(m: State, n: State) {
    && n.req == m.req && n.effective == m.effective && n.returned == m.returned && n.initial == m.initial
    && n.tainted == m.tainted
  }

  /** Between `m` and `n` the step in progress was abandoned, and what it left became visible. */
  ghost predicate StepAbandoned(m: State, n: State) {
    && n.returned == m.returned && n.initial == m.initial
    && n.log == m.log + [PartialCommit(m)]
    && n.tainted == m.tainted + (if m.phase.Adding? then m.Add() else m.Remove())
  }

  /** Between `m` and `n` one call returned `ret`, and committed once if it was effective. */
  ghost predicate Reported(m: State, n: State, ret: Return) {
    && n.returned == m.returned + [ret]
    && n.initial == m.initial && n.tainted == m.tainted
    && (if ret.effective then |n.log| == |m.log| + 1 && m.log <= n.log else n.log == m.log)
  }

  /** Between `m` and `n` a call of `update(req)` raised an exception, leaving commits of its own. */
  ghost predicate ThrewFrom(m: State, n: State, req: Request) {
    && n.initial == m.initial
    && m.tainted <= n.tainted <= m.tainted + Elems(req.add) + Elems(req.remove)
    && m.log <= n.log
    && forall i | |m.log| <= i < |n.log| :: n.log[i].remove == Elems(req.remove) && n.log[i].add == Elems(req.add)
  }

  lemma ReportMeansReplaced(m: State, n: State, ret: Return)
    requires LogOk(n) && ReturnsOk(n) && Reported(m, n, ret) && ret.seen == |n.log|
    ensures var remove, add := Elems(ret.req.remove), Elems(ret.req.add);
      var before := m.Committed();
      var declined := (remove == {} && add == {}) || (ret.req.strict && !(remove <= before));
      && n.Committed() == (if declined then before else (before + add) - remove)
      && ret.modified == (!declined && (!(add <= before) || remove * (before + add) != {}))
  {
    assert n.returned[|m.returned|] == ret;
    assert ReturnOk(n.initial, n.log, ret);
    if ret.effective {
      assert CommitOk(n.log[|m.log|]) && n.log[|m.log|].before == m.Committed();
    }
  }

  lemma ThrowTouchesOnlyItsOwn(m: State, n: State, req: Request)
    requires LogOk(n) && ThrewFrom(m, n, req)
    ensures var touched := Elems(req.add) + Elems(req.remove);
      n.Committed() - touched == m.Committed() - touched
  {
    var touched := Elems(req.add) + Elems(req.remove);
    forall i | |m.log| <= i < |n.log| ensures n.log[i].before - touched == n.log[i].after - touched {
      CommitTouchesItsOwn(n.log[i]);
    }
    CommitsTouchOnly(n, |m.log|, |n.log|, touched);
  }

  lemma CommitTouchesItsOwn(c: Commit)
    requires CommitOk(c)
    ensures c.after - (c.add + c.remove) == c.before - (c.add + c.remove)
  {
  }

  lemma {:induction false} CommitsTouchOnly(s: State, lo: nat, hi: nat, touched: set<Obj>)
    requires lo <= hi <= |s.log|
    requires forall i | lo <= i < hi ::
               && s.log[i].before - touched == s.log[i].after - touched
               && s.log[i].before == CommittedAt(s.initial, s.log, i)
    ensures CommittedAt(s.initial, s.log, hi) - touched == CommittedAt(s.initial, s.log, lo) - touched
    decreases hi
  {
    if lo < hi {
      CommitsTouchOnly(s, lo, hi - 1, touched);
    }
  }

  class TransactionalCollection {
    var objectStore: set<Obj>
    var index: set<Posting>
    /** Every version published so far; the last one is `currentVersion`. */
    var versions: seq<VersionObject>
    /** Threads reading a version or about to. */
    var readers: map<nat, Reader>

    const others: Others
    /** How often other threads have been let run; it never goes back. */
    var tick: nat

    /** The run of the machine this collection has performed so far. */
    ghost const initial: set<Obj>
    ghost const start: State
    ghost var trace: seq<Event>
    ghost var machine: State

    ghost predicate Traced()
      reads `trace, `machine
    {
      CanRun(start, trace) && machine == Run(start, trace)
    }

    ghost predicate Valid()
      reads this
    {
      Traced() && Shows(machine, Db(objectStore, index), versions, readers)
    }

    constructor (objects: set<Obj>, others: Others)
      ensures this.others == others && tick == 0
      ensures Valid() && initial == objects && start == Init(initial) && trace == [] && objectStore == objects
    {
      objectStore, index := objects, PostingsOf(objects);
      versions, readers := [VersionObject({}, false)], map[];
      this.others, tick := others, 0;
      initial, start, trace, machine := objects, Init(objects), [], Init(objects);
    }

    /** The step just taken is a step of the machine. */
    ghost method Record(e: Event)
      requires Traced() && Enabled(machine, e)
      modifies `trace, `machine
      ensures Traced() && trace == old(trace) + [e] && machine == Apply(old(machine), e)
    {
      RunAppend(start, trace, e);
      machine := Apply(machine, e);
      trace := trace + [e];
    }

    ghost method RecordReader(e: Event)
      requires Traced() && Enabled(machine, e) && IsReaderEvent(e)
      modifies `trace, `machine
      ensures old(trace) <= trace && old(tick) <= tick
      ensures Traced() && machine == Apply(old(machine), e) && OnlyReadersMoved(old(machine), machine)
      ensures WriterSteps(trace) == WriterSteps(old(trace))
      ensures forall v | v < machine.Cur() ::
                TouchesVersion(old(machine), e, v) ==> DrainMeasure(machine, v) < DrainMeasure(old(machine), v)
    {
      forall v | v < machine.Cur()
        ensures DrainMeasure(Apply(machine, e), v) <= DrainMeasure(machine, v)
        ensures TouchesVersion(machine, e, v) ==> DrainMeasure(Apply(machine, e), v) < DrainMeasure(machine, v)
      {
        DrainProgress(machine, e, v);
      }
      OneMoreStep(trace, e);
      Record(e);
    }

    /** The body of the loop of `acquireReadLockForCurrentVersion`. */
    method LoadCurrentVersion(r: nat)
      requires Valid() && (r in readers ==> readers[r].Refused?)
      modifies `readers, `trace, `machine
      ensures r in readers && readers[r].Loaded? && readers[r].v == |versions| - 1
      ensures readers[r].retries == (if r in old(readers) then old(readers)[r].retries else 0)
      ensures readers[r].first == (if r in old(readers) then old(readers)[r].first else |versions| - 1)
      ensures old(readers) - {r} == readers - {r}
      ensures old(trace) <= trace
      ensures Valid() && OnlyReadersMoved(old(machine), machine) && WriterSteps(trace) == WriterSteps(old(trace))
    {
      var cur := |versions| - 1;
      readers := readers[r := if r in readers then Loaded(cur, readers[r].retries, readers[r].first)
                              else Loaded(cur, 0, cur)];
      RecordReader(Load(r));
    }

    /** Its guard. */
    method TryReadLock(r: nat) returns (locked: bool)
      requires Valid() && r in readers && readers[r].Loaded?
      modifies `readers, `trace, `machine
      ensures old(trace) <= trace
      ensures Valid() && OnlyReadersMoved(old(machine), machine) && WriterSteps(trace) == WriterSteps(old(trace))
      ensures locked == !versions[old(readers)[r].v].writeLocked
      ensures readers == old(readers)[r := if locked then Holding(old(readers)[r].v)
                                           else Refused(old(readers)[r].retries + 1, old(readers)[r].first)]
    {
      var v := readers[r].v;
      locked := !versions[v].writeLocked;
      readers := readers[r := if locked then Holding(v) else Refused(readers[r].retries + 1, readers[r].first)];
      RecordReader(TryLock(r));
    }

    method CloseResults(r: nat)
      requires Valid() && r in readers && readers[r].Holding?
      modifies `readers, `trace, `machine
      ensures old(trace) <= trace && readers == old(readers) - {r}
      ensures Valid() && OnlyReadersMoved(old(machine), machine) && WriterSteps(trace) == WriterSteps(old(trace))
      ensures old(readers)[r].v < |versions| - 1 ==>
                DrainMeasure(machine, old(readers)[r].v) < DrainMeasure(old(machine), old(readers)[r].v)
    {
      readers := readers - {r};
      RecordReader(Close(r));
    }

    /** One step of some reading thread; a step that thread cannot take now is skipped. */
    method ReaderStep(e: Event)
      requires Valid()
      modifies `readers, `trace, `machine
      ensures old(trace) <= trace
      ensures Valid() && OnlyReadersMoved(old(machine), machine) && WriterSteps(trace) == WriterSteps(old(trace))
    {
      if e.Load? && (e.r in readers ==> readers[e.r].Refused?) {
        LoadCurrentVersion(e.r);
      } else if e.TryLock? && e.r in readers && readers[e.r].Loaded? {
        var _ := TryReadLock(e.r);
      } else if e.Close? && e.r in readers && readers[e.r].Holding? {
        CloseResults(e.r);
      }
    }

    /** Other threads take the next steps they have in mind. */
    method LetOthersRun()
      requires Valid()
      modifies `readers, `trace, `machine, `tick
      ensures old(trace) <= trace && tick == old(tick) + 1
      ensures Valid() && OnlyReadersMoved(old(machine), machine) && WriterSteps(trace) == WriterSteps(old(trace))
    {
      var events := others.steps(tick);
      for i := 0 to |events|
        invariant old(trace) <= trace && tick == old(tick)
        invariant Valid() && OnlyReadersMoved(old(machine), machine) && WriterSteps(trace) == WriterSteps(old(trace))
      {
        ReaderStep(events[i]);
      }
      tick := tick + 1;
    }

    /** `previousVersion.lock.writeLock().lock()`: waits until no thread reads the superseded
        version. Other threads do anything they like; all that is assumed of them is that, as long
        as some still read that version, one of those closes its results after a finite time. */
    method AwaitReaders()
      requires Valid() && machine.Draining() && |versions| >= 2
      modifies this
      ensures old(trace) <= trace && old(tick) <= tick
      ensures Valid() && unchanged(`objectStore) && unchanged(`index)
      ensures Drained(old(machine), machine)
      ensures WriterSteps(trace) == WriterSteps(old(trace)) + [Drain]
    {
      AwaitNoHolder();
      ghost var waited := machine;
      TakeWriteLock();
      ghost var taken := machine;
      LetOthersRun();
      DrainedWhile(old(machine), waited, taken, machine);
    }

    method AwaitNoHolder()
      requires Valid() && machine.Draining() && |versions| >= 2
      modifies `readers, `trace, `machine, `tick
      ensures old(trace) <= trace && old(tick) <= tick
      ensures Valid() && OnlyReadersMoved(old(machine), machine) && WriterSteps(trace) == WriterSteps(old(trace))
      ensures forall r | r in readers :: readers[r] != Holding(|versions| - 2)
    {
      var prev := |versions| - 2;
      var patience := others.patience(tick);
      while exists r :: r in readers && readers[r] == Holding(prev)
        invariant old(trace) <= trace && old(tick) <= tick
        invariant Valid() && OnlyReadersMoved(old(machine), machine) && WriterSteps(trace) == WriterSteps(old(trace))
        decreases DrainMeasure(machine, prev), patience
      {
        if patience > 0 {
          LetOthersRun();
          patience := patience - 1;
        } else {
          var r :| r in readers && readers[r] == Holding(prev);
          CloseResults(r);
          patience := others.patience(tick);
        }
      }
    }

    method TakeWriteLock()
      requires Valid() && machine.Draining() && |versions| >= 2
      requires forall r | r in readers :: readers[r] != Holding(|versions| - 2)
      modifies this
      ensures old(trace) <= trace && old(tick) <= tick
      ensures Valid() && unchanged(`objectStore) && unchanged(`index) && unchanged(`readers)
      ensures Enabled(old(machine), Drain) && machine == Apply(old(machine), Drain)
      ensures WriterSteps(trace) == WriterSteps(old(trace)) + [Drain]
    {
      var prev := |versions| - 2;
      assert Holders(machine, prev) == {} && Enabled(machine, Drain);
      versions := versions[prev := versions[prev].(writeLocked := true)];
      DrainShows(machine, old(versions));
      OneMoreStep(trace, Drain);
      Record(Drain);
    }

    /** `incrementVersion`: publishes a version hiding `exclude` and waits for the previous
        version's readers. */
    method IncrementVersion(exclude: set<Obj>, ghost e: Event)
      requires Valid() && Enabled(machine, e) && IsPublish(e)
      requires Publishes(machine, e, exclude)
      modifies this
      ensures old(trace) <= trace && old(tick) <= tick
      ensures Valid() && unchanged(`objectStore) && unchanged(`index)
      ensures Drained(Apply(old(machine), e), machine)
      ensures WriterSteps(trace) == WriterSteps(old(trace)) + [e, Drain]
    {
      ghost var published := Apply(machine, e);
      PublishVersion(exclude, e);
      ghost var moved := machine;
      AwaitReaders();
      DrainedAfter(published, moved, machine);
    }

    /** The version becomes current, and other threads may see it before the writer goes on. */
    method PublishVersion(exclude: set<Obj>, ghost e: Event)
      requires Valid() && Enabled(machine, e) && IsPublish(e)
      requires Publishes(machine, e, exclude)
      modifies this
      ensures old(trace) <= trace && old(tick) <= tick
      ensures Valid() && unchanged(`objectStore) && unchanged(`index)
      ensures versions == old(versions) + [VersionObject(exclude, false)]
      ensures machine.Draining() && |versions| >= 2
      ensures OnlyReadersMoved(Apply(old(machine), e), machine)
      ensures WriterSteps(trace) == WriterSteps(old(trace)) + [e]
    {
      SetCurrentVersion(exclude, e);
      LetOthersRun();
    }

    /** `this.currentVersion = new Version(exclude)`, which no reader notices by itself. */
    method SetCurrentVersion(exclude: set<Obj>, ghost e: Event)
      requires Valid() && Enabled(machine, e) && IsPublish(e)
      requires Publishes(machine, e, exclude)
      modifies `versions, `trace, `machine
      ensures old(trace) <= trace
      ensures Valid() && versions == old(versions) + [VersionObject(exclude, false)]
      ensures machine == Apply(old(machine), e)
      ensures WriterSteps(trace) == WriterSteps(old(trace)) + [e]
    {
      versions := versions + [VersionObject(exclude, false)];
      PublishShows(machine, e, exclude, old(versions));
      OneMoreStep(trace, e);
      Record(e);
    }

    /** One write of an add or remove loop. */
    method WriteStore(o: Obj, adding: bool) returns (changed: bool)
      requires Valid() && Enabled(machine, StoreStep(o)) && adding == machine.phase.Adding?
      modifies this
      ensures old(trace) <= trace && old(tick) <= tick
      ensures Valid() && machine == Apply(old(machine), StoreStep(o)) && unchanged(`versions)
      ensures changed == (old(objectStore) != objectStore)
    {
      changed := (o in objectStore) != adding;
      objectStore := if adding then objectStore + {o} else objectStore - {o};
      Record(StoreStep(o));
    }

    method WriteIndex(p: Posting, adding: bool)
      requires Valid() && Enabled(machine, IndexStep(p)) && adding == machine.phase.Adding?
      modifies this
      ensures old(trace) <= trace && old(tick) <= tick
      ensures Valid() && machine == Apply(old(machine), IndexStep(p)) && unchanged(`versions)
    {
      index := if adding then index + {p} else index - {p};
      Record(IndexStep(p));
    }

    /** `objectStore.addAll(c)` or `objectStore.removeAll(c)`, other threads reading after
        every write. Gives up after `budget` writes. */
    method WriteChunkToStore(c: set<Obj>, adding: bool, budget: int)
      returns (changed: bool, left: int)
      requires Valid() && machine.phase in {Adding, Removing} && adding == machine.phase.Adding?
      requires machine.work.storePending == c
      modifies this
      ensures old(trace) <= trace && old(tick) <= tick
      ensures Valid() && unchanged(`versions) && OnlyWorked(old(machine), machine)
      ensures machine.modified == (old(machine).modified || changed)
      ensures budget < 0 ==> left < 0
      ensures left != 0 ==> machine.work == old(machine).work.(storePending := {})
    {
      changed, left := false, budget;
      var objects := c;
      while objects != {} && left != 0
        invariant old(trace) <= trace && old(tick) <= tick
        invariant Valid() && unchanged(`versions) && OnlyWorked(old(machine), machine)
        invariant machine.work == old(machine).work.(storePending := objects)
        invariant machine.modified == (old(machine).modified || changed)
        invariant budget < 0 ==> left < 0
        decreases |objects|
      {
        var o :| o in objects;
        objects := objects - {o};
        var now := WriteStore(o, adding);
        changed, left := changed || now, left - 1;
        LetOthersRun();
      }
    }

    /** `indexEngine.addAll(c)` or `indexEngine.removeAll(c)`. */
    method WriteChunkToIndex(c: set<Obj>, adding: bool, budget: int)
      returns (left: int)
      requires Valid() && machine.phase in {Adding, Removing} && adding == machine.phase.Adding?
      requires machine.work.storePending == {} && machine.work.indexPending == PostingsOf(c)
      modifies this
      ensures old(trace) <= trace && old(tick) <= tick
      ensures Valid() && unchanged(`versions) && OnlyWorked(old(machine), machine)
      ensures machine.modified == old(machine).modified
      ensures budget < 0 ==> left < 0
      ensures left != 0 ==> machine.work == old(machine).work.(indexPending := {})
    {
      left := budget;
      var postings := PostingsOf(c);
      while postings != {} && left != 0
        invariant old(trace) <= trace && old(tick) <= tick
        invariant Valid() && unchanged(`versions) && OnlyWorked(old(machine), machine)
        invariant machine.work == old(machine).work.(indexPending := postings)
        invariant machine.modified == old(machine).modified
        invariant budget < 0 ==> left < 0
        decreases |postings|
      {
        var p :| p in postings;
        postings := postings - {p};
        WriteIndex(p, adding);
        left := left - 1;
        LetOthersRun();
      }
    }

    method WriteChunk(c: set<Obj>, adding: bool, budget: int)
      returns (changed: bool, left: int)
      requires Valid() && Enabled(machine, NextChunk) && machine.work.chunks[0] == c
      requires adding == machine.phase.Adding?
      modifies this
      ensures old(trace) <= trace && old(tick) <= tick
      ensures Valid() && unchanged(`versions) && OnlyWorked(old(machine), machine)
      ensures budget < 0 ==> left < 0
      ensures left != 0 ==>
                && machine.work == Work(old(machine).work.chunks[1..], {}, {})
                && machine.modified == (old(machine).modified || changed)
    {
      Record(NextChunk);
      LetOthersRun();
      changed, left := WriteChunkToStore(c, adding, budget);
      if left != 0 {
        left := WriteChunkToIndex(c, adding, left);
      }
    }

    /** `doAddAll` and `doRemoveAll`: a Collection is one group of writes, any other Iterable
        is walked element by element. */
    method WriteAll(objects: Iterable, adding: bool, budget: int)
      returns (changed: bool, left: int)
      requires Valid() && machine.work == Begin(objects) && adding == machine.phase.Adding?
      requires machine.phase in {Adding, Removing}
      modifies this
      ensures old(trace) <= trace && old(tick) <= tick
      ensures Valid() && unchanged(`versions) && OnlyWorked(old(machine), machine)
      ensures budget < 0 ==> left < 0
      ensures left != 0 ==> WorkDone(machine.work) && machine.modified == (old(machine).modified || changed)
    {
      changed, left := false, budget;
      if objects.Collection? {
        changed, left := WriteChunk(Elems(objects), adding, budget);
      } else {
        var i := 0;
        while i < |objects.elems| && left != 0
          invariant 0 <= i <= |objects.elems| && (budget < 0 ==> left < 0)
          invariant old(trace) <= trace && old(tick) <= tick
          invariant Valid() && unchanged(`versions) && OnlyWorked(old(machine), machine)
          invariant left != 0 ==>
            && machine.work == Work(Chunks(objects)[i..], {}, {})
            && machine.modified == (old(machine).modified || changed)
        {
          var now;
          now, left := WriteChunk({objects.elems[i]}, adding, left);
          changed := changed || now;
          i := i + 1;
        }
      }
    }

    /** The argument check of `update`. */
    method EnsureUpdateSetsAreDisjoint(remove: Iterable, add: Iterable) returns (disjoint: bool)
      ensures disjoint <==> Elems(remove) !! Elems(add)
      ensures disjoint <==> !Overlap(remove.elems, add.elems)
    {
      for i := 0 to |remove.elems|
        invariant forall j | 0 <= j < i :: remove.elems[j] !in Elems(add)
      {
        if remove.elems[i] in add.elems {
          assert remove.elems[i] in Elems(remove) * Elems(add);
          assert remove.elems[i] in remove.elems;
          return false;
        }
      }
      return true;
    }

    /** The body has thrown: `restoreEmptyVersionAfterFailure`. */
    method RestoreEmptyVersion()
      requires Valid() && machine.phase in {Adding, Removing}
      modifies this
      ensures old(trace) <= trace && old(tick) <= tick
      ensures Valid() && machine.phase.Idle? && StepAbandoned(old(machine), machine)
    {
      Record(Fail);
      LetOthersRun();
      PublishEmptyVersion();
    }

    method PublishEmptyVersion()
      requires Valid() && machine.phase.Recovering?
      modifies this
      ensures old(trace) <= trace && old(tick) <= tick
      ensures Valid() && machine.phase.Idle? && SameCall(old(machine), machine)
      ensures machine.log == old(machine).log + [PartialCommit(old(machine))]
    {
      IncrementVersion({}, PublishRestore);
    }

    /** Closing the request scope and leaving the write mutex. */
    method Finish(modified: bool, fault: Fault) returns (outcome: Outcome)
      requires Valid() && machine.phase.Closing?
      modifies this
      ensures old(trace) <= trace && old(tick) <= tick
      ensures Valid() && machine.phase.Idle?
      ensures !outcome.Rejected? && (outcome.Thrown? <==> fault.OnClose?)
      ensures outcome.Returned? ==> machine == Apply(old(machine), Event.Finish) && outcome.modified == modified
      ensures outcome.Thrown? ==> machine == Apply(old(machine), Fail)
    {
      if fault.OnClose? {
        Record(Fail);
        outcome := Thrown;
      } else {
        Record(Event.Finish);
        outcome := Returned(modified);
      }
    }

    /** Hide the objects to add, wait, add them. */
    method AddStep(req: Request, budget: int) returns (changed: bool, left: int)
      requires Valid() && Enabled(machine, PublishAdd) && machine.req == req
      modifies this
      ensures old(trace) <= trace && old(tick) <= tick
      ensures Valid() && machine.phase.Adding? && SameCall(old(machine), machine)
      ensures machine.log == old(machine).log
      ensures budget < 0 ==> left < 0
      ensures left != 0 ==> WorkDone(machine.work) && machine.modified == (old(machine).modified || changed)
    {
      IncrementVersion(Elems(req.add), PublishAdd);
      changed, left := WriteAll(req.add, true, budget);
    }

    /** Hide the objects to remove instead, wait, remove them. */
    method RemoveStep(req: Request, budget: int) returns (changed: bool, left: int)
      requires Valid() && Enabled(machine, PublishRemove) && machine.req == req
      modifies this
      ensures old(trace) <= trace && old(tick) <= tick
      ensures Valid() && machine.phase.Removing? && SameCall(old(machine), machine)
      ensures machine.log == old(machine).log + [NewCommit(old(machine))]
      ensures budget < 0 ==> left < 0
      ensures left != 0 ==> WorkDone(machine.work) && machine.modified == (old(machine).modified || changed)
    {
      HideRemoved(req);
      changed, left := WriteAll(req.remove, false, budget);
    }

    method HideRemoved(req: Request)
      requires Valid() && Enabled(machine, PublishRemove) && machine.req == req
      modifies this
      ensures old(trace) <= trace && old(tick) <= tick
      ensures Valid() && machine.phase.Removing? && SameCall(old(machine), machine)
      ensures machine.log == old(machine).log + [NewCommit(old(machine))]
      ensures machine.work == Begin(req.remove) && machine.modified == old(machine).modified
    {
      IncrementVersion(Elems(req.remove), PublishRemove);
    }

    /** Stop hiding anything and wait. */
    method FinalStep()
      requires Valid() && Enabled(machine, PublishFinal)
      modifies this
      ensures old(trace) <= trace && old(tick) <= tick
      ensures Valid() && machine.phase.Closing? && SameCall(old(machine), machine)
      ensures machine.modified == old(machine).modified
      ensures machine.log == if old(machine).phase.Adding? then old(machine).log + [NewCommit(old(machine))]
                             else old(machine).log
    {
      IncrementVersion({}, PublishFinal);
    }

    /** The part of `update` that publishes and writes. */
    method Replace(req: Request, fault: Fault) returns (outcome: Outcome)
      requires Valid() && machine.phase.Entered? && machine.req == req && machine.effective && !machine.modified
      requires !machine.Declines()
      modifies this
      ensures old(trace) <= trace && old(tick) <= tick
      ensures Valid() && machine.phase.Idle?
      ensures !outcome.Rejected? && (fault.NoFault? ==> outcome.Returned?) && (fault.OnClose? ==> outcome.Thrown?)
      ensures outcome.Returned? ==> Reported(old(machine), machine, Return(req, outcome.modified, true, |machine.log|))
      ensures outcome.Thrown? ==> machine.returned == old(machine).returned && ThrewFrom(old(machine), machine, req)
    {
      var modified := false;
      if req.add.elems != [] {
        assert req.add.elems[0] in Elems(req.add);
        var left;
        modified, left := AddStep(req, if fault.InAddStep? then fault.writes else -1);
        if left == 0 {
          RestoreEmptyVersion();
          return Thrown;
        }
      }
      outcome := RemoveAndFinish(req, modified, fault);
    }

    method RemoveAndFinish(req: Request, added: bool, fault: Fault) returns (outcome: Outcome)
      requires Valid() && machine.req == req && machine.effective && machine.modified == added
      requires (machine.phase.Entered? && !machine.Declines() && machine.Add() == {})
            || (machine.phase.Adding? && WorkDone(machine.work))
      modifies this
      ensures old(trace) <= trace && old(tick) <= tick
      ensures Valid() && machine.phase.Idle?
      ensures !outcome.Rejected? && (fault.NoFault? ==> outcome.Returned?) && (fault.OnClose? ==> outcome.Thrown?)
      ensures outcome.Returned? ==> Reported(old(machine), machine, Return(req, outcome.modified, true, |machine.log|))
      ensures outcome.Thrown? ==> machine.returned == old(machine).returned && ThrewFrom(old(machine), machine, req)
    {
      var modified := added;
      if req.remove.elems != [] {
        assert req.remove.elems[0] in Elems(req.remove);
        var removed, left := RemoveStep(req, if fault.InRemoveStep? then fault.writes else -1);
        if left == 0 {
          RestoreEmptyVersion();
          return Thrown;
        }
        modified := removed || modified;
      }
      outcome := Conclude(req, modified, fault);
    }

    method Conclude(req: Request, modified: bool, fault: Fault)
      returns (outcome: Outcome)
      requires Valid() && Enabled(machine, PublishFinal)
      requires machine.req == req && machine.effective && machine.modified == modified
      modifies this
      ensures old(trace) <= trace && old(tick) <= tick
      ensures Valid() && machine.phase.Idle?
      ensures machine.initial == old(machine).initial && machine.tainted == old(machine).tainted
      ensures !outcome.Rejected? && (fault.NoFault? ==> outcome.Returned?) && (fault.OnClose? ==> outcome.Thrown?)
      ensures machine.log == if old(machine).phase.Adding? then old(machine).log + [NewCommit(old(machine))]
                             else old(machine).log
      ensures machine.returned == if outcome.Thrown? then old(machine).returned
                                  else old(machine).returned + [Return(req, outcome.modified, true, |machine.log|)]
    {
      FinalStep();
      outcome := Finish(modified, fault);
    }

    /** Nothing to do, or not everything to remove is there: `update` returns false. */
    method DeclineToChange(fault: Fault) returns (outcome: Outcome)
      requires Valid() && Enabled(machine, Decline) && !machine.modified
      modifies this
      ensures old(trace) <= trace && old(tick) <= tick
      ensures Valid() && machine.phase.Idle? && machine.log == old(machine).log
      ensures machine.initial == old(machine).initial && machine.tainted == old(machine).tainted
      ensures !outcome.Rejected? && (outcome.Thrown? <==> fault.OnClose?)
      ensures machine.returned == if outcome.Thrown? then old(machine).returned
                                  else old(machine).returned + [Return(old(machine).req, outcome.modified, false, |machine.log|)]
    {
      MarkDeclined();
      outcome := Finish(false, fault);
    }

    method MarkDeclined()
      requires Valid() && Enabled(machine, Decline)
      modifies this
      ensures old(trace) <= trace && old(tick) <= tick
      ensures Valid() && machine == old(machine).(phase := Closing, effective := false, readers := machine.readers)
    {
      Record(Decline);
      LetOthersRun();
    }

    /** The synchronized block of READ_COMMITTED `update`; other threads read throughout. */
    method UpdateUnderMutex(req: Request, fault: Fault)
      returns (outcome: Outcome, ghost effective: bool)
      requires Valid() && machine.phase.Idle? && Accepts(req)
      modifies this
      ensures old(trace) <= trace && old(tick) <= tick
      ensures Valid() && machine.phase.Idle?
      ensures (fault.NoFault? ==> outcome.Returned?) && (fault.OnClose? ==> outcome.Thrown?) && (fault.OnOpen? ==> outcome.Thrown?)
      ensures !outcome.Rejected?
      ensures outcome.Returned? ==> Reported(old(machine), machine, Return(req, outcome.modified, effective, |machine.log|))
      ensures outcome.Thrown? ==> machine.returned == old(machine).returned && ThrewFrom(old(machine), machine, req)
    {
      EnterMutex(req);
      if fault.OnOpen? {
        Record(Fail);
        return Thrown, true;
      }
      outcome, effective := UpdateInScope(req, fault);
    }

    /** The write mutex is taken. */
    method EnterMutex(req: Request)
      requires Valid() && machine.phase.Idle? && Accepts(req)
      modifies this
      ensures old(trace) <= trace && old(tick) <= tick
      ensures Valid() && machine.phase.Entered? && machine.req == req && machine.effective && !machine.modified
      ensures machine == old(machine).(phase := Entered, req := req, modified := false, effective := true, readers := machine.readers)
    {
      Record(Enter(req));
      LetOthersRun();
    }

    /** The body of the block, once the request scope is open. */
    method UpdateInScope(req: Request, fault: Fault)
      returns (outcome: Outcome, ghost effective: bool)
      requires Valid() && machine.phase.Entered? && machine.req == req && machine.effective && !machine.modified
      modifies this
      ensures old(trace) <= trace && old(tick) <= tick
      ensures Valid() && machine.phase.Idle?
      ensures !outcome.Rejected? && (fault.NoFault? ==> outcome.Returned?) && (fault.OnClose? ==> outcome.Thrown?)
      ensures outcome.Returned? ==> Reported(old(machine), machine, Return(req, outcome.modified, effective, |machine.log|))
      ensures outcome.Thrown? ==> machine.returned == old(machine).returned && ThrewFrom(old(machine), machine, req)
    {
      effective := true;
      var remove, add := Elems(req.remove), Elems(req.add);
      if (remove == {} && add == {}) || (req.strict && !(remove <= objectStore)) {
        effective := false;
        outcome := DeclineToChange(fault);
        return;
      }
      outcome := Replace(req, fault);
    }

    /** What the invariant of the machine says of the fields while the write mutex is free. */
    lemma Settled()
      requires Valid() && machine.phase.Idle? && start == Init(initial)
      ensures objectStore == machine.Committed() && versions[|versions| - 1].objectsToExclude == {}
      ensures AgreesExcept(Db(objectStore, index), machine.tainted)
    {
      Reachable(initial, trace);
      Quiet(machine);
    }

    lemma ReturnedMeans(before: State, ret: Return)
      requires Valid() && machine.phase.Idle? && start == Init(initial)
      requires Reported(before, machine, ret) && ret.seen == |machine.log|
      ensures var remove, add := Elems(ret.req.remove), Elems(ret.req.add);
        var was := before.Committed();
        var declined := (remove == {} && add == {}) || (ret.req.strict && !(remove <= was));
        && objectStore == (if declined then was else (was + add) - remove)
        && ret.modified == (!declined && (!(add <= was) || remove * (was + add) != {}))
    {
      Reachable(initial, trace);
      Quiet(machine);
      ReportMeansReplaced(before, machine, ret);
    }

    lemma ThrownMeans(before: State, req: Request)
      requires Valid() && machine.phase.Idle? && start == Init(initial) && ThrewFrom(before, machine, req)
      ensures var touched := Elems(req.add) + Elems(req.remove);
        objectStore - touched == before.Committed() - touched
    {
      Reachable(initial, trace);
      Quiet(machine);
      ThrowTouchesOnlyItsOwn(before, machine, req);
    }

    /** READ_COMMITTED `update`, called with the write mutex free. Whatever happens, afterwards the
        current version hides nothing; if it returns, the store is what the arguments ask for, the
        report says whether a step of it changed anything; and the indexes agree with the store about
        every object that no failed call was adding or removing. */
    method Update(req: Request, fault: Fault) returns (outcome: Outcome)
      requires Valid() && machine.phase.Idle? && start == Init(initial)
      modifies this
      ensures old(trace) <= trace && old(tick) <= tick
      ensures Valid() && machine.phase.Idle?
      ensures outcome.Rejected? <==> !req.skipValidation && Overlap(req.remove.elems, req.add.elems)
      ensures outcome.Rejected? ==> machine == old(machine)
      ensures fault.NoFault? ==> !outcome.Thrown?
      ensures (fault.OnOpen? || fault.OnClose?) && !outcome.Rejected? ==> outcome.Thrown?
      ensures versions[|versions| - 1].objectsToExclude == {}
      ensures var remove, add := Elems(req.remove), Elems(req.add);
        var declined := (remove == {} && add == {}) || (req.strict && !(remove <= old(objectStore)));
        && (outcome.Returned? ==>
              && objectStore == (if declined then old(objectStore) else (old(objectStore) + add) - remove)
              && outcome.modified ==
                   (!declined && (!(add <= old(objectStore)) || remove * (old(objectStore) + add) != {})))
        && (outcome.Thrown? ==> objectStore - (add + remove) == old(objectStore) - (add + remove))
      ensures AgreesExcept(Db(objectStore, index), machine.tainted)
      ensures machine.tainted <= old(machine).tainted + if outcome.Thrown? then Elems(req.add) + Elems(req.remove) else {}
    {
      Settled();
      if !req.skipValidation {
        var disjoint := EnsureUpdateSetsAreDisjoint(req.remove, req.add);
        if !disjoint {
          return Rejected;
        }
      }
      ghost var before := machine;
      ghost var effective;
      outcome, effective := UpdateUnderMutex(req, fault);
      Settled();
      if outcome.Returned? {
        ReturnedMeans(before, Return(req, outcome.modified, effective, |machine.log|));
      } else {
        ThrownMeans(before, req);
      }
    }
  }
}
