/** The inductive invariant of the multi-version protocol. */
module MvccInvariant {
  import opened Model
  import opened Mvcc

  /** Exactly one superseded version can still be unlocked: the one being drained. */
  predicate VersionsOk(s: State) {
    && s.versions != []
    && !s.versions[s.Cur()].locked
    && s.versions[s.Cur()].at == |s.log|
    && (s.Draining() ==> |s.versions| >= 2)
    && (forall i | 0 <= i < s.Cur() :: s.versions[i].locked <==> !(s.Draining() && i == s.Cur() - 1))
  }

  /** A reader that failed n times has seen at least n publications since its first load. */
  predicate ReaderOk(versions: seq<Version>, r: Reader) {
    match r
    case Loaded(v, n, first) => first + n <= v < |versions|
    case Refused(n, first) => first + n < |versions|
    case Holding(v) => v < |versions| && !versions[v].locked
  }

  predicate ReadersOk(s: State) {
    forall r | r in s.readers :: ReaderOk(s.versions, s.readers[r])
  }

  /** A complete commit replaces `remove` by `add`; a partial one touches nothing else. */
  predicate CommitOk(c: Commit) {
    if c.partial then
      c.before - (c.add + c.remove) == c.after - (c.add + c.remove)
    else
      && c.after == (c.before + c.add) - c.remove
      && (c.strict ==> c.remove <= c.before)
  }

  /** Every commit starts from what the one before it left. */
  predicate LogIs(initial: set<Obj>, log: seq<Commit>) {
    forall i | 0 <= i < |log| :: CommitOk(log[i]) && log[i].before == CommittedAt(initial, log, i)
  }

  predicate LogOk(s: State) {
    LogIs(s.initial, s.log)
  }

  lemma AppendKeepsLog(initial: set<Obj>, log: seq<Commit>, c: Commit)
    requires LogIs(initial, log) && CommitOk(c) && c.before == CommittedAt(initial, log, |log|)
    ensures LogIs(initial, log + [c])
  {
    var more := log + [c];
    forall i | 0 <= i < |more| ensures CommitOk(more[i]) && more[i].before == CommittedAt(initial, more, i) {
      assert i < |log| ==> CommitOk(log[i]) && log[i].before == CommittedAt(initial, log, i);
    }
  }

  /** What readers of version `i` can see was committed, and is there for as long as they can read. */
  ghost predicate SnapshotOk(v: Version, db: Db, initial: set<Obj>, log: seq<Commit>, tainted: set<Obj>) {
    && v.at <= |log|
    && v.snapshot.store == CommittedAt(initial, log, v.at) - v.exclude
    && (!v.locked ==> Outside(db, v.exclude) == v.snapshot)
    && AgreesExcept(v.snapshot, tainted)
  }

  ghost predicate SnapshotsOk(s: State) {
    && WellFormed(s.db)
    && forall i | 0 <= i < |s.versions| :: SnapshotOk(s.versions[i], s.db, s.initial, s.log, s.tainted)
  }

  /** The groups in hand and to come still owe everything that is missing of `objects`. */
  predicate AddOwed(db: Db, w: Work, objects: set<Obj>) {
    && w.storePending <= objects && Union(w.chunks) <= objects
    && (forall p | p in w.indexPending :: p.obj in objects && p.key in p.obj.keys)
    && (forall o | o in objects :: o in db.store || o in w.storePending || o in Union(w.chunks))
    && (forall p | p in PostingsOf(objects) :: p in db.index || p in w.indexPending || p.obj in Union(w.chunks))
  }

  predicate RemoveOwed(db: Db, w: Work, objects: set<Obj>) {
    && w.storePending <= objects && Union(w.chunks) <= objects
    && (forall p | p in w.indexPending :: p.obj in objects && p.key in p.obj.keys)
    && (forall o | o in objects && o in db.store :: o in w.storePending || o in Union(w.chunks))
    && (forall p | p in db.index && p.obj in objects :: p in w.indexPending || p.obj in Union(w.chunks))
  }

  /** What `update` reports for a complete commit: did its add step, then its remove step, change anything? */
  predicate Changed(c: Commit) {
    || !(c.add <= c.before)
    || c.remove * (c.before + c.add) != {}
  }

  predicate LastCommit(s: State) {
    && s.log != []
    && s.log[|s.log| - 1].remove == s.Remove()
    && s.log[|s.log| - 1].add == s.Add()
    && s.log[|s.log| - 1].strict == s.req.strict
    && !s.log[|s.log| - 1].partial
  }

  predicate PhaseOk(s: State)
    requires VersionsOk(s)
  {
    var exclude := s.versions[s.Cur()].exclude;
    match s.phase
    case Idle => exclude == {}
    case Entered => exclude == {} && !s.modified && s.effective && Accepts(s.req)
    case AddDrain =>
      && exclude == s.Add() != {} && s.db.store == s.Committed() && !s.modified && s.effective
      && (s.req.strict ==> s.Remove() <= s.Committed())
    case Adding =>
      && exclude == s.Add() != {} && s.Committed() <= s.db.store && s.effective
      && AddOwed(s.db, s.work, s.Add())
      && (s.modified <==> s.db.store != s.Committed())
      && (s.req.strict ==> s.Remove() <= s.Committed())
    case RemoveDrain =>
      && LastCommit(s) && s.effective
      && var c := s.log[|s.log| - 1];
      && exclude == s.Remove() && s.db.store == c.before + c.add
      && (s.modified <==> !(c.add <= c.before))
    case Removing =>
      && LastCommit(s) && s.effective
      && var c := s.log[|s.log| - 1];
      && exclude == s.Remove() && s.db.store <= c.before + c.add
      && RemoveOwed(s.db, s.work, s.Remove())
      && (s.modified <==> !(c.add <= c.before) || s.db.store != c.before + c.add)
    case FinalDrain =>
      && exclude == {}
      && LastCommit(s) && s.effective && (s.modified <==> Changed(s.log[|s.log| - 1]))
    case Closing =>
      && exclude == {}
      && (s.effective ==> LastCommit(s) && (s.modified <==> Changed(s.log[|s.log| - 1])))
      && (!s.effective ==> !s.modified && s.Declines())
    case Recovering(adding) =>
      && exclude == (if adding then s.Add() else s.Remove()) <= s.tainted
      && (!adding ==> LastCommit(s))
    case RestoreDrain => exclude == {}
  }

  predicate ReturnOk(initial: set<Obj>, log: seq<Commit>, ret: Return) {
    && ret.seen <= |log|
    && Accepts(ret.req)
    && (ret.effective ==>
          && ret.seen > 0
          && var c := log[ret.seen - 1];
          && c.remove == Elems(ret.req.remove) && c.add == Elems(ret.req.add)
          && c.strict == ret.req.strict && !c.partial
          && (ret.modified <==> Changed(c)))
    && (!ret.effective ==>
          && !ret.modified
          && ((Elems(ret.req.add) == {} && Elems(ret.req.remove) == {})
              || (ret.req.strict && !(Elems(ret.req.remove) <= CommittedAt(initial, log, ret.seen)))))
  }

  predicate ReturnsOk(s: State) {
    && CallAccepted(s)
    && (forall i | 0 <= i < |s.returned| :: ReturnOk(s.initial, s.log, s.returned[i]))
  }

  ghost predicate Inv(s: State) {
    && VersionsOk(s)
    && ReadersOk(s)
    && LogOk(s)
    && SnapshotsOk(s)
    && PhaseOk(s)
    && ReturnsOk(s)
  }

  lemma InitInv(objects: set<Obj>)
    ensures Inv(Init(objects))
  {
    var s := Init(objects);
    assert Outside(s.db, {}) == s.db;
  }

  lemma VersionsKept(s: State, e: Event)
    requires VersionsOk(s) && Enabled(s, e)
    ensures VersionsOk(Apply(s, e))
  {
    if IsPublish(e) {
      PublishKeepsVersions(s, e);
    } else {
      OtherStepsKeepVersions(s, e);
    }
  }

  lemma PublishKeepsVersions(s: State, e: Event)
    requires VersionsOk(s) && Enabled(s, e) && IsPublish(e)
    ensures VersionsOk(Apply(s, e))
  {
  }

  lemma OtherStepsKeepVersions(s: State, e: Event)
    requires VersionsOk(s) && Enabled(s, e) && !IsPublish(e)
    ensures VersionsOk(Apply(s, e))
  {
    if e.Drain? {
      DrainKeepsVersions(s);
    }
  }

  lemma DrainKeepsVersions(s: State)
    requires VersionsOk(s) && Enabled(s, Drain)
    ensures VersionsOk(Apply(s, Drain))
  {
  }

  predicate IsPublish(e: Event) {
    e.PublishAdd? || e.PublishRemove? || e.PublishFinal? || e.PublishRestore?
  }

  /** Commits, and the versions' contents, change only by publication. */
  lemma NoCommit(s: State, e: Event)
    requires Enabled(s, e) && !IsPublish(e)
    ensures Apply(s, e).log == s.log && Apply(s, e).initial == s.initial
  {
  }

  lemma ReadersKept(s: State, e: Event)
    requires VersionsOk(s) && ReadersOk(s) && Enabled(s, e)
    ensures ReadersOk(Apply(s, e))
  {
    if IsPublish(e) {
      PublishKeepsReaders(s, e);
    } else if e.Drain? {
      DrainKeepsReaders(s);
    } else {
      OtherStepsKeepReaders(s, e);
    }
  }

  lemma PublishKeepsReaders(s: State, e: Event)
    requires VersionsOk(s) && ReadersOk(s) && Enabled(s, e) && IsPublish(e)
    ensures ReadersOk(Apply(s, e))
  {
    var t := Apply(s, e);
    assert t.versions[..|s.versions|] == s.versions;
    forall r | r in t.readers ensures ReaderOk(t.versions, t.readers[r]) {
      assert ReaderOk(s.versions, s.readers[r]);
    }
  }

  lemma DrainKeepsReaders(s: State)
    requires VersionsOk(s) && ReadersOk(s) && Enabled(s, Drain)
    ensures ReadersOk(Apply(s, Drain))
  {
    var t := Apply(s, Drain);
    forall r | r in t.readers ensures ReaderOk(t.versions, t.readers[r]) {
      assert ReaderOk(s.versions, s.readers[r]);
      assert r !in Holders(s, s.Cur() - 1);
    }
  }

  lemma OtherStepsKeepReaders(s: State, e: Event)
    requires VersionsOk(s) && ReadersOk(s) && Enabled(s, e) && !IsPublish(e) && !e.Drain?
    ensures ReadersOk(Apply(s, e))
  {
    var t := Apply(s, e);
    forall r | r in t.readers ensures ReaderOk(t.versions, t.readers[r]) {
      if r in s.readers {
        assert ReaderOk(s.versions, s.readers[r]);
      }
    }
  }

  /** Outside a mutation the current version hides nothing and shows the whole store. */
  lemma Quiet(s: State)
    requires VersionsOk(s) && SnapshotsOk(s) && s.versions[s.Cur()].exclude == {}
    ensures s.db.store == s.Committed()
    ensures AgreesExcept(s.db, s.tainted)
  {
    assert SnapshotOk(s.versions[s.Cur()], s.db, s.initial, s.log, s.tainted);
    assert Outside(s.db, {}) == s.db;
  }

  /** When the add step has nothing left to do, it has added everything. */
  lemma AddDone(s: State)
    requires VersionsOk(s) && SnapshotsOk(s) && PhaseOk(s) && s.phase.Adding? && WorkDone(s.work)
    ensures s.db.store == s.Committed() + s.Add()
    ensures s.modified <==> !(s.Add() <= s.Committed())
    ensures AgreesExcept(s.db, s.tainted)
  {
    assert SnapshotOk(s.versions[s.Cur()], s.db, s.initial, s.log, s.tainted);
    var snap := s.versions[s.Cur()].snapshot;
    assert forall o :: o in snap.store <==> o in s.db.store && o !in s.Add();
    assert forall p :: p in snap.index <==> p in s.db.index && p.obj !in s.Add();
    assert Union(s.work.chunks) == {};
    forall p: Posting | p.obj !in s.tainted ensures p in s.db.index <==> p in PostingsOf(s.db.store) {
      if p.obj !in s.Add() {
        assert p in snap.index <==> p in PostingsOf(snap.store);
      }
    }
  }

  /** When the remove step has nothing left to do, it has removed everything. */
  lemma RemoveDone(s: State)
    requires VersionsOk(s) && SnapshotsOk(s) && LogOk(s) && PhaseOk(s) && s.phase.Removing? && WorkDone(s.work)
    ensures s.db.store == s.Committed()
    ensures s.modified <==> Changed(s.log[|s.log| - 1])
    ensures AgreesExcept(s.db, s.tainted)
  {
    assert SnapshotOk(s.versions[s.Cur()], s.db, s.initial, s.log, s.tainted);
    var snap := s.versions[s.Cur()].snapshot;
    var c := s.log[|s.log| - 1];
    assert CommitOk(c);
    assert forall o :: o in snap.store <==> o in s.db.store && o !in s.Remove();
    assert forall p :: p in snap.index <==> p in s.db.index && p.obj !in s.Remove();
    assert Union(s.work.chunks) == {};
    assert s.db.store == (c.before + c.add) - c.remove;
    assert forall o :: o in c.remove * (c.before + c.add) <==> o in c.before + c.add && o !in s.db.store;
    forall p: Posting | p.obj !in s.tainted ensures p in s.db.index <==> p in PostingsOf(s.db.store) {
      if p.obj !in s.Remove() {
        assert p in snap.index <==> p in PostingsOf(snap.store);
      }
    }
  }

  /** An abandoned update has touched only its own objects, the index only those of the step it was in. */
  lemma Abandoned(s: State)
    requires VersionsOk(s) && SnapshotsOk(s) && PhaseOk(s) && s.phase.Recovering?
    ensures CommitOk(PartialCommit(s))
    ensures AgreesExcept(s.db, s.tainted)
  {
    assert SnapshotOk(s.versions[s.Cur()], s.db, s.initial, s.log, s.tainted);
    var exclude := s.versions[s.Cur()].exclude;
    var touched := s.Add() + s.Remove();
    assert s.db.store - exclude == s.Committed() - exclude;
    forall o | o !in touched ensures o in s.db.store <==> o in s.Committed() {
      assert o in s.db.store - exclude <==> o in s.Committed() - exclude;
    }
    var snap := s.versions[s.Cur()].snapshot;
    forall p: Posting | p.obj !in s.tainted ensures p in s.db.index <==> p in PostingsOf(s.db.store) {
      assert p in snap.index <==> p in PostingsOf(snap.store);
      assert p in Outside(s.db, exclude).index <==> p in s.db.index;
      assert p.obj in Outside(s.db, exclude).store <==> p.obj in s.db.store;
    }
  }

  /** What holds of the database whenever the writer publishes. */
  ghost predicate PublishReady(s: State, e: Event) {
    && (e.PublishAdd? || (e.PublishRemove? && s.phase.Entered?) ==>
          s.db.store == s.Committed() && !s.modified)
    && (e.PublishAdd? || e.PublishRemove? || (e.PublishFinal? && s.phase.Adding?) ==>
          s.req.strict ==> s.Remove() <= s.Committed())
    && (e.PublishRemove? || (e.PublishFinal? && s.phase.Adding?) ==>
          s.db.store == s.Committed() + s.Add() && (s.modified <==> !(s.Add() <= s.Committed())))
    && (e.PublishFinal? && s.phase.Removing? ==>
          s.log != [] && s.db.store == s.Committed() && (s.modified <==> Changed(s.log[|s.log| - 1])))
    && (e.PublishRestore? ==> CommitOk(PartialCommit(s)))
    && AgreesExcept(s.db, s.tainted)
  }

  lemma PublishIsReady(s: State, e: Event)
    requires VersionsOk(s) && SnapshotsOk(s) && LogOk(s) && PhaseOk(s) && Enabled(s, e) && IsPublish(e)
    ensures PublishReady(s, e)
  {
    match s.phase {
      case Entered => Quiet(s);
      case Adding => AddDone(s);
      case Removing => RemoveDone(s);
      case _ => Abandoned(s);
    }
  }

  lemma LogKept(s: State, e: Event)
    requires LogOk(s) && Enabled(s, e)
    requires IsPublish(e) ==> PublishReady(s, e)
    ensures LogOk(Apply(s, e))
  {
    if IsPublish(e) {
      PublishKeepsLog(s, e);
    } else {
      NoCommit(s, e);
    }
  }

  lemma PublishKeepsLog(s: State, e: Event)
    requires LogOk(s) && Enabled(s, e) && IsPublish(e) && PublishReady(s, e)
    ensures LogOk(Apply(s, e))
  {
    match e {
      case PublishAdd =>
      case PublishRestore => AppendKeepsLog(s.initial, s.log, PartialCommit(s));
      case _ =>
        if !s.phase.Removing? {
          AppendKeepsLog(s.initial, s.log, NewCommit(s));
        }
    }
  }

  /** Publication freezes what a reader of the new version sees. */
  lemma PublishKeepsSnapshots(s: State, e: Event)
    requires VersionsOk(s) && SnapshotsOk(s) && Enabled(s, e) && IsPublish(e) && PublishReady(s, e)
    ensures SnapshotsOk(Apply(s, e))
  {
    var t := Apply(s, e);
    forall i | 0 <= i < |t.versions|
      ensures SnapshotOk(t.versions[i], t.db, t.initial, t.log, t.tainted)
    {
      if i < |s.versions| {
        assert SnapshotOk(s.versions[i], s.db, s.initial, s.log, s.tainted);
        assert CommittedAt(t.initial, t.log, t.versions[i].at) == CommittedAt(s.initial, s.log, s.versions[i].at);
      } else {
        PublishedSnapshot(s, e);
      }
    }
  }

  lemma PublishedSnapshot(s: State, e: Event)
    requires Enabled(s, e) && IsPublish(e) && PublishReady(s, e)
    ensures var t := Apply(s, e); SnapshotOk(t.versions[t.Cur()], t.db, t.initial, t.log, t.tainted)
  {
    var t := Apply(s, e);
    var v := t.versions[t.Cur()];
    assert v.snapshot == Outside(s.db, v.exclude);
    assert forall p: Posting | p.obj !in s.tainted :: p in v.snapshot.index <==> p in PostingsOf(v.snapshot.store);
  }

  /** The add and remove loops touch only objects the current version hides. */
  lemma WorkIsHidden(s: State, e: Event)
    requires VersionsOk(s) && PhaseOk(s) && WellFormed(s.db) && Enabled(s, e)
    requires e.StoreStep? || e.IndexStep?
    ensures var exclude := s.versions[s.Cur()].exclude;
      Outside(Apply(s, e).db, exclude) == Outside(s.db, exclude)
    ensures WellFormed(Apply(s, e).db)
  {
  }

  lemma SnapshotsKept(s: State, e: Event)
    requires VersionsOk(s) && SnapshotsOk(s) && PhaseOk(s) && Enabled(s, e)
    requires IsPublish(e) ==> PublishReady(s, e)
    ensures SnapshotsOk(Apply(s, e))
  {
    if IsPublish(e) {
      PublishKeepsSnapshots(s, e);
    } else if e.StoreStep? || e.IndexStep? {
      WorkKeepsSnapshots(s, e);
    } else {
      OtherStepsKeepSnapshots(s, e);
    }
  }

  lemma WorkKeepsSnapshots(s: State, e: Event)
    requires VersionsOk(s) && SnapshotsOk(s) && PhaseOk(s) && Enabled(s, e) && (e.StoreStep? || e.IndexStep?)
    ensures SnapshotsOk(Apply(s, e))
  {
    var t := Apply(s, e);
    WorkIsHidden(s, e);
    forall i | 0 <= i < |t.versions|
      ensures SnapshotOk(t.versions[i], t.db, t.initial, t.log, t.tainted)
    {
      assert SnapshotOk(s.versions[i], s.db, s.initial, s.log, s.tainted);
    }
  }

  lemma OtherStepsKeepSnapshots(s: State, e: Event)
    requires SnapshotsOk(s) && Enabled(s, e) && !IsPublish(e) && !e.StoreStep? && !e.IndexStep?
    ensures SnapshotsOk(Apply(s, e))
  {
    if IsReaderEvent(e) {
      ReaderWritesNothing(s, e);
    } else if e.Drain? {
      DrainWritesNothing(s);
    } else {
      ControlWritesNothing(s, e);
    }
    SnapshotsLast(s, Apply(s, e));
  }

  /** Neither store nor index nor log changes, and at most one version is locked. */
  predicate WritesNothing(s: State, t: State) {
    && t.db == s.db && t.log == s.log && t.initial == s.initial && s.tainted <= t.tainted
    && (t.versions == s.versions || LocksOne(s.versions, t.versions))
  }

  lemma ReaderWritesNothing(s: State, e: Event)
    requires Enabled(s, e) && IsReaderEvent(e)
    ensures WritesNothing(s, Apply(s, e))
  {
  }

  lemma DrainWritesNothing(s: State)
    requires Enabled(s, Drain)
    ensures WritesNothing(s, Apply(s, Drain))
  {
  }

  lemma ControlWritesNothing(s: State, e: Event)
    requires Enabled(s, e) && (e.Enter? || e.Decline? || e.Finish? || e.Fail? || e.NextChunk?)
    ensures WritesNothing(s, Apply(s, e))
  {
  }

  predicate LocksOne(v: seq<Version>, w: seq<Version>) {
    |v| >= 2 && w == v[|v| - 2 := v[|v| - 2].(locked := true)]
  }

  lemma SnapshotsLast(s: State, t: State)
    requires SnapshotsOk(s) && WritesNothing(s, t)
    ensures SnapshotsOk(t)
  {
    forall i | 0 <= i < |t.versions|
      ensures SnapshotOk(t.versions[i], t.db, t.initial, t.log, t.tainted)
    {
      assert SnapshotOk(s.versions[i], s.db, s.initial, s.log, s.tainted);
    }
  }

  /** A mutation that starts owes every store and index write of its argument. */
  lemma DrainOwes(s: State)
    ensures AddOwed(s.db, Begin(s.req.add), s.Add())
    ensures RemoveOwed(s.db, Begin(s.req.remove), s.Remove())
  {
    ChunksCover(s.req.add);
    ChunksCover(s.req.remove);
  }

  lemma UnionStep(chunks: seq<set<Obj>>)
    requires chunks != []
    ensures Union(chunks) == chunks[0] + Union(chunks[1..])
  {
  }

  lemma NextChunkKeepsPhase(s: State)
    requires Enabled(s, NextChunk)
    requires VersionsOk(s) && VersionsOk(Apply(s, NextChunk)) && PhaseOk(s) && WellFormed(s.db)
    ensures PhaseOk(Apply(s, NextChunk))
  {
    UnionStep(s.work.chunks);
  }

  lemma StoreStepKeepsPhase(s: State, o: Obj)
    requires Enabled(s, StoreStep(o)) && VersionsOk(s) && VersionsOk(Apply(s, StoreStep(o))) && PhaseOk(s)
    ensures PhaseOk(Apply(s, StoreStep(o)))
  {
    if s.phase.Removing? && o in s.db.store {
      assert o !in Apply(s, StoreStep(o)).db.store;
    }
  }

  lemma IndexStepKeepsPhase(s: State, p: Posting)
    requires Enabled(s, IndexStep(p)) && VersionsOk(s) && VersionsOk(Apply(s, IndexStep(p))) && PhaseOk(s)
    ensures PhaseOk(Apply(s, IndexStep(p)))
  {
  }

  lemma PhaseKept(s: State, e: Event)
    requires Enabled(s, e) && VersionsOk(s) && VersionsOk(Apply(s, e)) && LogOk(s) && SnapshotsOk(s) && PhaseOk(s)
    requires IsPublish(e) ==> PublishReady(s, e)
    ensures PhaseOk(Apply(s, e))
  {
    if e.NextChunk? {
      NextChunkKeepsPhase(s);
    } else if e.StoreStep? {
      StoreStepKeepsPhase(s, e.o);
    } else if e.IndexStep? {
      IndexStepKeepsPhase(s, e.p);
    } else if e.Drain? {
      DrainKeepsPhase(s);
    } else if IsPublish(e) {
      PublishKeepsPhase(s, e);
    } else {
      ControlKeepsPhase(s, e);
    }
  }

  lemma DrainKeepsPhase(s: State)
    requires Enabled(s, Drain) && VersionsOk(s) && VersionsOk(Apply(s, Drain)) && LogOk(s) && PhaseOk(s)
    ensures PhaseOk(Apply(s, Drain))
  {
    match s.phase {
      case AddDrain => AddDrainKeepsPhase(s);
      case RemoveDrain => RemoveDrainKeepsPhase(s);
      case _ => LastDrainKeepsPhase(s);
    }
  }

  lemma LastDrainKeepsPhase(s: State)
    requires Enabled(s, Drain) && VersionsOk(s) && VersionsOk(Apply(s, Drain)) && PhaseOk(s)
    requires s.phase.FinalDrain? || s.phase.RestoreDrain?
    ensures PhaseOk(Apply(s, Drain))
  {
  }

  lemma AddDrainKeepsPhase(s: State)
    requires Enabled(s, Drain) && VersionsOk(s) && VersionsOk(Apply(s, Drain)) && PhaseOk(s) && s.phase.AddDrain?
    ensures PhaseOk(Apply(s, Drain))
  {
    DrainOwes(s);
  }

  lemma RemoveDrainKeepsPhase(s: State)
    requires Enabled(s, Drain) && VersionsOk(s) && VersionsOk(Apply(s, Drain)) && PhaseOk(s)
    requires s.phase.RemoveDrain?
    ensures PhaseOk(Apply(s, Drain))
  {
    DrainOwes(s);
  }

  lemma PublishKeepsPhase(s: State, e: Event)
    requires Enabled(s, e) && VersionsOk(s) && VersionsOk(Apply(s, e)) && PhaseOk(s)
    requires IsPublish(e) && PublishReady(s, e)
    ensures PhaseOk(Apply(s, e))
  {
  }

  lemma ControlKeepsPhase(s: State, e: Event)
    requires Enabled(s, e) && VersionsOk(s) && VersionsOk(Apply(s, e)) && PhaseOk(s)
    requires IsReaderEvent(e) || e.Enter? || e.Decline? || e.Finish? || e.Fail?
    ensures PhaseOk(Apply(s, e))
  {
    if IsReaderEvent(e) {
      ReaderKeepsPhase(s, e);
    } else if e.Fail? {
      FailKeepsPhase(s);
    } else if e.Enter? {
      EnterKeepsPhase(s, e.req);
    } else if e.Decline? {
      DeclineKeepsPhase(s);
    }
  }

  lemma ReaderKeepsPhase(s: State, e: Event)
    requires Enabled(s, e) && VersionsOk(s) && VersionsOk(Apply(s, e)) && PhaseOk(s) && IsReaderEvent(e)
    ensures PhaseOk(Apply(s, e))
  {
    var t := Apply(s, e);
    assert t == s.(readers := t.readers);
  }

  lemma FailKeepsPhase(s: State)
    requires Enabled(s, Fail) && VersionsOk(s) && VersionsOk(Apply(s, Fail)) && PhaseOk(s)
    ensures PhaseOk(Apply(s, Fail))
  {
  }

  lemma EnterKeepsPhase(s: State, req: Request)
    requires Enabled(s, Enter(req)) && VersionsOk(s) && VersionsOk(Apply(s, Enter(req))) && PhaseOk(s)
    ensures PhaseOk(Apply(s, Enter(req)))
  {
  }

  lemma DeclineKeepsPhase(s: State)
    requires Enabled(s, Decline) && VersionsOk(s) && VersionsOk(Apply(s, Decline)) && PhaseOk(s)
    ensures PhaseOk(Apply(s, Decline))
  {
  }

  lemma ReturnsKept(s: State, e: Event)
    requires VersionsOk(s) && SnapshotsOk(s) && PhaseOk(s) && ReturnsOk(s) && Enabled(s, e)
    ensures ReturnsOk(Apply(s, e))
  {
    if e.Finish? {
      Quiet(s);
      FinishKeepsReturns(s);
    } else {
      OtherStepsKeepReturns(s, e);
    }
  }

  lemma FinishKeepsReturns(s: State)
    requires VersionsOk(s) && PhaseOk(s) && ReturnsOk(s) && Enabled(s, Finish) && s.db.store == s.Committed()
    ensures ReturnsOk(Apply(s, Finish))
  {
    var t := Apply(s, Finish);
    forall i | 0 <= i < |t.returned| ensures ReturnOk(t.initial, t.log, t.returned[i]) {
      if i < |s.returned| {
        assert ReturnOk(s.initial, s.log, s.returned[i]);
      }
    }
  }

  lemma OtherStepsKeepReturns(s: State, e: Event)
    requires ReturnsOk(s) && Enabled(s, e) && !e.Finish?
    ensures ReturnsOk(Apply(s, e))
  {
    var t := Apply(s, e);
    OtherStepsReturnNothing(s, e);
    forall i | 0 <= i < |t.returned| ensures ReturnOk(t.initial, t.log, t.returned[i]) {
      ReturnLasts(s.initial, s.log, t.log, s.returned[i]);
    }
  }

  predicate CallAccepted(s: State) {
    !s.phase.Idle? && !s.phase.Recovering? && !s.phase.RestoreDrain? ==> Accepts(s.req)
  }

  /** No call returns, and the one in progress was accepted. */
  predicate ReturnsNothing(s: State, t: State) {
    && t.returned == s.returned && t.initial == s.initial && s.log <= t.log && s.tainted <= t.tainted
    && (CallAccepted(s) ==> CallAccepted(t))
  }

  lemma OtherStepsReturnNothing(s: State, e: Event)
    requires Enabled(s, e) && !e.Finish?
    ensures ReturnsNothing(s, Apply(s, e))
  {
    if IsReaderEvent(e) {
      ReaderReturnsNothing(s, e);
    } else if IsPublish(e) {
      PublishReturnsNothing(s, e);
    } else if e.Drain? {
      DrainReturnsNothing(s);
    } else {
      ControlReturnsNothing(s, e);
    }
  }

  lemma ReaderReturnsNothing(s: State, e: Event)
    requires Enabled(s, e) && IsReaderEvent(e)
    ensures ReturnsNothing(s, Apply(s, e))
  {
  }

  lemma PublishReturnsNothing(s: State, e: Event)
    requires Enabled(s, e) && IsPublish(e)
    ensures ReturnsNothing(s, Apply(s, e))
  {
  }

  lemma DrainReturnsNothing(s: State)
    requires Enabled(s, Drain)
    ensures ReturnsNothing(s, Apply(s, Drain))
  {
  }

  lemma ControlReturnsNothing(s: State, e: Event)
    requires Enabled(s, e)
    requires e.Enter? || e.Decline? || e.Fail? || e.NextChunk? || e.StoreStep? || e.IndexStep?
    ensures ReturnsNothing(s, Apply(s, e))
  {
  }

  lemma ReturnLasts(initial: set<Obj>, log: seq<Commit>, longer: seq<Commit>, ret: Return)
    requires ReturnOk(initial, log, ret) && log <= longer
    ensures ReturnOk(initial, longer, ret)
  {
  }

  lemma StepKeepsInv(s: State, e: Event)
    requires Inv(s) && Enabled(s, e)
    ensures Inv(Apply(s, e))
  {
    VersionsKept(s, e);
    ReadersKept(s, e);
    if IsPublish(e) {
      PublishIsReady(s, e);
    }
    LogKept(s, e);
    SnapshotsKept(s, e);
    PhaseKept(s, e);
    ReturnsKept(s, e);
  }

  /** Every state of every run satisfies the invariant. */
  lemma {:induction false} RunKeepsInv(s: State, events: seq<Event>)
    requires Inv(s) && CanRun(s, events)
    ensures Inv(Run(s, events))
    decreases |events|
  {
    if events != [] {
      StepKeepsInv(s, events[0]);
      RunKeepsInv(Apply(s, events[0]), events[1..]);
    }
  }
}
