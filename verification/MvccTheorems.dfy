/** What the multi-version protocol guarantees in every run, over any number of readers,
    updates, and failing updates.
 */
module MvccTheorems {
  import opened Model
  import opened Mvcc
  import opened MvccInvariant
  import Plain = Sequential

  lemma Reachable(objects: set<Obj>, events: seq<Event>)
    requires CanRun(Init(objects), events)
    ensures Inv(Run(Init(objects), events))
  {
    InitInv(objects);
    RunKeepsInv(Init(objects), events);
  }

  // ----- Publications are never revised -----

  /** The same versions, perhaps locked since then, and perhaps more of them. */
  predicate SameVersions(v: seq<Version>, w: seq<Version>) {
    && |v| <= |w|
    && forall i | 0 <= i < |v| ::
         && w[i].snapshot == v[i].snapshot && w[i].exclude == v[i].exclude && w[i].at == v[i].at
         && (v[i].locked ==> w[i].locked)
  }

  /** Versions, commits and returns are only ever appended; a locked version stays locked. */
  predicate Extends(s: State, t: State) {
    && SameVersions(s.versions, t.versions) && s.log <= t.log && s.returned <= t.returned
    && s.initial == t.initial && s.tainted <= t.tainted
  }

  lemma StepExtends(s: State, e: Event)
    requires Enabled(s, e)
    ensures Extends(s, Apply(s, e))
  {
    VersionsAppended(s, e);
    VersionsAreTheSame(s.versions, Apply(s, e).versions);
    LogsAppended(s, e);
  }

  lemma VersionsAreTheSame(v: seq<Version>, w: seq<Version>)
    requires || w == v
             || (|w| == |v| + 1 && w[..|v|] == v)
             || (|v| >= 2 && w == v[|v| - 2 := v[|v| - 2].(locked := true)])
    ensures SameVersions(v, w)
  {
  }

  lemma LogsAppended(s: State, e: Event)
    requires Enabled(s, e)
    ensures var t := Apply(s, e);
      s.log <= t.log && s.returned <= t.returned && s.initial == t.initial && s.tainted <= t.tainted
  {
    if e.Finish? {
      NoCommit(s, e);
    } else {
      OtherStepsReturnNothing(s, e);
    }
  }

  lemma VersionsAppended(s: State, e: Event)
    requires Enabled(s, e)
    ensures var t := Apply(s, e);
      if IsPublish(e) then
        |t.versions| == |s.versions| + 1 && t.versions[..|s.versions|] == s.versions
      else if e.Drain? then
        var prev := |s.versions| - 2;
        t.versions == s.versions[prev := s.versions[prev].(locked := true)]
      else
        t.versions == s.versions
  {
  }

  lemma ExtendsTransitive(s: State, t: State, u: State)
    requires Extends(s, t) && Extends(t, u)
    ensures Extends(s, u)
  {
  }

  lemma {:induction false} RunExtends(s: State, events: seq<Event>)
    requires CanRun(s, events)
    ensures Extends(s, Run(s, events))
    decreases |events|
  {
    if events != [] {
      var t := Apply(s, events[0]);
      StepExtends(s, events[0]);
      RunExtends(t, events[1..]);
      ExtendsTransitive(s, t, Run(t, events[1..]));
    }
  }

  // ----- Snapshot stability -----

  /** Whatever is read under the current version, or under one a thread still holds, from the store
      or from an index, is the snapshot fixed when the version was published, even between a store
      write and its index write; and store and index tell the same story about every object but
      those of an add or remove step that failed. */
  lemma SnapshotStability(objects: set<Obj>, events: seq<Event>, i: nat)
    requires CanRun(Init(objects), events)
    requires var s := Run(Init(objects), events);
      i < |s.versions| && (i == s.Cur() || Holders(s, i) != {})
    ensures var s := Run(Init(objects), events);
      var v := s.versions[i];
      && Outside(s.db, v.exclude) == v.snapshot
      && v.at <= |s.log|
      && Answers(s.db, v.exclude, s.tainted, CommittedAt(objects, s.log, v.at) - v.exclude)
  {
    Reachable(objects, events);
    var s := Run(Init(objects), events);
    RunExtends(Init(objects), events);
    if i != s.Cur() {
      var r :| r in Holders(s, i);
      assert ReaderOk(s.versions, s.readers[r]);
    }
    var v := s.versions[i];
    assert SnapshotOk(v, s.db, s.initial, s.log, s.tainted);
    AnswersOver(s.db, v.exclude, s.tainted, v.snapshot.store);
  }

  /** What readers kept from `hidden` find are the objects of `seen`: in the store, by every query that
      scans it, and, as far as objects outside `tainted` go, by every query that an index answers. */
  ghost predicate Answers(db: Db, hidden: set<Obj>, tainted: set<Obj>, seen: set<Obj>) {
    && db.store - hidden == seen
    && forall key ::
         && ScanAnswer(db, key, hidden) == Matching(seen, key)
         && IndexAnswer(db, key, hidden) - tainted == Matching(seen, key) - tainted
  }

  lemma AnswersOver(db: Db, hidden: set<Obj>, tainted: set<Obj>, seen: set<Obj>)
    requires AgreesExcept(Outside(db, hidden), tainted) && db.store - hidden == seen
    ensures Answers(db, hidden, tainted, seen)
  {
    forall key
      ensures ScanAnswer(db, key, hidden) == Matching(seen, key)
      ensures IndexAnswer(db, key, hidden) - tainted == Matching(seen, key) - tainted
    {
      AnswersAgreeExcept(db, hidden, tainted, key);
    }
  }

  /** No step but a reader's own changes what it has loaded or holds. */
  lemma ReadersAreTheirOwn(s: State, e: Event, r: nat)
    requires Enabled(s, e) && e != Load(r) && e != TryLock(r) && e != Close(r)
    ensures var t := Apply(s, e);
      (r in t.readers <==> r in s.readers) && (r in s.readers ==> t.readers[r] == s.readers[r])
  {
    if !IsReaderEvent(e) {
      WriterLeavesReaders(s, e);
    }
  }

  lemma WriterLeavesReaders(s: State, e: Event)
    requires Enabled(s, e) && !IsReaderEvent(e)
    ensures Apply(s, e).readers == s.readers
  {
  }

  /** A thread that has loaded a version has it loaded until it tries its lock, and one that holds
      the lock holds it until it closes its own results; whatever runs meanwhile. */
  lemma {:induction false} EntryLasts(s: State, events: seq<Event>, r: nat)
    requires CanRun(s, events) && r in s.readers
    requires s.readers[r].Loaded? ==> TryLock(r) !in events
    requires s.readers[r].Refused? ==> Load(r) !in events
    requires s.readers[r].Holding? ==> Close(r) !in events
    ensures var t := Run(s, events); r in t.readers && t.readers[r] == s.readers[r]
    decreases |events|
  {
    if events != [] {
      assert events[0] in events;
      assert forall e | e in events[1..] :: e in events;
      ReadersAreTheirOwn(s, events[0], r);
      EntryLasts(Apply(s, events[0]), events[1..], r);
    }
  }

  /** While a thread holds a version that has been superseded, the writer can take no step at all:
      it neither acquires the write lock nor writes nor publishes. */
  lemma HeldVersionStopsWriter(objects: set<Obj>, events: seq<Event>, r: nat, e: Event)
    requires CanRun(Init(objects), events)
    requires var s := Run(Init(objects), events);
      r in s.readers && s.readers[r].Holding? && s.readers[r].v < s.Cur() && Enabled(s, e)
    ensures IsReaderEvent(e)
  {
    Reachable(objects, events);
    WriterStopped(Run(Init(objects), events), r, e);
  }

  lemma WriterStopped(s: State, r: nat, e: Event)
    requires VersionsOk(s) && ReadersOk(s) && Enabled(s, e)
    requires r in s.readers && s.readers[r].Holding? && s.readers[r].v < s.Cur()
    ensures IsReaderEvent(e) && Apply(s, e) == s.(readers := Apply(s, e).readers)
  {
    assert ReaderOk(s.versions, s.readers[r]);
    assert s.Draining() && s.readers[r].v == s.Cur() - 1;
    assert r in Holders(s, s.Cur() - 1);
  }

  /** So until that thread closes its own results, it keeps its lock, nothing is written and nothing
      is published: the writer waits for it. */
  lemma WriterWaitsForReader(objects: set<Obj>, events: seq<Event>, more: seq<Event>, r: nat)
    requires CanRun(Init(objects), events) && CanRun(Run(Init(objects), events), more)
    requires var s := Run(Init(objects), events);
      r in s.readers && s.readers[r].Holding? && s.readers[r].v < s.Cur() && Close(r) !in more
    ensures var s := Run(Init(objects), events); var t := Run(s, more);
      && r in t.readers && t.readers[r] == s.readers[r]
      && t == s.(readers := t.readers)
      && forall e | e in more :: IsReaderEvent(e)
  {
    Reachable(objects, events);
    WaitsFrom(Run(Init(objects), events), more, r);
  }

  lemma {:induction false} WaitsFrom(s: State, more: seq<Event>, r: nat)
    requires VersionsOk(s) && ReadersOk(s) && CanRun(s, more)
    requires r in s.readers && s.readers[r].Holding? && s.readers[r].v < s.Cur() && Close(r) !in more
    ensures var t := Run(s, more);
      && r in t.readers && t.readers[r] == s.readers[r]
      && t == s.(readers := t.readers)
      && forall e | e in more :: IsReaderEvent(e)
    decreases |more|
  {
    if more != [] {
      var s' := Apply(s, more[0]);
      assert more[0] in more && forall e | e in more[1..] :: e in more;
      WriterStopped(s, r, more[0]);
      ReadersAreTheirOwn(s, more[0], r);
      VersionsKept(s, more[0]);
      ReadersKept(s, more[0]);
      WaitsFrom(s', more[1..], r);
      assert forall e | e in more :: e == more[0] || e in more[1..];
    }
  }

  /** A reader holds its version until it closes its own results, and any two reads of them give the
      same answer, whatever runs in between (updates, failures, other readers). */
  lemma RepeatableRead(objects: set<Obj>, events: seq<Event>, more: seq<Event>, r: nat, key: Key)
    requires CanRun(Init(objects), events)
    requires CanRun(Run(Init(objects), events), more)
    requires var s := Run(Init(objects), events);
      r in s.readers && s.readers[r].Holding? && Close(r) !in more
    ensures var s := Run(Init(objects), events); var t := Run(s, more);
      && r in t.readers && t.readers[r] == s.readers[r]
      && s.readers[r].v < |s.versions| <= |t.versions|
      && var hidden := s.versions[s.readers[r].v].exclude;
      && hidden == t.versions[s.readers[r].v].exclude
      && IndexAnswer(t.db, key, hidden) == IndexAnswer(s.db, key, hidden)
      && ScanAnswer(t.db, key, hidden) == ScanAnswer(s.db, key, hidden)
  {
    var s := Run(Init(objects), events);
    var t := Run(s, more);
    Reachable(objects, events);
    RunKeepsInv(s, more);
    RunExtends(s, more);
    EntryLasts(s, more, r);
    var v := s.readers[r].v;
    assert ReaderOk(s.versions, s.readers[r]) && ReaderOk(t.versions, t.readers[r]);
    assert SnapshotOk(s.versions[v], s.db, s.initial, s.log, s.tainted);
    assert SnapshotOk(t.versions[v], t.db, t.initial, t.log, t.tainted);
    var hidden := s.versions[v].exclude;
    SameOutside(s.db, t.db, hidden, key);
  }

  lemma SameOutside(a: Db, b: Db, hidden: set<Obj>, key: Key)
    requires Outside(a, hidden) == Outside(b, hidden)
    ensures IndexAnswer(a, key, hidden) == IndexAnswer(b, key, hidden)
    ensures ScanAnswer(a, key, hidden) == ScanAnswer(b, key, hidden)
  {
    var rest := Outside(a, hidden);
    assert forall p :: p in rest.index <==> p in a.index && p.obj !in hidden;
    assert forall p :: p in rest.index <==> p in b.index && p.obj !in hidden;
    assert forall o :: o in rest.store <==> o in a.store && o !in hidden;
    assert forall o :: o in rest.store <==> o in b.store && o !in hidden;
  }

  // ----- Atomic, linearizable updates -----

  /** The committed set changes exactly at one publication of an update (its remove step, or its end
      if it only adds) or at the one that follows a failure: by the whole replacement at once, or
      to what the failed update left. From that step on, readers of the current version see exactly
      the new set. */
  lemma CommitsAtomically(objects: set<Obj>, events: seq<Event>, e: Event)
    requires CanRun(Init(objects), events) && Enabled(Run(Init(objects), events), e)
    ensures var s := Run(Init(objects), events); var t := Apply(s, e);
      var commits := e.PublishRemove? || (e.PublishFinal? && s.phase.Adding?) || e.PublishRestore?;
      && (!commits ==> t.Committed() == s.Committed())
      && (commits ==>
            && t.Committed() == (if e.PublishRestore? then s.db.store else (s.Committed() + s.Add()) - s.Remove())
            && t.versions != []
            && Answers(t.db, t.versions[t.Cur()].exclude, t.tainted, t.Committed()))
  {
    var s := Run(Init(objects), events);
    Reachable(objects, events);
    StepKeepsInv(s, e);
    StepCommits(s, e);
    CurrentShows(Apply(s, e));
  }

  lemma StepCommits(s: State, e: Event)
    requires Enabled(s, e)
    ensures var t := Apply(s, e);
      var commits := e.PublishRemove? || (e.PublishFinal? && s.phase.Adding?) || e.PublishRestore?;
      && (!commits ==> t.Committed() == s.Committed())
      && (commits ==>
            && t.Committed() == (if e.PublishRestore? then s.db.store else (s.Committed() + s.Add()) - s.Remove())
            && !t.AddHidden())
  {
  }

  /** What a reader arriving now will see: what is committed, without the objects being added. */
  function Shown(s: State): set<Obj> {
    if s.AddHidden() then s.Committed() - s.Add() else s.Committed()
  }

  lemma CurrentShows(s: State)
    requires Inv(s)
    ensures Answers(s.db, s.versions[s.Cur()].exclude, s.tainted, Shown(s))
  {
    var v := s.versions[s.Cur()];
    assert SnapshotOk(v, s.db, s.initial, s.log, s.tainted);
    ExcludedNow(s);
    AnswersOver(s.db, v.exclude, s.tainted, v.snapshot.store);
  }

  /** What the current version hides was committed only if it is being added. */
  lemma ExcludedNow(s: State)
    requires VersionsOk(s) && LogOk(s) && PhaseOk(s)
    ensures s.Committed() - s.versions[s.Cur()].exclude == Shown(s)
  {
    if s.phase in {RemoveDrain, Removing, Recovering(false)} {
      assert CommitOk(s.log[|s.log| - 1]);
    }
  }

  /** A reader that loads the current version and, whatever has run meanwhile, gets its lock, holds it
      until it closes its own results, and answers every query, whenever it reads, over one set fixed
      at the moment of that load: what was then committed, without the objects of an add step then under
      way (or abandoned and not yet recovered from). So it sees exactly the committed set if and only if
      no such step was under way or none of its objects was committed already. */
  lemma ReadsAreAtomic(objects: set<Obj>, before: seq<Event>, r: nat, wait: seq<Event>, after: seq<Event>)
    requires CanRun(Init(objects), before) && Enabled(Run(Init(objects), before), Load(r))
    requires var s := Run(Init(objects), before);
      && CanRun(Apply(s, Load(r)), wait) && TryLock(r) !in wait
      && var u := Run(Apply(s, Load(r)), wait);
         && 0 <= s.Cur() < |u.versions| && !u.versions[s.Cur()].locked
         && (Enabled(u, TryLock(r)) ==> CanRun(Apply(u, TryLock(r)), after)) && Close(r) !in after
    ensures var s := Run(Init(objects), before); var u := Run(Apply(s, Load(r)), wait);
      && Enabled(u, TryLock(r))
      && var t := Run(Apply(u, TryLock(r)), after);
         && r in t.readers && t.readers[r] == Holding(s.Cur())
         && s.Cur() < |t.versions|
         && var hidden := t.versions[s.Cur()].exclude;
         && Answers(t.db, hidden, s.tainted, if s.AddHidden() then s.Committed() - s.Add() else s.Committed())
         && (t.db.store - hidden == s.Committed() <==> (s.AddHidden() ==> s.Add() !! s.Committed()))
  {
    var s := Run(Init(objects), before);
    var s' := Apply(s, Load(r));
    var u := Run(s', wait);
    Reachable(objects, before);
    StepKeepsInv(s, Load(r));
    RunKeepsInv(s', wait);
    RunExtends(s', wait);
    EntryLasts(s', wait, r);
    LockGranted(u, r, after);
    var t := Run(Apply(u, TryLock(r)), after);
    ExtendsTransitive(s', u, t);
    HeldVersionShows(s, t, r);
    if Shown(s) == s.Committed() && s.AddHidden() {
      assert forall o | o in s.Committed() :: o in s.Committed() - s.Add();
    }
  }

  /** A lock that is granted is held until the thread closes its own results. */
  lemma LockGranted(u: State, r: nat, after: seq<Event>)
    requires Inv(u) && Enabled(u, TryLock(r)) && !u.versions[u.readers[r].v].locked
    requires CanRun(Apply(u, TryLock(r)), after) && Close(r) !in after
    ensures var t := Run(Apply(u, TryLock(r)), after);
      Inv(t) && Extends(u, t) && r in t.readers && t.readers[r] == Holding(u.readers[r].v)
  {
    var v := Apply(u, TryLock(r));
    StepKeepsInv(u, TryLock(r));
    StepExtends(u, TryLock(r));
    RunKeepsInv(v, after);
    RunExtends(v, after);
    ExtendsTransitive(u, v, Run(v, after));
    EntryLasts(v, after, r);
  }

  /** What a version showed while it was current it shows for as long as it is held. */
  lemma HeldVersionShows(s: State, t: State, r: nat)
    requires Inv(s) && Inv(t) && SameVersions(s.versions, t.versions)
    requires r in t.readers && t.readers[r] == Holding(s.Cur())
    ensures Answers(t.db, t.versions[s.Cur()].exclude, s.tainted, Shown(s))
  {
    var v, w := s.versions[s.Cur()], t.versions[s.Cur()];
    CurrentShows(s);
    assert SnapshotOk(v, s.db, s.initial, s.log, s.tainted);
    assert ReaderOk(t.versions, t.readers[r]);
    assert SnapshotOk(w, t.db, t.initial, t.log, t.tainted);
    assert Outside(t.db, w.exclude) == v.snapshot == Outside(s.db, w.exclude);
    assert t.db.store - w.exclude == v.snapshot.store == s.db.store - w.exclude;
    AnswersOver(t.db, w.exclude, s.tainted, Shown(s));
  }

  /** The call `add(o)`. */
  function AddOnly(o: Obj): Request {
    Request(Collection([]), Collection([o]), false, false)
  }

  lemma ReaderArrives(s: State, r: nat)
    requires s.versions != [] && !s.versions[s.Cur()].locked && r !in s.readers
    ensures CanRun(s, [Load(r), TryLock(r)])
    ensures Run(s, [Load(r), TryLock(r)]) == s.(readers := s.readers[r := Holding(s.Cur())])
  {
    var s1 := Apply(s, Load(r));
    var s2 := Apply(s1, TryLock(r));
    Before(s1, TryLock(r), [], s2);
    Before(s, Load(r), [TryLock(r)], s2);
    assert s2 == s.(readers := s.readers[r := Holding(s.Cur())]);
  }

  /** Adding again an object that is there makes it disappear for readers who arrive meanwhile. */
  lemma ReAddedObjectDisappears(objects: set<Obj>, o: Obj)
    requires o in objects
    ensures var events := [Enter(AddOnly(o)), PublishAdd, Load(1), TryLock(1)];
      && CanRun(Init(objects), events)
      && var s := Run(Init(objects), events);
         && |s.versions| == 2 && 1 in s.readers && s.readers[1] == Holding(1)
         && o in s.Committed() && o in s.db.store && o !in s.db.store - s.versions[1].exclude
  {
    assert o in Elems(AddOnly(o).add);
    var s0 := Init(objects);
    var s1 := Apply(s0, Enter(AddOnly(o)));
    assert Enabled(s1, PublishAdd);
    var s2 := Apply(s1, PublishAdd);
    ReaderArrives(s2, 1);
    var s4 := Run(s2, [Load(1), TryLock(1)]);
    Before(s1, PublishAdd, [Load(1), TryLock(1)], s4);
    Before(s0, Enter(AddOnly(o)), [PublishAdd, Load(1), TryLock(1)], s4);
  }

  /** Later versions are never older in commit order, and the current one is up to date. */
  predicate AtsOk(s: State) {
    && s.versions != []
    && s.versions[s.Cur()].at == |s.log|
    && forall i, j | 0 <= i <= j < |s.versions| :: s.versions[i].at <= s.versions[j].at
  }

  lemma StepKeepsAts(s: State, e: Event)
    requires Enabled(s, e) && AtsOk(s)
    ensures AtsOk(Apply(s, e))
  {
    VersionsAppended(s, e);
    if IsPublish(e) {
      PublishKeepsAts(s, e);
    } else {
      NoCommit(s, e);
    }
  }

  lemma PublishKeepsAts(s: State, e: Event)
    requires Enabled(s, e) && IsPublish(e) && AtsOk(s)
    ensures AtsOk(Apply(s, e))
  {
    var t := Apply(s, e);
    assert |s.log| <= |t.log|;
    assert forall i | 0 <= i < |s.versions| :: t.versions[i].at == s.versions[i].at;
  }

  lemma {:induction false} RunKeepsAts(s: State, events: seq<Event>)
    requires CanRun(s, events) && AtsOk(s)
    ensures AtsOk(Run(s, events))
    decreases |events|
  {
    if events != [] {
      StepKeepsAts(s, events[0]);
      RunKeepsAts(Apply(s, events[0]), events[1..]);
    }
  }

  /** A thread that loads `currentVersion` later never reads an older committed state than any
      earlier version showed, and sees every update that had returned. */
  lemma LaterReadersNeverGoBack(objects: set<Obj>, events: seq<Event>, more: seq<Event>, v: nat)
    requires CanRun(Init(objects), events) && CanRun(Run(Init(objects), events), more)
    requires v < |Run(Init(objects), events).versions|
    ensures var s := Run(Init(objects), events); var t := Run(s, more);
      && v <= t.Cur() && |s.log| <= |t.log|
      && s.versions[v].at <= |s.log|
      && s.versions[v].at <= t.versions[t.Cur()].at == |t.log|
      && CommittedAt(objects, t.log, s.versions[v].at) == CommittedAt(objects, s.log, s.versions[v].at)
      && forall i | 0 <= i < |s.returned| :: s.returned[i].seen <= t.versions[t.Cur()].at
  {
    var s := Run(Init(objects), events);
    var t := Run(s, more);
    Reachable(objects, events);
    RunKeepsAts(Init(objects), events);
    RunKeepsAts(s, more);
    RunExtends(s, more);
    assert s.versions[v].at == t.versions[v].at <= t.versions[t.Cur()].at;
    assert s.versions[v].at <= s.versions[s.Cur()].at;
    forall i | 0 <= i < |s.returned| ensures s.returned[i].seen <= |s.log| {
      assert ReturnOk(s.initial, s.log, s.returned[i]);
    }
  }

  // ----- Returned updates are the commits, in order -----

  /** The call in progress has committed, and its entry is newer than every returned call's. */
  predicate SeenOk(s: State) {
    && (forall i | 0 <= i < |s.returned| :: s.returned[i].seen <= |s.log|)
    && (forall i, j | 0 <= i < j < |s.returned| ::
          s.returned[i].seen <= s.returned[j].seen
          && (s.returned[j].effective ==> s.returned[i].seen < s.returned[j].seen))
    && (HasCommitted(s) ==> forall i | 0 <= i < |s.returned| :: s.returned[i].seen < |s.log|)
  }

  predicate HasCommitted(s: State) {
    s.phase in {RemoveDrain, Removing, FinalDrain} || (s.phase.Closing? && s.effective)
  }

  lemma StepKeepsSeen(s: State, e: Event)
    requires Enabled(s, e) && SeenOk(s)
    ensures SeenOk(Apply(s, e))
  {
    if e.Finish? {
      FinishKeepsSeen(s);
    } else if IsPublish(e) {
      PublishKeepsSeen(s, e);
    } else {
      NoCommit(s, e);
      OtherStepsKeepSeen(s, e);
    }
  }

  lemma FinishKeepsSeen(s: State)
    requires Enabled(s, Finish) && SeenOk(s)
    ensures SeenOk(Apply(s, Finish))
  {
    var t := Apply(s, Finish);
    assert forall i | 0 <= i < |s.returned| :: t.returned[i] == s.returned[i];
  }

  lemma PublishKeepsSeen(s: State, e: Event)
    requires Enabled(s, e) && IsPublish(e) && SeenOk(s)
    ensures SeenOk(Apply(s, e))
  {
    var t := Apply(s, e);
    assert |s.log| <= |t.log| && t.returned == s.returned;
  }

  lemma OtherStepsKeepSeen(s: State, e: Event)
    requires Enabled(s, e) && !IsPublish(e) && !e.Finish? && SeenOk(s)
    ensures SeenOk(Apply(s, e))
  {
    NoCommit(s, e);
    OtherStepsReturnNothing(s, e);
    OtherStepsCommitNothing(s, e);
    SeenLasts(s, Apply(s, e));
  }

  lemma OtherStepsCommitNothing(s: State, e: Event)
    requires Enabled(s, e) && !IsPublish(e) && !e.Finish?
    ensures HasCommitted(Apply(s, e)) ==> HasCommitted(s)
  {
  }

  lemma SeenLasts(s: State, t: State)
    requires SeenOk(s) && t.log == s.log && t.returned == s.returned && (HasCommitted(t) ==> HasCommitted(s))
    ensures SeenOk(t)
  {
  }

  lemma {:induction false} RunKeepsSeen(s: State, events: seq<Event>)
    requires CanRun(s, events) && SeenOk(s)
    ensures SeenOk(Run(s, events))
    decreases |events|
  {
    if events != [] {
      StepKeepsSeen(s, events[0]);
      RunKeepsSeen(Apply(s, events[0]), events[1..]);
    }
  }

  /** Of the calls that returned, no two share a commit and commits come in return order. */
  lemma OneCommitPerUpdate(objects: set<Obj>, events: seq<Event>, i: nat, j: nat)
    requires CanRun(Init(objects), events)
    requires i < j < |Run(Init(objects), events).returned|
    ensures var s := Run(Init(objects), events);
      s.returned[j].effective ==> s.returned[i].seen < s.returned[j].seen
  {
    RunKeepsSeen(Init(objects), events);
  }

  /** A call that returned either replaced `remove` by `add` in one commit and reported whether
      that changed anything, or declined, reported false, and had a reason to. */
  lemma UpdateMeetsItsContract(objects: set<Obj>, events: seq<Event>, i: nat)
    requires CanRun(Init(objects), events)
    requires i < |Run(Init(objects), events).returned|
    ensures var s := Run(Init(objects), events); var ret := s.returned[i];
      var remove, add := Elems(ret.req.remove), Elems(ret.req.add);
      && ret.seen <= |s.log|
      && (ret.effective ==>
            && 1 <= ret.seen
            && var before := CommittedAt(objects, s.log, ret.seen - 1);
               var after := CommittedAt(objects, s.log, ret.seen);
            && after == (before + add) - remove
            && (ret.req.strict ==> remove <= before)
            && ret.modified == Plain.Report(before, Plain.Update(ret.req.remove, ret.req.add))
            && (!ret.req.skipValidation ==>
                  && after == Plain.After(before, Plain.Update(ret.req.remove, ret.req.add))
                  && (ret.modified <==> after != before)))
      && (!ret.effective ==>
            && !ret.modified
            && ((add == {} && remove == {})
                || (ret.req.strict && !(remove <= CommittedAt(objects, s.log, ret.seen)))))
  {
    var s := Run(Init(objects), events);
    Reachable(objects, events);
    RunExtends(Init(objects), events);
    var ret := s.returned[i];
    assert ReturnOk(s.initial, s.log, ret);
    if ret.effective {
      var c := s.log[ret.seen - 1];
      assert CommitOk(c) && c.before == CommittedAt(s.initial, s.log, ret.seen - 1);
      RefinesPlainUpdate(c.before, ret.req.remove, ret.req.add);
    }
  }

  /** The two orders of doing an update: this class adds and then removes, its superclass
      removes and then adds. They report alike on all inputs, reach the same set exactly for
      disjoint arguments, and for those the report is "the set changed". */
  lemma RefinesPlainUpdate(before: set<Obj>, removed: Iterable, added: Iterable)
    ensures var remove, add := Elems(removed), Elems(added);
      var plain := Plain.Update(removed, added);
      var reported := !(add <= before) || remove * (before + add) != {};
      && ((before + add) - remove == Plain.After(before, plain) <==> remove !! add)
      && (reported <==> Plain.Report(before, plain))
      && (remove !! add ==> (reported <==> (before + add) - remove != before))
  {
    var remove, add := Elems(removed), Elems(added);
    var mvcc := (before + add) - remove;
    var plain := (before - remove) + add;
    assert forall x | x in remove * add :: x in plain && x !in mvcc;
    forall x | x in remove * (before + add) ensures x in remove * before || x in add - (before - remove) {
    }
    forall x | x in remove * before ensures x in remove * (before + add) && x !in mvcc {
    }
    if add <= before && remove * (before + add) == {} {
      assert forall x | x in before :: x !in remove * (before + add);
      assert mvcc == before;
      assert remove * before == {} && before - remove == before;
    } else if y :| y in add && y !in before {
      assert y !in before - remove;
      assert y !in remove ==> y in mvcc;
    } else {
      var x :| x in remove * (before + add);
      assert x in remove * before || x in add - (before - remove);
    }
  }

  // ----- Version discipline -----

  /** Only the current version and the one being drained have readers; every other superseded
      version is write-locked; store and index are written only when no superseded version
      has readers. */
  lemma VersionDiscipline(objects: set<Obj>, events: seq<Event>, i: nat)
    requires CanRun(Init(objects), events) && i < Run(Init(objects), events).Cur()
    ensures var s := Run(Init(objects), events);
      && !s.versions[s.Cur()].locked
      && (!(s.Draining() && i == s.Cur() - 1) ==> s.versions[i].locked && Holders(s, i) == {})
      && (s.phase in {Adding, Removing} ==> Holders(s, i) == {})
  {
    var s := Run(Init(objects), events);
    Reachable(objects, events);
    forall r | r in Holders(s, i) ensures !s.versions[i].locked {
      assert ReaderOk(s.versions, s.readers[r]);
    }
  }

  /** `currentVersion` only moves forward, one version at a time, and only by publishing;
      superseded versions are never unlocked. */
  lemma VersionsOnlyAdvance(s: State, e: Event)
    requires Enabled(s, e)
    ensures var t := Apply(s, e);
      && t.Cur() == s.Cur() + (if IsPublish(e) then 1 else 0)
      && Extends(s, t)
  {
    StepExtends(s, e);
    VersionsAppended(s, e);
  }

  /** With the write mutex free, a call gets in exactly if it skips the validation or no object is in
      both of its arguments. */
  lemma OnlyOverlapIsRejected(objects: set<Obj>, events: seq<Event>, req: Request)
    requires CanRun(Init(objects), events) && Run(Init(objects), events).phase.Idle?
    ensures Enabled(Run(Init(objects), events), Enter(req)) <==>
              req.skipValidation || !exists o :: o in req.remove.elems && o in req.add.elems
  {
    Reachable(objects, events);
    assert forall o :: o in Elems(req.remove) * Elems(req.add) <==> o in req.remove.elems && o in req.add.elems;
  }

  // ----- Draining and retrying -----

  /** Steps still to be taken by threads that loaded version `v`. */
  function DrainMeasure(s: State, v: int): nat {
    2 * |Loaders(s, v)| + |Holders(s, v)|
  }

  predicate TouchesVersion(s: State, e: Event, v: int) {
    || (e.TryLock? && e.r in Loaders(s, v))
    || (e.Close? && e.r in Holders(s, v))
  }

  /** No step makes a superseded version busier, and each step of a thread that loaded it
      makes it less busy: new readers cannot starve a draining writer. */
  lemma DrainProgress(s: State, e: Event, v: int)
    requires Enabled(s, e) && v < s.Cur()
    ensures DrainMeasure(Apply(s, e), v) <= DrainMeasure(s, v)
    ensures TouchesVersion(s, e, v) ==> DrainMeasure(Apply(s, e), v) < DrainMeasure(s, v)
  {
    if IsReaderEvent(e) {
      ReaderDrainProgress(s, e, v);
    } else {
      assert Apply(s, e).readers == s.readers;
      assert Loaders(Apply(s, e), v) == Loaders(s, v) && Holders(Apply(s, e), v) == Holders(s, v);
    }
  }

  lemma ReaderDrainProgress(s: State, e: Event, v: int)
    requires Enabled(s, e) && IsReaderEvent(e) && v < s.Cur()
    ensures DrainMeasure(Apply(s, e), v) <= DrainMeasure(s, v)
    ensures TouchesVersion(s, e, v) ==> DrainMeasure(Apply(s, e), v) < DrainMeasure(s, v)
  {
    var t := Apply(s, e);
    var loaders, holders := Loaders(s, v), Holders(s, v);
    match e {
      case TryLock(r) => TryLockProgress(s, t, r, t.readers[r], v);
      case Close(r) => CloseProgress(s, t, r, v);
      case Load(r) =>
        assert Loaders(t, v) == loaders && Holders(t, v) == holders;
    }
  }

  lemma TryLockProgress(s: State, t: State, r: nat, me: Reader, v: int)
    requires r in s.readers && s.readers[r].Loaded?
    requires t.readers == s.readers[r := me] && (me.Refused? || me == Holding(s.readers[r].v))
    ensures DrainMeasure(t, v) <= DrainMeasure(s, v)
    ensures r in Loaders(s, v) ==> DrainMeasure(t, v) < DrainMeasure(s, v)
  {
    var loaders, holders := Loaders(s, v), Holders(s, v);
    if s.readers[r].v != v {
      assert Loaders(t, v) == loaders;
      assert Holders(t, v) == holders;
    } else {
      assert Loaders(t, v) == loaders - {r};
      assert Holders(t, v) == if me.Holding? then holders + {r} else holders;
    }
  }

  lemma CloseProgress(s: State, t: State, r: nat, v: int)
    requires r in s.readers && s.readers[r].Holding? && t.readers == s.readers - {r}
    ensures DrainMeasure(t, v) <= DrainMeasure(s, v)
    ensures r in Holders(s, v) ==> DrainMeasure(t, v) < DrainMeasure(s, v)
  {
    assert Loaders(t, v) == Loaders(s, v);
    assert Holders(t, v) == Holders(s, v) - {r};
  }

  /** How many steps of a run are taken by threads that loaded version `v`. */
  function Touches(s: State, events: seq<Event>, v: int): nat
    requires CanRun(s, events)
    decreases |events|
  {
    if events == [] then 0
    else (if TouchesVersion(s, events[0], v) then 1 else 0) + Touches(Apply(s, events[0]), events[1..], v)
  }

  /** However long a run is, the threads that loaded a superseded version take a bounded
      number of steps on it. */
  lemma {:induction false} DrainTerminates(s: State, events: seq<Event>, v: int)
    requires CanRun(s, events) && v < s.Cur()
    ensures Touches(s, events, v) + DrainMeasure(Run(s, events), v) <= DrainMeasure(s, v)
    decreases |events|
  {
    if events != [] {
      DrainProgress(s, events[0], v);
      VersionsOnlyAdvance(s, events[0]);
      DrainTerminates(Apply(s, events[0]), events[1..], v);
    }
  }

  /** A failed `tryLock` means a writer has published since the version was loaded, so a
      reader fails at most once per publication after its first load. */
  lemma RetriesAreBounded(objects: set<Obj>, events: seq<Event>, r: nat)
    requires CanRun(Init(objects), events) && Enabled(Run(Init(objects), events), TryLock(r))
    ensures var s := Run(Init(objects), events); var t := Apply(s, TryLock(r));
      && (t.readers[r].Refused? <==> s.versions[s.readers[r].v].locked)
      && (!t.readers[r].Refused? ==> t.readers[r] == Holding(s.readers[r].v))
      && (t.readers[r].Refused? ==>
            && s.readers[r].v < s.Cur()
            && t.readers[r].retries <= t.Cur() - t.readers[r].first)
  {
    var s := Run(Init(objects), events);
    Reachable(objects, events);
    assert ReaderOk(s.versions, s.readers[r]);
  }

  /** Each attempt loads the version that is current at that moment, and remembers the failed ones. */
  lemma LoadsTheCurrentVersion(s: State, r: nat)
    requires Enabled(s, Load(r))
    ensures var t := Apply(s, Load(r));
      && r in t.readers && t.readers[r].Loaded? && t.readers[r].v == s.Cur()
      && t.readers[r].retries == (if r in s.readers then s.readers[r].retries else 0)
      && t.readers[r].first == (if r in s.readers then s.readers[r].first else s.Cur())
  {
  }

  /** Refusal happens: a reader that loads the version and is overtaken by the publication and the
      (empty) drain of an update is refused. */
  lemma ReaderCanBeRefused(objects: set<Obj>, o: Obj)
    ensures var events := [Load(1), Enter(AddOnly(o)), PublishAdd, Drain, TryLock(1)];
      && CanRun(Init(objects), events)
      && var s := Run(Init(objects), events); 1 in s.readers && s.readers[1] == Refused(1, 0)
  {
    var req := AddOnly(o);
    assert o in Elems(req.add);
    var s0 := Init(objects);
    var s1 := Apply(s0, Load(1));
    var s2 := Apply(s1, Enter(req));
    assert Enabled(s2, PublishAdd);
    var s3 := Apply(s2, PublishAdd);
    assert Holders(s3, 0) == {};
    var s4 := Apply(s3, Drain);
    var s5 := Apply(s4, TryLock(1));
    FiveSteps(s0, s1, s2, s3, s4, s5, Load(1), Enter(req), PublishAdd, Drain, TryLock(1));
  }

  lemma FiveSteps(s0: State, s1: State, s2: State, s3: State, s4: State, s5: State,
                  a: Event, b: Event, c: Event, d: Event, e: Event)
    requires Enabled(s0, a) && s1 == Apply(s0, a) && Enabled(s1, b) && s2 == Apply(s1, b)
    requires Enabled(s2, c) && s3 == Apply(s2, c) && Enabled(s3, d) && s4 == Apply(s3, d)
    requires Enabled(s4, e) && s5 == Apply(s4, e)
    ensures CanRun(s0, [a, b, c, d, e]) && Run(s0, [a, b, c, d, e]) == s5
  {
    Before(s4, e, [], s5);
    Before(s3, d, [e], s5);
    Before(s2, c, [d, e], s5);
    Before(s1, b, [c, d, e], s5);
    Before(s0, a, [b, c, d, e], s5);
  }

  lemma Before(s: State, e: Event, rest: seq<Event>, end: State)
    requires Enabled(s, e) && CanRun(Apply(s, e), rest) && Run(Apply(s, e), rest) == end
    ensures CanRun(s, [e] + rest) && Run(s, [e] + rest) == end
  {
    assert ([e] + rest)[1..] == rest;
  }

  /** Readers never wait: each can always load, try its lock, or close. */
  lemma ReadersNeverWait(objects: set<Obj>, events: seq<Event>, r: nat)
    requires CanRun(Init(objects), events) && r in Run(Init(objects), events).readers
    ensures var s := Run(Init(objects), events);
      Enabled(s, Load(r)) || Enabled(s, TryLock(r)) || Enabled(s, Close(r))
  {
    var s := Run(Init(objects), events);
    Reachable(objects, events);
    assert ReaderOk(s.versions, s.readers[r]);
  }

  /** A thread inside `update` can always go on, or waits only for open result sets of the
      version it superseded, each of which can be closed. */
  lemma WriterNeverStuck(objects: set<Obj>, events: seq<Event>)
    requires CanRun(Init(objects), events) && !Run(Init(objects), events).phase.Idle?
    ensures var s := Run(Init(objects), events);
      || (exists e :: !IsReaderEvent(e) && !e.Fail? && Enabled(s, e))
      || (s.Draining() && exists r :: r in Holders(s, s.Cur() - 1) && Enabled(s, Close(r)))
  {
    var s := Run(Init(objects), events);
    Reachable(objects, events);
    WriterCanStep(s);
  }

  lemma WriterCanStep(s: State)
    requires s.versions != [] && (s.Draining() ==> |s.versions| >= 2) && !s.phase.Idle?
    ensures
      || (exists e :: !IsReaderEvent(e) && !e.Fail? && Enabled(s, e))
      || (s.Draining() && exists r :: r in Holders(s, s.Cur() - 1) && Enabled(s, Close(r)))
  {
    if s.Draining() {
      var holders := Holders(s, s.Cur() - 1);
      if holders != {} {
        var r :| r in holders;
        assert Enabled(s, Close(r));
      } else {
        assert Enabled(s, Drain);
      }
    } else if s.phase in {Adding, Removing} {
      if s.work.storePending != {} {
        var o :| o in s.work.storePending;
        assert Enabled(s, StoreStep(o));
      } else if s.work.indexPending != {} {
        var p :| p in s.work.indexPending;
        assert Enabled(s, IndexStep(p));
      } else if s.work.chunks != [] {
        assert Enabled(s, NextChunk);
      } else {
        assert Enabled(s, if s.phase.Adding? && s.Remove() != {} then PublishRemove else PublishFinal);
      }
    } else if s.phase.Entered? {
      assert Enabled(s, if s.Declines() then Decline else if s.Add() != {} then PublishAdd else PublishRemove);
    } else {
      assert Enabled(s, if s.phase.Closing? then Finish else PublishRestore);
    }
  }

  // ----- Strict replacement -----

  /** Once a strict update finds an object to remove missing, it can only decline or fail:
      nothing is published or written and it returns false. */
  lemma StrictMissChangesNothing(objects: set<Obj>, events: seq<Event>, e: Event)
    requires CanRun(Init(objects), events)
    requires var s := Run(Init(objects), events);
      s.phase.Entered? && s.req.strict && !(s.Remove() <= s.Committed())
    requires Enabled(Run(Init(objects), events), e) && !IsReaderEvent(e)
    ensures e in {Decline, Fail}
    ensures var s := Run(Init(objects), events);
      && CanRun(s, [Decline, Finish])
      && var t := Run(s, [Decline, Finish]);
         && t.db == s.db && t.versions == s.versions && t.log == s.log && t.phase.Idle?
         && t.returned == s.returned + [Return(s.req, false, false, |s.log|)]
  {
    var s := Run(Init(objects), events);
    Reachable(objects, events);
    Quiet(s);
    assert [Decline, Finish][1..] == [Finish] && [Finish][1..] == [];
    assert CanRun(Apply(s, Decline), [Finish]);
    assert Run(Apply(s, Decline), [Finish]) == Apply(Apply(s, Decline), Finish);
  }

  /** Compare-and-swap: if two strict updates both removed `x`, then between them some update
      added `x` back, or some update that was removing or adding it failed half way. */
  lemma StrictReplacementIsCas(objects: set<Obj>, events: seq<Event>, i: nat, j: nat, x: Obj)
    requires CanRun(Init(objects), events)
    requires var log := Run(Init(objects), events).log;
      && i < j < |log|
      && !log[i].partial && !log[j].partial && log[i].strict && log[j].strict
      && x in log[i].remove && x in log[j].remove
    ensures var log := Run(Init(objects), events).log;
      exists m :: i < m < j && (x in log[m].add || (log[m].partial && x in log[m].remove))
  {
    var s := Run(Init(objects), events);
    Reachable(objects, events);
    assert CommitOk(s.log[i]) && CommitOk(s.log[j]);
    Reappears(s.initial, s.log, i, j, x);
  }

  lemma {:induction false} Reappears(initial: set<Obj>, log: seq<Commit>, i: nat, j: nat, x: Obj)
    requires LogIs(initial, log) && i < j < |log| && x !in log[i].after && x in log[j].before
    ensures exists m :: i < m < j && (x in log[m].add || (log[m].partial && x in log[m].remove))
    decreases j
  {
    var m := j - 1;
    assert log[j].before == log[m].after;
    assert CommitOk(log[m]);
    if x !in log[m].before {
      AddedBy(log[m], x);
    } else {
      Reappears(initial, log, i, m, x);
    }
  }

  lemma AddedBy(c: Commit, x: Obj)
    requires CommitOk(c) && x !in c.before && x in c.after
    ensures x in c.add || (c.partial && x in c.remove)
  {
    if c.partial {
      var touched := c.add + c.remove;
      assert x in c.after - touched <==> x in c.before - touched;
    }
  }

  // ----- After a failure -----

  /** Every tainted object belongs to an update that failed. */
  predicate TaintOk(s: State) {
    forall o | o in s.tainted ::
      || (s.phase.Recovering? && o in s.Add() + s.Remove())
      || exists i :: 0 <= i < |s.log| && s.log[i].partial && o in s.log[i].add + s.log[i].remove
  }

  lemma StepKeepsTaint(s: State, e: Event)
    requires Enabled(s, e) && TaintOk(s)
    ensures TaintOk(Apply(s, e))
  {
    if e.PublishRestore? {
      assert Apply(s, e).log[|s.log|] == PartialCommit(s);
    }
    LogsAppended(s, e);
    if !e.Fail? {
      TaintLasts(s, e);
    }
    forall o | o in s.tainted
      ensures var t := Apply(s, e);
        || (t.phase.Recovering? && o in t.Add() + t.Remove())
        || exists i :: 0 <= i < |t.log| && t.log[i].partial && o in t.log[i].add + t.log[i].remove
    {
      if i :| 0 <= i < |s.log| && s.log[i].partial && o in s.log[i].add + s.log[i].remove {
        assert Apply(s, e).log[i] == s.log[i];
      }
    }
  }

  lemma TaintLasts(s: State, e: Event)
    requires Enabled(s, e) && !e.Fail?
    ensures var t := Apply(s, e);
      && t.tainted == s.tainted
      && (s.phase.Recovering? && !e.PublishRestore? ==> t.phase == s.phase && t.req == s.req)
  {
  }

  lemma {:induction false} RunKeepsTaint(s: State, events: seq<Event>)
    requires CanRun(s, events) && TaintOk(s)
    ensures TaintOk(Run(s, events))
    decreases |events|
  {
    if events != [] {
      StepKeepsTaint(s, events[0]);
      RunKeepsTaint(Apply(s, events[0]), events[1..]);
    }
  }

  /** With the write mutex free, store and index disagree at most about objects that an update which
      failed half way was adding or removing; with no such update they agree altogether. */
  lemma OnlyFailuresDisagree(objects: set<Obj>, events: seq<Event>, p: Posting)
    requires CanRun(Init(objects), events) && Run(Init(objects), events).phase.Idle?
    requires var s := Run(Init(objects), events); !(p in s.db.index <==> p in PostingsOf(s.db.store))
    ensures var s := Run(Init(objects), events);
      exists i :: 0 <= i < |s.log| && s.log[i].partial && p.obj in s.log[i].add + s.log[i].remove
  {
    NothingStaysHidden(objects, events);
    RunKeepsTaint(Init(objects), events);
  }

  lemma {:induction false} RunConcat(s: State, first: seq<Event>, second: seq<Event>)
    requires CanRun(s, first) && CanRun(Run(s, first), second)
    ensures CanRun(s, first + second) && Run(s, first + second) == Run(Run(s, first), second)
    decreases |first|
  {
    if first == [] {
      assert first + second == second;
    } else {
      RunConcat(Apply(s, first[0]), first[1..], second);
      assert (first + second)[1..] == first[1..] + second;
    }
  }

  function StartAdding(o: Obj): seq<Event> {
    [Enter(AddOnly(o)), PublishAdd, Drain]
  }

  function FailHalfWay(o: Obj): seq<Event> {
    [NextChunk, StoreStep(o), Fail, PublishRestore, Drain]
  }

  lemma BeginsAdding(objects: set<Obj>, o: Obj)
    ensures CanRun(Init(objects), StartAdding(o))
    ensures var s := Run(Init(objects), StartAdding(o));
      && s.phase.Adding? && s.db == Init(objects).db && s.work == Work([{o}], {}, {})
      && s.readers == map[] && |s.versions| == 2 && s.req == AddOnly(o)
  {
    assert Elems(AddOnly(o).add) == {o};
    var s0 := Init(objects);
    var s1 := Apply(s0, Enter(AddOnly(o)));
    assert Enabled(s1, PublishAdd);
    var s2 := Apply(s1, PublishAdd);
    assert Holders(s2, 0) == {};
    var s3 := Apply(s2, Drain);
    Before(s2, Drain, [], s3);
    Before(s1, PublishAdd, [Drain], s3);
    Before(s0, Enter(AddOnly(o)), [PublishAdd, Drain], s3);
  }

  lemma FailsHalfWay(s: State, o: Obj)
    requires s.phase.Adding? && s.work == Work([{o}], {}, {}) && s.readers == map[] && |s.versions| == 2
    ensures CanRun(s, FailHalfWay(o))
    ensures var t := Run(s, FailHalfWay(o));
      t.phase.Idle? && t.db == Db(s.db.store + {o}, s.db.index) && t.Committed() == t.db.store
  {
    var s1 := Apply(s, NextChunk);
    var s2 := Apply(s1, StoreStep(o));
    var s3 := Apply(s2, Fail);
    Restores(s3);
    Before(s2, Fail, [PublishRestore, Drain], Run(s3, [PublishRestore, Drain]));
    Before(s1, StoreStep(o), [Fail, PublishRestore, Drain], Run(s3, [PublishRestore, Drain]));
    Before(s, NextChunk, [StoreStep(o), Fail, PublishRestore, Drain], Run(s3, [PublishRestore, Drain]));
  }

  lemma Restores(s: State)
    requires s.phase.Recovering? && s.readers == map[] && s.versions != []
    ensures CanRun(s, [PublishRestore, Drain])
    ensures var t := Run(s, [PublishRestore, Drain]); t.phase.Idle? && t.db == s.db && t.Committed() == s.db.store
  {
    var s1 := Apply(s, PublishRestore);
    assert Holders(s1, s1.Cur() - 1) == {};
    var s2 := Apply(s1, Drain);
    Before(s1, Drain, [], s2);
    Before(s, PublishRestore, [Drain], s2);
  }

  /** Such a disagreement happens: an update abandoned between its store write and its index writes
      leaves an object that is stored and that no index finds. */
  lemma HalfAddedStays(objects: set<Obj>, o: Obj)
    requires o !in objects && o.keys != {}
    ensures var events := StartAdding(o) + FailHalfWay(o);
      && CanRun(Init(objects), events)
      && var s := Run(Init(objects), events);
         && s.phase.Idle? && s.Committed() == s.db.store == objects + {o}
         && s.db.index == PostingsOf(objects) && !Agrees(s.db)
  {
    BeginsAdding(objects, o);
    var s := Run(Init(objects), StartAdding(o));
    FailsHalfWay(s, o);
    RunConcat(Init(objects), StartAdding(o), FailHalfWay(o));
    var k :| k in o.keys;
    assert Posting(k, o) in PostingsOf(objects + {o}) && Posting(k, o) !in PostingsOf(objects);
  }

  /** Whatever failed, once the write mutex is free the current version hides nothing, shows the
      whole store, and no older version has readers. */
  lemma NothingStaysHidden(objects: set<Obj>, events: seq<Event>)
    requires CanRun(Init(objects), events) && Run(Init(objects), events).phase.Idle?
    ensures var s := Run(Init(objects), events);
      && s.versions != []
      && s.versions[s.Cur()].exclude == {}
      && s.db.store == s.Committed()
      && (forall v | 0 <= v < s.Cur() :: s.versions[v].locked && Holders(s, v) == {})
      && AgreesExcept(s.db, s.tainted)
  {
    var s := Run(Init(objects), events);
    Reachable(objects, events);
    Quiet(s);
    forall v: nat | v < s.Cur() ensures s.versions[v].locked && Holders(s, v) == {} {
      VersionDiscipline(objects, events, v);
    }
  }
}
