/** Request scopes, the collection's iterator, and `retrieve`: who closes what, how often, and
    with which transaction outcome, wherever an exception strikes.
 */
module Scopes {
  import opened Model
  import opened Wrappers
  import S = Sequential

  datatype Outcome = COMMIT | ROLLBACK

  /** A `RequestScope`. `closings` are the outcomes with which it was closed, `received` those the
      persistence heard of, and `option` is the query option through which an outcome travels there.
      With on-heap persistence no close is required and the persistence is never called. */
  class RequestScope {
    const closeRequired: bool
    var outcome: Outcome
    var closed: bool
    var option: Option<Outcome>
    var closings: seq<Outcome>
    var received: seq<Outcome>

    ghost predicate Valid()
      reads this
    {
      option == None && received == if closeRequired then closings else []
    }

    constructor (required: bool)
      ensures Valid() && closeRequired == required && outcome == ROLLBACK && !closed && closings == []
    {
      closeRequired := required;
      outcome, closed, option, closings, received := ROLLBACK, false, None, [], [];
    }

    method MarkSuccessful()
      modifies `outcome
      ensures outcome == COMMIT
    {
      outcome := COMMIT;
    }

    /** `closeRequestScopeResourcesIfNecessary` with an outcome: on the heap only the overridable hook
        is called; otherwise the persistence hears the outcome put in the options, from which it is
        gone afterwards even if closing fails. */
    method CloseResources(passed: Outcome, fails: bool) returns (ok: bool)
      requires Valid()
      modifies `option, `closings, `received
      ensures Valid() && closings == old(closings) + [passed] && ok == !fails
      ensures received == old(received) + if closeRequired then [passed] else []
    {
      closings := closings + [passed];
      if !closeRequired {
        ok := CloseHook(fails);
        return;
      }
      option := Some(passed);
      ok := CloseHook(fails);
      option := None;
    }

    /** The one-argument method: COMMIT if the options name no outcome. */
    method CloseHook(fails: bool) returns (ok: bool)
      modifies `received
      ensures received == old(received) + (if !closeRequired then [] else if option.None? then [COMMIT] else [option.value])
      ensures ok == !fails
    {
      if closeRequired {
        received := received + [if option.None? then COMMIT else option.value];
      }
      ok := !fails;
    }

    method Close(fails: bool) returns (ok: bool)
      requires Valid()
      modifies this
      ensures Valid() && closed && outcome == old(outcome)
      ensures closings == if old(closed) then old(closings) else old(closings) + [outcome]
      ensures ok == (old(closed) || !fails)
    {
      ok := true;
      if !closed {
        closed := true;
        ok := CloseResources(outcome, fails);
      }
    }
  }

  // ----- The iterator -----

  /** What becomes of a removal: done, or an exception on opening a scope for it, before the writes,
      between the store write and the index writes, or on closing the scope (for a scope left open,
      on committing) after them. */
  datatype Removal = Removed | OpenFails | WriteFails | IndexFails | CloseFails
  {
    /** The objects it takes from the store. */
    function FromStore(o: Obj): set<Obj> {
      if OpenFails? || WriteFails? then {} else {o}
    }

    /** The objects whose postings it takes from the index; on the heap nothing is taken back. */
    function FromIndex(o: Obj): set<Obj> {
      if Removed? || CloseFails? then {o} else {}
    }

    /** The outcome of a scope opened for it alone. */
    function ScopeOutcome(): Outcome {
      if WriteFails? || IndexFails? then ROLLBACK else COMMIT
    }
  }

  /** A call on the iterator, with what its delegate, the collection and the scope do underneath. */
  datatype Call =
    | HasNext(more: Option<bool>, delegateCloseFails: bool, scopeCloseFails: bool)
    | Next(answer: NextAnswer, delegateCloseFails: bool, scopeCloseFails: bool)
    | Remove(removal: Removal, delegateCloseFails: bool, scopeCloseFails: bool)
    | Close(delegateCloseFails: bool, scopeCloseFails: bool)

  datatype NextAnswer = Yields(o: Obj) | Exhausted | Breaks

  /** The iterator's fields and what it has done to others: closings of the delegate iterator and of
      the main scope, openings and closings of the scopes reopened by removal after exhaustion. */
  datatype IterState = IterState(autoClosed: bool, closed: bool, current: Option<Obj>,
                                 delegateClosings: nat, mainClosings: seq<Outcome>,
                                 reopened: nat, reclosings: seq<Outcome>)

  const FRESH_ITERATOR := IterState(false, false, None, 0, [], 0, [])

  function Closing(s: IterState, outcome: Outcome): IterState {
    if s.closed then s
    else s.(closed := true, delegateClosings := s.delegateClosings + 1, mainClosings := s.mainClosings + [outcome])
  }

  function Step(s: IterState, c: Call): IterState {
    match c
    case HasNext(None, _, _) => Closing(s, ROLLBACK)
    case HasNext(Some(more), delegateCloseFails, _) =>
      if more then s else Closing(s.(autoClosed := true), if delegateCloseFails then ROLLBACK else COMMIT)
    case Next(Yields(o), _, _) => s.(current := Some(o))
    case Next(Exhausted, _, _) => s
    case Next(Breaks, _, _) => Closing(s, ROLLBACK)
    case Remove(removal, _, _) =>
      if s.current == None then s
      else
        var t := if !s.autoClosed || removal.OpenFails? then s
                 else s.(reopened := s.reopened + 1,
                         reclosings := s.reclosings + [removal.ScopeOutcome()]);
        if removal.Removed? then t.(current := None) else Closing(t, ROLLBACK)
    case Close(delegateCloseFails, _) => Closing(s, if delegateCloseFails then ROLLBACK else COMMIT)
  }

  function Steps(s: IterState, calls: seq<Call>): IterState
    decreases |calls|
  {
    if calls == [] then s else Step(Steps(s, calls[..|calls| - 1]), calls[|calls| - 1])
  }

  // ----- The same, told from the calls alone -----

  predicate IsYield(c: Call) {
    c.Next? && c.answer.Yields?
  }

  /** Call `i` yielded `o`, and since then, up to call `n`, nothing was yielded or removed. */
  predicate YieldedLast(calls: seq<Call>, i: nat, n: nat, o: Obj)
    requires n <= |calls|
  {
    && i < n && calls[i].Next? && calls[i].answer == Yields(o)
    && forall j | i < j < n :: !IsYield(calls[j]) && !(calls[j].Remove? && calls[j].removal.Removed?)
  }

  /** After `n` calls `o` is what `remove` would remove: the object last yielded, not removed since. */
  predicate IsCurrent(calls: seq<Call>, n: nat, o: Obj)
    requires n <= |calls|
  {
    exists i: nat :: i < n && YieldedLast(calls, i, n, o)
  }

  /** After `n` calls the delegate has been found exhausted. */
  predicate Exhausts(calls: seq<Call>, n: nat)
    requires n <= |calls|
  {
    exists i: nat :: i < n && calls[i].HasNext? && calls[i].more == Some(false)
  }

  /** Call `i` ends the iteration: it finds the delegate exhausted or broken, is a `remove` that fails
      although there is something to remove, or closes. */
  ghost predicate Ends(calls: seq<Call>, i: nat)
    requires i < |calls|
  {
    match calls[i]
    case HasNext(more, _, _) => more == None || more == Some(false)
    case Next(answer, _, _) => answer.Breaks?
    case Remove(removal, _, _) => !removal.Removed? && exists o :: IsCurrent(calls, i, o)
    case Close(_, _) => true
  }

  /** Call `i` is the first that ends the iteration. */
  ghost predicate EndsFirst(calls: seq<Call>, i: nat, n: nat)
    requires n <= |calls|
  {
    i < n && Ends(calls, i) && forall j | 0 <= j < i :: !Ends(calls, j)
  }

  /** The call asks for a normal close, explicitly or by finding the delegate exhausted, and the
      delegate closes. */
  predicate ClosesCleanly(c: Call) {
    (c.Close? || (c.HasNext? && c.more == Some(false))) && !c.delegateCloseFails
  }

  /** Call `i` removes something after exhaustion, so that a scope is opened for it alone. */
  ghost predicate ReopensFor(calls: seq<Call>, i: nat)
    requires i < |calls|
  {
    calls[i].Remove? && !calls[i].removal.OpenFails? && Exhausts(calls, i) && exists o :: IsCurrent(calls, i, o)
  }

  /** How the scopes opened for removals alone are closed: ROLLBACK if a write failed, else COMMIT. */
  ghost function OwnOutcomes(calls: seq<Call>, n: nat): seq<Outcome>
    requires n <= |calls|
  {
    if n == 0 then []
    else if !ReopensFor(calls, n - 1) then OwnOutcomes(calls, n - 1)
    else OwnOutcomes(calls, n - 1)
           + [if calls[n - 1].removal in {WriteFails, IndexFails} then ROLLBACK else COMMIT]
  }

  /** What the iterator's state must be after `n` calls. */
  ghost predicate TellsHistory(s: IterState, calls: seq<Call>, n: nat)
    requires n <= |calls|
  {
    && (s.autoClosed <==> Exhausts(calls, n))
    && (forall o :: s.current == Some(o) <==> IsCurrent(calls, n, o))
    && (s.closed <==> exists i: nat :: i < n && Ends(calls, i))
    && (!s.closed ==> s.mainClosings == [])
    && (s.closed ==> exists i: nat :: EndsFirst(calls, i, n) && s.mainClosings == [if ClosesCleanly(calls[i]) then COMMIT else ROLLBACK])
    && s.delegateClosings == |s.mainClosings|
    && s.reclosings == OwnOutcomes(calls, n) && s.reopened == |s.reclosings|
  }

  lemma CurrentAfter(calls: seq<Call>, n: nat, o: Obj)
    requires n < |calls|
    ensures IsCurrent(calls, n + 1, o) <==>
              if IsYield(calls[n]) then calls[n].answer.o == o
              else IsCurrent(calls, n, o) && !(calls[n].Remove? && calls[n].removal.Removed?)
  {
    var keeps := !IsYield(calls[n]) && !(calls[n].Remove? && calls[n].removal.Removed?);
    if IsYield(calls[n]) && calls[n].answer.o == o {
      assert YieldedLast(calls, n, n + 1, o);
    }
    if IsCurrent(calls, n + 1, o) {
      var i: nat :| i < n + 1 && YieldedLast(calls, i, n + 1, o);
      assert i < n ==> keeps && YieldedLast(calls, i, n, o);
    }
    if keeps && IsCurrent(calls, n, o) {
      var i: nat :| i < n && YieldedLast(calls, i, n, o);
      assert YieldedLast(calls, i, n + 1, o);
    }
  }

  lemma ExhaustedAfter(calls: seq<Call>, n: nat)
    requires n < |calls|
    ensures Exhausts(calls, n + 1) <==> Exhausts(calls, n) || (calls[n].HasNext? && calls[n].more == Some(false))
  {
  }

  lemma CurrentStep(s: IterState, calls: seq<Call>, n: nat)
    requires n < |calls| && forall o :: s.current == Some(o) <==> IsCurrent(calls, n, o)
    ensures forall o :: Step(s, calls[n]).current == Some(o) <==> IsCurrent(calls, n + 1, o)
  {
    forall o ensures Step(s, calls[n]).current == Some(o) <==> IsCurrent(calls, n + 1, o) {
      CurrentAfter(calls, n, o);
    }
  }

  lemma ClosingStep(s: IterState, calls: seq<Call>, n: nat)
    requires n < |calls| && (s.current.Some? <==> exists o :: IsCurrent(calls, n, o))
    ensures Step(s, calls[n]).closed <==> s.closed || Ends(calls, n)
    ensures s.closed ==> Step(s, calls[n]).mainClosings == s.mainClosings
    ensures !s.closed && Ends(calls, n) ==>
              Step(s, calls[n]).mainClosings == s.mainClosings + [if ClosesCleanly(calls[n]) then COMMIT else ROLLBACK]
    ensures !s.closed && !Ends(calls, n) ==> Step(s, calls[n]).mainClosings == s.mainClosings
    ensures |Step(s, calls[n]).mainClosings| - |s.mainClosings|
         == Step(s, calls[n]).delegateClosings - s.delegateClosings
  {
  }

  lemma ReopeningStep(s: IterState, calls: seq<Call>, n: nat)
    requires n < |calls| && (s.current.Some? <==> exists o :: IsCurrent(calls, n, o))
    requires s.autoClosed <==> Exhausts(calls, n)
    requires s.reclosings == OwnOutcomes(calls, n) && s.reopened == |s.reclosings|
    ensures var t := Step(s, calls[n]); t.reclosings == OwnOutcomes(calls, n + 1) && t.reopened == |t.reclosings|
    ensures Step(s, calls[n]).autoClosed <==> Exhausts(calls, n + 1)
  {
    ExhaustedAfter(calls, n);
  }

  lemma HistoryStep(s: IterState, calls: seq<Call>, n: nat)
    requires n < |calls| && TellsHistory(s, calls, n)
    ensures TellsHistory(Step(s, calls[n]), calls, n + 1)
  {
    if s.current.Some? {
      assert IsCurrent(calls, n, s.current.value);
    } else {
      assert forall o :: !IsCurrent(calls, n, o);
    }
    CurrentStep(s, calls, n);
    ClosingStep(s, calls, n);
    ReopeningStep(s, calls, n);
    if s.closed {
      var i: nat :| EndsFirst(calls, i, n) && s.mainClosings == [if ClosesCleanly(calls[i]) then COMMIT else ROLLBACK];
      assert EndsFirst(calls, i, n + 1);
    } else if Ends(calls, n) {
      assert EndsFirst(calls, n, n + 1);
    }
  }

  /** Whatever is called in whatever order and wherever it fails: the delegate and the main scope are
      closed together and once, by the first call that ends the iteration, or not at all if no call
      does; the outcome is COMMIT exactly if that call closed cleanly; and every scope opened for a
      removal alone was closed again. */
  lemma {:induction false} IteratorClosesOnce(calls: seq<Call>)
    ensures TellsHistory(Steps(FRESH_ITERATOR, calls), calls, |calls|)
  {
    HistoryUpTo(calls, |calls|);
    assert calls[..|calls|] == calls;
  }

  lemma {:induction false} HistoryUpTo(calls: seq<Call>, n: nat)
    requires n <= |calls|
    ensures TellsHistory(Steps(FRESH_ITERATOR, calls[..n]), calls, n)
  {
    if n > 0 {
      HistoryUpTo(calls, n - 1);
      assert calls[..n][..n - 1] == calls[..n - 1];
      HistoryStep(Steps(FRESH_ITERATOR, calls[..n - 1]), calls, n - 1);
    }
  }

  /** The call is a removal that fails between the store and the index. */
  predicate BreaksOff(c: Call) {
    c.Remove? && c.removal.IndexFails?
  }

  class CollectionIterator {
    var autoClosed: bool
    var closed: bool
    var currentObject: Option<Obj>
    const scope: RequestScope
    const collection: S.IndexedCollection
    var delegateClosings: nat
    /** Commits of the open scope after a removal. */
    var commits: nat
    var reopened: nat
    var reclosings: seq<Outcome>

    ghost predicate Valid()
      reads this, scope
    {
      closed == scope.closed && (!closed ==> scope.outcome == ROLLBACK) && scope.Valid()
    }

    ghost function State(): IterState
      reads this, scope
    {
      IterState(autoClosed, closed, currentObject, delegateClosings, scope.closings, reopened, reclosings)
    }

    constructor (c: S.IndexedCollection, requestScope: RequestScope)
      requires requestScope.Valid() && !requestScope.closed && requestScope.outcome == ROLLBACK && requestScope.closings == []
      ensures Valid() && State() == FRESH_ITERATOR && collection == c && scope == requestScope && commits == 0
    {
      autoClosed, closed, currentObject := false, false, None;
      delegateClosings, commits, reopened, reclosings := 0, 0, 0, [];
      collection := c;
      scope := requestScope;
    }

    method HasNext(answer: Option<bool>, delegateCloseFails: bool, scopeCloseFails: bool)
      returns (result: Option<bool>)
      requires Valid()
      modifies this, scope
      ensures Valid() && State() == Step(old(State()), Call.HasNext(answer, delegateCloseFails, scopeCloseFails))
      ensures result == if answer == Some(false) && !old(closed) && (delegateCloseFails || scopeCloseFails) then None
                        else answer
    {
      if answer.None? {
        DoFail(delegateCloseFails, scopeCloseFails);
        return None;
      }
      if !answer.value {
        autoClosed := true;
        var ok := DoClose(delegateCloseFails, scopeCloseFails);
        if !ok {
          DoFail(delegateCloseFails, scopeCloseFails);
          return None;
        }
      }
      return answer;
    }

    method Next(answer: NextAnswer, delegateCloseFails: bool, scopeCloseFails: bool) returns (result: Option<Obj>)
      requires Valid()
      modifies this, scope
      ensures Valid() && State() == Step(old(State()), Call.Next(answer, delegateCloseFails, scopeCloseFails))
      ensures result == if answer.Yields? then Some(answer.o) else None
    {
      match answer {
        case Yields(o) =>
          currentObject := Some(o);
          return Some(o);
        case Exhausted =>
          return None;
        case Breaks =>
          DoFail(delegateCloseFails, scopeCloseFails);
          return None;
      }
    }

    method Remove(removal: Removal, delegateCloseFails: bool, scopeCloseFails: bool) returns (ok: bool)
      requires Valid()
      modifies this, scope, collection
      ensures Valid() && State() == Step(old(State()), Call.Remove(removal, delegateCloseFails, scopeCloseFails))
      ensures ok <==> old(currentObject).Some? && removal.Removed?
      ensures old(currentObject).None? ==> unchanged(collection)
      ensures old(currentObject).Some? ==>
                var o := old(currentObject).value;
                && collection.objectStore == old(collection.objectStore) - (if removal in {OpenFails, WriteFails} then {} else {o})
                && collection.index == old(collection.index) - (if removal in {Removed, CloseFails} then PostingsOf({o}) else {})
      ensures commits == old(commits) + (if ok && !old(autoClosed) then 1 else 0)
    {
      if currentObject == None {
        return false;
      }
      if autoClosed {
        ok := RemoveInOwnScope(currentObject.value, removal);
      } else {
        ok := RemoveInOpenScope(currentObject.value, removal);
      }
      if ok {
        currentObject := None;
      } else {
        DoFail(delegateCloseFails, scopeCloseFails);
      }
    }

    /** `doRemoveAll` of the current object, and a commit that leaves the scope open. */
    method RemoveInOpenScope(o: Obj, removal: Removal) returns (ok: bool)
      modifies `commits, collection
      ensures ok <==> removal.Removed?
      ensures collection.objectStore == old(collection.objectStore) - removal.FromStore(o)
      ensures collection.index == old(collection.index) - PostingsOf(removal.FromIndex(o))
      ensures commits == old(commits) + (if ok then 1 else 0)
    {
      if removal.OpenFails? || removal.WriteFails? {
        return false;
      }
      var _ := collection.StoreRemove(o);
      if removal.IndexFails? {
        return false;
      }
      collection.IndexRemoveAll({o});
      if removal.CloseFails? {
        return false;
      }
      commits := commits + 1;
      ok := true;
    }

    /** `remove` of the collection, which opens and closes a request scope of its own. */
    method RemoveInOwnScope(o: Obj, removal: Removal) returns (ok: bool)
      modifies `reopened, `reclosings, collection
      ensures ok <==> removal.Removed?
      ensures collection.objectStore == old(collection.objectStore) - removal.FromStore(o)
      ensures collection.index == old(collection.index) - PostingsOf(removal.FromIndex(o))
      ensures removal.OpenFails? ==> unchanged(this)
      ensures !removal.OpenFails? ==>
                && reopened == old(reopened) + 1
                && reclosings == old(reclosings) + [removal.ScopeOutcome()]
    {
      if removal.OpenFails? {
        return false;
      }
      reopened := reopened + 1;
      var own := new RequestScope(scope.closeRequired);
      if !removal.WriteFails? {
        var _ := collection.StoreRemove(o);
        if !removal.IndexFails? {
          collection.IndexRemoveAll({o});
          own.MarkSuccessful();
        }
      }
      var closedWell := own.Close(removal.CloseFails?);
      reclosings := reclosings + own.closings;
      ok := closedWell && removal.ScopeOutcome().COMMIT?;
    }

    /** `fail`. */
    method DoFail(delegateCloseFails: bool, scopeCloseFails: bool)
      requires Valid()
      modifies this, scope
      ensures Valid() && State() == Closing(old(State()), ROLLBACK) && unchanged(`commits)
    {
      if closed {
        return;
      }
      closed := true;
      delegateClosings := delegateClosings + 1;
      var _ := scope.Close(scopeCloseFails);
    }

    /** `close`. */
    method DoClose(delegateCloseFails: bool, scopeCloseFails: bool) returns (ok: bool)
      requires Valid()
      modifies this, scope
      ensures Valid() && State() == Closing(old(State()), if delegateCloseFails then ROLLBACK else COMMIT)
      ensures closed && (ok <==> old(closed) || (!delegateCloseFails && !scopeCloseFails))
    {
      if closed {
        return true;
      }
      closed := true;
      delegateClosings := delegateClosings + 1;
      if delegateCloseFails {
        var _ := scope.Close(scopeCloseFails);
        return false;
      }
      scope.MarkSuccessful();
      ok := scope.Close(scopeCloseFails);
    }

    /** One call of the application. */
    method Perform(c: Call)
      requires Valid()
      modifies this, scope, collection
      ensures Valid() && State() == Step(old(State()), c)
      ensures Agrees(old(collection.Contents())) && !BreaksOff(c) ==> Agrees(collection.Contents())
    {
      match c {
        case HasNext(more, d, s) =>
          var _ := HasNext(more, d, s);
        case Next(answer, d, s) =>
          var _ := Next(answer, d, s);
        case Remove(removal, d, s) =>
          var _ := Remove(removal, d, s);
        case Close(d, s) =>
          var _ := DoClose(d, s);
      }
    }
  }

  /** `iterator` of the collection, called with its scope just opened: if the object store yields no
      iterator, the scope is closed with ROLLBACK at once. */
  method OpenIterator(c: S.IndexedCollection, closeRequired: bool, storeFails: bool, scopeCloseFails: bool)
    returns (scope: RequestScope, i: CollectionIterator?)
    ensures fresh(scope) && scope.Valid() && scope.closeRequired == closeRequired
    ensures i == null <==> storeFails
    ensures i == null ==> scope.closings == [ROLLBACK]
    ensures i != null ==> fresh(i) && i.Valid() && i.State() == FRESH_ITERATOR && i.collection == c && i.scope == scope
  {
    scope := new RequestScope(closeRequired);
    if storeFails {
      var _ := scope.Close(scopeCloseFails);
      return scope, null;
    }
    i := new CollectionIterator(c, scope);
  }

  /** Creating an iterator and any sequence of calls on it. */
  method Iterate(c: S.IndexedCollection, closeRequired: bool, storeFails: bool, scopeCloseFails: bool, calls: seq<Call>)
    returns (scope: RequestScope, i: CollectionIterator?)
    modifies c
    ensures i == null <==> storeFails
    ensures i == null ==> scope.closings == [ROLLBACK] && unchanged(c)
    ensures i != null ==> i.scope == scope && TellsHistory(i.State(), calls, |calls|)
    ensures |scope.closings| <= 1 && scope.received == if closeRequired then scope.closings else []
    ensures Agrees(old(c.Contents())) && (forall n | 0 <= n < |calls| :: !BreaksOff(calls[n])) ==> Agrees(c.Contents())
  {
    scope, i := OpenIterator(c, closeRequired, storeFails, scopeCloseFails);
    if i == null {
      return;
    }
    for n := 0 to |calls|
      invariant fresh(i) && fresh(scope) && i.scope == scope && i.Valid() && i.collection == c
      invariant scope.closeRequired == closeRequired && i.State() == Steps(FRESH_ITERATOR, calls[..n])
      invariant Agrees(old(c.Contents())) && (forall m | 0 <= m < n :: !BreaksOff(calls[m])) ==> Agrees(c.Contents())
    {
      assert calls[..n + 1][..n] == calls[..n];
      i.Perform(calls[n]);
    }
    assert calls[..|calls|] == calls;
    IteratorClosesOnce(calls);
  }

  // ----- retrieve -----

  /** Where READ_COMMITTED `retrieve` raises an exception: opening the request scope, in the query
      engine, wrapping the engine's results, wrapping them again to release the read lock, asking for
      the exclusions, or wrapping once more to filter. */
  datatype RetrieveFault =
    | Nowhere | Opening | Querying | Wrapping | WrappingAgain | AskingExclusions | Filtering

  /** One call of `retrieve`, from holding its version's read lock to the last close of its results. */
  class Retrieval {
    const scope: RequestScope
    const filtered: bool
    var scopeOpened: bool
    var engineClosings: nat
    var unlocks: nat
    var innerClosed: bool
    var outerClosed: bool
    var filterClosed: bool

    ghost predicate Untouched()
      reads this, scope
    {
      && !scopeOpened && engineClosings == 0 && unlocks == 0
      && !innerClosed && !outerClosed && !filterClosed
      && !scope.closed && scope.closings == [] && scope.outcome == ROLLBACK && scope.Valid()
    }

    /** The results are open: nothing has been closed or released. */
    ghost predicate Open()
      reads this, scope
    {
      && scopeOpened && engineClosings == 0 && unlocks == 0
      && !innerClosed && !outerClosed
      && !scope.closed && scope.closings == [] && scope.outcome == COMMIT && scope.Valid()
    }

    /** Everything that was acquired has been given back, once, with this outcome. */
    ghost predicate Settled(outcome: Outcome, queried: bool)
      reads this, scope
    {
      && unlocks == 1 && scope.Valid()
      && scope.closings == (if scopeOpened then [outcome] else [])
      && engineClosings == (if queried then 1 else 0)
    }

    /** The read lock has been acquired; `hiding` is whether the version excludes anything. */
    constructor (hiding: bool, closeRequired: bool)
      ensures Untouched() && fresh(scope) && filtered == hiding && scope.closeRequired == closeRequired
    {
      filtered, scopeOpened, engineClosings, unlocks := hiding, false, 0, 0;
      innerClosed, outerClosed, filterClosed := false, false, false;
      scope := new RequestScope(closeRequired);
    }

    /** `retrieve` of the superclass. */
    method SuperRetrieve(fault: RetrieveFault, scopeCloseFails: bool) returns (ok: bool)
      requires Untouched()
      modifies this, scope
      ensures ok <==> fault !in {Opening, Querying, Wrapping}
      ensures ok ==> Open() && !filterClosed
      ensures ok ==> unlocks == 0 && engineClosings == 0 && scopeOpened && scope.closings == [] && scope.received == []
      ensures scope.Valid()
      ensures !ok ==>
                && unlocks == 0 && scopeOpened == !fault.Opening?
                   && scope.closings == (if scopeOpened then [ROLLBACK] else [])
                   && engineClosings == (if fault.Wrapping? then 1 else 0)
    {
      if fault.Opening? {
        return false;
      }
      scopeOpened := true;
      if fault.Querying? || fault.Wrapping? {
        if fault.Wrapping? {
          engineClosings := engineClosings + 1;
        }
        var _ := scope.Close(scopeCloseFails);
        return false;
      }
      scope.MarkSuccessful();
      return true;
    }

    /** `close` of the result set the superclass returned: closes the engine's results, then the
        scope, each even if the other fails. */
    method CloseInner(scopeCloseFails: bool)
      requires scope.Valid() && (innerClosed ==> scope.closed)
      modifies this, scope
      ensures innerClosed && scope.closed && scope.Valid()
      ensures unchanged(`scopeOpened, `unlocks, `outerClosed, `filterClosed) && scope.outcome == old(scope.outcome)
      ensures if old(innerClosed) then unchanged(`engineClosings) else engineClosings == old(engineClosings) + 1
      ensures scope.closings == if old(innerClosed || scope.closed) then old(scope.closings)
                                else old(scope.closings) + [scope.outcome]
    {
      if innerClosed {
        return;
      }
      innerClosed := true;
      engineClosings := engineClosings + 1;
      var _ := scope.Close(scopeCloseFails);
    }

    /** `close` of the wrapper that releases the version's read lock. */
    method CloseOuter(scopeCloseFails: bool)
      requires Open() || outerClosed
      modifies this, scope
      ensures outerClosed && unchanged(`scopeOpened, `filterClosed)
      ensures !old(outerClosed) ==> Settled(COMMIT, true)
      ensures old(outerClosed) ==> unchanged(`unlocks, `engineClosings, scope)
    {
      if outerClosed {
        return;
      }
      outerClosed := true;
      CloseInner(scopeCloseFails);
      unlocks := unlocks + 1;
    }

    /** READ_COMMITTED `retrieve`. On failure everything is given back at once, with COMMIT if the
        superclass had succeeded and ROLLBACK if not; on success nothing is given back yet. */
    method Retrieve(fault: RetrieveFault, scopeCloseFails: bool) returns (ok: bool)
      requires Untouched()
      modifies this, scope
      ensures ok <==> fault.Nowhere? || (fault.Filtering? && !filtered)
      ensures ok ==> Open() && !filterClosed
      ensures ok ==> unlocks == 0 && engineClosings == 0 && scopeOpened && scope.closings == [] && scope.received == []
      ensures !ok ==> unlocks == 1
      ensures !ok ==> Settled(if fault in {Opening, Querying, Wrapping} then ROLLBACK else COMMIT,
                              fault !in {Opening, Querying})
      ensures scopeOpened == !fault.Opening?
    {
      var retrieved := SuperRetrieve(fault, scopeCloseFails);
      if !retrieved {
        unlocks := unlocks + 1;
        return false;
      }
      if fault.WrappingAgain? {
        CloseInner(scopeCloseFails);
        unlocks := unlocks + 1;
        return false;
      }
      if fault.AskingExclusions? || (fault.Filtering? && filtered) {
        CloseOuter(scopeCloseFails);
        return false;
      }
      return true;
    }

    /** `close` of the results `retrieve` returned, which are filtered if the version hides anything. */
    method CloseResults(scopeCloseFails: bool)
      requires (Open() && !filterClosed) || (outerClosed && (filtered ==> filterClosed))
      modifies this, scope
      ensures outerClosed && (filtered ==> filterClosed)
      ensures !old(outerClosed) ==> Settled(COMMIT, true)
      ensures !old(outerClosed) ==> unlocks == 1 && engineClosings == 1 && scope.closings == [COMMIT]
      ensures old(outerClosed) ==> unchanged(`unlocks, `engineClosings, `scopeOpened, scope)
      ensures unchanged(`scopeOpened)
    {
      if filtered {
        if filterClosed {
          return;
        }
        filterClosed := true;
      }
      CloseOuter(scopeCloseFails);
    }
  }

  /** From acquiring the read lock to any positive number of closes of the results: the read lock is
      released once, the request scope is closed once if it was opened, with COMMIT exactly if the
      superclass's `retrieve` succeeded, and the persistence hears of it unless it is on the heap. */
  method RetrieveAndClose(hiding: bool, closeRequired: bool, fault: RetrieveFault, closes: nat, scopeCloseFails: bool)
    returns (r: Retrieval)
    requires closes > 0
    ensures r.unlocks == 1
    ensures r.scopeOpened <==> !fault.Opening?
    ensures r.scope.closings ==
              if fault.Opening? then [] else if fault.Querying? || fault.Wrapping? then [ROLLBACK] else [COMMIT]
    ensures r.scope.received == if closeRequired then r.scope.closings else []
    ensures r.engineClosings == if fault.Opening? || fault.Querying? then 0 else 1
  {
    r := new Retrieval(hiding, closeRequired);
    var ok := r.Retrieve(fault, scopeCloseFails);
    if ok {
      r.CloseResults(scopeCloseFails);
      for i := 1 to closes
        invariant fresh(r) && fresh(r.scope) && r.scopeOpened && r.scope.closeRequired == closeRequired
        invariant r.outerClosed && (r.filtered ==> r.filterClosed) && r.Settled(COMMIT, true)
      {
        r.CloseResults(scopeCloseFails);
      }
    }
  }
}
