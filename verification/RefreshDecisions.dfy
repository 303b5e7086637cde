/** What each step of AuthenticationInterceptor.swift (250-402) decides: who is adapted, who waits, and when
    a refresh is started. */
module RefreshDecisions {
  import opened Wrappers
  import opened Authentication
  import opened RefreshOutcomes

  // ---------- When there were too many refreshes ----------

  /** The refreshes started in the interval that ends now. */
  ghost function Recent(timestamps: seq<real>, min: real): set<nat> { set k: nat | k < |timestamps|
                                                                     && min <= timestamps[k] }

  lemma {:induction false} AttemptsAre(timestamps: seq<real>, min: real)
    ensures AttemptsSince(timestamps, min) == |Recent(timestamps, min)|
  {
    if timestamps == [] {
      assert Recent(timestamps, min) == {};
    } else {
      var n := |timestamps| - 1;
      var before := timestamps[..n];
      AttemptsAre(before, min);
      assert Recent(timestamps, min) == if min <= timestamps[n] then Recent(before, min) + {n} else Recent(before, min);
    }
  }

  /** A refresh is refused exactly when there is a window and as many refreshes as it allows, or more, were
      started within its interval before now. */
  lemma {:induction false} ExcessiveExactly(s: State, now: real)
    ensures Excessive(s, now) <==>
            match s.refreshWindow
            case Some(w) => |Recent(s.refreshTimestamps, now - w.interval)| >= w.maximumAttempts
            case None => false
  {
    if s.refreshWindow.Some? { AttemptsAre(s.refreshTimestamps, now - s.refreshWindow.value.interval); }
  }

  // ---------- Refreshing ----------

  /** A refresh with this credential is started. */
  ghost predicate Starts(s: State, s': State, credential: Credential, later: real) {
    && s'.isRefreshing && s'.refreshTimestamps == s.refreshTimestamps + [later]
    && s'.queue != [] && s'.queue[|s'.queue| - 1] == RefreshCall(credential)
  }

  /** A refresh is refused, and this is what those are told who asked for it. */
  ghost predicate RefusesWith(s: State, s': State, adapts: seq<AdaptOperation>, retries: seq<nat>) {
    && !s'.isRefreshing && s'.refreshTimestamps == s.refreshTimestamps
    && s'.queue != [] && s'.queue[|s'.queue| - 1] == Drain(adapts, retries, Some(ExcessiveRefresh))
  }

  /** Nothing is started, and no one else waits. */
  ghost predicate StartsNothing(s: State, s': State) {
    s'.isRefreshing == s.isRefreshing && s'.refreshTimestamps == s.refreshTimestamps && s'.inFlight == s.inFlight
  }

  lemma {:induction false} RefreshDecides(s: State, credential: Credential, now: real, later: real)
    ensures var s' := Refresh(s, credential, now, later);
            && s'.called == s.called && s'.checked == s.checked && s'.credential == s.credential
            && if Excessive(s, now) then RefusesWith(s, s', s.adaptOperations, s.requestsToRetry)
               else Starts(s, s', credential, later)
                    && s'.adaptOperations == s.adaptOperations && s'.requestsToRetry == s.requestsToRetry
  {
    hide AttemptsSince;
  }

  /** The operation as it waits: counted as made to wait again when the draining block brought it. */
  function Waiting(op: AdaptOperation, again: bool): AdaptOperation {
    if again then op.(requeues := op.requeues + 1) else op
  }

  /** What adapt does, by what there is. */
  ghost predicate Decides(s: State, s': State, op: AdaptOperation, again: bool, requiresRefresh: bool, now: real,
                          later: real) {
    if s.isRefreshing then
      s'.called == s.called && s'.adaptOperations == s.adaptOperations + [Waiting(op, again)] && StartsNothing(s, s')
    else if s.credential.None? then
      s'.called == s.called + [AdaptFailed(op, MissingCredential)] && StartsNothing(s, s')
    else if !requiresRefresh then
      s'.called == s.called + [Adapted(op, s.credential.value)] && StartsNothing(s, s')
    else if Excessive(s, now) then
      s'.called == s.called && RefusesWith(s, s', [op], [])
    else
      s'.called == s.called && Starts(s, s', s.credential.value, later) && s'.adaptOperations == [Waiting(op, again)]
  }

  lemma {:induction false} AdaptDecides(s: State, op: AdaptOperation, again: bool, requiresRefresh: bool, now: real,
                                        later: real)
    requires !s.isRefreshing ==> s.adaptOperations == [] && s.requestsToRetry == []
    ensures Decides(s, Adapt(s, op, again, requiresRefresh, now, later), op, again, requiresRefresh, now, later)
  {
    hide AttemptsSince, Refresh;
    if !s.isRefreshing && s.credential.Some? {
      assert s.adaptOperations + [op] == [op] && s.adaptOperations + [Waiting(op, again)] == [Waiting(op, again)];
      RefreshDecides(s.(adaptOperations := [op]), s.credential.value, now, later);
      RefreshDecides(s.(adaptOperations := [Waiting(op, again)]), s.credential.value, now, later);
    }
  }

  /** The step that handles an adapt operation: while a refresh runs it waits; without a credential it
      fails; a credential that requires no refresh adapts its request at once, and no refresh is started;
      one that does starts a refresh it waits for, unless there were too many. */
  lemma {:induction false} RequirementDecides(s: State, e: Event, op: AdaptOperation)
    requires Enabled(s, e) && Handles(s, e, Adapting(op)) && OneRefresh(s)
    ensures Decides(s, Next(s, e), op, e.QueueRuns?, e.requiresRefresh, e.now, e.later)
  {
    hide AttemptsSince, Adapt;
    if e.AdaptSubmitted? {
      AdaptDecides(s.(submitted := s.submitted + [e.id], clock := e.now), op, false, e.requiresRefresh, e.now, e.later);
    } else {
      var head := s.queue[0];
      AdaptDecides(s.(queue := [Drain(head.adapts[1..], head.retries, head.error)] + s.queue[1..]), op, true,
                   e.requiresRefresh, e.now, e.later);
    }
  }

  /** A retry that is asked about: no answer or another error is not retried, a missing credential is an
      error, a request that used another credential is retried at once, and one that used the present one
      goes to the lock. */
  lemma {:induction false} RetryDecides(s: State, e: Event)
    requires Enabled(s, e) && e.RetrySubmitted?
    ensures var s' := Next(s, e);
            && StartsNothing(s, s') && s'.queue == s.queue && s'.requestsToRetry == s.requestsToRetry
            && if !e.answered || !e.authenticationError then
                 s'.called == s.called + [DoNotRetry(e.id)] && s'.checked == s.checked
               else if s.credential.None? then
                 s'.called == s.called + [DoNotRetryWithError(e.id, MissingCredential)] && s'.checked == s.checked
               else if !e.sameCredential then
                 s'.called == s.called + [Retry(e.id)] && s'.checked == s.checked
               else
                 s'.called == s.called && s'.checked == s.checked + [Checked(e.id, s.credential.value)]
  {
  }

  /** ... where it waits for the refresh that runs, or starts one, unless there were too many. */
  lemma {:induction false} LockDecides(s: State, e: Event)
    requires Enabled(s, e) && e.RetryReachesLock? && OneRefresh(s)
    ensures var s', c := Next(s, e), s.checked[e.k];
            && s'.called == s.called && s'.checked == s.checked[..e.k] + s.checked[e.k + 1..]
            && if s.isRefreshing then StartsNothing(s, s') && s'.requestsToRetry == s.requestsToRetry + [c.id]
               else if Excessive(s, e.now) then RefusesWith(s, s', [], [c.id])
               else Starts(s, s', c.credential, e.later) && s'.requestsToRetry == [c.id]
  {
    hide AttemptsSince, Refresh;
    var c := s.checked[e.k];
    assert !s.isRefreshing ==> s.requestsToRetry + [c.id] == [c.id];
    RefreshDecides(s.(checked := s.checked[..e.k] + s.checked[e.k + 1..],
                      requestsToRetry := s.requestsToRetry + [c.id]),
                   c.credential, e.now, e.later);
  }

  /** The queue: a refresh is given to the authenticator; of those who waited, first the adapt operations
      and then the retries are told, each in the order they came. */
  lemma {:induction false} QueueDecides(s: State, e: Event)
    requires Enabled(s, e) && e.QueueRuns?
    ensures var s', head, rest := Next(s, e), s.queue[0], s.queue[1..];
            match head
            case RefreshCall(_) => s'.inFlight == s.inFlight + 1 && s'.queue == rest && s'.called == s.called
            case Drain(adapts, retries, error) =>
              if adapts != [] then
                && s'.queue != [] && s'.queue[0] == Drain(adapts[1..], retries, error) && rest <= s'.queue[1..]
                && (error.Some? ==>
                      s'.called == s.called + [AdaptFailed(adapts[0], error.value)] && s'.queue[1..] == rest)
              else if retries != [] then
                && s'.queue == [Drain([], retries[1..], error)] + rest
                && s'.called == s.called + [if error.Some? then DoNotRetryWithError(retries[0], error.value)
                                            else Retry(retries[0])]
              else s'.queue == rest && s'.called == s.called
  {
    hide AttemptsSince, Adapt;
    var head, rest := s.queue[0], s.queue[1..];
    if head.Drain? && head.adapts != [] {
      var s1 := s.(queue := [Drain(head.adapts[1..], head.retries, head.error)] + rest);
      AddedBlocks(s1, head.adapts[0], true, e.requiresRefresh, e.now, e.later);
      if head.error.None? { PrefixTail(s1.queue, Next(s, e).queue, rest); }
    }
  }

  lemma {:induction false} PrefixTail(a: seq<Block>, b: seq<Block>, rest: seq<Block>)
    requires a != [] && a[1..] == rest && a <= b
    ensures b != [] && b[0] == a[0] && rest <= b[1..]
  {
  }

  /** A refresh that completes: the wait lists, whole and in order, go to one block behind the others. */
  lemma {:induction false} CompletionDecides(s: State, e: Event)
    requires Enabled(s, e) && e.RefreshCompletes?
    ensures var s' := Next(s, e);
            && s'.queue == s.queue + [Drain(s.adaptOperations, s.requestsToRetry, ErrorOf(e.result))]
            && s'.adaptOperations == [] && s'.requestsToRetry == [] && !s'.isRefreshing
            && s'.inFlight == s.inFlight - 1 && s'.refreshTimestamps == s.refreshTimestamps && s'.called == s.called
  {
  }

  /** A refresh is started by no other step than one that handles an operation whose credential requires
      it, or a retry that reaches the lock, while none runs and there were not too many. */
  lemma {:induction false} OnlyTheseStart(s: State, e: Event)
    requires Enabled(s, e) && OneRefresh(s) && Next(s, e).refreshTimestamps != s.refreshTimestamps
    ensures (exists op :: Handles(s, e, Adapting(op)) && e.requiresRefresh && s.credential.Some?) || e.RetryReachesLock?
    ensures !s.isRefreshing && !Excessive(s, e.now) && Next(s, e).refreshTimestamps == s.refreshTimestamps + [e.later]
  {
    hide AttemptsSince, Adapt, Refresh, OneRefresh, RunQueue;
    match e {
      case AdaptSubmitted(id, _, now, _) => RequirementDecides(s, e, AdaptOperation(id, |s.refreshTimestamps|, now, 0));
      case RetrySubmitted(_, _, _, _) => RetryDecides(s, e);
      case RetryReachesLock(_, _, _) => LockDecides(s, e);
      case QueueRuns(_, _, _) => QueueStarts(s, e);
      case RefreshCompletes(_) =>
      case CredentialSet(_) =>
    }
  }

  lemma {:induction false} QueueStarts(s: State, e: Event)
    requires Enabled(s, e) && OneRefresh(s) && e.QueueRuns? && Next(s, e).refreshTimestamps != s.refreshTimestamps
    ensures exists op :: Handles(s, e, Adapting(op)) && e.requiresRefresh && s.credential.Some?
    ensures !s.isRefreshing && !Excessive(s, e.now) && Next(s, e).refreshTimestamps == s.refreshTimestamps + [e.later]
  {
    hide AttemptsSince, Adapt, OneRefresh;
    var op := s.queue[0].adapts[0];
    assert Handles(s, e, Adapting(op));
    RequirementDecides(s, e, op);
  }
}
