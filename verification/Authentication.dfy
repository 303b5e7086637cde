/** AuthenticationInterceptor.swift: adapt, retry, refresh and drain, as locked steps over the mutable
    state and the blocks dispatched to the serial queue.  Threads interleave between steps. */
module Authentication {
  import opened Wrappers

  datatype Failure = MissingCredential | ExcessiveRefresh | RefreshFailed(code: int)
  datatype Credential = Credential(token: nat)
  datatype RefreshWindow = RefreshWindow(interval: real, maximumAttempts: int)

  /** An adapt operation: the completion it has to call, and for bookkeeping how many refreshes had
      been started and what the time was when it was submitted, and how often it has had to wait again. */
  datatype AdaptOperation = AdaptOperation(id: nat, born: nat, bornAt: real, requeues: nat)

  /** A block on the queue: a call of the authenticator's refresh, or what is left of the draining of
      the wait lists after a refresh, which succeeded unless there is an error. */
  datatype Block = RefreshCall(credential: Credential)
                 | Drain(adapts: seq<AdaptOperation>, retries: seq<nat>, error: Option<Failure>)

  /** A completion that was called. */
  datatype Completion = Adapted(op: AdaptOperation, credential: Credential)
                      | AdaptFailed(op: AdaptOperation, error: Failure)
                      | Retry(id: nat) | DoNotRetry(id: nat) | DoNotRetryWithError(id: nat, error: Failure)
  {
    function Id(): nat { if Adapted? || AdaptFailed? then op.id else id }
  }

  /** A retry that passed the checks with a credential and has not reached the lock. */
  datatype Checked = Checked(id: nat, credential: Credential)

  /** MutableState, the queue, the authenticator's outstanding refreshes, the retries between their
      checks and the lock, and what was submitted and called so far. */
  datatype State = State(
    credential: Option<Credential>,
    isRefreshing: bool,
    refreshTimestamps: seq<real>,
    refreshWindow: Option<RefreshWindow>,
    adaptOperations: seq<AdaptOperation>,
    requestsToRetry: seq<nat>,
    queue: seq<Block>,
    inFlight: nat,
    checked: seq<Checked>,
    submitted: seq<nat>,
    called: seq<Completion>,
    clock: real)

  // ---------- The steps ----------

  /** How many of the timestamps are at or after `min`. */
  function AttemptsSince(timestamps: seq<real>, min: real): nat {
    if timestamps == [] then 0
    else AttemptsSince(timestamps[..|timestamps| - 1], min) + if min <= timestamps[|timestamps| - 1] then 1 else 0
  }

  /** isRefreshExcessive */
  predicate Excessive(s: State, now: real) {
    s.refreshWindow.Some? &&
    AttemptsSince(s.refreshTimestamps, now - s.refreshWindow.value.interval) >= s.refreshWindow.value.maximumAttempts
  }

  /** The wait lists go to a block on the queue, and nothing is being refreshed. */
  function Drained(s: State, error: Option<Failure>): State {
    s.(adaptOperations := [], requestsToRetry := [], isRefreshing := false,
       queue := s.queue + [Drain(s.adaptOperations, s.requestsToRetry, error)])
  }

  function RefreshSucceeded(s: State, credential: Credential): State {
    Drained(s.(credential := Some(credential)), None)
  }
  function RefreshFailedWith(s: State, error: Failure): State { Drained(s, Some(error)) }

  /** refresh(_:for:insideLock:); the clock is read for the check and again for the timestamp. */
  function Refresh(s: State, credential: Credential, now: real, later: real): State {
    if Excessive(s, now) then RefreshFailedWith(s, ExcessiveRefresh).(clock := now)
    else s.(refreshTimestamps := s.refreshTimestamps + [later], isRefreshing := true,
            queue := s.queue + [RefreshCall(credential)], clock := later)
  }

  /** adapt(_:for:completion:) */
  function Adapt(s: State, op: AdaptOperation, again: bool, requiresRefresh: bool, now: real, later: real): State {
    var waiting := if again then op.(requeues := op.requeues + 1) else op;
    if s.isRefreshing then s.(adaptOperations := s.adaptOperations + [waiting])
    else if s.credential.None? then s.(called := s.called + [AdaptFailed(op, MissingCredential)])
    else if requiresRefresh then
      if Excessive(s, now) then Refresh(s.(adaptOperations := s.adaptOperations + [op]), s.credential.value, now, later)
      else Refresh(s.(adaptOperations := s.adaptOperations + [waiting]), s.credential.value, now, later)
    else s.(called := s.called + [Adapted(op, s.credential.value)])
  }

  /** retry(_:for:dueTo:completion:) up to the lock. */
  function RetryChecks(s: State, id: nat, answered: bool, authenticationError: bool, sameCredential: bool): State {
    if !answered || !authenticationError then s.(called := s.called + [DoNotRetry(id)])
    else if s.credential.None? then s.(called := s.called + [DoNotRetryWithError(id, MissingCredential)])
    else if !sameCredential then s.(called := s.called + [Retry(id)])
    else s.(checked := s.checked + [Checked(id, s.credential.value)])
  }

  /** retry(_:for:dueTo:completion:) inside the lock. */
  function RetryWaits(s: State, k: nat, now: real, later: real): State
    requires k < |s.checked|
  {
    var c := s.checked[k];
    var s1 := s.(checked := s.checked[..k] + s.checked[k + 1..], requestsToRetry := s.requestsToRetry + [c.id]);
    if s1.isRefreshing then s1 else Refresh(s1, c.credential, now, later)
  }

  /** The queue runs the next piece of its first block. */
  function RunQueue(s: State, requiresRefresh: bool, now: real, later: real): State
    requires s.queue != []
  {
    match s.queue[0]
    case RefreshCall(_) => s.(queue := s.queue[1..], inFlight := s.inFlight + 1)
    case Drain(adapts, retries, error) =>
      if adapts != [] then
        var s1 := s.(queue := [Drain(adapts[1..], retries, error)] + s.queue[1..]);
        if error.Some? then s1.(called := s1.called + [AdaptFailed(adapts[0], error.value)])
        else Adapt(s1, adapts[0], true, requiresRefresh, now, later)
      else if retries != [] then
        s.(queue := [Drain([], retries[1..], error)] + s.queue[1..],
           called := s.called + [if error.Some? then DoNotRetryWithError(retries[0], error.value)
                                 else Retry(retries[0])])
      else s.(queue := s.queue[1..])
  }

  datatype Event = AdaptSubmitted(id: nat, requiresRefresh: bool, now: real, later: real)
                 | RetrySubmitted(id: nat, answered: bool, authenticationError: bool, sameCredential: bool)
                 | RetryReachesLock(k: nat, now: real, later: real)
                 | QueueRuns(requiresRefresh: bool, now: real, later: real)
                 | RefreshCompletes(result: Result)
                 | CredentialSet(credential: Option<Credential>)

  datatype Result = Success(credential: Credential) | Error(error: Failure)

  /** Completions are new, the clock does not go back, and a refresh completes once. */
  predicate Enabled(s: State, e: Event) {
    match e
    case AdaptSubmitted(id, _, now, later) => id !in s.submitted && s.clock <= now <= later
    case RetrySubmitted(id, _, _, _) => id !in s.submitted
    case RetryReachesLock(k, now, later) => k < |s.checked| && s.clock <= now <= later
    case QueueRuns(_, now, later) => s.queue != [] && s.clock <= now <= later
    case RefreshCompletes(_) => s.inFlight > 0
    case CredentialSet(_) => true
  }

  function Next(s: State, e: Event): State
    requires Enabled(s, e)
  {
    match e
    case AdaptSubmitted(id, requiresRefresh, now, later) =>
      Adapt(s.(submitted := s.submitted + [id], clock := now), AdaptOperation(id, |s.refreshTimestamps|, now, 0),
            false, requiresRefresh, now, later)
    case RetrySubmitted(id, answered, authenticationError, sameCredential) =>
      RetryChecks(s.(submitted := s.submitted + [id]), id, answered, authenticationError, sameCredential)
    case RetryReachesLock(k, now, later) => RetryWaits(s, k, now, later)
    case QueueRuns(requiresRefresh, now, later) => RunQueue(s, requiresRefresh, now, later)
    case RefreshCompletes(result) =>
      var s1 := s.(inFlight := s.inFlight - 1);
      (match result
       case Success(credential) => RefreshSucceeded(s1, credential)
       case Error(error) => RefreshFailedWith(s1, error))
    case CredentialSet(credential) => s.(credential := credential)
  }

  function Initial(credential: Option<Credential>, refreshWindow: Option<RefreshWindow>, clock: real): State {
    State(credential, false, [], refreshWindow, [], [], [], 0, [], [], [], clock)
  }

  // ---------- Runs ----------

  ghost predicate Run(states: seq<State>, events: seq<Event>) {
    && |states| == |events| + 1
    && states[0] == Initial(states[0].credential, states[0].refreshWindow, states[0].clock)
    && forall k :: 0 <= k < |events| ==> Enabled(states[k], events[k]) && states[k + 1] == Next(states[k], events[k])
  }

  // ---------- At most one refresh, and no one waits for nothing ----------

  /** Refreshes started and not completed. */
  function Outstanding(s: State): nat { RefreshCalls(s.queue) + s.inFlight }

  function RefreshCalls(queue: seq<Block>): nat {
    if queue == [] then 0 else (if queue[0].RefreshCall? then 1 else 0) + RefreshCalls(queue[1..])
  }

  lemma {:induction false} RefreshCallsAppend(a: seq<Block>, b: seq<Block>)
    ensures RefreshCalls(a + b) == RefreshCalls(a) + RefreshCalls(b)
  {
    if a == [] {
      assert a + b == b;
    } else {
      assert (a + b)[1..] == a[1..] + b;
      RefreshCallsAppend(a[1..], b);
    }
  }

  lemma {:induction false} RefreshCallsOne(a: seq<Block>, block: Block)
    ensures RefreshCalls(a + [block]) == RefreshCalls(a) + if block.RefreshCall? then 1 else 0
  {
    RefreshCallsAppend(a, [block]);
    assert RefreshCalls([block]) == (if block.RefreshCall? then 1 else 0) + RefreshCalls([])
        by { assert [block][1..] == []; }
  }

  ghost predicate OneRefresh(s: State) {
    && Outstanding(s) == (if s.isRefreshing then 1 else 0)
    && (!s.isRefreshing ==> s.adaptOperations == [] && s.requestsToRetry == [])
  }

  /** The part of OneRefresh that holds while the lock is held. */
  ghost predicate Counts(s: State) { Outstanding(s) == if s.isRefreshing then 1 else 0 }

  lemma {:induction false} RefreshKeepsOne(s: State, credential: Credential, now: real, later: real)
    requires Counts(s) && !s.isRefreshing
    ensures OneRefresh(Refresh(s, credential, now, later))
  {
    hide Excessive, RefreshCalls;
    RefreshCallsOne(s.queue, RefreshCall(credential));
    RefreshCallsOne(s.queue, Drain(s.adaptOperations, s.requestsToRetry, Some(ExcessiveRefresh)));
  }

  lemma {:induction false} AdaptKeepsOne(s: State, op: AdaptOperation, again: bool, requiresRefresh: bool, now: real,
                                         later: real)
    requires OneRefresh(s)
    ensures OneRefresh(Adapt(s, op, again, requiresRefresh, now, later))
  {
    hide Excessive, RefreshCalls, Refresh;
    if !s.isRefreshing && s.credential.Some? {
      var waiting := if again then op.(requeues := op.requeues + 1) else op;
      RefreshKeepsOne(s.(adaptOperations := s.adaptOperations + [op]), s.credential.value, now, later);
      RefreshKeepsOne(s.(adaptOperations := s.adaptOperations + [waiting]), s.credential.value, now, later);
    }
  }

  lemma {:induction false} HeadCalls(block: Block, rest: seq<Block>)
    ensures RefreshCalls([block] + rest) == (if block.RefreshCall? then 1 else 0) + RefreshCalls(rest)
  {
    assert ([block] + rest)[1..] == rest;
  }

  lemma {:induction false} NextKeepsOne(s: State, e: Event)
    requires Enabled(s, e) && OneRefresh(s)
    ensures OneRefresh(Next(s, e))
  {
    hide Excessive, RefreshCalls, Refresh, Adapt;
    match e {
      case AdaptSubmitted(id, requiresRefresh, now, later) =>
        AdaptKeepsOne(s.(submitted := s.submitted + [id], clock := now),
                      AdaptOperation(id, |s.refreshTimestamps|, now, 0),
                      false, requiresRefresh, now, later);
      case RetryReachesLock(k, now, later) =>
        if !s.isRefreshing {
          var c := s.checked[k];
          RefreshKeepsOne(s.(checked := s.checked[..k] + s.checked[k + 1..],
                             requestsToRetry := s.requestsToRetry + [c.id]),
                          c.credential, now, later);
        }
      case QueueRuns(requiresRefresh, now, later) =>
        var head, rest := s.queue[0], s.queue[1..];
        assert s.queue == [head] + rest;
        HeadCalls(head, rest);
        if head.Drain? {
          HeadCalls(Drain(head.adapts[if head.adapts == [] then 0 else 1..], head.retries, head.error), rest);
          HeadCalls(Drain([], head.retries[if head.retries == [] then 0 else 1..], head.error), rest);
          if head.adapts != [] && head.error.None? {
            AdaptKeepsOne(s.(queue := [Drain(head.adapts[1..], head.retries, head.error)] + rest), head.adapts[0], true,
                          requiresRefresh, now, later);
          }
        }
      case RefreshCompletes(result) =>
        RefreshCallsOne(s.queue, Drain(s.adaptOperations, s.requestsToRetry,
                                       if result.Error? then Some(result.error) else None));
      case _ =>
    }
  }

  /** In every run, between locked steps: a refresh is outstanding exactly while isRefreshing is set,
      never two, and nothing waits when none is. */
  lemma {:induction false} AtMostOneRefresh(states: seq<State>, events: seq<Event>, k: nat)
    requires Run(states, events) && k < |states|
    ensures OneRefresh(states[k])
  {
    hide Next;
    if k > 0 {
      AtMostOneRefresh(states, events, k - 1);
      NextKeepsOne(states[k - 1], events[k - 1]);
    }
  }

  // ---------- Every completion is in one place ----------

  /** The ids a list of things holds. */
  function Ids<T>(xs: seq<T>, ids: T -> multiset<nat>): multiset<nat> {
    if xs == [] then multiset{} else ids(xs[0]) + Ids(xs[1..], ids)
  }

  lemma {:induction false} IdsAppend<T>(a: seq<T>, b: seq<T>, ids: T -> multiset<nat>)
    ensures Ids(a + b, ids) == Ids(a, ids) + Ids(b, ids)
  {
    if a == [] {
      assert a + b == b;
    } else {
      assert (a + b)[1..] == a[1..] + b;
      IdsAppend(a[1..], b, ids);
    }
  }

  lemma {:induction false} IdsOne<T>(a: seq<T>, x: T, ids: T -> multiset<nat>)
    ensures Ids(a + [x], ids) == Ids(a, ids) + ids(x)
  {
    IdsAppend(a, [x], ids);
    assert [x][1..] == [];
    assert Ids([x], ids) == ids(x) + Ids([], ids);
  }

  lemma {:induction false} IdsHead<T>(x: T, b: seq<T>, ids: T -> multiset<nat>)
    ensures Ids([x] + b, ids) == ids(x) + Ids(b, ids)
  {
    assert ([x] + b)[1..] == b;
  }

  function OpIds(op: AdaptOperation): multiset<nat> { multiset{op.id} }
  function CheckedIds(c: Checked): multiset<nat> { multiset{c.id} }
  function CalledIds(c: Completion): multiset<nat> { multiset{c.Id()} }
  function BlockIds(block: Block): multiset<nat> {
    match block
    case RefreshCall(_) => multiset{}
    case Drain(adapts, retries, _) => Ids(adapts, OpIds) + multiset(retries)
  }

  /** Where completions are: waiting, on the way to the lock, in a dispatched block, or called. */
  function Places(s: State): multiset<nat> {
    Ids(s.adaptOperations, OpIds) + multiset(s.requestsToRetry) + Ids(s.checked, CheckedIds) + Ids(s.queue, BlockIds)
    + Ids(s.called, CalledIds)
  }

  lemma {:induction false} RefreshPlaces(s: State, credential: Credential, now: real, later: real)
    ensures Places(Refresh(s, credential, now, later)) == Places(s)
  {
    hide Excessive, Ids;
    IdsOne(s.queue, RefreshCall(credential), BlockIds);
    DrainedPlaces(s, Some(ExcessiveRefresh));
  }

  lemma {:induction false} DrainedPlaces(s: State, error: Option<Failure>)
    ensures Places(Drained(s, error)) == Places(s)
  {
    hide Ids;
    IdsOne(s.queue, Drain(s.adaptOperations, s.requestsToRetry, error), BlockIds);
    assert Ids<AdaptOperation>([], OpIds) == multiset{} by { NoIds<AdaptOperation>(OpIds); }
  }

  lemma {:induction false} NoIds<T>(ids: T -> multiset<nat>)
    ensures Ids([], ids) == multiset{}
  {
  }

  lemma {:induction false} CalledPlaces(s: State, c: Completion)
    ensures Places(s.(called := s.called + [c])) == Places(s) + multiset{c.Id()}
  {
    hide Ids;
    IdsOne(s.called, c, CalledIds);
  }

  lemma {:induction false} WaitingPlaces(s: State, op: AdaptOperation)
    ensures Places(s.(adaptOperations := s.adaptOperations + [op])) == Places(s) + multiset{op.id}
  {
    hide Ids;
    IdsOne(s.adaptOperations, op, OpIds);
  }

  lemma {:induction false} AdaptPlaces(s: State, op: AdaptOperation, again: bool, requiresRefresh: bool, now: real,
                                       later: real)
    ensures Places(Adapt(s, op, again, requiresRefresh, now, later)) == Places(s) + multiset{op.id}
  {
    hide Places, Refresh, Excessive;
    var waiting := if again then op.(requeues := op.requeues + 1) else op;
    WaitingPlaces(s, op);
    WaitingPlaces(s, waiting);
    CalledPlaces(s, AdaptFailed(op, MissingCredential));
    if s.credential.Some? {
      CalledPlaces(s, Adapted(op, s.credential.value));
      RefreshPlaces(s.(adaptOperations := s.adaptOperations + [op]), s.credential.value, now, later);
      RefreshPlaces(s.(adaptOperations := s.adaptOperations + [waiting]), s.credential.value, now, later);
    }
  }

  lemma {:induction false} RetryWaitsPlaces(s: State, k: nat, now: real, later: real)
    requires k < |s.checked|
    ensures Places(RetryWaits(s, k, now, later)) == Places(s)
  {
    hide Ids, Refresh;
    var c := s.checked[k];
    var s1 := s.(checked := s.checked[..k] + s.checked[k + 1..], requestsToRetry := s.requestsToRetry + [c.id]);
    assert s.checked == s.checked[..k] + ([c] + s.checked[k + 1..]);
    IdsHead(c, s.checked[k + 1..], CheckedIds);
    IdsAppend(s.checked[..k], [c] + s.checked[k + 1..], CheckedIds);
    IdsAppend(s.checked[..k], s.checked[k + 1..], CheckedIds);
    RefreshPlaces(s1, c.credential, now, later);
  }

  lemma {:induction false} QueuePlaces(s: State, head: Block, rest: seq<Block>)
    requires s.queue != [] && rest == s.queue[1..]
    ensures Places(s.(queue := [head] + rest)) + BlockIds(s.queue[0]) == Places(s) + BlockIds(head)
    ensures Places(s.(queue := rest)) + BlockIds(s.queue[0]) == Places(s)
  {
    hide Ids, BlockIds;
    assert s.queue == [s.queue[0]] + rest;
    IdsHead(s.queue[0], rest, BlockIds);
    IdsHead(head, rest, BlockIds);
  }

  lemma {:induction false} DrainIds(adapts: seq<AdaptOperation>, retries: seq<nat>, error: Option<Failure>)
    ensures adapts != [] ==>
              BlockIds(Drain(adapts, retries, error)) == BlockIds(Drain(adapts[1..], retries, error))
                  + multiset{adapts[0].id}
    ensures retries != [] ==>
              BlockIds(Drain([], retries, error)) == BlockIds(Drain([], retries[1..], error)) + multiset{retries[0]}
    ensures BlockIds(Drain([], [], error)) == multiset{}
  {
    if retries != [] { assert retries == [retries[0]] + retries[1..]; }
  }

  lemma {:induction false} RunQueuePlaces(s: State, requiresRefresh: bool, now: real, later: real)
    requires s.queue != []
    ensures Places(RunQueue(s, requiresRefresh, now, later)) == Places(s)
  {
    hide Places, BlockIds, Ids, Adapt;
    var head, rest := s.queue[0], s.queue[1..];
    QueuePlaces(s, head, rest);
    if head.RefreshCall? {
      assert BlockIds(head) == multiset{} by { RefreshCallIds(head); }
      InFlightPlaces(s.(queue := rest), s.inFlight + 1);
    } else {
      DrainIds(head.adapts, head.retries, head.error);
      if head.adapts != [] {
        var head', op := Drain(head.adapts[1..], head.retries, head.error), head.adapts[0];
        QueuePlaces(s, head', rest);
        var s1 := s.(queue := [head'] + rest);
        Cancel(Places(s1) + multiset{op.id}, Places(s), BlockIds(head'));
        if head.error.Some? {
          CalledPlaces(s1, AdaptFailed(op, head.error.value));
        } else {
          AdaptPlaces(s1, op, true, requiresRefresh, now, later);
        }
      } else if head.retries != [] {
        var head' := Drain([], head.retries[1..], head.error);
        QueuePlaces(s, head', rest);
        Cancel(Places(s.(queue := [head'] + rest)) + multiset{head.retries[0]}, Places(s), BlockIds(head'));
        CalledPlaces(s.(queue := [head'] + rest),
                     if head.error.Some? then DoNotRetryWithError(head.retries[0], head.error.value)
                     else Retry(head.retries[0]));
      }
    }
  }

  lemma {:induction false} Cancel(a: multiset<nat>, b: multiset<nat>, c: multiset<nat>)
    requires a + c == b + c
    ensures a == b
  {
    forall x: nat ensures a[x] == b[x] {
      assert (a + c)[x] == (b + c)[x];
    }
  }

  lemma {:induction false} RefreshCallIds(block: Block)
    ensures block.RefreshCall? ==> BlockIds(block) == multiset{}
  {
  }

  lemma {:induction false} InFlightPlaces(s: State, n: nat)
    ensures Places(s.(inFlight := n)) == Places(s)
  {
  }

  /** Each completion that was submitted is in exactly one place, once. */
  ghost predicate Conserved(s: State) {
    && Places(s) == multiset(s.submitted)
    && forall id: nat :: multiset(s.submitted)[id] <= 1
  }

  lemma {:induction false} SubmittedPlaces(s: State, id: nat, clock: real)
    ensures Places(s.(submitted := s.submitted + [id], clock := clock)) == Places(s)
    ensures Places(s.(submitted := s.submitted + [id])) == Places(s)
  {
  }

  lemma {:induction false} CheckedPlaces(s: State, c: Checked)
    ensures Places(s.(checked := s.checked + [c])) == Places(s) + multiset{c.id}
  {
    hide Ids;
    IdsOne(s.checked, c, CheckedIds);
  }

  lemma {:induction false} RetryChecksPlaces(s: State, id: nat, answered: bool, authenticationError: bool,
                                             sameCredential: bool)
    ensures Places(RetryChecks(s, id, answered, authenticationError, sameCredential)) == Places(s) + multiset{id}
  {
    hide Places;
    CalledPlaces(s, DoNotRetry(id));
    CalledPlaces(s, DoNotRetryWithError(id, MissingCredential));
    CalledPlaces(s, Retry(id));
    if s.credential.Some? { CheckedPlaces(s, Checked(id, s.credential.value)); }
  }

  lemma {:induction false} CredentialPlaces(s: State, credential: Option<Credential>)
    ensures Places(s.(credential := credential)) == Places(s)
  {
  }

  lemma {:induction false} NextPlaces(s: State, e: Event)
    requires Enabled(s, e)
    ensures Places(Next(s, e)) + multiset(s.submitted) == Places(s) + multiset(Next(s, e).submitted)
    ensures Next(s, e).submitted == if e.AdaptSubmitted? || e.RetrySubmitted? then s.submitted + [e.id] else s.submitted
  {
    hide Places, Adapt, RetryWaits, RunQueue, RetryChecks, Drained;
    StepSubmitted(s, e);
    match e {
      case AdaptSubmitted(id, requiresRefresh, now, later) =>
        SubmittedPlaces(s, id, now);
        AdaptPlaces(s.(submitted := s.submitted + [id], clock := now),
                    AdaptOperation(id, |s.refreshTimestamps|, now, 0),
                    false, requiresRefresh, now, later);
      case RetrySubmitted(id, answered, authenticationError, sameCredential) =>
        SubmittedPlaces(s, id, s.clock);
        RetryChecksPlaces(s.(submitted := s.submitted + [id]), id, answered, authenticationError, sameCredential);
      case RetryReachesLock(k, now, later) => RetryWaitsPlaces(s, k, now, later);
      case QueueRuns(requiresRefresh, now, later) => RunQueuePlaces(s, requiresRefresh, now, later);
      case RefreshCompletes(result) =>
        var s1 := s.(inFlight := s.inFlight - 1);
        InFlightPlaces(s, s.inFlight - 1);
        if result.Success? {
          CredentialPlaces(s1, Some(result.credential));
          DrainedPlaces(s1.(credential := Some(result.credential)), None);
        } else {
          DrainedPlaces(s1, Some(result.error));
        }
      case CredentialSet(credential) => CredentialPlaces(s, credential);
    }
  }

  lemma {:induction false} StepSubmitted(s: State, e: Event)
    requires Enabled(s, e)
    ensures Next(s, e).submitted == if e.AdaptSubmitted? || e.RetrySubmitted? then s.submitted + [e.id] else s.submitted
  {
    hide Excessive;
  }

  lemma {:induction false} NextConserves(s: State, e: Event)
    requires Enabled(s, e) && Conserved(s)
    ensures Conserved(Next(s, e))
  {
    hide Places, Next;
    NextPlaces(s, e);
    Cancel(Places(Next(s, e)), multiset(Next(s, e).submitted), Places(s));
    if e.AdaptSubmitted? || e.RetrySubmitted? {
      assert e.id !in multiset(s.submitted);
      assert multiset(s.submitted + [e.id]) == multiset(s.submitted) + multiset{e.id};
    }
  }

  /** In every run, each completion that was submitted is in exactly one place: waiting, in a
      dispatched block, on its way to the lock, or called once. */
  lemma {:induction false} CompletionsConserved(states: seq<State>, events: seq<Event>, k: nat)
    requires Run(states, events) && k < |states|
    ensures Conserved(states[k])
  {
    hide Next;
    if k > 0 {
      CompletionsConserved(states, events, k - 1);
      NextConserves(states[k - 1], events[k - 1]);
    }
  }

  /** When nothing is left to run, every submitted completion has been called exactly once, and
      nothing else has been called. */
  lemma {:induction false} AllCalledAtRest(states: seq<State>, events: seq<Event>, k: nat)
    requires Run(states, events) && k < |states|
    requires states[k].queue == [] && states[k].inFlight == 0 && states[k].checked == []
    ensures Ids(states[k].called, CalledIds) == multiset(states[k].submitted)
    ensures forall id: nat :: Ids(states[k].called, CalledIds)[id] == if id in states[k].submitted then 1 else 0
  {
    CompletionsConserved(states, events, k);
    AtMostOneRefresh(states, events, k);
    var s := states[k];
    assert !s.isRefreshing;
    assert Places(s) == Ids(s.called, CalledIds);
  }

  // ---------- The refresh rate limit ----------

  function Max0(n: int): nat { if n < 0 then 0 else n }

  /** Started refreshes within a closed interval. */
  function StartedWithin(timestamps: seq<real>, lo: real, hi: real): nat {
    if timestamps == [] then 0
    else
      var last := timestamps[|timestamps| - 1];
      StartedWithin(timestamps[..|timestamps| - 1], lo, hi) + if lo <= last <= hi then 1 else 0
  }

  ghost predicate Sorted(timestamps: seq<real>) {
    forall i, j :: 0 <= i < j < |timestamps| ==> timestamps[i] <= timestamps[j]
  }

  /** Any `maximumAttempts` + 1 consecutive refreshes take longer than the interval. */
  ghost predicate Spaced(timestamps: seq<real>, window: RefreshWindow) {
    var n := window.maximumAttempts;
    && (n <= 0 ==> timestamps == [])
    && forall k :: n >= 1 && n <= k < |timestamps| ==> timestamps[k - n] < timestamps[k] - window.interval
  }

  ghost predicate Paced(s: State) {
    && Sorted(s.refreshTimestamps)
    && (forall k :: 0 <= k < |s.refreshTimestamps| ==> s.refreshTimestamps[k] <= s.clock)
    && (s.refreshWindow.Some? ==> Spaced(s.refreshTimestamps, s.refreshWindow.value))
  }

  lemma {:induction false} SuffixCounts(timestamps: seq<real>, min: real, n: nat)
    requires n <= |timestamps| && forall k :: |timestamps| - n <= k < |timestamps| ==> min <= timestamps[k]
    ensures AttemptsSince(timestamps, min) >= n
  {
    if n > 0 { SuffixCounts(timestamps[..|timestamps| - 1], min, n - 1); }
  }

  lemma {:induction false} NothingWithin(timestamps: seq<real>, lo: real, hi: real)
    requires forall k :: 0 <= k < |timestamps| ==> timestamps[k] < lo
    ensures StartedWithin(timestamps, lo, hi) == 0
  {
    if timestamps != [] { NothingWithin(timestamps[..|timestamps| - 1], lo, hi); }
  }

  lemma {:induction false} WithinSplit(timestamps: seq<real>, n: nat, lo: real, hi: real)
    requires n <= |timestamps|
    ensures StartedWithin(timestamps, lo, hi) <= StartedWithin(timestamps[..|timestamps| - n], lo, hi) + n
  {
    if n > 0 {
      WithinSplit(timestamps[..|timestamps| - 1], n - 1, lo, hi);
      assert timestamps[..|timestamps| - 1][..|timestamps| - n] == timestamps[..|timestamps| - n];
    } else {
      assert timestamps[..|timestamps|] == timestamps;
    }
  }

  /** When the last refresh lies within the interval, those before the n last ones do not. */
  lemma {:induction false} LastWithin(timestamps: seq<real>, window: RefreshWindow, t: real)
    requires Sorted(timestamps) && Spaced(timestamps, window) && timestamps != []
    requires t <= timestamps[|timestamps| - 1] <= t + window.interval
    ensures StartedWithin(timestamps, t, t + window.interval) <= Max0(window.maximumAttempts)
  {
    hide StartedWithin;
    var n, len := window.maximumAttempts, |timestamps|;
    if n >= len {
      WithinSplit(timestamps, len, t, t + window.interval);
      NothingWithin([], t, t + window.interval);
      assert timestamps[..0] == [];
    } else {
      assert timestamps[len - 1 - n] < timestamps[len - 1] - window.interval <= t;
      NothingWithin(timestamps[..len - n], t, t + window.interval);
      WithinSplit(timestamps, n, t, t + window.interval);
    }
  }

  lemma {:induction false} SpacedMeans(timestamps: seq<real>, window: RefreshWindow, t: real)
    requires Sorted(timestamps) && Spaced(timestamps, window)
    ensures StartedWithin(timestamps, t, t + window.interval) <= Max0(window.maximumAttempts)
  {
    if timestamps != [] {
      var len := |timestamps|;
      if t <= timestamps[len - 1] <= t + window.interval {
        LastWithin(timestamps, window, t);
      } else {
        var before := timestamps[..len - 1];
        assert Sorted(before);
        assert Spaced(before, window);
        SpacedMeans(before, window, t);
      }
    }
  }

  lemma {:induction false} RefreshPaces(s: State, credential: Credential, now: real, later: real)
    requires Paced(s) && s.clock <= now <= later
    ensures Paced(Refresh(s, credential, now, later))
  {
    hide AttemptsSince;
    if !Excessive(s, now) {
      var ts, ts' := s.refreshTimestamps, s.refreshTimestamps + [later];
      if s.refreshWindow.Some? {
        var w := s.refreshWindow.value;
        var n := w.maximumAttempts;
        SuffixCounts(ts, now - w.interval, 0);
        if 1 <= n <= |ts| && ts[|ts| - n] >= now - w.interval {
          SuffixCounts(ts, now - w.interval, n);
          assert false;
        }
        forall k | n >= 1 && n <= k < |ts'| ensures ts'[k - n] < ts'[k] - w.interval {
          if k < |ts| { assert ts[k - n] < ts[k] - w.interval; }
        }
      }
    }
  }

  lemma {:induction false} AdaptPaces(s: State, op: AdaptOperation, again: bool, requiresRefresh: bool, now: real,
                                      later: real)
    requires Paced(s) && s.clock <= now <= later
    ensures Paced(Adapt(s, op, again, requiresRefresh, now, later))
  {
    hide Excessive, Refresh, Spaced, Sorted;
    if s.credential.Some? {
      var waiting := if again then op.(requeues := op.requeues + 1) else op;
      RefreshPaces(s.(adaptOperations := s.adaptOperations + [op]), s.credential.value, now, later);
      RefreshPaces(s.(adaptOperations := s.adaptOperations + [waiting]), s.credential.value, now, later);
    }
  }

  lemma {:induction false} NextPaces(s: State, e: Event)
    requires Enabled(s, e) && Paced(s)
    ensures Paced(Next(s, e))
  {
    hide Excessive, Refresh, Spaced, Sorted, Adapt;
    match e {
      case AdaptSubmitted(id, requiresRefresh, now, later) =>
        AdaptPaces(s.(submitted := s.submitted + [id], clock := now), AdaptOperation(id, |s.refreshTimestamps|, now, 0),
                   false, requiresRefresh, now, later);
      case RetryReachesLock(k, now, later) =>
        var c := s.checked[k];
        RefreshPaces(s.(checked := s.checked[..k] + s.checked[k + 1..], requestsToRetry := s.requestsToRetry + [c.id]),
                     c.credential, now, later);
      case QueueRuns(requiresRefresh, now, later) =>
        var head, rest := s.queue[0], s.queue[1..];
        if head.Drain? && head.adapts != [] {
          AdaptPaces(s.(queue := [Drain(head.adapts[1..], head.retries, head.error)] + rest), head.adapts[0], true,
                     requiresRefresh, now, later);
        }
      case _ =>
    }
  }

  lemma {:induction false} AlwaysPaced(states: seq<State>, events: seq<Event>, k: nat)
    requires Run(states, events) && k < |states|
    ensures Paced(states[k])
  {
    hide Next;
    if k > 0 {
      AlwaysPaced(states, events, k - 1);
      NextPaces(states[k - 1], events[k - 1]);
    }
  }

  /** In every run, no closed time interval as long as the window holds more started refreshes than
      the window allows. */
  lemma {:induction false} RefreshRateLimit(states: seq<State>, events: seq<Event>, k: nat, t: real)
    requires Run(states, events) && k < |states| && states[k].refreshWindow.Some?
    ensures var w := states[k].refreshWindow.value;
            StartedWithin(states[k].refreshTimestamps, t, t + w.interval) <= Max0(w.maximumAttempts)
  {
    AlwaysPaced(states, events, k);
    SpacedMeans(states[k].refreshTimestamps, states[k].refreshWindow.value, t);
  }

  // ---------- How often an adapt operation is queued again ----------

  /** At least `spare` more refreshes were started since the operation was submitted than it was
      queued again. */
  ghost predicate Paid(op: AdaptOperation, timestamps: seq<real>, clock: real, spare: nat) {
    && op.requeues + op.born + spare <= |timestamps| && op.bornAt <= clock
    && forall k :: op.born <= k < |timestamps| ==> op.bornAt <= timestamps[k]
  }

  ghost predicate AllPaid(ops: seq<AdaptOperation>, timestamps: seq<real>, clock: real, spare: nat) {
    forall i :: 0 <= i < |ops| ==> Paid(ops[i], timestamps, clock, spare)
  }

  ghost predicate BlockPaid(block: Block, timestamps: seq<real>, clock: real, spare: nat) {
    block.Drain? ==> AllPaid(block.adapts, timestamps, clock, spare)
  }

  ghost predicate CalledPaid(c: Completion, timestamps: seq<real>, clock: real) {
    c.Adapted? || c.AdaptFailed? ==> Paid(c.op, timestamps, clock, 0)
  }

  /** What is being drained while a refresh runs was there before the refresh started. */
  ghost predicate Ledger(s: State) {
    var spare := if s.isRefreshing then 1 else 0;
    && AllPaid(s.adaptOperations, s.refreshTimestamps, s.clock, 0)
    && (forall i :: 0 <= i < |s.queue| ==> BlockPaid(s.queue[i], s.refreshTimestamps, s.clock, spare))
    && (forall i :: 0 <= i < |s.called| ==> CalledPaid(s.called[i], s.refreshTimestamps, s.clock))
  }

  lemma {:induction false} PaidLater(op: AdaptOperation, ts: seq<real>, clock: real, spare: nat, later: real)
    requires Paid(op, ts, clock, spare) && clock <= later
    ensures Paid(op, ts, later, spare) && Paid(op, ts + [later], later, spare + 1)
    ensures spare > 0 ==> Paid(op, ts, later, 0)
  {
  }

  lemma {:induction false} LedgerLater(s: State, now: real)
    requires Ledger(s) && s.clock <= now
    ensures Ledger(s.(clock := now))
  {
  }

  lemma {:induction false} DrainedLedger(s: State, error: Option<Failure>)
    requires Ledger(s)
    ensures Ledger(Drained(s, error))
  {
    hide Paid;
    var s' := Drained(s, error);
    forall i | 0 <= i < |s'.queue| ensures BlockPaid(s'.queue[i], s.refreshTimestamps, s.clock, 0) {
      if i < |s.queue| && s.queue[i].Drain? {
        assert BlockPaid(s.queue[i], s.refreshTimestamps, s.clock, if s.isRefreshing then 1 else 0);
        SpareLess(s.queue[i].adapts, s.refreshTimestamps, s.clock, if s.isRefreshing then 1 else 0);
      }
    }
  }

  lemma {:induction false} SpareLess(ops: seq<AdaptOperation>, ts: seq<real>, clock: real, spare: nat)
    requires AllPaid(ops, ts, clock, spare)
    ensures AllPaid(ops, ts, clock, 0)
  {
  }

  lemma {:induction false} OneMore(ops: seq<AdaptOperation>, ts: seq<real>, clock: real, later: real)
    requires AllPaid(ops, ts, clock, 0) && clock <= later
    ensures AllPaid(ops, ts + [later], later, 1) && AllPaid(ops, ts + [later], later, 0)
  {
    hide Paid;
    forall i | 0 <= i < |ops| ensures Paid(ops[i], ts + [later], later, 1) { PaidLater(ops[i], ts, clock, 0, later); }
    SpareLess(ops, ts + [later], later, 1);
  }

  /** A refresh that starts pays for another wait of whatever is being drained. */
  lemma {:induction false} StartedLedger(s: State, credential: Credential, now: real, later: real)
    requires Ledger(s) && !s.isRefreshing && s.clock <= now <= later && !Excessive(s, now)
    ensures Ledger(Refresh(s, credential, now, later))
  {
    hide Paid, Excessive, AllPaid;
    var s', ts := Refresh(s, credential, now, later), s.refreshTimestamps;
    OneMore(s.adaptOperations, ts, s.clock, later);
    forall i | 0 <= i < |s'.queue| ensures BlockPaid(s'.queue[i], ts + [later], later, 1) {
      if i < |s.queue| && s.queue[i].Drain? {
        assert BlockPaid(s.queue[i], ts, s.clock, 0);
        OneMore(s.queue[i].adapts, ts, s.clock, later);
      }
    }
    forall i | 0 <= i < |s'.called| ensures CalledPaid(s'.called[i], ts + [later], later) {
      assert CalledPaid(s.called[i], ts, s.clock);
      var c := s.called[i];
      if c.Adapted? || c.AdaptFailed? {
        PaidLater(c.op, ts, s.clock, 0, later);
        PaidLess(c.op, ts + [later], later, 1);
      }
    }
  }

  lemma {:induction false} PaidLess(op: AdaptOperation, ts: seq<real>, clock: real, spare: nat)
    requires Paid(op, ts, clock, spare)
    ensures Paid(op, ts, clock, 0)
  {
  }

  lemma {:induction false} RefreshLedger(s: State, credential: Credential, now: real, later: real)
    requires Ledger(s) && !s.isRefreshing && s.clock <= now <= later
    ensures Ledger(Refresh(s, credential, now, later))
  {
    hide Excessive, Ledger;
    if Excessive(s, now) {
      DrainedLedger(s, Some(ExcessiveRefresh));
      LedgerLater(Drained(s, Some(ExcessiveRefresh)), now);
    } else {
      StartedLedger(s, credential, now, later);
    }
  }

  /** An operation from outside the lists joins the one that waits, or is called. */
  lemma {:induction false} JoinLedger(s: State, op: AdaptOperation, c: Completion)
    requires Ledger(s) && Paid(op, s.refreshTimestamps, s.clock, 0)
    ensures Ledger(s.(adaptOperations := s.adaptOperations + [op]))
    ensures CalledPaid(c, s.refreshTimestamps, s.clock) ==> Ledger(s.(called := s.called + [c]))
  {
    hide Paid, BlockPaid;
  }

  lemma {:induction false} AgainPaid(op: AdaptOperation, ts: seq<real>, clock: real, later: real)
    requires clock <= later
    ensures Paid(op, ts, clock, 1) ==> Paid(op.(requeues := op.requeues + 1), ts, clock, 0)
    ensures Paid(op, ts, clock, 0) ==> Paid(op.(requeues := op.requeues + 1), ts + [later], later, 0)
  {
  }

  /** An operation that starts the refresh it waits for. */
  lemma {:induction false} StartingLedger(s: State, op: AdaptOperation, waiting: AdaptOperation, credential: Credential,
                                          now: real, later: real)
    requires Ledger(s) && !s.isRefreshing && s.clock <= now <= later && !Excessive(s, now)
    requires Paid(op, s.refreshTimestamps, s.clock, 0)
    requires waiting == op || waiting == op.(requeues := op.requeues + 1)
    ensures Ledger(Refresh(s.(adaptOperations := s.adaptOperations + [waiting]), credential, now, later))
  {
    hide Ledger, Paid;
    StartedLedger(s, credential, now, later);
    var s' := Refresh(s, credential, now, later);
    AgainPaid(op, s.refreshTimestamps, s.clock, later);
    PaidLater(op, s.refreshTimestamps, s.clock, 0, later);
    PaidLess(op, s.refreshTimestamps + [later], later, 1);
    JoinLedger(s', waiting, Retry(0));
    assert Refresh(s.(adaptOperations := s.adaptOperations + [waiting]), credential, now, later)
        == s'.(adaptOperations := s'.adaptOperations + [waiting]) by { hide AttemptsSince; }
  }

  lemma {:induction false} AdaptLedger(s: State, op: AdaptOperation, again: bool, requiresRefresh: bool, now: real,
                                       later: real)
    requires Ledger(s) && s.clock <= now <= later
    requires Paid(op, s.refreshTimestamps, s.clock, if again && s.isRefreshing then 1 else 0)
    ensures Ledger(Adapt(s, op, again, requiresRefresh, now, later))
  {
    hide Excessive, Refresh, Ledger, Paid;
    var waiting := if again then op.(requeues := op.requeues + 1) else op;
    PaidLess(op, s.refreshTimestamps, s.clock, if again && s.isRefreshing then 1 else 0);
    AgainPaid(op, s.refreshTimestamps, s.clock, s.clock);
    JoinLedger(s, op, AdaptFailed(op, MissingCredential));
    if s.isRefreshing {
      JoinLedger(s, waiting, Retry(0));
    } else if s.credential.Some? {
      JoinLedger(s, op, Adapted(op, s.credential.value));
      if Excessive(s, now) {
        RefreshLedger(s.(adaptOperations := s.adaptOperations + [op]), s.credential.value, now, later);
      } else {
        StartingLedger(s, op, waiting, s.credential.value, now, later);
      }
    }
  }

  lemma {:induction false} RetriesLedger(s: State, checked: seq<Checked>, retries: seq<nat>, submitted: seq<nat>,
                                         inFlight: nat,
                      credential: Option<Credential>)
    requires Ledger(s)
    ensures Ledger(s.(checked := checked, requestsToRetry := retries, submitted := submitted, inFlight := inFlight,
                      credential := credential))
  {
    hide Paid, AllPaid, BlockPaid, CalledPaid;
  }

  lemma {:induction false} HeadLedger(s: State, head: Block)
    requires Ledger(s) && s.queue != []
    ensures Ledger(s.(queue := s.queue[1..]))
    ensures BlockPaid(head, s.refreshTimestamps, s.clock, if s.isRefreshing then 1 else 0) ==>
              Ledger(s.(queue := [head] + s.queue[1..]))
    ensures BlockPaid(s.queue[0], s.refreshTimestamps, s.clock, if s.isRefreshing then 1 else 0)
  {
    hide Paid, AllPaid, BlockPaid, CalledPaid;
    var ts, clock, spare := s.refreshTimestamps, s.clock, if s.isRefreshing then 1 else 0;
    forall i | 0 <= i < |s.queue[1..]| ensures BlockPaid(s.queue[1..][i], ts, clock, spare) {
      assert BlockPaid(s.queue[i + 1], ts, clock, spare);
    }
  }

  lemma {:induction false} RunQueueLedger(s: State, requiresRefresh: bool, now: real, later: real)
    requires s.queue != [] && Ledger(s) && s.clock <= now <= later
    ensures Ledger(RunQueue(s, requiresRefresh, now, later))
  {
    hide Paid, Ledger, Adapt;
    var head, rest, spare := s.queue[0], s.queue[1..], if s.isRefreshing then 1 else 0;
    HeadLedger(s, head);
    if head.RefreshCall? {
      var s1 := s.(queue := rest);
      RetriesLedger(s1, s1.checked, s1.requestsToRetry, s1.submitted, s1.inFlight + 1, s1.credential);
    } else if head.adapts != [] {
      var head', op := Drain(head.adapts[1..], head.retries, head.error), head.adapts[0];
      assert Paid(op, s.refreshTimestamps, s.clock, spare);
      HeadLedger(s, head');
      var s1 := s.(queue := [head'] + rest);
      PaidLess(op, s.refreshTimestamps, s.clock, spare);
      if head.error.Some? {
        JoinLedger(s1, op, AdaptFailed(op, head.error.value));
      } else {
        AdaptLedger(s1, op, true, requiresRefresh, now, later);
      }
    } else if head.retries != [] {
      var head' := Drain([], head.retries[1..], head.error);
      HeadLedger(s, head');
      CalledLedger(s.(queue := [head'] + rest),
                   if head.error.Some? then DoNotRetryWithError(head.retries[0], head.error.value)
                   else Retry(head.retries[0]));
    }
  }

  lemma {:induction false} CalledLedger(s: State, c: Completion)
    requires Ledger(s) && CalledPaid(c, s.refreshTimestamps, s.clock)
    ensures Ledger(s.(called := s.called + [c]))
  {
    hide Paid, AllPaid, BlockPaid;
  }

  lemma {:induction false} NextLedger(s: State, e: Event)
    requires Enabled(s, e) && Ledger(s) && Paced(s)
    ensures Ledger(Next(s, e))
  {
    hide Paid, Ledger, Adapt, RunQueue, Refresh, Drained;
    match e {
      case AdaptSubmitted(id, requiresRefresh, now, later) =>
        var op := AdaptOperation(id, |s.refreshTimestamps|, now, 0);
        RetriesLedger(s, s.checked, s.requestsToRetry, s.submitted + [id], s.inFlight, s.credential);
        LedgerLater(s.(submitted := s.submitted + [id]), now);
        NewIsPaid(op, s.refreshTimestamps);
        AdaptLedger(s.(submitted := s.submitted + [id], clock := now), op, false, requiresRefresh, now, later);
      case RetrySubmitted(id, answered, authenticationError, sameCredential) =>
        RetriesLedger(s, s.checked, s.requestsToRetry, s.submitted + [id], s.inFlight, s.credential);
        var s1 := s.(submitted := s.submitted + [id]);
        CalledLedger(s1, DoNotRetry(id));
        CalledLedger(s1, DoNotRetryWithError(id, MissingCredential));
        CalledLedger(s1, Retry(id));
        if s.credential.Some? {
          RetriesLedger(s1, s.checked + [Checked(id, s.credential.value)], s.requestsToRetry, s1.submitted, s.inFlight,
                        s.credential);
        }
      case RetryReachesLock(k, now, later) =>
        var c := s.checked[k];
        var checked := s.checked[..k] + s.checked[k + 1..];
        RetriesLedger(s, checked, s.requestsToRetry + [c.id], s.submitted, s.inFlight, s.credential);
        if !s.isRefreshing {
          RefreshLedger(s.(checked := checked, requestsToRetry := s.requestsToRetry + [c.id]), c.credential, now,
                        later);
        }
      case QueueRuns(requiresRefresh, now, later) => RunQueueLedger(s, requiresRefresh, now, later);
      case RefreshCompletes(result) =>
        var credential := if result.Success? then Some(result.credential) else s.credential;
        RetriesLedger(s, s.checked, s.requestsToRetry, s.submitted, s.inFlight - 1, credential);
        DrainedLedger(s.(inFlight := s.inFlight - 1, credential := credential),
                      if result.Success? then None else Some(result.error));
      case CredentialSet(credential) =>
        RetriesLedger(s, s.checked, s.requestsToRetry, s.submitted, s.inFlight, credential);
    }
  }

  lemma {:induction false} NewIsPaid(op: AdaptOperation, ts: seq<real>)
    requires op.requeues == 0 && op.born == |ts|
    ensures Paid(op, ts, op.bornAt, 0)
  {
  }

  lemma {:induction false} AlwaysLedger(states: seq<State>, events: seq<Event>, k: nat)
    requires Run(states, events) && k < |states|
    ensures Ledger(states[k])
  {
    hide Next;
    if k > 0 {
      AlwaysLedger(states, events, k - 1);
      AlwaysPaced(states, events, k - 1);
      NextLedger(states[k - 1], events[k - 1]);
    }
  }

  /** The operation is waiting, being drained, or its completion was called. */
  ghost predicate Present(s: State, op: AdaptOperation) {
    || op in s.adaptOperations
    || (exists i :: 0 <= i < |s.queue| && s.queue[i].Drain? && op in s.queue[i].adapts)
    || (exists i :: 0 <= i < |s.called| && (s.called[i].Adapted? || s.called[i].AdaptFailed?) && s.called[i].op == op)
  }

  lemma {:induction false} PresentIsPaid(s: State, op: AdaptOperation)
    requires Ledger(s) && Present(s, op)
    ensures Paid(op, s.refreshTimestamps, s.clock, 0)
  {
    hide Paid;
    if op in s.adaptOperations {
      var i :| 0 <= i < |s.adaptOperations| && s.adaptOperations[i] == op;
    } else if exists i :: 0 <= i < |s.queue| && s.queue[i].Drain? && op in s.queue[i].adapts {
      var i :| 0 <= i < |s.queue| && s.queue[i].Drain? && op in s.queue[i].adapts;
      var j :| 0 <= j < |s.queue[i].adapts| && s.queue[i].adapts[j] == op;
      assert BlockPaid(s.queue[i], s.refreshTimestamps, s.clock, if s.isRefreshing then 1 else 0);
      PaidLess(op, s.refreshTimestamps, s.clock, if s.isRefreshing then 1 else 0);
    } else {
      var i :| 0 <= i < |s.called| && (s.called[i].Adapted? || s.called[i].AdaptFailed?) && s.called[i].op == op;
      assert CalledPaid(s.called[i], s.refreshTimestamps, s.clock);
    }
  }

  lemma {:induction false} StartedSince(timestamps: seq<real>, from: nat, lo: real, hi: real)
    requires from <= |timestamps| && forall k :: from <= k < |timestamps| ==> lo <= timestamps[k] <= hi
    ensures StartedWithin(timestamps, lo, hi) >= |timestamps| - from
  {
    if from < |timestamps| { StartedSince(timestamps[..|timestamps| - 1], from, lo, hi); }
  }

  /** In every run, an adapt operation is queued again no more often than refreshes were started since
      it was submitted; and as long as the clock has not gone further than the window's interval since
      then, no more often than the window allows. */
  lemma {:induction false} RequeueBound(states: seq<State>, events: seq<Event>, k: nat, op: AdaptOperation)
    requires Run(states, events) && k < |states| && Present(states[k], op)
    ensures op.born + op.requeues <= |states[k].refreshTimestamps|
    ensures states[k].refreshWindow.Some? && states[k].clock <= op.bornAt + states[k].refreshWindow.value.interval ==>
              op.requeues <= Max0(states[k].refreshWindow.value.maximumAttempts)
  {
    var s := states[k];
    AlwaysLedger(states, events, k);
    AlwaysPaced(states, events, k);
    PresentIsPaid(s, op);
    if s.refreshWindow.Some? && s.clock <= op.bornAt + s.refreshWindow.value.interval {
      var hi := op.bornAt + s.refreshWindow.value.interval;
      StartedSince(s.refreshTimestamps, op.born, op.bornAt, hi);
      RefreshRateLimit(states, events, k, op.bornAt);
    }
  }
}
