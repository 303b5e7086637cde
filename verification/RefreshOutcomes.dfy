/** Who learns what from a refresh (AuthenticationInterceptor.swift, 250-402): every completion of a run
    is traced to the step that decided it, and every waiter to the refresh it waited for. */
module RefreshOutcomes {
  import opened Wrappers
  import opened Authentication

  /** Someone who may wait for a refresh. */
  datatype Waiter = Adapting(op: AdaptOperation) | Retrying(id: nat)
  {
    function Id(): nat { if Adapting? then op.id else id }
  }

  predicate WaitsAt(s: State, w: Waiter) {
    match w
    case Adapting(op) => op in s.adaptOperations
    case Retrying(id) => id in s.requestsToRetry
  }

  predicate InBlock(block: Block, w: Waiter) {
    block.Drain? &&
    match w
    case Adapting(op) => op in block.adapts
    case Retrying(id) => id in block.retries
  }

  function ErrorOf(result: Result): Option<Failure> { if result.Success? then None else Some(result.error) }

  // ---------- The steps that decide ----------

  /** The step is an attempt to adapt this operation's request, or to get this retry's refresh. */
  predicate Handles(s: State, e: Event, w: Waiter)
    requires Enabled(s, e)
  {
    match e
    case AdaptSubmitted(id, _, now, _) => w == Adapting(AdaptOperation(id, |s.refreshTimestamps|, now, 0))
    case RetryReachesLock(k, _, _) => w == Retrying(s.checked[k].id)
    case QueueRuns(_, _, _) =>
      s.queue[0].Drain? && s.queue[0].error.None? && s.queue[0].adapts != [] && w == Adapting(s.queue[0].adapts[0])
    case _ => false
  }

  /** ... and it is refused, because there were too many refreshes. */
  predicate Refuses(s: State, e: Event, w: Waiter)
    requires Enabled(s, e)
  {
    Handles(s, e, w) && !s.isRefreshing && Excessive(s, e.now)
  }

  /** The refresh that w waits for completes in this step, with this error or none, or is refused. */
  predicate Ends(s: State, e: Event, w: Waiter, error: Option<Failure>)
    requires Enabled(s, e)
  {
    || (WaitsAt(s, w) && e.RefreshCompletes? && ErrorOf(e.result) == error)
    || (Refuses(s, e, w) && error == Some(ExcessiveRefresh))
  }

  /** What w is told when its refresh ends so; an adapt operation whose refresh succeeded is not told, its
      request is adapted again. */
  predicate IsAnswer(c: Completion, w: Waiter, error: Option<Failure>) {
    match w
    case Adapting(op) => error.Some? && c == AdaptFailed(op, error.value)
    case Retrying(id) => c == if error.Some? then DoNotRetryWithError(id, error.value) else Retry(id)
  }

  /** The step calls the completion without a refresh of its own: with the credential there is, which does
      not require a refresh, while nothing is being refreshed, because there is none, or after the checks of retry. */
  predicate AtOnce(s: State, e: Event, c: Completion)
    requires Enabled(s, e)
  {
    match c
    case Adapted(op, credential) =>
      Handles(s, e, Adapting(op)) && !e.requiresRefresh && !s.isRefreshing && s.credential == Some(credential)
    case AdaptFailed(op, error) =>
      Handles(s, e, Adapting(op)) && !s.isRefreshing && s.credential.None? && error == MissingCredential
    case Retry(id) => e == RetrySubmitted(id, true, true, false) && s.credential.Some?
    case DoNotRetry(id) => e.RetrySubmitted? && e.id == id && !(e.answered && e.authenticationError)
    case DoNotRetryWithError(id, error) =>
      e.RetrySubmitted? && e.id == id && e.answered && e.authenticationError && s.credential.None?
          && error == MissingCredential
  }

  // ---------- One step ----------

  /** The step calls what the first block on the queue has for w. */
  predicate Delivers(s: State, e: Event, c: Completion, w: Waiter)
    requires Enabled(s, e)
  {
    e.QueueRuns? && InBlock(s.queue[0], w) && IsAnswer(c, w, s.queue[0].error)
  }

  ghost predicate CallsOnly(s: State, e: Event, called: seq<Completion>)
    requires Enabled(s, e)
  {
    && s.called <= called
    && forall c :: c in called ==> c in s.called || AtOnce(s, e, c) || exists w :: Delivers(s, e, c, w)
  }

  lemma {:induction false} RefreshCalls(s: State, credential: Credential, now: real, later: real)
    ensures Refresh(s, credential, now, later).called == s.called
  {
    hide Excessive;
  }

  lemma {:induction false} AdaptCalls(s: State, op: AdaptOperation, again: bool, requiresRefresh: bool, now: real,
                                      later: real)
    ensures var called := Adapt(s, op, again, requiresRefresh, now, later).called;
            || called == s.called
            || (!s.isRefreshing && !requiresRefresh && s.credential.Some?
                && called == s.called + [Adapted(op, s.credential.value)])
            || (!s.isRefreshing && s.credential.None? && called == s.called + [AdaptFailed(op, MissingCredential)])
  {
    hide Excessive, Refresh;
    var waiting := if again then op.(requeues := op.requeues + 1) else op;
    if s.credential.Some? {
      RefreshCalls(s.(adaptOperations := s.adaptOperations + [op]), s.credential.value, now, later);
      RefreshCalls(s.(adaptOperations := s.adaptOperations + [waiting]), s.credential.value, now, later);
    }
  }

  lemma {:induction false} QueueCalls(s: State, e: Event)
    requires Enabled(s, e) && e.QueueRuns?
    ensures CallsOnly(s, e, Next(s, e).called)
  {
    hide Adapt, Excessive;
    var head, rest := s.queue[0], s.queue[1..];
    if head.Drain? && head.adapts != [] {
      var s1 := s.(queue := [Drain(head.adapts[1..], head.retries, head.error)] + rest);
      if head.error.Some? {
        assert Delivers(s, e, AdaptFailed(head.adapts[0], head.error.value), Adapting(head.adapts[0]));
      } else {
        AdaptCalls(s1, head.adapts[0], true, e.requiresRefresh, e.now, e.later);
      }
    } else if head.Drain? && head.retries != [] {
      var c := if head.error.Some? then DoNotRetryWithError(head.retries[0], head.error.value)
               else Retry(head.retries[0]);
      assert Delivers(s, e, c, Retrying(head.retries[0]));
    }
  }

  lemma {:induction false} NextCalls(s: State, e: Event)
    requires Enabled(s, e)
    ensures CallsOnly(s, e, Next(s, e).called)
  {
    hide Adapt, Refresh, Excessive, RunQueue;
    match e {
      case AdaptSubmitted(id, requiresRefresh, now, later) =>
        AdaptCalls(s.(submitted := s.submitted + [id], clock := now), AdaptOperation(id, |s.refreshTimestamps|, now, 0),
                   false, requiresRefresh, now, later);
      case RetryReachesLock(k, now, later) =>
        var c := s.checked[k];
        RefreshCalls(s.(checked := s.checked[..k] + s.checked[k + 1..], requestsToRetry := s.requestsToRetry + [c.id]),
                     c.credential, now, later);
      case QueueRuns(_, _, _) => QueueCalls(s, e);
      case _ =>
    }
  }

  /** What is on the queue after the step for those who wait: what was there, the whole wait lists when a
      refresh completes, or one who was refused. */
  ghost predicate BlockFrom(s: State, e: Event, block: Block)
    requires Enabled(s, e)
  {
    block.Drain? ==>
      || (exists i :: 0 <= i < |s.queue| && PartOf(block, s.queue[i]))
      || (e.RefreshCompletes? && block == Drain(s.adaptOperations, s.requestsToRetry, ErrorOf(e.result)))
      || (block.error == Some(ExcessiveRefresh) && forall w :: InBlock(block, w) ==> Refuses(s, e, w))
  }

  ghost predicate PartOf(block: Block, whole: Block) {
    block.Drain? && whole.Drain? && block.error == whole.error && forall w :: InBlock(block, w) ==> InBlock(whole, w)
  }

  lemma {:induction false} RefreshQueues(s: State, credential: Credential, now: real, later: real)
    ensures Refresh(s, credential, now, later).queue
         == s.queue + [if Excessive(s, now) then Drain(s.adaptOperations, s.requestsToRetry, Some(ExcessiveRefresh))
                       else RefreshCall(credential)]
  {
    hide Excessive;
  }

  /** An attempt to adapt leaves the queue, or adds a refresh call, or refuses this operation alone. */
  lemma {:induction false} AdaptQueues(s: State, op: AdaptOperation, again: bool, requiresRefresh: bool, now: real,
                                       later: real)
    requires !s.isRefreshing ==> s.adaptOperations == [] && s.requestsToRetry == []
    ensures var queue := Adapt(s, op, again, requiresRefresh, now, later).queue;
            || queue == s.queue
            || (exists credential :: queue == s.queue + [RefreshCall(credential)])
            || (!s.isRefreshing && Excessive(s, now) && queue == s.queue + [Drain([op], [], Some(ExcessiveRefresh))])
  {
    hide AttemptsSince, Refresh;
    var waiting := if again then op.(requeues := op.requeues + 1) else op;
    if !s.isRefreshing && s.credential.Some? && requiresRefresh {
      assert s.adaptOperations + [op] == [op] && s.adaptOperations + [waiting] == [waiting];
      RefreshQueues(s.(adaptOperations := [op]), s.credential.value, now, later);
      RefreshQueues(s.(adaptOperations := [waiting]), s.credential.value, now, later);
    }
  }

  ghost predicate QueuesOnly(s: State, e: Event, queue: seq<Block>)
    requires Enabled(s, e)
  {
    forall i :: 0 <= i < |queue| ==> BlockFrom(s, e, queue[i])
  }

  lemma {:induction false} OldBlocks(s: State, e: Event)
    requires Enabled(s, e)
    ensures QueuesOnly(s, e, s.queue)
    ensures s.queue != [] ==> QueuesOnly(s, e, s.queue[1..])
  {
    forall i | 0 <= i < |s.queue| ensures BlockFrom(s, e, s.queue[i]) {
      assert s.queue[i].Drain? ==> PartOf(s.queue[i], s.queue[i]);
    }
    forall i | 0 <= i < |s.queue| - 1 ensures BlockFrom(s, e, s.queue[1..][i]) {
      assert s.queue[1..][i] == s.queue[i + 1];
    }
  }

  lemma {:induction false} NewBlock(s: State, e: Event, queue: seq<Block>, block: Block)
    requires Enabled(s, e) && QueuesOnly(s, e, queue) && BlockFrom(s, e, block)
    ensures QueuesOnly(s, e, queue + [block]) && QueuesOnly(s, e, [block] + queue)
  {
    hide BlockFrom;
  }

  lemma {:induction false} AdaptBlocks(s: State, e: Event, s1: State, op: AdaptOperation, again: bool,
                                       requiresRefresh: bool,
                                       now: real, later: real)
    requires Enabled(s, e) && QueuesOnly(s, e, s1.queue) && Handles(s, e, Adapting(op)) && e.now == now
    requires !s1.isRefreshing ==> s1.adaptOperations == [] && s1.requestsToRetry == []
    requires s1.isRefreshing == s.isRefreshing && s1.refreshTimestamps == s.refreshTimestamps
             && s1.refreshWindow == s.refreshWindow
    ensures QueuesOnly(s, e, Adapt(s1, op, again, requiresRefresh, now, later).queue)
  {
    hide Adapt, QueuesOnly, AttemptsSince;
    AdaptQueues(s1, op, again, requiresRefresh, now, later);
    var refused := Drain([op], [], Some(ExcessiveRefresh));
    var queue := Adapt(s1, op, again, requiresRefresh, now, later).queue;
    if queue == s1.queue {
    } else if credential :| queue == s1.queue + [RefreshCall(credential)] {
      NewBlock(s, e, s1.queue, RefreshCall(credential));
    } else {
      forall w | InBlock(refused, w) ensures Refuses(s, e, w) {}
      NewBlock(s, e, s1.queue, refused);
    }
  }

  lemma {:induction false} RetryBlocks(s: State, e: Event)
    requires Enabled(s, e) && OneRefresh(s) && e.RetryReachesLock?
    ensures QueuesOnly(s, e, Next(s, e).queue)
  {
    hide Refresh, QueuesOnly, AttemptsSince;
    OldBlocks(s, e);
    var c := s.checked[e.k];
    var s1 := s.(checked := s.checked[..e.k] + s.checked[e.k + 1..], requestsToRetry := s.requestsToRetry + [c.id]);
    if !s.isRefreshing {
      RefreshQueues(s1, c.credential, e.now, e.later);
      if Excessive(s, e.now) {
        var refused := Drain([], [] + [c.id], Some(ExcessiveRefresh));
        forall w | InBlock(refused, w) ensures Refuses(s, e, w) {}
        NewBlock(s, e, s.queue, refused);
      } else {
        NewBlock(s, e, s.queue, RefreshCall(c.credential));
      }
    }
  }

  lemma {:induction false} QueueBlocks(s: State, e: Event)
    requires Enabled(s, e) && OneRefresh(s) && e.QueueRuns?
    ensures QueuesOnly(s, e, Next(s, e).queue)
  {
    hide Adapt, QueuesOnly, AttemptsSince;
    OldBlocks(s, e);
    var head, rest := s.queue[0], s.queue[1..];
    if head.Drain? && head.adapts != [] {
      var head' := Drain(head.adapts[1..], head.retries, head.error);
      assert PartOf(head', s.queue[0]);
      NewBlock(s, e, rest, head');
      if head.error.None? {
        AdaptBlocks(s, e, s.(queue := [head'] + rest), head.adapts[0], true, e.requiresRefresh, e.now, e.later);
      }
    } else if head.Drain? && head.retries != [] {
      var head' := Drain([], head.retries[1..], head.error);
      assert PartOf(head', s.queue[0]);
      NewBlock(s, e, rest, head');
    }
  }

  lemma {:induction false} NextBlocks(s: State, e: Event)
    requires Enabled(s, e) && OneRefresh(s)
    ensures QueuesOnly(s, e, Next(s, e).queue)
  {
    hide Adapt, QueuesOnly, RunQueue, RetryWaits, AttemptsSince;
    OldBlocks(s, e);
    match e {
      case AdaptSubmitted(id, requiresRefresh, now, later) =>
        AdaptBlocks(s, e, s.(submitted := s.submitted + [id], clock := now),
                    AdaptOperation(id, |s.refreshTimestamps|, now, 0),
                    false, requiresRefresh, now, later);
      case RetryReachesLock(_, _, _) => RetryBlocks(s, e);
      case QueueRuns(_, _, _) => QueueBlocks(s, e);
      case RefreshCompletes(result) =>
          NewBlock(s, e, s.queue, Drain(s.adaptOperations, s.requestsToRetry, ErrorOf(result)));
      case _ =>
    }
  }

  // ---------- Where outcomes come from ----------

  /** Before step k the refresh w waited for ended so. */
  ghost predicate Ended(states: seq<State>, events: seq<Event>, k: nat, w: Waiter, error: Option<Failure>)
    requires Run(states, events) && k < |states|
  {
    exists m :: 0 <= m < k && Ends(states[m], events[m], w, error)
  }

  /** A completion was called by a step that decided it, or is what someone was told whose refresh ended. */
  ghost predicate Justified(states: seq<State>, events: seq<Event>, k: nat, c: Completion)
    requires Run(states, events) && k < |states|
  {
    || (exists i :: 0 <= i < k && AtOnce(states[i], events[i], c))
    || (exists w, error :: Ended(states, events, k, w, error) && IsAnswer(c, w, error))
  }

  ghost predicate Traced(states: seq<State>, events: seq<Event>, k: nat)
    requires Run(states, events) && k < |states|
  {
    && (forall i, w :: 0 <= i < |states[k].queue| && InBlock(states[k].queue[i], w)
          ==> Ended(states, events, k, w, states[k].queue[i].error))
    && (forall c :: c in states[k].called ==> Justified(states, events, k, c))
  }

  lemma {:induction false} EndedLater(states: seq<State>, events: seq<Event>, k: nat, w: Waiter, error: Option<Failure>)
    requires Run(states, events) && k < |events| && Ended(states, events, k, w, error)
    ensures Ended(states, events, k + 1, w, error)
  {
    hide Next, Enabled, Ends;
  }

  lemma {:induction false} JustifiedLater(states: seq<State>, events: seq<Event>, k: nat, c: Completion)
    requires Run(states, events) && k < |events| && Justified(states, events, k, c)
    ensures Justified(states, events, k + 1, c)
  {
    hide Next, Enabled, AtOnce, Ended, IsAnswer;
    if w, error :| Ended(states, events, k, w, error) && IsAnswer(c, w, error) {
      EndedLater(states, events, k, w, error);
    }
  }

  lemma {:induction false} BlocksTraced(states: seq<State>, events: seq<Event>, k: nat, i: nat, w: Waiter)
    requires Run(states, events) && k < |events| && Traced(states, events, k) && OneRefresh(states[k])
    requires i < |states[k + 1].queue| && InBlock(states[k + 1].queue[i], w)
    ensures Ended(states, events, k + 1, w, states[k + 1].queue[i].error)
  {
    hide Next, Enabled, Ended, OneRefresh, Refuses;
    var s, e, block := states[k], events[k], states[k + 1].queue[i];
    NextBlocks(s, e);
    assert BlockFrom(s, e, block);
    if j :| 0 <= j < |s.queue| && PartOf(block, s.queue[j]) {
      assert Ended(states, events, k, w, s.queue[j].error);
      EndedLater(states, events, k, w, block.error);
    } else {
      assert Ends(s, e, w, block.error);
      JustEnded(states, events, k, w, block.error);
    }
  }

  lemma {:induction false} QueueRan(s: State, e: Event)
    requires Enabled(s, e) && e.QueueRuns?
    ensures s.queue != []
  {
  }

  lemma {:induction false} JustEnded(states: seq<State>, events: seq<Event>, k: nat, w: Waiter, error: Option<Failure>)
    requires Run(states, events) && k < |events| && Ends(states[k], events[k], w, error)
    ensures Ended(states, events, k + 1, w, error)
  {
    hide Next, Enabled, Ends;
  }

  lemma {:induction false} CallsTraced(states: seq<State>, events: seq<Event>, k: nat, c: Completion)
    requires Run(states, events) && k < |events| && Traced(states, events, k) && c in states[k + 1].called
    ensures Justified(states, events, k + 1, c)
  {
    hide Next, Enabled, Ended, AtOnce, IsAnswer, Justified;
    var s, e := states[k], events[k];
    NextCalls(s, e);
    if c in s.called {
      JustifiedLater(states, events, k, c);
    } else if w :| Delivers(s, e, c, w) {
      QueueRan(s, e);
      assert Ended(states, events, k, w, s.queue[0].error);
      EndedLater(states, events, k, w, s.queue[0].error);
      AnswerJustified(states, events, k + 1, c, w, s.queue[0].error);
    } else {
      AtOnceJustified(states, events, k, c);
    }
  }

  lemma {:induction false} AnswerJustified(states: seq<State>, events: seq<Event>, k: nat, c: Completion, w: Waiter,
                                           error: Option<Failure>)
    requires Run(states, events) && k < |states| && Ended(states, events, k, w, error) && IsAnswer(c, w, error)
    ensures Justified(states, events, k, c)
  {
    hide Next, Enabled, Ended, IsAnswer;
  }

  lemma {:induction false} AtOnceJustified(states: seq<State>, events: seq<Event>, k: nat, c: Completion)
    requires Run(states, events) && k < |events| && AtOnce(states[k], events[k], c)
    ensures Justified(states, events, k + 1, c)
  {
    hide Next, Enabled, AtOnce;
  }

  lemma {:induction false} AlwaysTraced(states: seq<State>, events: seq<Event>, k: nat)
    requires Run(states, events) && k < |states|
    ensures Traced(states, events, k)
  {
    hide Next, Enabled, Justified, Ended, OneRefresh;
    if k > 0 {
      AlwaysTraced(states, events, k - 1);
      AtMostOneRefresh(states, events, k - 1);
      forall i, w | 0 <= i < |states[k].queue| && InBlock(states[k].queue[i], w)
        ensures Ended(states, events, k, w, states[k].queue[i].error)
      {
        BlocksTraced(states, events, k - 1, i, w);
      }
      forall c | c in states[k].called ensures Justified(states, events, k, c) {
        CallsTraced(states, events, k - 1, c);
      }
    }
  }

  /** In every run, each completion that was called was decided by a step: a request is adapted with the
      credential there is while nothing is being refreshed; it lacks a credential only when there is none;
      a retry or an error is what the refresh ended with that this very waiter waited for, or that it was
      refused the refresh it asked for. */
  lemma {:induction false} OutcomesAreReal(states: seq<State>, events: seq<Event>, k: nat, c: Completion)
    requires Run(states, events) && k < |states| && c in states[k].called
    ensures Justified(states, events, k, c)
  {
    hide Justified;
    AlwaysTraced(states, events, k);
  }

  // ---------- What everyone who waits learns ----------

  /** Who waits goes on waiting until a refresh completes. */
  lemma {:induction false} WaitsUntil(states: seq<State>, events: seq<Event>, j: nat, m: nat, w: Waiter)
    requires Run(states, events) && j <= m < |states| && WaitsAt(states[j], w)
    requires forall i :: j <= i < m ==> !events[i].RefreshCompletes?
    ensures WaitsAt(states[m], w)
  {
    hide Next, Enabled, OneRefresh, WaitsAt;
    if j < m {
      WaitsUntil(states, events, j, m - 1, w);
      AtMostOneRefresh(states, events, m - 1);
      StillWaits(states[m - 1], events[m - 1], w);
    }
  }

  lemma {:induction false} StillWaits(s: State, e: Event, w: Waiter)
    requires Enabled(s, e) && OneRefresh(s) && WaitsAt(s, w) && !e.RefreshCompletes?
    ensures WaitsAt(Next(s, e), w)
  {
    hide Refresh;
    assert s.isRefreshing;
  }

  /** What w is to be told is in a block on the queue, or was called. */
  ghost predicate Destined(s: State, w: Waiter, error: Option<Failure>, c: Completion) {
    c in s.called || exists i :: 0 <= i < |s.queue| && InBlock(s.queue[i], w) && s.queue[i].error == error
  }

  lemma {:induction false} AddedBlocks(s: State, op: AdaptOperation, again: bool, requiresRefresh: bool, now: real,
                                       later: real)
    ensures s.queue <= Adapt(s, op, again, requiresRefresh, now, later).queue
  {
    hide AttemptsSince;
  }

  /** A block stays on the queue while others are added behind it, and loses from its front what is run. */
  lemma {:induction false} BlockStays(s: State, e: Event, i: nat)
    requires Enabled(s, e) && i < |s.queue| && (e.QueueRuns? ==> i > 0)
    ensures s.queue[i] in Next(s, e).queue
  {
    hide AttemptsSince, Adapt;
    match e {
      case AdaptSubmitted(id, requiresRefresh, now, later) =>
        AddedBlocks(s.(submitted := s.submitted + [id], clock := now),
                    AdaptOperation(id, |s.refreshTimestamps|, now, 0),
                    false, requiresRefresh, now, later);
      case QueueRuns(requiresRefresh, now, later) =>
        assert s.queue[i] == s.queue[1..][i - 1];
        var head, rest := s.queue[0], s.queue[1..];
        if head.Drain? && head.adapts != [] {
          var s1 := s.(queue := [Drain(head.adapts[1..], head.retries, head.error)] + rest);
          assert s1.queue[i] == s.queue[i];
          AddedBlocks(s1, head.adapts[0], true, requiresRefresh, now, later);
        }
      case _ =>
    }
  }

  lemma {:induction false} HeadDelivers(s: State, e: Event, w: Waiter, c: Completion)
    requires Enabled(s, e) && e.QueueRuns? && InBlock(s.queue[0], w) && IsAnswer(c, w, s.queue[0].error)
    ensures Destined(Next(s, e), w, s.queue[0].error, c)
  {
    hide AttemptsSince, Adapt;
    var head, rest, s' := s.queue[0], s.queue[1..], Next(s, e);
    if head.adapts != [] {
      var head' := Drain(head.adapts[1..], head.retries, head.error);
      if head.error.None? {
        AddedBlocks(s.(queue := [head'] + rest), head.adapts[0], true, e.requiresRefresh, e.now, e.later);
      }
      assert s'.queue[0] == head';
    } else {
      assert s'.queue[0] == Drain([], head.retries[1..], head.error);
    }
  }

  lemma {:induction false} NextDestined(s: State, e: Event, w: Waiter, error: Option<Failure>, c: Completion)
    requires Enabled(s, e) && Destined(s, w, error, c) && IsAnswer(c, w, error)
    ensures Destined(Next(s, e), w, error, c)
  {
    hide Next, IsAnswer;
    if c in s.called {
      NextCalls(s, e);
    } else {
      var i: nat :| i < |s.queue| && InBlock(s.queue[i], w) && s.queue[i].error == error;
      if e.QueueRuns? && i == 0 {
        HeadDelivers(s, e, w, c);
      } else {
        BlockStays(s, e, i);
        var j :| 0 <= j < |Next(s, e).queue| && Next(s, e).queue[j] == s.queue[i];
      }
    }
  }

  lemma {:induction false} AlwaysDestined(states: seq<State>, events: seq<Event>, m: nat, k: nat, w: Waiter,
                                          c: Completion)
    requires Run(states, events) && m < k < |states| && WaitsAt(states[m], w) && events[m].RefreshCompletes?
    requires IsAnswer(c, w, ErrorOf(events[m].result))
    ensures Destined(states[k], w, ErrorOf(events[m].result), c)
  {
    hide Next, Enabled, IsAnswer, Destined, ErrorOf, WaitsAt;
    if k == m + 1 {
      DrainedDestined(states[m], events[m], w, c);
    } else {
      AlwaysDestined(states, events, m, k - 1, w, c);
      NextDestined(states[k - 1], events[k - 1], w, ErrorOf(events[m].result), c);
    }
  }

  lemma {:induction false} DrainedDestined(s: State, e: Event, w: Waiter, c: Completion)
    requires Enabled(s, e) && e.RefreshCompletes? && WaitsAt(s, w)
    ensures Destined(Next(s, e), w, ErrorOf(e.result), c)
  {
    var queue := Next(s, e).queue;
    assert queue[|s.queue|] == Drain(s.adaptOperations, s.requestsToRetry, ErrorOf(e.result));
  }

  lemma {:induction false} IdsHas<T>(xs: seq<T>, ids: T -> multiset<nat>, i: nat, id: nat)
    requires i < |xs| && id in ids(xs[i])
    ensures Ids(xs, ids)[id] >= 1
  {
    if i > 0 { IdsHas(xs[1..], ids, i - 1, id); }
  }

  lemma {:induction false} IdsHasTwo<T>(xs: seq<T>, ids: T -> multiset<nat>, i: nat, j: nat, id: nat)
    requires i < j < |xs| && id in ids(xs[i]) && id in ids(xs[j])
    ensures Ids(xs, ids)[id] >= 2
  {
    if i > 0 { IdsHasTwo(xs[1..], ids, i - 1, j - 1, id); } else { IdsHas(xs[1..], ids, j - 1, id); }
  }

  lemma {:induction false} WaiterInBlock(block: Block, w: Waiter)
    requires InBlock(block, w)
    ensures w.Id() in BlockIds(block)
  {
    if w.Adapting? {
      var i :| 0 <= i < |block.adapts| && block.adapts[i] == w.op;
      IdsHas(block.adapts, OpIds, i, w.op.id);
    }
  }

  /** A completion is called at most once, and not while it is in a block. */
  lemma {:induction false} OneAnswer(s: State, w: Waiter, error: Option<Failure>, c: Completion, c': Completion)
    requires Conserved(s) && Destined(s, w, error, c) && c.Id() == w.Id()
    requires c' in s.called && c'.Id() == w.Id()
    ensures c' == c
  {
    hide Ids, BlockIds, InBlock;
    var id := w.Id();
    assert Places(s)[id] <= 1;
    var j: nat :| j < |s.called| && s.called[j] == c';
    IdsHas(s.called, CalledIds, j, id);
    if c in s.called {
      var i: nat :| i < |s.called| && s.called[i] == c;
      if i < j { IdsHasTwo(s.called, CalledIds, i, j, id); }
      if j < i { IdsHasTwo(s.called, CalledIds, j, i, id); }
    } else {
      var i: nat :| i < |s.queue| && InBlock(s.queue[i], w);
      WaiterInBlock(s.queue[i], w);
      IdsHas(s.queue, BlockIds, i, id);
    }
  }

  /** In every run, who waits is told what the first refresh ended with that completed since: a retry to
      retry when it succeeded, and both kinds its error when it failed.  That is the only completion ever
      called for it, and it was called when the queue is empty. */
  lemma {:induction false} WaiterLearns(states: seq<State>, events: seq<Event>, j: nat, m: nat, k: nat, w: Waiter,
                                        c: Completion)
    requires Run(states, events) && j <= m < k < |states| && WaitsAt(states[j], w)
    requires events[m].RefreshCompletes? && forall i :: j <= i < m ==> !events[i].RefreshCompletes?
    requires IsAnswer(c, w, ErrorOf(events[m].result))
    ensures forall c' :: c' in states[k].called && c'.Id() == w.Id() ==> c' == c
    ensures states[k].queue == [] ==> c in states[k].called
  {
    hide Next, Enabled, Conserved, WaitsAt;
    var error := ErrorOf(events[m].result);
    WaitsUntil(states, events, j, m, w);
    AlwaysDestined(states, events, m, k, w, c);
    CompletionsConserved(states, events, k);
    forall c' | c' in states[k].called && c'.Id() == w.Id() ensures c' == c {
      OneAnswer(states[k], w, error, c, c');
    }
  }

  // ---------- Where credentials come from ----------

  /** The credential last set or refreshed. */
  function LastGiven(first: Option<Credential>, past: seq<Event>): Option<Credential> {
    if past == [] then first
    else match past[|past| - 1]
         case CredentialSet(credential) => credential
         case RefreshCompletes(Success(credential)) => Some(credential)
         case _ => LastGiven(first, past[..|past| - 1])
  }

  lemma {:induction false} CredentialIsLatest(states: seq<State>, events: seq<Event>, k: nat)
    requires Run(states, events) && k < |states|
    ensures states[k].credential == LastGiven(states[0].credential, events[..k])
  {
    hide Next, Enabled;
    if k > 0 {
      CredentialIsLatest(states, events, k - 1);
      NextCredential(states[k - 1], events[k - 1]);
      assert events[..k][..k - 1] == events[..k - 1];
    }
  }

  lemma {:induction false} NextCredential(s: State, e: Event)
    requires Enabled(s, e)
    ensures Next(s, e).credential == if e.CredentialSet? then e.credential
                                     else if e.RefreshCompletes? && e.result.Success? then Some(e.result.credential)
                                     else s.credential
  {
    hide AttemptsSince;
  }
}
