/** The interceptor object of AuthenticationInterceptor.swift: each method is one locked step, or one
    piece of a dispatched block, and does to the object what Authentication says it does to the state. */
module AuthenticationInterceptor {
  import opened Wrappers
  import A = Authentication

  class Interceptor {
    var credential: Option<A.Credential>
    var isRefreshing: bool
    var refreshTimestamps: seq<real>
    const refreshWindow: Option<A.RefreshWindow>
    var adaptOperations: seq<A.AdaptOperation>
    var requestsToRetry: seq<nat>
    var queue: seq<A.Block>
    var checked: seq<A.Checked>
    var called: seq<A.Completion>
    ghost var inFlight: nat
    ghost var submitted: seq<nat>
    ghost var clock: real

    ghost function Now(): A.State
      reads this
    {
      A.State(credential, isRefreshing, refreshTimestamps, refreshWindow, adaptOperations, requestsToRetry, queue,
              inFlight, checked, submitted, called, clock)
    }

    constructor (credential: Option<A.Credential>, refreshWindow: Option<A.RefreshWindow>, ghost clock: real)
      ensures Now() == A.Initial(credential, refreshWindow, clock)
    {
      this.credential, this.refreshWindow, this.clock := credential, refreshWindow, clock;
      isRefreshing, refreshTimestamps, adaptOperations, requestsToRetry := false, [], [], [];
      queue, inFlight, checked, submitted, called := [], 0, [], [], [];
    }

    /** isRefreshExcessive: a fold over the timestamps. */
    method IsRefreshExcessive(now: real) returns (excessive: bool)
      ensures excessive == A.Excessive(Now(), now)
    {
      if refreshWindow.None? { return false; }
      var refreshWindowMin, attempts := now - refreshWindow.value.interval, 0;
      assert refreshTimestamps[..0] == [];
      for i := 0 to |refreshTimestamps|
        invariant attempts == A.AttemptsSince(refreshTimestamps[..i], refreshWindowMin)
      {
        assert refreshTimestamps[..i + 1][..i] == refreshTimestamps[..i];
        if refreshWindowMin <= refreshTimestamps[i] { attempts := attempts + 1; }
      }
      assert refreshTimestamps[..|refreshTimestamps|] == refreshTimestamps;
      excessive := attempts >= refreshWindow.value.maximumAttempts;
    }

    /** What handleRefreshSuccess and handleRefreshFailure share. */
    method Drain(error: Option<A.Failure>)
      modifies this
      ensures Now() == A.Drained(old(Now()), error)
    {
      var adapts, retries := adaptOperations, requestsToRetry;
      adaptOperations, requestsToRetry := [], [];
      isRefreshing := false;
      queue := queue + [A.Drain(adapts, retries, error)];
    }

    method HandleRefreshSuccess(newCredential: A.Credential)
      modifies this
      ensures Now() == A.RefreshSucceeded(old(Now()), newCredential)
    {
      credential := Some(newCredential);
      Drain(None);
    }

    method HandleRefreshFailure(error: A.Failure)
      modifies this
      ensures Now() == A.RefreshFailedWith(old(Now()), error)
    {
      Drain(Some(error));
    }

    /** refresh(_:for:insideLock:) */
    method Refresh(current: A.Credential, now: real, later: real)
      modifies this
      ensures Now() == A.Refresh(old(Now()), current, now, later)
    {
      var excessive := IsRefreshExcessive(now);
      if excessive {
        HandleRefreshFailure(A.ExcessiveRefresh);
        clock := now;
        return;
      }
      refreshTimestamps := refreshTimestamps + [later];
      isRefreshing := true;
      queue := queue + [A.RefreshCall(current)];
      clock := later;
    }

    /** adapt(_:for:completion:), called by a session, or again by the block that drains the wait lists. */
    method Adapt(op: A.AdaptOperation, again: bool, requiresRefresh: bool, now: real, later: real)
      modifies this
      ensures Now() == A.Adapt(old(Now()), op, again, requiresRefresh, now, later)
    {
      hide A.AttemptsSince;
      var waiting := if again then op.(requeues := op.requeues + 1) else op;
      if isRefreshing {
        adaptOperations := adaptOperations + [waiting];
        return;
      }
      if credential.None? {
        called := called + [A.AdaptFailed(op, A.MissingCredential)];
        return;
      }
      if requiresRefresh {
        var excessive := IsRefreshExcessive(now);
        adaptOperations := adaptOperations + [if excessive then op else waiting];
        Refresh(credential.value, now, later);
        return;
      }
      called := called + [A.Adapted(op, credential.value)];
    }

    method Submit(id: nat, requiresRefresh: bool, now: real, later: real)
      requires A.Enabled(Now(), A.AdaptSubmitted(id, requiresRefresh, now, later))
      modifies this
      ensures Now() == A.Next(old(Now()), A.AdaptSubmitted(id, requiresRefresh, now, later))
    {
      hide A.Adapt;
      submitted, clock := submitted + [id], now;
      Adapt(A.AdaptOperation(id, |refreshTimestamps|, now, 0), false, requiresRefresh, now, later);
    }

    /** retry(_:for:dueTo:completion:) up to its lock; the credential is read under a lock of its own. */
    method Retry(id: nat, answered: bool, authenticationError: bool, sameCredential: bool)
      requires A.Enabled(Now(), A.RetrySubmitted(id, answered, authenticationError, sameCredential))
      modifies this
      ensures Now() == A.Next(old(Now()), A.RetrySubmitted(id, answered, authenticationError, sameCredential))
    {
      submitted := submitted + [id];
      if !answered {
        called := called + [A.DoNotRetry(id)];
        return;
      }
      if !authenticationError {
        called := called + [A.DoNotRetry(id)];
        return;
      }
      if credential.None? {
        called := called + [A.DoNotRetryWithError(id, A.MissingCredential)];
        return;
      }
      if !sameCredential {
        called := called + [A.Retry(id)];
        return;
      }
      checked := checked + [A.Checked(id, credential.value)];
    }

    /** ... and inside the lock. */
    method RetryInsideLock(k: nat, now: real, later: real)
      requires A.Enabled(Now(), A.RetryReachesLock(k, now, later))
      modifies this
      ensures Now() == A.Next(old(Now()), A.RetryReachesLock(k, now, later))
    {
      hide A.Excessive;
      var c := checked[k];
      checked := checked[..k] + checked[k + 1..];
      requestsToRetry := requestsToRetry + [c.id];
      if isRefreshing { return; }
      Refresh(c.credential, now, later);
    }

    /** The serial queue runs a refresh call, or one iteration of a draining loop. */
    method RunQueue(requiresRefresh: bool, now: real, later: real)
      requires A.Enabled(Now(), A.QueueRuns(requiresRefresh, now, later))
      modifies this
      ensures Now() == A.Next(old(Now()), A.QueueRuns(requiresRefresh, now, later))
    {
      hide A.Adapt;
      match queue[0] {
        case RefreshCall(_) =>
          queue := queue[1..];
          inFlight := inFlight + 1;
        case Drain(adapts, retries, error) =>
          if adapts != [] {
            queue := [A.Drain(adapts[1..], retries, error)] + queue[1..];
            if error.Some? {
              called := called + [A.AdaptFailed(adapts[0], error.value)];
            } else {
              Adapt(adapts[0], true, requiresRefresh, now, later);
            }
          } else if retries != [] {
            queue := [A.Drain([], retries[1..], error)] + queue[1..];
            called := called + [if error.Some? then A.DoNotRetryWithError(retries[0], error.value)
                                else A.Retry(retries[0])];
          } else {
            queue := queue[1..];
          }
      }
    }

    /** The completion the authenticator's refresh was given. */
    method RefreshCompleted(result: A.Result)
      requires A.Enabled(Now(), A.RefreshCompletes(result))
      modifies this
      ensures Now() == A.Next(old(Now()), A.RefreshCompletes(result))
    {
      inFlight := inFlight - 1;
      match result {
        case Success(newCredential) => HandleRefreshSuccess(newCredential);
        case Error(error) => HandleRefreshFailure(error);
      }
    }

    method SetCredential(newCredential: Option<A.Credential>)
      modifies this
      ensures Now() == A.Next(old(Now()), A.CredentialSet(newCredential))
    {
      credential := newCredential;
    }
  }
}
