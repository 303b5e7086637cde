/** The request object of Request.swift: each method is one locked step, or one block of a queue, and
    does to the object what SerializerChain says it does to the state. */
module Request {
  import opened Wrappers
  import C = SerializerChain

  class Request {
    var state: C.Lifecycle
    var responseSerializers: seq<nat>
    var responseSerializerCompletions: seq<nat>
    var processingFinished: bool
    var isFinishing: bool
    var underlyingQueue: seq<C.Block>
    var serializationQueue: seq<nat>
    var fired: seq<nat>
    ghost var phase: C.Phase
    ghost var working: seq<nat>
    ghost var appended: seq<nat>
    ghost var raced: seq<nat>
    ghost var ran: seq<nat>

    ghost function Now(): C.State
      reads this
    {
      C.State(state, responseSerializers, responseSerializerCompletions, processingFinished, isFinishing, phase,
              underlyingQueue, serializationQueue, working, appended, raced, ran, fired)
    }

    constructor ()
      ensures Now() == C.NEW_REQUEST
    {
      state, responseSerializers, responseSerializerCompletions := C.Initialized, [], [];
      processingFinished, isFinishing := false, false;
      underlyingQueue, serializationQueue, fired := [], [], [];
      phase, working, appended, raced, ran := C.Idle, [], [], [], [];
    }

    /** appendResponseSerializer(_:) */
    method AppendResponseSerializer(id: nat)
      requires C.Enabled(Now(), C.Append(id))
      modifies this
      ensures Now() == C.Appended(old(Now()), id)
    {
      hide C.Lifecycle.CanTransitionTo, C.Enabled;
      appended, raced := appended + [id], if phase == C.BeforeClear then raced + [id] else raced;
      responseSerializers := responseSerializers + [id];
      state := if state == C.Finished then C.Resumed else state;
      if processingFinished { underlyingQueue := underlyingQueue + [C.ProcessNext]; }
      if state.CanTransitionTo(C.Resumed) { underlyingQueue := underlyingQueue + [C.ResumeIfImmediate]; }
    }

    /** cancel() */
    method Cancel(taskRunning: bool)
      modifies this
      ensures Now() == C.CancelRequested(old(Now()), taskRunning)
    {
      if !state.CanTransitionTo(C.Cancelled) { return; }
      state := C.Cancelled;
      if !taskRunning {
        underlyingQueue := underlyingQueue + [C.Finish];
        return;
      }
    }

    /** Enter another state, if it can be entered from this one. */
    method MoveTo(next: C.Lifecycle)
      modifies `state
      ensures state == if old(state).CanTransitionTo(next) then next else old(state)
    {
      if !state.CanTransitionTo(next) { return; }
      state := next;
    }

    /** suspend() */
    method Suspend()
      modifies this
      ensures Now() == C.Moved(old(Now()), C.Suspended)
    {
      MoveTo(C.Suspended);
    }

    /** resume() */
    method Resume()
      modifies this
      ensures Now() == C.Moved(old(Now()), C.Resumed)
    {
      MoveTo(C.Resumed);
    }

    /** finish(error:), up to processNextResponseSerializer(). */
    method Finish()
      modifies this
      ensures Now() == if old(isFinishing) then old(Now()) else old(Now()).(isFinishing := true, phase := C.BeforeCheck)
    {
      if isFinishing { return; }
      isFinishing := true;
      phase := C.BeforeCheck;
    }

    /** responseSerializerDidComplete(completion:), up to processNextResponseSerializer(). */
    method ResponseSerializerDidComplete(id: nat)
      modifies this
      ensures Now() == old(Now()).(responseSerializerCompletions := old(responseSerializerCompletions) + [id],
                                   phase := C.BeforeCheck)
    {
      responseSerializerCompletions := responseSerializerCompletions + [id];
      phase := C.BeforeCheck;
    }

    /** The underlying queue starts its next block. */
    method RunUnderlyingQueue(startImmediately: bool)
      requires C.Enabled(Now(), C.UnderlyingRuns(startImmediately))
      modifies this
      ensures Now() == C.RunUnderlying(old(Now()), startImmediately)
    {
      var block := underlyingQueue[0];
      underlyingQueue := underlyingQueue[1..];
      match block {
        case Finish => Finish();
        case ProcessNext => phase := C.BeforeCheck;
        case DidComplete(id) => ResponseSerializerDidComplete(id);
        case ResumeIfImmediate => if startImmediately { Resume(); }
      }
    }

    /** nextResponseSerializer() */
    method NextResponseSerializer() returns (responseSerializer: Option<nat>)
      ensures responseSerializer.None? <==> |responseSerializers| <= |responseSerializerCompletions|
      ensures responseSerializer.Some? ==>
                responseSerializers[..|responseSerializerCompletions|]
                    + [responseSerializer.value] <= responseSerializers
    {
      var responseSerializerIndex := |responseSerializerCompletions|;
      responseSerializer := None;
      if responseSerializerIndex < |responseSerializers| {
        responseSerializer := Some(responseSerializers[responseSerializerIndex]);
      }
    }

    /** processNextResponseSerializer(): its first locked section and, when it finds a serializer, the
        dispatch. */
    method ProcessNextResponseSerializer() returns (more: bool)
      requires C.Enabled(Now(), C.Checks)
      modifies this
      ensures Now() == C.Check(old(Now()))
      ensures more <==> phase == C.Idle
    {
      var responseSerializer := NextResponseSerializer();
      if responseSerializer.None? {
        phase := C.BeforeClear;
        return false;
      }
      serializationQueue := serializationQueue + [responseSerializer.value];
      phase := C.Idle;
      more := true;
    }

    /** Its second locked section, when it found none; then the completions are called. */
    method ClearResponseSerializers()
      requires C.Enabled(Now(), C.Clears)
      modifies this
      ensures Now() == C.Clear(old(Now()))
    {
      hide C.Clear, C.Lifecycle.CanTransitionTo, C.Enabled;
      ghost var before := Now();
      var completions := responseSerializerCompletions;
      responseSerializers, responseSerializerCompletions := [], [];
      MoveTo(C.Finished);
      processingFinished, isFinishing := true, false;
      phase := C.Idle;
      CallCompletions(completions);
      ClearIs(before, Now());
    }

    /** completions.forEach { $0() } */
    method CallCompletions(completions: seq<nat>)
      modifies `fired
      ensures fired == old(fired) + completions
    {
      for i := 0 to |completions|
        invariant fired == old(fired) + completions[..i]
      {
        fired := fired + [completions[i]];
        assert completions[..i + 1] == completions[..i] + [completions[i]];
      }
      assert completions[..|completions|] == completions;
    }
  }

  /** Clear, field by field. */
  lemma {:induction false} ClearIs(s: C.State, s': C.State)
    requires s'.responseSerializers == [] && s'.responseSerializerCompletions == []
    requires s'.processingFinished && !s'.isFinishing && s'.phase == C.Idle
    requires s'.fired == s.fired + s.responseSerializerCompletions
    requires s'.state == if s.state.CanTransitionTo(C.Finished) then C.Finished else s.state
    requires s'.underlyingQueue == s.underlyingQueue && s'.serializationQueue == s.serializationQueue
    requires s'.working == s.working && s'.appended == s.appended && s'.raced == s.raced && s'.ran == s.ran
    ensures s' == C.Clear(s)
  {
  }
}
