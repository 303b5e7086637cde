/** The life cycle and the response serializers of Request.swift (50-63, 513-610, 669-731), as locked
    steps.  Steps of the underlying queue, which is serial, come one after another; appends, cancel,
    suspend and resume come from any thread, also between two locked sections of one function. */
module SerializerChain {

  datatype Lifecycle = Initialized | Resumed | Suspended | Cancelled | Finished
  {
    predicate CanTransitionTo(next: Lifecycle) {
      match (this, next)
      case (Initialized, _) => true
      case (_, Initialized) => false
      case (Cancelled, _) => false
      case (Finished, _) => false
      case (Resumed, Cancelled) => true
      case (Suspended, Cancelled) => true
      case (Resumed, Suspended) => true
      case (Suspended, Resumed) => true
      case (Suspended, Suspended) => false
      case (Resumed, Resumed) => false
      case (_, Finished) => true
    }
  }

  /** A block on the underlying queue. */
  datatype Block = Finish | ProcessNext | DidComplete(id: nat) | ResumeIfImmediate

  /** Where processNextResponseSerializer is: not running, before its first locked section, or between
      the section that found no serializer and the one that clears the lists. */
  datatype Phase = Idle | BeforeCheck | BeforeClear

  /** The mutable state, the two queues, the serializers started and not complete, and, for bookkeeping,
      what was appended, what of that came between a failed check and its clear, what ran, and whose
      completions were called. */
  datatype State = State(
    state: Lifecycle,
    responseSerializers: seq<nat>,
    responseSerializerCompletions: seq<nat>,
    processingFinished: bool,
    isFinishing: bool,
    phase: Phase,
    underlyingQueue: seq<Block>,
    serializationQueue: seq<nat>,
    working: seq<nat>,
    appended: seq<nat>,
    raced: seq<nat>,
    ran: seq<nat>,
    fired: seq<nat>)

  datatype Event = Append(id: nat)
                 | Cancel(taskRunning: bool) | Suspend | Resume
                 | FinishRequested
                 | UnderlyingRuns(startImmediately: bool)
                 | Checks | Clears
                 | SerializationRuns
                 | SerializerDone(k: nat)

  predicate Enabled(s: State, e: Event) {
    match e
    case Append(id) => id !in s.appended
    case UnderlyingRuns(_) => s.phase == Idle && s.underlyingQueue != []
    case Checks => s.phase == BeforeCheck
    case Clears => s.phase == BeforeClear
    case SerializationRuns => s.serializationQueue != []
    case SerializerDone(k) => k < |s.working|
    case _ => true
  }

  function Moved(s: State, next: Lifecycle): State {
    if s.state.CanTransitionTo(next) then s.(state := next) else s
  }

  /** appendResponseSerializer(_:) */
  function Appended(s: State, id: nat): State {
    var s1 := s.(responseSerializers := s.responseSerializers + [id], appended := s.appended + [id],
                 raced := if s.phase == BeforeClear then s.raced + [id] else s.raced,
                 state := if s.state == Finished then Resumed else s.state);
    var s2 := if s1.processingFinished then s1.(underlyingQueue := s1.underlyingQueue + [ProcessNext]) else s1;
    if s2.state.CanTransitionTo(Resumed) then s2.(underlyingQueue := s2.underlyingQueue + [ResumeIfImmediate]) else s2
  }

  /** cancel() */
  function CancelRequested(s: State, taskRunning: bool): State {
    if !s.state.CanTransitionTo(Cancelled) then s
    else if taskRunning then s.(state := Cancelled)
    else s.(state := Cancelled, underlyingQueue := s.underlyingQueue + [Finish])
  }

  /** The underlying queue starts its next block. */
  function RunUnderlying(s: State, startImmediately: bool): State
    requires s.underlyingQueue != []
  {
    var s1 := s.(underlyingQueue := s.underlyingQueue[1..]);
    match s.underlyingQueue[0]
    case Finish => if s1.isFinishing then s1 else s1.(isFinishing := true, phase := BeforeCheck)
    case ProcessNext => s1.(phase := BeforeCheck)
    case DidComplete(id) =>
      s1.(responseSerializerCompletions := s1.responseSerializerCompletions + [id], phase := BeforeCheck)
    case ResumeIfImmediate => if startImmediately then Moved(s1, Resumed) else s1
  }

  /** nextResponseSerializer() and, when there is one, its dispatch. */
  function Check(s: State): State {
    var index := |s.responseSerializerCompletions|;
    if index < |s.responseSerializers| then
      s.(serializationQueue := s.serializationQueue + [s.responseSerializers[index]], phase := Idle)
    else s.(phase := BeforeClear)
  }

  /** The rest of processNextResponseSerializer() when there is none. */
  function Clear(s: State): State {
    Moved(s.(responseSerializers := [], responseSerializerCompletions := [], processingFinished := true,
             isFinishing := false,
             fired := s.fired + s.responseSerializerCompletions, phase := Idle), Finished)
  }

  function Next(s: State, e: Event): State
    requires Enabled(s, e)
  {
    match e
    case Append(id) => Appended(s, id)
    case Cancel(taskRunning) => CancelRequested(s, taskRunning)
    case Suspend => Moved(s, Suspended)
    case Resume => Moved(s, Resumed)
    case FinishRequested => s.(underlyingQueue := s.underlyingQueue + [Finish])
    case UnderlyingRuns(startImmediately) => RunUnderlying(s, startImmediately)
    case Checks => Check(s)
    case Clears => Clear(s)
    case SerializationRuns =>
      s.(serializationQueue := s.serializationQueue[1..], working := s.working + [s.serializationQueue[0]],
         ran := s.ran + [s.serializationQueue[0]])
    case SerializerDone(k) =>
      s.(working := s.working[..k] + s.working[k + 1..],
         underlyingQueue := s.underlyingQueue + [DidComplete(s.working[k])])
  }

  const NEW_REQUEST: State := State(Initialized, [], [], false, false, Idle, [], [], [], [], [], [], [])

  /** A run from a new request.  No retry resets it. */
  ghost predicate Run(states: seq<State>, events: seq<Event>) {
    && |states| == |events| + 1 && states[0] == NEW_REQUEST
    && forall k :: 0 <= k < |events| ==> Enabled(states[k], events[k]) && states[k + 1] == Next(states[k], events[k])
  }

  // ---------- The life cycle ----------

  /** What each step does to the life cycle: suspend() suspends what was not yet resumed or is resumed,
      resume() resumes what was not yet or is suspended, cancel() cancels all but what is cancelled or
      finished, the clear finishes all but what is cancelled, and an append brings back what finished. */
  lemma {:induction false} StateMoves(s: State, e: Event)
    requires Enabled(s, e)
    ensures var was, now := s.state, Next(s, e).state;
            match e
            case Suspend => now == if was == Initialized || was == Resumed then Suspended else was
            case Resume => now == if was == Initialized || was == Suspended then Resumed else was
            case Cancel(_) => now == if was == Cancelled || was == Finished then was else Cancelled
            case Clears => now == if was == Cancelled then was else Finished
            case Append(_) => now == if was == Finished then Resumed else was
            case UnderlyingRuns(startImmediately) =>
              now == if s.underlyingQueue[0].ResumeIfImmediate? && startImmediately
                  && (was == Initialized || was == Suspended)
                    then Resumed else was
            case _ => now == was
  {
  }

  /** What each step asks of the underlying queue: an append that the processing be taken up again, when it
      was finished, and that the request be resumed, when it may be; a cancellation without a running task
      that the request finish; a serializer that is done that it be noted. */
  lemma {:induction false} StepAsks(s: State, e: Event)
    requires Enabled(s, e)
    ensures var was, now := s.underlyingQueue, Next(s, e).underlyingQueue;
            match e
            case Append(_) =>
              now == was + (if s.processingFinished then [ProcessNext] else [])
                        + (if s.state == Initialized || s.state == Suspended then [ResumeIfImmediate] else [])
            case Cancel(taskRunning) =>
              now == was + if !taskRunning && s.state != Cancelled && s.state != Finished then [Finish] else []
            case FinishRequested => now == was + [Finish]
            case SerializerDone(k) => now == was + [DidComplete(s.working[k])]
            case UnderlyingRuns(_) => now == was[1..]
            case _ => now == was
  {
    if e.Append? { assert s.underlyingQueue + [] == s.underlyingQueue; }
  }

  /** A cancelled request stays cancelled, and only an append brings a finished one back. */
  lemma {:induction false} CancelledIsFinal(s: State, e: Event)
    requires Enabled(s, e)
    ensures s.state == Cancelled ==> Next(s, e).state == Cancelled
    ensures s.state == Finished && !e.Append? ==> Next(s, e).state == Finished
    ensures Next(s, e).state == Initialized ==> s.state == Initialized
  {
  }

  lemma {:induction false} CancelledForever(states: seq<State>, events: seq<Event>, i: nat, j: nat)
    requires Run(states, events) && i <= j < |states| && states[i].state == Cancelled
    ensures states[j].state == Cancelled
  {
    hide Next;
    if i < j {
      CancelledForever(states, events, i, j - 1);
      CancelledIsFinal(states[j - 1], events[j - 1]);
    }
  }

  // ---------- The chain ----------

  /** Appends come before the processing finishes. */
  ghost predicate Timely(states: seq<State>, events: seq<Event>) {
    Run(states, events) && forall k :: 0 <= k < |events| && events[k].Append? ==> !states[k].processingFinished
  }

  function Completions(queue: seq<Block>): seq<nat> {
    if queue == [] then []
    else (if queue[0].DidComplete? then [queue[0].id] else []) + Completions(queue[1..])
  }

  lemma {:induction false} CompletionsAppend(queue: seq<Block>, block: Block)
    ensures Completions(queue + [block]) == Completions(queue) + if block.DidComplete? then [block.id] else []
  {
    var y := if block.DidComplete? then [block.id] else [];
    if queue == [] {
      assert queue + [block] == [block] && [block][1..] == [];
      assert Completions([block]) == y + Completions([]) == y;
      assert [] + y == y;
    } else {
      assert (queue + [block])[1..] == queue[1..] + [block];
      CompletionsAppend(queue[1..], block);
      var x := if queue[0].DidComplete? then [queue[0].id] else [];
      assert x + (Completions(queue[1..]) + y) == (x + Completions(queue[1..])) + y;
    }
  }

  lemma {:induction false} CompletionsHead(queue: seq<Block>)
    requires queue != []
    ensures Completions(queue) == (if queue[0].DidComplete? then [queue[0].id] else []) + Completions(queue[1..])
  {
  }

  /** The serializer that is dispatched, at work, or about to report. */
  function Turn(s: State): seq<nat> { s.serializationQueue + s.working + Completions(s.underlyingQueue) }

  /** What was appended in time: all but what came between the last check and the clear. */
  function InTime(s: State): seq<nat> {
    if |s.raced| <= |s.appended| then s.appended[..|s.appended| - |s.raced|] else []
  }

  ghost predicate Behaved(s: State) {
    && |s.raced| <= |s.appended| && InTime(s) + s.raced == s.appended
    && ProcessNext !in s.underlyingQueue
    && (s.processingFinished ==>
         s.fired == InTime(s) && s.ran == InTime(s) && s.responseSerializers == []
             && s.responseSerializerCompletions == []
         && Turn(s) == [] && (s.isFinishing <==> s.phase != Idle))
    && (!s.processingFinished ==>
         && s.fired == [] && s.responseSerializers == s.appended
         && (s.phase != BeforeClear ==> s.raced == [])
         && |s.responseSerializerCompletions| <= |InTime(s)|
         && s.responseSerializerCompletions == s.appended[..|s.responseSerializerCompletions|]
         && Working(s))
  }

  /** Before the end the chain is at one place. */
  ghost predicate Working(s: State)
    requires |s.raced| <= |s.appended| && |s.responseSerializerCompletions| <= |InTime(s)|
  {
    var n := |s.responseSerializerCompletions|;
    if !s.isFinishing then s.phase == Idle && Turn(s) == [] && n == 0 && s.ran == []
    else if s.phase == BeforeCheck then Turn(s) == [] && s.ran == s.appended[..n]
    else if s.phase == BeforeClear then Turn(s) == [] && s.ran == s.appended[..n] && n == |InTime(s)|
    else
      && n < |s.appended| && Turn(s) == [s.appended[n]]
      && s.ran == s.appended[..if s.serializationQueue == [] then n + 1 else n]
  }

  lemma {:induction false} AppendTurn(s: State, id: nat)
    requires !s.processingFinished
    ensures Turn(Appended(s, id)) == Turn(s)
    ensures ProcessNext in Appended(s, id).underlyingQueue ==> ProcessNext in s.underlyingQueue
  {
    hide Completions, Lifecycle.CanTransitionTo;
    var s', queue := Appended(s, id), s.underlyingQueue;
    CompletionsAppend(queue, ResumeIfImmediate);
    assert Completions(queue) + [] == Completions(queue);
    assert s'.underlyingQueue == queue || s'.underlyingQueue == queue + [ResumeIfImmediate];
  }

  lemma {:induction false} AppendBehaves(s: State, id: nat)
    requires Behaved(s) && !s.processingFinished
    ensures Behaved(Appended(s, id))
  {
    hide Turn, Lifecycle.CanTransitionTo;
    var s' := Appended(s, id);
    AppendTurn(s, id);
    var n := |s.responseSerializerCompletions|;
    assert s'.appended[..n] == s.appended[..n];
    assert s.phase == BeforeClear ==> InTime(s') == InTime(s) && s'.raced == s.raced + [id];
    assert s.phase != BeforeClear ==> InTime(s') == s'.appended;
    if n < |s.appended| { assert s'.appended[..n + 1] == s.appended[..n + 1]; }
  }

  lemma {:induction false} FinishBehaves(s: State)
    requires Behaved(s)
    ensures Behaved(s.(underlyingQueue := s.underlyingQueue + [Finish]))
    ensures Behaved(s.(state := Cancelled, underlyingQueue := s.underlyingQueue + [Finish]))
    ensures forall next :: Behaved(s.(state := next))
  {
    hide Completions;
    CompletionsAppend(s.underlyingQueue, Finish);
    assert Completions(s.underlyingQueue) + [] == Completions(s.underlyingQueue);
  }

  lemma {:induction false} OneTurn(a: seq<nat>, b: seq<nat>, c: seq<nat>, x: nat)
    requires a + b + c == [x]
    ensures (a == [x] && b == [] && c == []) || (a == [] && b == [x] && c == []) || (a == [] && b == [] && c == [x])
  {
    assert |a| + |b| + |c| == 1;
    if |a| == 1 { assert (a + b + c)[0] == a[0]; }
    if |b| == 1 { assert (a + b + c)[0] == b[0]; }
    if |c| == 1 { assert (a + b + c)[0] == c[0]; }
  }

  lemma {:induction false} UnderlyingBehaves(s: State, startImmediately: bool)
    requires Behaved(s) && s.phase == Idle && s.underlyingQueue != []
    ensures Behaved(RunUnderlying(s, startImmediately))
  {
    hide Behaved, Lifecycle.CanTransitionTo;
    if s.underlyingQueue[0].DidComplete? {
      DidCompleteBehaves(s, startImmediately);
    } else {
      PopBehaves(s);
      var s1 := s.(underlyingQueue := s.underlyingQueue[1..]);
      NoProcessNext(s);
      FinishBehaves(s1);
      if !s1.isFinishing { FinishStarts(s1); }
    }
  }

  lemma {:induction false} NoProcessNext(s: State)
    requires Behaved(s) && s.underlyingQueue != []
    ensures s.underlyingQueue[0] != ProcessNext
  {
    assert s.underlyingQueue[0] in s.underlyingQueue;
  }

  /** A block that is not a serializer's report does not belong to the chain. */
  lemma {:induction false} PopBehaves(s: State)
    requires Behaved(s) && s.underlyingQueue != [] && !s.underlyingQueue[0].DidComplete?
    ensures Behaved(s.(underlyingQueue := s.underlyingQueue[1..]))
  {
    hide Completions, InTime;
    var rest := s.underlyingQueue[1..];
    CompletionsHead(s.underlyingQueue);
    assert [] + Completions(rest) == Completions(rest);
    assert Turn(s.(underlyingQueue := rest)) == Turn(s);
    assert forall b :: b in rest ==> b in s.underlyingQueue;
    InTimeOf(s, rest);
  }

  lemma {:induction false} InTimeOf(s: State, queue: seq<Block>)
    ensures InTime(s.(underlyingQueue := queue)) == InTime(s)
  {
  }

  lemma {:induction false} FinishStarts(s: State)
    requires Behaved(s) && s.phase == Idle && !s.isFinishing
    ensures Behaved(s.(isFinishing := true, phase := BeforeCheck))
  {
    hide Completions;
  }

  /** A serializer reports. */
  lemma {:induction false} DidCompleteBehaves(s: State, startImmediately: bool)
    requires Behaved(s) && s.phase == Idle && s.underlyingQueue != [] && s.underlyingQueue[0].DidComplete?
    ensures Behaved(RunUnderlying(s, startImmediately))
  {
    hide Completions, InTime;
    var rest, n := s.underlyingQueue[1..], |s.responseSerializerCompletions|;
    CompletionsHead(s.underlyingQueue);
    AtWork(s);
    OneTurn(s.serializationQueue, s.working, Completions(s.underlyingQueue), s.appended[n]);
    assert Completions(s.underlyingQueue) == [s.appended[n]];
    assert Completions(s.underlyingQueue)[0] == s.underlyingQueue[0].id;
    assert Completions(rest) == [];
    assert s.appended[..n + 1] == s.appended[..n] + [s.appended[n]];
    assert forall b :: b in rest ==> b in s.underlyingQueue;
    InTimeIs(s);
    InTimeIs(RunUnderlying(s, startImmediately));
  }

  /** Only a chain at work has a serializer out. */
  lemma {:induction false} AtWork(s: State)
    requires Behaved(s) && (s.serializationQueue != [] || s.working != [] || Completions(s.underlyingQueue) != [])
    ensures !s.processingFinished && s.isFinishing && s.phase == Idle
    ensures |s.responseSerializerCompletions| < |s.appended|
            && Turn(s) == [s.appended[|s.responseSerializerCompletions|]]
  {
    hide Completions;
    assert Turn(s) != [];
  }

  lemma {:induction false} InTimeIs(s: State)
    requires |s.raced| <= |s.appended|
    ensures |InTime(s)| == |s.appended| - |s.raced|
    ensures s.raced == [] ==> InTime(s) == s.appended
  {
  }

  lemma {:induction false} SerializationBehaves(s: State)
    requires Behaved(s) && s.serializationQueue != []
    ensures Behaved(Next(s, SerializationRuns))
  {
    hide Completions;
    var n := |s.responseSerializerCompletions|;
    AtWork(s);
    OneTurn(s.serializationQueue, s.working, Completions(s.underlyingQueue), s.appended[n]);
    assert s.appended[..n + 1] == s.appended[..n] + [s.appended[n]];
  }

  lemma {:induction false} DoneBehaves(s: State, k: nat)
    requires Behaved(s) && k < |s.working|
    ensures Behaved(Next(s, SerializerDone(k)))
  {
    hide Completions;
    var n := |s.responseSerializerCompletions|;
    AtWork(s);
    OneTurn(s.serializationQueue, s.working, Completions(s.underlyingQueue), s.appended[n]);
    CompletionsAppend(s.underlyingQueue, DidComplete(s.working[k]));
    assert s.working[..k] + s.working[k + 1..] == [];
  }

  lemma {:induction false} CheckBehaves(s: State)
    requires Behaved(s) && s.phase == BeforeCheck
    ensures Behaved(Check(s))
  {
  }

  lemma {:induction false} ClearBehaves(s: State)
    requires Behaved(s) && s.phase == BeforeClear
    ensures Behaved(Clear(s))
  {
    if s.processingFinished { assert s.fired + [] == s.fired; }
  }

  lemma {:induction false} NextBehaves(s: State, e: Event)
    requires Enabled(s, e) && Behaved(s) && (e.Append? ==> !s.processingFinished)
    ensures Behaved(Next(s, e))
  {
    hide Behaved, Appended, RunUnderlying, Check, Clear, Lifecycle.CanTransitionTo;
    match e {
      case Append(id) => AppendBehaves(s, id);
      case UnderlyingRuns(startImmediately) => UnderlyingBehaves(s, startImmediately);
      case Checks => CheckBehaves(s);
      case Clears => ClearBehaves(s);
      case SerializationRuns => SerializationBehaves(s);
      case SerializerDone(k) => DoneBehaves(s, k);
      case _ => FinishBehaves(s);
    }
  }

  lemma {:induction false} AlwaysBehaves(states: seq<State>, events: seq<Event>, k: nat)
    requires Timely(states, events) && k < |states|
    ensures Behaved(states[k])
  {
    hide Next, Behaved;
    if k == 0 {
      NewBehaves();
    } else {
      AlwaysBehaves(states, events, k - 1);
      NextBehaves(states[k - 1], events[k - 1]);
    }
  }

  lemma {:induction false} NewBehaves()
    ensures Behaved(NEW_REQUEST)
  {
  }

  /** A session asks for a finish, and so does cancelling without a running task. */
  predicate AsksFinish(s: State, e: Event) {
    e.FinishRequested? || (e.Cancel? && s.state.CanTransitionTo(Cancelled) && !e.taskRunning)
  }

  /** A finish that was asked for is on its way, going on, or done. */
  ghost predicate FinishUnderway(s: State) { Finish in s.underlyingQueue || s.isFinishing || s.processingFinished }

  lemma {:induction false} NextUnderway(s: State, e: Event)
    requires Enabled(s, e) && (FinishUnderway(s) || AsksFinish(s, e))
    ensures FinishUnderway(Next(s, e))
  {
  }

  /** A finish was asked for before step k. */
  ghost predicate FinishAsked(states: seq<State>, events: seq<Event>, k: nat)
    requires Run(states, events) && k < |states|
  {
    exists i :: 0 <= i < k && AsksFinish(states[i], events[i])
  }

  lemma {:induction false} AskedIsUnderway(states: seq<State>, events: seq<Event>, k: nat)
    requires Run(states, events) && k < |states| && FinishAsked(states, events, k)
    ensures FinishUnderway(states[k])
  {
    hide Next, FinishUnderway;
    var i :| 0 <= i < k && AsksFinish(states[i], events[i]);
    if i < k - 1 { AskedIsUnderway(states, events, k - 1); }
    NextUnderway(states[k - 1], events[k - 1]);
  }

  ghost predicate Distinct(ids: seq<nat>) { forall i, j :: 0 <= i < j < |ids| ==> ids[i] != ids[j] }

  /** In every run each serializer is appended once. */
  lemma {:induction false} AppendedOnce(states: seq<State>, events: seq<Event>, k: nat)
    requires Run(states, events) && k < |states|
    ensures Distinct(states[k].appended)
  {
    hide Next;
    if k > 0 {
      AppendedOnce(states, events, k - 1);
      NextAppended(states[k - 1], events[k - 1]);
    }
  }

  lemma {:induction false} NextAppended(s: State, e: Event)
    requires Enabled(s, e)
    ensures Next(s, e).appended == if e.Append? then s.appended + [e.id] else s.appended
  {
  }

  /** The check of a timely run dispatches the first serializer that has not completed, if there is one:
      all before it in append order ran and completed, and it has not run. */
  lemma {:induction false} NextInLine(states: seq<State>, events: seq<Event>, k: nat)
    requires Timely(states, events) && k < |events| && events[k].Checks?
    ensures var s := states[k];
            var n := |s.responseSerializerCompletions|;
            if s.processingFinished then s.responseSerializers == []
            else
              && n <= |s.appended| && s.responseSerializerCompletions == s.ran == s.appended[..n]
              && s.responseSerializers == s.appended
              && (n < |s.appended| ==>
                    states[k + 1].serializationQueue == [s.appended[n]] && s.appended[n] !in s.ran)
  {
    hide Completions;
    AlwaysBehaves(states, events, k);
    AppendedOnce(states, events, k);
    assert Enabled(states[k], events[k]) && states[k + 1] == Next(states[k], events[k]);
  }

  predicate AtRest(s: State) {
    s.phase == Idle && s.underlyingQueue == [] && s.serializationQueue == [] && s.working == []
  }

  /** In every run without appends after the end: serializers run one at a time, in the order they were
      appended, none twice; completions are called only after all of them ran, in the same order; and
      those appended between the last check and the clear never run. */
  lemma {:induction false} InOrder(states: seq<State>, events: seq<Event>, k: nat)
    requires Timely(states, events) && k < |states|
    ensures |Turn(states[k])| <= 1
    ensures states[k].ran <= InTime(states[k]) <= states[k].appended
    ensures states[k].fired == [] || states[k].fired == states[k].ran == InTime(states[k])
    ensures InTime(states[k]) + states[k].raced == states[k].appended
    ensures Distinct(states[k].appended)
  {
    AppendedOnce(states, events, k);
    AlwaysBehaves(states, events, k);
  }

  /** ... and once a finish was asked for and nothing is left to run, every serializer appended in time
      has run exactly once and its completion was called exactly once; all of them, exactly when no
      append fell between a failed check and its clear. */
  lemma {:induction false} ExactlyOnce(states: seq<State>, events: seq<Event>, k: nat)
    requires Timely(states, events) && k < |states| && FinishAsked(states, events, k) && AtRest(states[k])
    ensures states[k].ran == states[k].fired == InTime(states[k])
    ensures InTime(states[k]) + states[k].raced == states[k].appended && Distinct(states[k].appended)
    ensures states[k].fired == states[k].appended <==> states[k].raced == []
  {
    AppendedOnce(states, events, k);
    AlwaysBehaves(states, events, k);
    AskedIsUnderway(states, events, k);
    var s := states[k];
    assert Turn(s) == [];
    assert s.raced == [] ==> InTime(s) == s.appended;
  }

  // ---------- Why appends must be timely ----------

  /** Extend a run by one step. */
  lemma {:induction false} Extend(states: seq<State>, events: seq<Event>, e: Event)
    requires Run(states, events) && Enabled(states[|events|], e)
    ensures Run(states + [Next(states[|events|], e)], events + [e])
  {
    hide Next, Enabled;
    var states', events' := states + [Next(states[|events|], e)], events + [e];
    forall k | 0 <= k < |events'|
      ensures Enabled(states'[k], events'[k]) && states'[k + 1] == Next(states'[k], events'[k])
    {
      if k < |events| { assert states'[k] == states[k] && states'[k + 1] == states[k + 1] && events'[k] == events[k]; }
    }
  }

  /** The run of a request that finishes with no serializers, up to its clear. */
  lemma {:induction false} EmptyFinish() returns (states: seq<State>, events: seq<Event>)
    ensures Run(states, events) && |events| == 3
    ensures states[3] == NEW_REQUEST.(isFinishing := true, phase := BeforeClear)
    ensures forall k :: 0 <= k < 3 ==> !events[k].Append?
  {
    var e0, e1, e2 := FinishRequested, UnderlyingRuns(true), Checks;
    var s1 := Next(NEW_REQUEST, e0);
    assert s1.underlyingQueue == [Finish];
    var s2 := Next(s1, e1);
    var s3 := Next(s2, e2);
    states, events := [NEW_REQUEST, s1, s2, s3], [e0, e1, e2];
  }

  /** A serializer appended between the check and the clear is dropped: the request comes to rest
      without having run it. */
  lemma {:induction false} RacedAppendIsLost() returns (states: seq<State>, events: seq<Event>)
    ensures Timely(states, events) && AtRest(states[|events|])
    ensures states[|events|].appended == [1] && states[|events|].ran == [] && states[|events|].fired == []
  {
    hide Run, Next, Enabled;
    states, events := EmptyFinish();
    ghost var s3 := states[3];
    RacedSteps(s3);
    states, events := Late(states, events, Append(1));
    states, events := Late(states, events, Clears);
    states, events := Late(states, events, UnderlyingRuns(true));
  }

  lemma {:induction false} RacedSteps(s: State)
    requires s == NEW_REQUEST.(isFinishing := true, phase := BeforeClear)
    ensures Enabled(s, Append(1))
    ensures var s4 := Next(s, Append(1));
            Enabled(s4, Clears) && var s5 := Next(s4, Clears);
            Enabled(s5, UnderlyingRuns(true)) && var s6 := Next(s5, UnderlyingRuns(true));
            AtRest(s6) && s6.appended == [1] && s6.ran == [] && s6.fired == []
  {
    assert Next(Next(s, Append(1)), Clears).underlyingQueue == [ResumeIfImmediate];
  }

  /** Two serializers appended after the end: the first one runs twice. */
  lemma {:induction false} LateAppendsRunTwice() returns (states: seq<State>, events: seq<Event>)
    ensures Run(states, events)
    ensures states[|events|].appended == [1, 2] && states[|events|].ran == [1, 1]
  {
    hide Run, Next, Enabled;
    states, events := EmptyFinish();
    LateSteps(states[3]);
    states, events := Late(states, events, Clears);
    states, events := Late(states, events, Append(1));
    states, events := Late(states, events, Append(2));
    LateRuns(states[|events|]);
    states, events := Late(states, events, UnderlyingRuns(true));
    states, events := Late(states, events, Checks);
    states, events := Late(states, events, UnderlyingRuns(true));
    states, events := Late(states, events, Checks);
    states, events := Late(states, events, SerializationRuns);
    states, events := Late(states, events, SerializationRuns);
  }

  const LATE: State :=
    NEW_REQUEST.(state := Resumed, processingFinished := true, responseSerializers := [1, 2], appended := [1, 2],
                 underlyingQueue := [ProcessNext, ProcessNext])

  lemma {:induction false} LateSteps(s: State)
    requires s == NEW_REQUEST.(isFinishing := true, phase := BeforeClear)
    ensures Enabled(s, Clears)
    ensures var s4 := Next(s, Clears);
            Enabled(s4, Append(1)) && var s5 := Next(s4, Append(1));
            Enabled(s5, Append(2)) && Next(s5, Append(2)) == LATE
  {
    var s4 := Next(s, Clears);
    assert s4 == NEW_REQUEST.(state := Finished, processingFinished := true);
    var s5 := Next(s4, Append(1));
    assert s5 == s4.(state := Resumed, responseSerializers := [1], appended := [1], underlyingQueue := [ProcessNext]);
  }

  lemma {:induction false} LateRuns(s: State)
    requires s == LATE
    ensures Enabled(s, UnderlyingRuns(true))
    ensures var s1 := Next(s, UnderlyingRuns(true));
            Enabled(s1, Checks) && var s2 := Next(s1, Checks);
            Enabled(s2, UnderlyingRuns(true)) && var s3 := Next(s2, UnderlyingRuns(true));
            Enabled(s3, Checks) && var s4 := Next(s3, Checks);
            Enabled(s4, SerializationRuns) && var s5 := Next(s4, SerializationRuns);
            Enabled(s5, SerializationRuns) && var s6 := Next(s5, SerializationRuns);
            s6.appended == [1, 2] && s6.ran == [1, 1]
  {
    var s2 := Next(Next(s, UnderlyingRuns(true)), Checks);
    assert s2 == s.(underlyingQueue := [ProcessNext], serializationQueue := [1]);
    var s4 := Next(Next(s2, UnderlyingRuns(true)), Checks);
    assert s4 == s.(underlyingQueue := [], serializationQueue := [1, 1]);
  }

  lemma {:induction false} Late(states: seq<State>, events: seq<Event>, e: Event)
      returns (states': seq<State>, events': seq<Event>)
    requires Run(states, events) && Enabled(states[|events|], e)
    ensures Run(states', events') && |states'| == |events'| + 1 == |states| + 1 && events' == events + [e]
    ensures states'[..|states|] == states && states'[|events'|] == Next(states[|events|], e)
  {
    Extend(states, events, e);
    states', events' := states + [Next(states[|events|], e)], events + [e];
  }
}
