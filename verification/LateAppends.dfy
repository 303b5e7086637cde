/** What becomes of serializers appended after a request finished (Request.swift, 533-601): exactly when
    one runs twice, and what a caller has to keep to so that each runs once. */
module LateAppends {
  import opened SerializerChain

  // ---------- Exactly when a serializer runs twice ----------

  /** What ran, and what the serialization queue will run next: when it is empty, this is what ran. */
  function Dispatched(s: State): seq<nat> { s.ran + s.serializationQueue }

  /** Every check before step k found no serializer dispatched, at work, or about to report. */
  ghost predicate ChecksWait(states: seq<State>, events: seq<Event>, k: nat)
    requires Run(states, events) && k < |states|
  {
    forall j :: 0 <= j < k && events[j].Checks? ==> Turn(states[j]) == []
  }

  /** At most one serializer is out, it is the first not complete, and none behind it was dispatched. */
  ghost predicate Orderly(s: State) {
    var waiting, n := s.responseSerializers, |s.responseSerializerCompletions|;
    && (forall x :: x in Dispatched(s) || x in waiting ==> x in s.appended)
    && Distinct(Dispatched(s)) && Distinct(waiting)
    && |Turn(s)| <= 1
    && (s.phase == BeforeClear ==> Turn(s) == [])
    && n + |Turn(s)| <= |waiting|
    && (Turn(s) != [] ==> waiting[n] == Turn(s)[0] && waiting[n] in Dispatched(s))
    && (forall i :: n + |Turn(s)| <= i < |waiting| ==> waiting[i] !in Dispatched(s))
  }

  lemma {:induction false} AppendOrderly(s: State, id: nat)
    requires Orderly(s) && id !in s.appended
    ensures Orderly(Appended(s, id))
  {
    hide Turn, Lifecycle.CanTransitionTo;
    var s' := Appended(s, id);
    TurnOfAppended(s, id);
    assert Dispatched(s') == Dispatched(s);
    assert s'.responseSerializers == s.responseSerializers + [id] && s'.appended == s.appended + [id];
    assert id !in Dispatched(s);
  }

  lemma {:induction false} TurnOfAppended(s: State, id: nat)
    ensures Turn(Appended(s, id)) == Turn(s)
  {
    hide Completions, Lifecycle.CanTransitionTo;
    var s', queue := Appended(s, id), s.underlyingQueue;
    CompletionsAppend(queue, ProcessNext);
    CompletionsAppend(queue, ResumeIfImmediate);
    CompletionsAppend(queue + [ProcessNext], ResumeIfImmediate);
    assert Completions(queue) + [] == Completions(queue);
  }

  lemma {:induction false} FinishTurn(s: State, state: Lifecycle)
    ensures Turn(s.(state := state, underlyingQueue := s.underlyingQueue + [Finish])) == Turn(s)
    ensures Turn(s.(state := state)) == Turn(s)
  {
    hide Completions;
    CompletionsAppend(s.underlyingQueue, Finish);
    assert Completions(s.underlyingQueue) + [] == Completions(s.underlyingQueue);
  }

  lemma {:induction false} UnderlyingTurn(s: State, startImmediately: bool)
    requires s.underlyingQueue != []
    ensures var s' := RunUnderlying(s, startImmediately);
            match s.underlyingQueue[0]
            case DidComplete(id) => |Turn(s)| <= 1 ==> Turn(s) == [id] && Turn(s') == []
            case _ => Turn(s') == Turn(s)
  {
    hide Completions, Lifecycle.CanTransitionTo;
    var rest := s.underlyingQueue[1..];
    CompletionsHead(s.underlyingQueue);
    if s.underlyingQueue[0].DidComplete? {
      if |Turn(s)| <= 1 { assert |Completions(s.underlyingQueue)| == 1 + |Completions(rest)|; }
    } else {
      assert [] + Completions(rest) == Completions(rest);
    }
  }

  lemma {:induction false} UnderlyingOrderly(s: State, startImmediately: bool)
    requires Orderly(s) && s.phase == Idle && s.underlyingQueue != []
    ensures Orderly(RunUnderlying(s, startImmediately))
  {
    hide Turn, Lifecycle.CanTransitionTo;
    UnderlyingTurn(s, startImmediately);
    assert Dispatched(RunUnderlying(s, startImmediately)) == Dispatched(s);
  }

  lemma {:induction false} SerializationTurn(s: State)
    requires s.serializationQueue != []
    ensures Dispatched(Next(s, SerializationRuns)) == Dispatched(s)
    ensures |Turn(s)| <= 1 ==> Turn(Next(s, SerializationRuns)) == Turn(s)
  {
    hide Completions;
    var x, rest := s.serializationQueue[0], s.serializationQueue[1..];
    assert s.serializationQueue == [x] + rest;
    assert s.ran + ([x] + rest) == (s.ran + [x]) + rest;
    if |Turn(s)| <= 1 { assert s.working == [] && rest == []; }
  }

  lemma {:induction false} DoneTurn(s: State, k: nat)
    requires k < |s.working|
    ensures |Turn(s)| <= 1 ==> Turn(Next(s, SerializerDone(k))) == Turn(s)
  {
    hide Completions;
    CompletionsAppend(s.underlyingQueue, DidComplete(s.working[k]));
    if |Turn(s)| <= 1 {
      assert |s.working| == 1 && Completions(s.underlyingQueue) == [];
      assert s.working[..k] + s.working[k + 1..] == [] && [] + s.working == [s.working[k]];
    }
  }

  lemma {:induction false} CheckOrderly(s: State)
    requires Orderly(s) && Turn(s) == []
    ensures Orderly(Check(s))
  {
    hide Completions;
    var n := |s.responseSerializerCompletions|;
    if n < |s.responseSerializers| {
      var x, s' := s.responseSerializers[n], Check(s);
      assert s.serializationQueue == [] && s.working == [] && Completions(s.underlyingQueue) == [];
      assert Dispatched(s') == Dispatched(s) + [x];
      assert Turn(s') == [x];
    }
  }

  lemma {:induction false} ClearOrderly(s: State)
    requires Orderly(s) && s.phase == BeforeClear
    ensures Orderly(Clear(s))
  {
    hide Completions, Lifecycle.CanTransitionTo;
    assert Turn(Clear(s)) == Turn(s) && Dispatched(Clear(s)) == Dispatched(s);
  }

  lemma {:induction false} SameOrderly(s: State, s': State)
    requires Orderly(s) && Turn(s') == Turn(s) && Dispatched(s') == Dispatched(s) && s'.phase == s.phase
    requires s'.responseSerializers == s.responseSerializers && s'.appended == s.appended
    requires s'.responseSerializerCompletions == s.responseSerializerCompletions
    ensures Orderly(s')
  {
    hide Turn, Dispatched;
  }

  lemma {:induction false} NextOrderly(s: State, e: Event)
    requires Enabled(s, e) && Orderly(s) && (e.Checks? ==> Turn(s) == [])
    ensures Orderly(Next(s, e))
  {
    hide Orderly, Turn, Appended, RunUnderlying, Check, Clear, Lifecycle.CanTransitionTo;
    FewOut(s);
    match e {
      case Append(id) => AppendOrderly(s, id);
      case UnderlyingRuns(startImmediately) => UnderlyingOrderly(s, startImmediately);
      case Checks => CheckOrderly(s);
      case Clears => ClearOrderly(s);
      case SerializationRuns =>
        SerializationTurn(s);
        SameOrderly(s, Next(s, e));
      case SerializerDone(k) =>
        DoneTurn(s, k);
        SameOrderly(s, Next(s, e));
      case _ =>
        FinishTurn(s, s.state);
        FinishTurn(s, Next(s, e).state);
        SameOrderly(s, Next(s, e));
    }
  }

  lemma {:induction false} FewOut(s: State)
    requires Orderly(s)
    ensures |Turn(s)| <= 1
  {
  }

  lemma {:induction false} AlwaysOrderly(states: seq<State>, events: seq<Event>, k: nat)
    requires Run(states, events) && k < |states| && ChecksWait(states, events, k)
    ensures Orderly(states[k])
  {
    hide Next, Orderly, Turn, Enabled;
    if k == 0 {
      NewOrderly();
    } else {
      AlwaysOrderly(states, events, k - 1);
      NextOrderly(states[k - 1], events[k - 1]);
    }
  }

  lemma {:induction false} NewOrderly()
    ensures Orderly(NEW_REQUEST)
  {
    assert Turn(NEW_REQUEST) == [] && Dispatched(NEW_REQUEST) == [];
  }

  /** What is dispatched is not taken back. */
  lemma {:induction false} DispatchedGrows(states: seq<State>, events: seq<Event>, i: nat, k: nat)
    requires Run(states, events) && i <= k < |states|
    ensures Dispatched(states[i]) <= Dispatched(states[k])
  {
    hide Next, Dispatched;
    if i < k {
      DispatchedGrows(states, events, i, k - 1);
      NextDispatched(states[k - 1], events[k - 1]);
    }
  }

  lemma {:induction false} NextDispatched(s: State, e: Event)
    requires Enabled(s, e)
    ensures Dispatched(s) <= Dispatched(Next(s, e))
  {
    hide Turn, Lifecycle.CanTransitionTo;
    if e.SerializationRuns? { SerializationTurn(s); }
    if e.Checks? { assert s.ran + (s.serializationQueue + Check(s).serializationQueue[|s.serializationQueue|..])
                       == Dispatched(s) + Check(s).serializationQueue[|s.serializationQueue|..]; }
  }

  /** A check that does not wait dispatches the serializer that is out once more. */
  lemma {:induction false} EarlyCheckRepeats(s: State)
    requires Orderly(s) && Turn(s) != []
    ensures !Distinct(Dispatched(Check(s)))
  {
    hide Turn;
    var x := s.responseSerializers[|s.responseSerializerCompletions|];
    var i :| 0 <= i < |Dispatched(s)| && Dispatched(s)[i] == x;
    assert Dispatched(Check(s)) == Dispatched(s) + [x];
    assert Dispatched(Check(s))[i] == Dispatched(Check(s))[|Dispatched(s)|];
  }

  /** In every run, late appends and cancellations included: no serializer is started twice if and only
      if every check found none dispatched, at work, or about to report. */
  lemma {:induction false} NoneTwice(states: seq<State>, events: seq<Event>, k: nat)
    requires Run(states, events) && k < |states|
    ensures Distinct(Dispatched(states[k])) <==> ChecksWait(states, events, k)
  {
    hide Next, Orderly, Turn, Enabled, Dispatched;
    if ChecksWait(states, events, k) {
      AlwaysOrderly(states, events, k);
      OrderlyDistinct(states[k]);
    } else {
      FirstEarlyCheck(states, events, k);
    }
  }

  lemma {:induction false} OrderlyDistinct(s: State)
    requires Orderly(s)
    ensures Distinct(Dispatched(s))
  {
  }

  lemma {:induction false} FirstEarlyCheck(states: seq<State>, events: seq<Event>, k: nat)
    requires Run(states, events) && k < |states| && !ChecksWait(states, events, k)
    ensures !Distinct(Dispatched(states[k]))
  {
    hide Next, Orderly, Turn, Enabled, Dispatched;
    if !ChecksWait(states, events, k - 1) {
      FirstEarlyCheck(states, events, k - 1);
      DispatchedGrows(states, events, k - 1, k);
      PrefixRepeats(Dispatched(states[k - 1]), Dispatched(states[k]));
    } else {
      AlwaysOrderly(states, events, k - 1);
      EarlyCheckRepeats(states[k - 1]);
      assert Next(states[k - 1], Checks) == Check(states[k - 1]) by { CheckStep(states[k - 1]); }
    }
  }

  lemma {:induction false} CheckStep(s: State)
    ensures Enabled(s, Checks) ==> Next(s, Checks) == Check(s)
  {
    hide Check;
  }

  lemma {:induction false} PrefixRepeats(a: seq<nat>, b: seq<nat>)
    requires a <= b && !Distinct(a)
    ensures !Distinct(b)
  {
    var i, j :| 0 <= i < j < |a| && a[i] == a[j];
    assert b[i] == b[j];
  }

  // ---------- What a caller keeps to ----------

  /** Once the request has finished, an append waits until nothing is left to run, and no finish is asked
      for while an appended serializer is being seen to. */
  ghost predicate Calm(states: seq<State>, events: seq<Event>) {
    Run(states, events) && forall k :: 0 <= k < |events| && states[k].processingFinished ==>
      && (events[k].Append? ==> AtRest(states[k]))
      && (AsksFinish(states[k], events[k]) ==> states[k].responseSerializers == [])
  }

  /** A run without late appends is calm. */
  lemma {:induction false} TimelyIsCalm(states: seq<State>, events: seq<Event>)
    requires Timely(states, events)
    ensures Calm(states, events)
  {
    hide Next, Enabled, AtRest;
    forall k | 0 <= k < |events| && states[k].processingFinished ensures states[k].responseSerializers == [] {
      AlwaysBehaves(states, events, k);
    }
  }

  /** All of the appended ids, in order, but for the raced ones, which are together. */
  ghost predicate AllButRaced(ids: seq<nat>, raced: seq<nat>, appended: seq<nat>) {
    exists i: nat :: SplitAt(ids, raced, appended, i)
  }

  ghost predicate SplitAt(ids: seq<nat>, raced: seq<nat>, appended: seq<nat>, i: nat) {
    i + |raced| <= |appended| && raced == appended[i..i + |raced|] && ids == appended[..i] + appended[i + |raced|..]
  }

  lemma {:induction false} OneMoreRan(ids: seq<nat>, raced: seq<nat>, appended: seq<nat>, id: nat)
    requires AllButRaced(ids, raced, appended)
    ensures AllButRaced(ids + [id], raced, appended + [id])
  {
    var i: nat :| SplitAt(ids, raced, appended, i);
    var appended' := appended + [id];
    assert appended'[..i] == appended[..i] && appended'[i..i + |raced|] == raced;
    assert appended'[i + |raced|..] == appended[i + |raced|..] + [id];
    assert SplitAt(ids + [id], raced, appended', i);
  }

  /** Nothing is being seen to: all in order ran and completed. */
  ghost predicate Settled(s: State) {
    && s.responseSerializers == [] && s.responseSerializerCompletions == [] && Turn(s) == []
    && s.fired == s.ran && AllButRaced(s.ran, s.raced, s.appended)
  }

  ghost predicate Quiet(queue: seq<Block>) { Finish !in queue && ProcessNext !in queue }

  /** One late serializer is being seen to, by one chain of blocks. */
  ghost predicate OneLate(s: State) {
    && s.appended != [] && AllButRaced(s.fired, s.raced, s.appended[..|s.appended| - 1])
    && var id := s.appended[|s.appended| - 1];
    && s.responseSerializers == [id]
    && (s.ran == s.fired || s.ran == s.fired + [id])
    && Stage(s, id)
  }

  /** How far it is: to be checked, out, or complete. */
  ghost predicate Stage(s: State, id: nat) {
    var done, quiet := s.responseSerializerCompletions == [id], Quiet(s.underlyingQueue);
    && (done || s.responseSerializerCompletions == [])
    && match s.phase
       case Idle =>
         && !done
         && if Turn(s) == []
            then s.ran == s.fired && s.underlyingQueue != [] && s.underlyingQueue[0] == ProcessNext
                && Quiet(s.underlyingQueue[1..])
            else Turn(s) == [id] && quiet && (s.ran == s.fired <==> s.serializationQueue != [])
       case BeforeCheck => Turn(s) == [] && quiet && (done <==> s.ran == s.fired + [id])
       case BeforeClear => Turn(s) == [] && quiet && done && s.ran == s.fired + [id]
  }

  ghost predicate CalmState(s: State) {
    if s.processingFinished then Settled(s) || OneLate(s) else Behaved(s)
  }

  lemma {:induction false} QuietRest(queue: seq<Block>)
    requires queue != [] && Quiet(queue)
    ensures Quiet(queue[1..]) && queue[0] != Finish && queue[0] != ProcessNext
  {
    assert queue[0] in queue;
    assert forall b :: b in queue[1..] ==> b in queue;
  }

  /** An append at rest. */
  lemma {:induction false} AppendAtRest(s: State, id: nat)
    requires s.processingFinished && Settled(s) && AtRest(s)
    ensures OneLate(Appended(s, id))
  {
    hide Turn, Lifecycle.CanTransitionTo, AllButRaced;
    var s' := Appended(s, id);
    TurnOfAppended(s, id);
    assert s'.appended[..|s'.appended| - 1] == s.appended;
    assert s'.underlyingQueue == [ProcessNext] || s'.underlyingQueue == [ProcessNext, ResumeIfImmediate];
  }

  lemma {:induction false} LateBusy(s: State)
    requires OneLate(s)
    ensures !AtRest(s) && s.responseSerializers != [] && |Turn(s)| <= 1
  {
    hide AllButRaced;
    assert AtRest(s) ==> Turn(s) == [];
  }

  lemma {:induction false} UnderlyingSettled(s: State, startImmediately: bool)
    requires Settled(s) && s.underlyingQueue != []
    ensures Settled(RunUnderlying(s, startImmediately))
  {
    hide Turn, Lifecycle.CanTransitionTo, AllButRaced;
    UnderlyingTurn(s, startImmediately);
  }

  lemma {:induction false} UnderlyingLate(s: State, startImmediately: bool)
    requires OneLate(s) && s.phase == Idle && s.underlyingQueue != []
    ensures OneLate(RunUnderlying(s, startImmediately))
  {
    hide Turn, Lifecycle.CanTransitionTo, AllButRaced, Quiet;
    UnderlyingTurn(s, startImmediately);
    if Turn(s) != [] { QuietRest(s.underlyingQueue); }
    if s.underlyingQueue[0].DidComplete? { OutIsStarted(s); }
  }

  /** What is about to report is not on the serialization queue. */
  lemma {:induction false} OutIsStarted(s: State)
    requires s.underlyingQueue != [] && s.underlyingQueue[0].DidComplete? && |Turn(s)| <= 1
    ensures s.serializationQueue == []
  {
    CompletionsHead(s.underlyingQueue);
  }

  lemma {:induction false} CheckCalm(s: State)
    ensures Settled(s) ==> Settled(Check(s))
    ensures OneLate(s) && s.phase == BeforeCheck ==> OneLate(Check(s))
  {
    hide Completions, AllButRaced, Quiet;
  }

  lemma {:induction false} ClearCalm(s: State)
    requires s.phase == BeforeClear && CalmState(s)
    ensures Settled(Clear(s))
  {
    hide Lifecycle.CanTransitionTo, Completions, AllButRaced;
    var s' := Clear(s);
    assert Turn(s') == Turn(s);
    if !s.processingFinished {
      var n := |InTime(s)|;
      assert s'.fired == s'.ran == InTime(s)
          by { assert [] + s.responseSerializerCompletions == s.responseSerializerCompletions; }
      InTimeSplit(s);
    } else if OneLate(s) {
      var m := |s.appended| - 1;
      OneMoreRan(s.fired, s.raced, s.appended[..m], s.appended[m]);
      assert s.appended[..m] + [s.appended[m]] == s.appended;
    } else {
      assert s.fired + [] == s.fired;
    }
  }

  lemma {:induction false} InTimeSplit(s: State)
    requires |s.raced| <= |s.appended| && InTime(s) + s.raced == s.appended
    ensures AllButRaced(InTime(s), s.raced, s.appended)
  {
    assert SplitAt(InTime(s), s.raced, s.appended, |InTime(s)|);
  }

  lemma {:induction false} SerializationCalm(s: State)
    requires s.serializationQueue != []
    ensures !Settled(s)
    ensures OneLate(s) ==> OneLate(Next(s, SerializationRuns))
  {
    hide Completions, AllButRaced, Quiet;
    assert Turn(s)[0] == s.serializationQueue[0];
    if OneLate(s) {
      SerializationTurn(s);
      LateBusy(s);
    }
  }

  lemma {:induction false} DoneCalm(s: State, k: nat)
    requires k < |s.working|
    ensures !Settled(s)
    ensures OneLate(s) ==> OneLate(Next(s, SerializerDone(k)))
  {
    hide Completions, AllButRaced;
    assert |Turn(s)| > 0;
    if OneLate(s) {
      DoneTurn(s, k);
      LateBusy(s);
    }
  }

  /** cancel(), suspend(), resume() and asking for a finish. */
  lemma {:induction false} RequestCalm(s: State, state: Lifecycle)
    ensures Settled(s) ==> Settled(s.(state := state))
    ensures Settled(s) ==> Settled(s.(state := state, underlyingQueue := s.underlyingQueue + [Finish]))
    ensures OneLate(s) ==> OneLate(s.(state := state))
  {
    hide Turn, AllButRaced;
    FinishTurn(s, state);
  }

  lemma {:induction false} NextCalm(s: State, e: Event)
    requires Enabled(s, e) && CalmState(s)
    requires s.processingFinished ==> (e.Append? ==> AtRest(s)) && (AsksFinish(s, e) ==> s.responseSerializers == [])
    ensures CalmState(Next(s, e))
  {
    hide Behaved, Settled, OneLate, Turn, Appended, RunUnderlying, Check, Clear, AtRest;
    NextFinished(s, e);
    if e.Clears? {
      ClearCalm(s);
    } else if !s.processingFinished {
      NextBehaves(s, e);
    } else {
      FinishedCalm(s, e);
    }
  }

  /** Only a clear finishes the processing, and nothing takes that back. */
  lemma {:induction false} NextFinished(s: State, e: Event)
    requires Enabled(s, e)
    ensures Next(s, e).processingFinished <==> s.processingFinished || e.Clears?
  {
    hide Lifecycle.CanTransitionTo;
  }

  lemma {:induction false} FinishedCalm(s: State, e: Event)
    requires Enabled(s, e) && (Settled(s) || OneLate(s)) && s.processingFinished && !e.Clears?
    requires (e.Append? ==> AtRest(s)) && (AsksFinish(s, e) ==> s.responseSerializers == [])
    ensures Settled(Next(s, e)) || OneLate(Next(s, e))
  {
    hide Settled, OneLate, Turn, Appended, RunUnderlying, Check, Clear, AtRest, Lifecycle.CanTransitionTo;
    if OneLate(s) { LateBusy(s); }
    match e {
      case Append(id) => AppendAtRest(s, id);
      case UnderlyingRuns(startImmediately) =>
        if OneLate(s) { UnderlyingLate(s, startImmediately); } else { UnderlyingSettled(s, startImmediately); }
      case Checks => CheckCalm(s);
      case SerializationRuns => SerializationCalm(s);
      case SerializerDone(k) => DoneCalm(s, k);
      case Clears =>
      case _ =>
        RequestCalm(s, s.state);
        RequestCalm(s, Next(s, e).state);
    }
  }

  lemma {:induction false} AlwaysCalm(states: seq<State>, events: seq<Event>, k: nat)
    requires Calm(states, events) && k < |states|
    ensures CalmState(states[k])
  {
    hide Next, CalmState, Enabled, AtRest, AsksFinish;
    if k == 0 {
      NewBehaves();
      NewCalm();
    } else {
      AlwaysCalm(states, events, k - 1);
      NextCalm(states[k - 1], events[k - 1]);
    }
  }

  lemma {:induction false} NewCalm()
    requires Behaved(NEW_REQUEST)
    ensures CalmState(NEW_REQUEST)
  {
    hide Behaved;
  }

  /** In a calm run every check waits, so no serializer is started twice. */
  lemma {:induction false} CalmRunsOnce(states: seq<State>, events: seq<Event>, k: nat)
    requires Calm(states, events) && k < |states|
    ensures ChecksWait(states, events, k) && Distinct(Dispatched(states[k]))
  {
    hide Next, Turn, Dispatched, CalmState;
    forall j | 0 <= j < k && events[j].Checks? ensures Turn(states[j]) == [] {
      AlwaysCalm(states, events, j);
      assert Enabled(states[j], events[j]);
      CalmChecksWait(states[j]);
    }
    NoneTwice(states, events, k);
  }

  lemma {:induction false} CalmChecksWait(s: State)
    requires CalmState(s) && s.phase == BeforeCheck
    ensures Turn(s) == []
  {
    hide Turn, AllButRaced;
  }

  /** ... and when it comes to rest after a finish was asked for, every serializer ran exactly once and its
      completion was called exactly once, in append order, late ones included, but for those that fell
      between the last check and the first clear. */
  lemma {:induction false} CalmExactlyOnce(states: seq<State>, events: seq<Event>, k: nat)
    requires Calm(states, events) && k < |states| && FinishAsked(states, events, k) && AtRest(states[k])
    ensures var s := states[k];
            s.fired == s.ran && AllButRaced(s.ran, s.raced, s.appended) && Distinct(s.appended)
  {
    hide Next, CalmState;
    AlwaysCalm(states, events, k);
    AppendedOnce(states, events, k);
    AskedIsUnderway(states, events, k);
    CalmAtRest(states[k]);
  }

  lemma {:induction false} CalmAtRest(s: State)
    requires CalmState(s) && AtRest(s) && FinishUnderway(s)
    ensures s.fired == s.ran && AllButRaced(s.ran, s.raced, s.appended)
  {
    hide AllButRaced;
    assert Turn(s) == [];
    if s.processingFinished && OneLate(s) { LateBusy(s); }
  }

  // ---------- A caller who does not ----------

  const APPENDED_LATE: State :=
    NEW_REQUEST.(state := Resumed, processingFinished := true, responseSerializers := [1], appended := [1],
                 underlyingQueue := [ProcessNext])

  const CANCELLED_LATE: State :=
      APPENDED_LATE.(state := Cancelled, underlyingQueue := [Finish], serializationQueue := [1])

  /** One serializer appended after the end, and cancel() while it is out: it runs twice, because the
      clear has taken isFinishing back. */
  lemma {:induction false} LateCancelRunsTwice() returns (states: seq<State>, events: seq<Event>)
    ensures Run(states, events) && |events| == 12
    ensures events[4] == Append(1) && events[7] == Cancel(false)
    ensures forall k :: 0 <= k < 12 && events[k].Append? ==> k == 4 && AtRest(states[4])
    ensures states[12].appended == [1] && states[12].ran == [1, 1]
  {
    hide Run, Next, Enabled;
    states, events := EmptyFinish();
    AppendedLate(states[3]);
    states, events := Late(states, events, Clears);
    ghost var s4 := states[4];
    states, events := Late(states, events, Append(1));
    CancelledLate(states[5]);
    states, events := Late(states, events, UnderlyingRuns(true));
    states, events := Late(states, events, Checks);
    states, events := Late(states, events, Cancel(false));
    CancelledRuns(states[8]);
    states, events := Late(states, events, UnderlyingRuns(true));
    states, events := Late(states, events, Checks);
    states, events := Late(states, events, SerializationRuns);
    states, events := Late(states, events, SerializationRuns);
  }

  lemma {:induction false} AppendedLate(s: State)
    requires s == NEW_REQUEST.(isFinishing := true, phase := BeforeClear)
    ensures Enabled(s, Clears)
    ensures AtRest(Next(s, Clears)) && Enabled(Next(s, Clears), Append(1))
            && Next(Next(s, Clears), Append(1)) == APPENDED_LATE
  {
    assert Next(s, Clears) == NEW_REQUEST.(state := Finished, processingFinished := true);
  }

  lemma {:induction false} CancelledLate(s: State)
    requires s == APPENDED_LATE
    ensures Enabled(s, UnderlyingRuns(true))
    ensures var s1 := Next(s, UnderlyingRuns(true));
            Enabled(s1, Checks) && var s2 := Next(s1, Checks);
            Enabled(s2, Cancel(false)) && Next(s2, Cancel(false)) == CANCELLED_LATE
  {
    assert Next(s, UnderlyingRuns(true)) == s.(underlyingQueue := [], phase := BeforeCheck);
  }

  lemma {:induction false} CancelledRuns(s: State)
    requires s == CANCELLED_LATE
    ensures Enabled(s, UnderlyingRuns(true))
    ensures var s1 := Next(s, UnderlyingRuns(true));
            Enabled(s1, Checks) && var s2 := Next(s1, Checks);
            Enabled(s2, SerializationRuns) && var s3 := Next(s2, SerializationRuns);
            Enabled(s3, SerializationRuns) && var s4 := Next(s3, SerializationRuns);
            s4.appended == [1] && s4.ran == [1, 1]
  {
    var s2 := Next(Next(s, UnderlyingRuns(true)), Checks);
    assert s2 == s.(isFinishing := true, underlyingQueue := [], serializationQueue := [1, 1]);
  }
}
