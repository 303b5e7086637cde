/** The two-way map of RequestTaskMap.swift (47-148), with the events each task has had.  Tasks and
    requests are identified by numbers.  A fatalError is a None. */
module TaskMap {
  import opened Wrappers

  datatype Events = Events(completed: bool, metricsGathered: bool)

  datatype Maps = Maps(tasksToRequests: map<nat, nat>, requestsToTasks: map<nat, nat>, taskEvents: map<nat, Events>)

  const EMPTY: Maps := Maps(map[], map[], map[])

  // ---------- The operations ----------

  function Associated(m: Maps, request: nat, task: nat): Maps {
    Maps(m.tasksToRequests[task := request], m.requestsToTasks[request := task],
         m.taskEvents[task := Events(false, false)])
  }

  function Removed(m: Maps, request: nat, task: nat): Maps {
    Maps(m.tasksToRequests - {task}, m.requestsToTasks - {request}, m.taskEvents - {task})
  }

  /** self[request] = task */
  function SetTask(m: Maps, request: nat, task: Option<nat>): Option<Maps> {
    match task
    case Some(t) => Some(Associated(m, request, t))
    case None => if request in m.requestsToTasks then Some(Removed(m, request, m.requestsToTasks[request])) else None
  }

  /** self[task] = request */
  function SetRequest(m: Maps, task: nat, request: Option<nat>): Option<Maps> {
    match request
    case Some(r) => Some(Associated(m, r, task))
    case None => if task in m.tasksToRequests then Some(Removed(m, m.tasksToRequests[task], task)) else None
  }

  /** disassociateIfNecessaryAfterGatheringMetricsForTask(_:): the new maps, and whether the task was
      taken out. */
  function AfterMetrics(m: Maps, task: nat): Option<(Maps, bool)> {
    if task !in m.taskEvents || m.taskEvents[task].metricsGathered then None
    else if !m.taskEvents[task].completed then
      Some((m.(taskEvents := m.taskEvents[task := Events(false, true)]), false))
    else
      match SetRequest(m, task, None)
      case Some(m') => Some((m', true))
      case None => None
  }

  /** disassociateIfNecessaryAfterCompletingTask(_:), on a platform that gathers metrics or does not. */
  function AfterCompletion(m: Maps, task: nat, gathersMetrics: bool): Option<(Maps, bool)> {
    if task !in m.taskEvents || m.taskEvents[task].completed then None
    else if gathersMetrics && !m.taskEvents[task].metricsGathered then
      Some((m.(taskEvents := m.taskEvents[task := Events(true, false)]), false))
    else
      match SetRequest(m, task, None)
      case Some(m') => Some((m', true))
      case None => None
  }

  // ---------- What the operations do, key by key ----------

  /** Both dictionaries have the pair, the task has had no event, and every other key is as it was. */
  predicate Stored(m: Maps, m': Maps, request: nat, task: nat) {
    && m'.requestsToTasks.Keys == m.requestsToTasks.Keys + {request} && m'.requestsToTasks[request] == task
    && m'.tasksToRequests.Keys == m.tasksToRequests.Keys + {task} && m'.tasksToRequests[task] == request
    && m'.taskEvents.Keys == m.taskEvents.Keys + {task} && m'.taskEvents[task] == Events(false, false)
    && (forall r :: r in m.requestsToTasks && r != request ==> m'.requestsToTasks[r] == m.requestsToTasks[r])
    && (forall t :: t in m.tasksToRequests && t != task ==> m'.tasksToRequests[t] == m.tasksToRequests[t])
    && (forall t :: t in m.taskEvents && t != task ==> m'.taskEvents[t] == m.taskEvents[t])
  }

  /** The pair is gone from both dictionaries and the events, and every other key is as it was. */
  predicate Dropped(m: Maps, m': Maps, request: nat, task: nat) {
    && m'.requestsToTasks.Keys == m.requestsToTasks.Keys - {request}
    && m'.tasksToRequests.Keys == m.tasksToRequests.Keys - {task}
    && m'.taskEvents.Keys == m.taskEvents.Keys - {task}
    && (forall r :: r in m'.requestsToTasks ==> m'.requestsToTasks[r] == m.requestsToTasks[r])
    && (forall t :: t in m'.tasksToRequests ==> m'.tasksToRequests[t] == m.tasksToRequests[t])
    && (forall t :: t in m'.taskEvents ==> m'.taskEvents[t] == m.taskEvents[t])
  }

  /** Assigning stores the pair, whichever side it is assigned to. */
  lemma {:induction false} AssigningStores(m: Maps, request: nat, task: nat)
    ensures SetTask(m, request, Some(task)).Some? && Stored(m, SetTask(m, request, Some(task)).value, request, task)
    ensures SetRequest(m, task, Some(request)).Some?
            && Stored(m, SetRequest(m, task, Some(request)).value, request, task)
  {
  }

  /** Assigning nothing drops the pair with that key, and is a fatal error when there is none. */
  lemma {:induction false} ClearingDrops(m: Maps, key: nat)
    ensures SetTask(m, key, None).Some? <==> key in m.requestsToTasks
    ensures key in m.requestsToTasks ==> Dropped(m, SetTask(m, key, None).value, key, m.requestsToTasks[key])
    ensures SetRequest(m, key, None).Some? <==> key in m.tasksToRequests
    ensures key in m.tasksToRequests ==> Dropped(m, SetRequest(m, key, None).value, m.tasksToRequests[key], key)
  {
  }

  /** Only the task's events change. */
  predicate OnlyNoted(m: Maps, m': Maps, task: nat, events: Events) {
    && m'.requestsToTasks == m.requestsToTasks && m'.tasksToRequests == m.tasksToRequests
    && m'.taskEvents.Keys == m.taskEvents.Keys + {task} && m'.taskEvents[task] == events
    && (forall t :: t in m.taskEvents && t != task ==> m'.taskEvents[t] == m.taskEvents[t])
  }

  /** Metrics of an unknown task, or a second time, are a fatal error; before the task completed they are
      noted, and after that the task is taken out. */
  lemma {:induction false} MetricsDecide(m: Maps, task: nat)
    requires Inverse(m)
    ensures AfterMetrics(m, task).None? <==> task !in m.taskEvents || m.taskEvents[task].metricsGathered
    ensures AfterMetrics(m, task).Some? ==>
              var (m', out) := AfterMetrics(m, task).value;
              && out == m.taskEvents[task].completed
              && if out then Dropped(m, m', m.tasksToRequests[task], task)
                  else OnlyNoted(m, m', task, Events(false, true))
  {
    ClearingDrops(m, task);
  }

  /** Completion of an unknown task, or a second time, is a fatal error; while metrics are still to come it
      is noted, and otherwise the task is taken out. */
  lemma {:induction false} CompletionDecides(m: Maps, task: nat, gathersMetrics: bool)
    requires Inverse(m)
    ensures AfterCompletion(m, task, gathersMetrics).None? <==> task !in m.taskEvents || m.taskEvents[task].completed
    ensures AfterCompletion(m, task, gathersMetrics).Some? ==>
              var (m', out) := AfterCompletion(m, task, gathersMetrics).value;
              && out == (m.taskEvents[task].metricsGathered || !gathersMetrics)
              && if out then Dropped(m, m', m.tasksToRequests[task], task)
                  else OnlyNoted(m, m', task, Events(true, false))
  {
    ClearingDrops(m, task);
  }

  // ---------- One to one ----------

  /** The two dictionaries are inverse to each other, and every associated task has events. */
  ghost predicate Inverse(m: Maps) {
    && (forall t :: t in m.tasksToRequests ==>
          m.tasksToRequests[t] in m.requestsToTasks && m.requestsToTasks[m.tasksToRequests[t]] == t)
    && (forall r :: r in m.requestsToTasks ==>
          m.requestsToTasks[r] in m.tasksToRequests && m.tasksToRequests[m.requestsToTasks[r]] == r)
    && m.taskEvents.Keys == m.tasksToRequests.Keys
  }

  /** Associating keeps the map one to one exactly when neither the request nor the task is associated
      with another. */
  lemma {:induction false} AssociateKeepsInverse(m: Maps, request: nat, task: nat)
    requires Inverse(m)
    ensures Inverse(Associated(m, request, task)) <==>
            (request !in m.requestsToTasks && task !in m.tasksToRequests)
            || (request in m.requestsToTasks && m.requestsToTasks[request] == task)
  {
    var m' := Associated(m, request, task);
    if request in m.requestsToTasks && m.requestsToTasks[request] != task {
      assert m'.tasksToRequests[m.requestsToTasks[request]] == request;
    }
    if task in m.tasksToRequests && m.tasksToRequests[task] != request {
      assert m'.requestsToTasks[m.tasksToRequests[task]] == task;
    }
  }

  /** Taking an entry out by either key takes it out by the other. */
  lemma {:induction false} RemoveKeepsInverse(m: Maps, request: nat, task: nat)
    requires Inverse(m) && request in m.requestsToTasks && m.requestsToTasks[request] == task
    ensures Inverse(Removed(m, request, task))
    ensures SetTask(m, request, None) == SetRequest(m, task, None) == Some(Removed(m, request, task))
    ensures request !in Removed(m, request, task).requestsToTasks && task !in Removed(m, request, task).tasksToRequests
  {
  }

  /** The preconditions of `count`, `eventCount` and the two `isEmpty`s hold of a one to one map. */
  lemma {:induction false} CountsAgree(m: Maps)
    requires Inverse(m)
    ensures |m.tasksToRequests| == |m.requestsToTasks| == |m.taskEvents|
    decreases |m.tasksToRequests|
  {
    assert |m.taskEvents.Keys| == |m.tasksToRequests.Keys|;
    if m.tasksToRequests == map[] {
      assert forall r :: r !in m.requestsToTasks;
      assert m.requestsToTasks == map[];
    } else {
      var t :| t in m.tasksToRequests;
      var r := m.tasksToRequests[t];
      var m' := Removed(m, r, t);
      RemoveKeepsInverse(m, r, t);
      assert m'.tasksToRequests.Keys == m.tasksToRequests.Keys - {t};
      assert m'.requestsToTasks.Keys == m.requestsToTasks.Keys - {r};
      CountsAgree(m');
    }
  }

  // ---------- Runs ----------

  datatype Use = Associate(request: nat, task: nat) | Metrics(task: nat) | Completion(task: nat)

  /** What has happened: the tasks that were associated, gathered metrics, and completed. */
  datatype History = History(tasks: set<nat>, gathered: set<nat>, completed: set<nat>)

  /** A task is associated once, with a request that has none, and then receives one completion event
      and, on a platform that gathers metrics, one metrics event. */
  predicate Proper(m: Maps, h: History, use: Use, gathersMetrics: bool) {
    match use
    case Associate(request, task) => task !in h.tasks && request !in m.requestsToTasks
    case Metrics(task) => gathersMetrics && task in h.tasks && task !in h.gathered
    case Completion(task) => task in h.tasks && task !in h.completed
  }

  function Noted(h: History, use: Use): History {
    match use
    case Associate(_, task) => h.(tasks := h.tasks + {task})
    case Metrics(task) => h.(gathered := h.gathered + {task})
    case Completion(task) => h.(completed := h.completed + {task})
  }

  /** The effect of a use, and what it returns; None is a consistency error. */
  function Effect(m: Maps, use: Use, gathersMetrics: bool): Option<(Maps, bool)> {
    match use
    case Associate(request, task) =>
      (match SetTask(m, request, Some(task))
       case Some(m') => Some((m', false))
       case None => None)
    case Metrics(task) => AfterMetrics(m, task)
    case Completion(task) => AfterCompletion(m, task, gathersMetrics)
  }

  /** The task has had all the events it will get. */
  predicate AllEvents(h: History, task: nat, gathersMetrics: bool) {
    task in h.completed && (gathersMetrics ==> task in h.gathered)
  }

  ghost predicate Matches(m: Maps, h: History, gathersMetrics: bool) {
    && Inverse(m)
    && (forall t :: t in m.tasksToRequests <==> t in h.tasks && !AllEvents(h, t, gathersMetrics))
    && (forall t :: t in m.taskEvents ==> m.taskEvents[t] == Events(t in h.completed, t in h.gathered))
    && h.gathered <= h.tasks && h.completed <= h.tasks && (!gathersMetrics ==> h.gathered == {})
  }

  /** A proper use causes no consistency error, and takes a task out exactly at its last event. */
  lemma {:induction false} ProperUse(m: Maps, h: History, use: Use, gathersMetrics: bool)
    requires Matches(m, h, gathersMetrics) && Proper(m, h, use, gathersMetrics)
    ensures Effect(m, use, gathersMetrics).Some?
    ensures Matches(Effect(m, use, gathersMetrics).value.0, Noted(h, use), gathersMetrics)
    ensures Effect(m, use, gathersMetrics).value.1 <==>
            !use.Associate? && AllEvents(Noted(h, use), use.task, gathersMetrics)
  {
    var h' := Noted(h, use);
    match use {
      case Associate(request, task) =>
        AssociateKeepsInverse(m, request, task);
      case Metrics(task) =>
        MetricsUse(m, h, task, gathersMetrics);
      case Completion(task) =>
        CompletionUse(m, h, task, gathersMetrics);
    }
  }

  lemma {:induction false} MetricsUse(m: Maps, h: History, task: nat, gathersMetrics: bool)
    requires Matches(m, h, gathersMetrics) && Proper(m, h, Metrics(task), gathersMetrics)
    ensures AfterMetrics(m, task).Some?
    ensures var r := AfterMetrics(m, task).value;
            && Matches(r.0, Noted(h, Metrics(task)), gathersMetrics)
            && (r.1 <==> AllEvents(Noted(h, Metrics(task)), task, gathersMetrics))
  {
    assert task in m.tasksToRequests && task in m.taskEvents;
    var h' := Noted(h, Metrics(task));
    assert forall t :: t != task ==> AllEvents(h', t, gathersMetrics) == AllEvents(h, t, gathersMetrics);
    RemoveKeepsInverse(m, m.tasksToRequests[task], task);
  }

  lemma {:induction false} CompletionUse(m: Maps, h: History, task: nat, gathersMetrics: bool)
    requires Matches(m, h, gathersMetrics) && Proper(m, h, Completion(task), gathersMetrics)
    ensures AfterCompletion(m, task, gathersMetrics).Some?
    ensures var r := AfterCompletion(m, task, gathersMetrics).value;
            && Matches(r.0, Noted(h, Completion(task)), gathersMetrics)
            && (r.1 <==> AllEvents(Noted(h, Completion(task)), task, gathersMetrics))
  {
    assert task in m.tasksToRequests && task in m.taskEvents;
    var h' := Noted(h, Completion(task));
    assert forall t :: t != task ==> AllEvents(h', t, gathersMetrics) == AllEvents(h, t, gathersMetrics);
    RemoveKeepsInverse(m, m.tasksToRequests[task], task);
  }

  /** What a sequence of uses leaves, or None when one of them is a consistency error. */
  function After(uses: seq<Use>, gathersMetrics: bool): Option<Maps> {
    if uses == [] then Some(EMPTY)
    else
      match After(uses[..|uses| - 1], gathersMetrics)
      case None => None
      case Some(m) =>
        match Effect(m, uses[|uses| - 1], gathersMetrics)
        case None => None
        case Some(r) => Some(r.0)
  }

  function AllNoted(uses: seq<Use>): History {
    if uses == [] then History({}, {}, {}) else Noted(AllNoted(uses[..|uses| - 1]), uses[|uses| - 1])
  }

  /** Each use is proper where it comes. */
  predicate ProperRun(uses: seq<Use>, gathersMetrics: bool) {
    uses == [] ||
    (var before, use := uses[..|uses| - 1], uses[|uses| - 1];
     ProperRun(before, gathersMetrics) &&
     (After(before, gathersMetrics).Some? ==>
      Proper(After(before, gathersMetrics).value, AllNoted(before), use, gathersMetrics)))
  }

  /** In every proper run: no consistency error, the two maps stay inverse to each other, and a task is
      associated exactly from its association to the last of its events. */
  lemma {:induction false} RunIsConsistent(uses: seq<Use>, gathersMetrics: bool)
    requires ProperRun(uses, gathersMetrics)
    ensures After(uses, gathersMetrics).Some?
    ensures var m, h := After(uses, gathersMetrics).value, AllNoted(uses);
            && Inverse(m)
            && (forall t :: t in m.tasksToRequests <==> t in h.tasks && !AllEvents(h, t, gathersMetrics))
            && Matches(m, h, gathersMetrics)
  {
    hide Proper, Noted, Effect;
    if uses == [] {
      EmptyMatches(gathersMetrics);
    } else {
      var before, use := uses[..|uses| - 1], uses[|uses| - 1];
      RunIsConsistent(before, gathersMetrics);
      ProperUse(After(before, gathersMetrics).value, AllNoted(before), use, gathersMetrics);
    }
  }

  lemma {:induction false} EmptyMatches(gathersMetrics: bool)
    ensures Matches(EMPTY, History({}, {}, {}), gathersMetrics)
  {
  }
}
