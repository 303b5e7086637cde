/** The map object of RequestTaskMap.swift, its three dictionaries updated in place. */
module RequestTaskMap {
  import opened Wrappers
  import T = TaskMap

  class RequestTaskMap {
    var tasksToRequests: map<nat, nat>
    var requestsToTasks: map<nat, nat>
    var taskEvents: map<nat, T.Events>

    ghost function Now(): T.Maps
      reads this
    {
      T.Maps(tasksToRequests, requestsToTasks, taskEvents)
    }

    constructor ()
      ensures Now() == T.EMPTY
    {
      tasksToRequests, requestsToTasks, taskEvents := map[], map[], map[];
    }

    /** self[request] = newValue; `fatal` stands for the fatalError. */
    method SetTask(request: nat, newValue: Option<nat>) returns (fatal: bool)
      modifies this
      ensures fatal <==> T.SetTask(old(Now()), request, newValue).None?
      ensures !fatal ==> Some(Now()) == T.SetTask(old(Now()), request, newValue)
    {
      if newValue.None? {
        if request !in requestsToTasks { return true; }
        var task := requestsToTasks[request];
        requestsToTasks := requestsToTasks - {request};
        tasksToRequests := tasksToRequests - {task};
        taskEvents := taskEvents - {task};
        return false;
      }
      requestsToTasks := requestsToTasks[request := newValue.value];
      tasksToRequests := tasksToRequests[newValue.value := request];
      taskEvents := taskEvents[newValue.value := T.Events(false, false)];
      fatal := false;
    }

    /** self[task] = newValue */
    method SetRequest(task: nat, newValue: Option<nat>) returns (fatal: bool)
      modifies this
      ensures fatal <==> T.SetRequest(old(Now()), task, newValue).None?
      ensures !fatal ==> Some(Now()) == T.SetRequest(old(Now()), task, newValue)
    {
      if newValue.None? {
        if task !in tasksToRequests { return true; }
        var request := tasksToRequests[task];
        tasksToRequests := tasksToRequests - {task};
        requestsToTasks := requestsToTasks - {request};
        taskEvents := taskEvents - {task};
        return false;
      }
      tasksToRequests := tasksToRequests[task := newValue.value];
      requestsToTasks := requestsToTasks[newValue.value := task];
      taskEvents := taskEvents[task := T.Events(false, false)];
      fatal := false;
    }

    /** count, under the invariant its precondition checks. */
    method Count() returns (count: nat)
      requires T.Inverse(Now())
      ensures count == |requestsToTasks| == |tasksToRequests| == |taskEvents|
    {
      T.CountsAgree(Now());
      count := |tasksToRequests|;
    }

    /** disassociateIfNecessaryAfterGatheringMetricsForTask(_:) */
    method DisassociateIfNecessaryAfterGatheringMetrics(task: nat) returns (fatal: bool, disassociated: bool)
      modifies this
      ensures fatal <==> T.AfterMetrics(old(Now()), task).None?
      ensures !fatal ==> T.AfterMetrics(old(Now()), task) == Some((Now(), disassociated))
    {
      if task !in taskEvents { return true, false; }
      var events := taskEvents[task];
      if events.metricsGathered { return true, false; }
      if !events.completed {
        taskEvents := taskEvents[task := T.Events(false, true)];
        return false, false;
      }
      fatal := SetRequest(task, None);
      disassociated := true;
    }

    /** disassociateIfNecessaryAfterCompletingTask(_:) */
    method DisassociateIfNecessaryAfterCompleting(task: nat, gathersMetrics: bool)
        returns (fatal: bool, disassociated: bool)
      modifies this
      ensures fatal <==> T.AfterCompletion(old(Now()), task, gathersMetrics).None?
      ensures !fatal ==> T.AfterCompletion(old(Now()), task, gathersMetrics) == Some((Now(), disassociated))
    {
      if task !in taskEvents { return true, false; }
      var events := taskEvents[task];
      if events.completed { return true, false; }
      if !events.metricsGathered && gathersMetrics {
        taskEvents := taskEvents[task := T.Events(true, false)];
        return false, false;
      }
      fatal := SetRequest(task, None);
      disassociated := true;
    }
  }
}
