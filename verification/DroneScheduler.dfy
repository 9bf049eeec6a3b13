/** The scheduler object: methods that update task statuses and counters in place. */
module DroneScheduler {
  import opened Scheduler

  datatype Stats = Stats(totalSubmitted: nat, completed: nat, failed: nat, pending: nat, running: nat, successRate: real)

  class DroneScheduler {
    var tasks: seq<Task>
    const maxConcurrent: nat
    var runningCount: nat
    var completedCount: nat
    var failedCount: nat
    var nextId: nat

    function Model(): State
      reads this
    {
      State(tasks, maxConcurrent, runningCount, completedCount, failedCount, nextId)
    }

    constructor (max: nat)
      ensures Model() == Init(max) && Inv(Model())
    {
      tasks := [];
      maxConcurrent := if max >= 1 then max else 1;
      runningCount, completedCount, failedCount, nextId := 0, 0, 0, 1;
    }

    method SubmitTask(kind: Kind, payload: string, priority: nat) returns (id: nat)
      modifies this
      ensures Model() == Submit(old(Model()), kind, payload, priority) && id == old(nextId)
      ensures tasks == old(tasks) + [Task(id, kind, priority, payload, Pending)] && nextId == id + 1
      ensures old(Inv(Model())) ==> Inv(Model())
    {
      if Inv(Model()) { SubmitInv(Model(), kind, payload, priority); }
      id := nextId;
      nextId := nextId + 1;
      tasks := tasks + [Task(id, kind, priority, payload, Pending)];
    }

    method PendingPositions() returns (pending: seq<nat>)
      ensures pending == PendingBelow(tasks, |tasks|)
    {
      hide PendingBelow;
      pending := [];
      PendingStep(tasks, 0);
      for i := 0 to |tasks|
        invariant pending == PendingBelow(tasks, i)
      {
        PendingStep(tasks, i + 1);
        if tasks[i].status == Pending {
          pending := pending + [i];
        }
      }
    }

    method StartTasks(picks: seq<nat>) returns (started: seq<nat>)
      requires forall i :: 0 <= i < |picks| ==> picks[i] < |tasks|
      modifies this`tasks, this`runningCount
      ensures tasks == StartAll(old(tasks), picks)
      ensures runningCount == old(runningCount) + |picks|
      ensures started == Ids(old(tasks), picks)
    {
      ghost var ts := tasks;
      started := [];
      assert picks[0..] == picks;
      for n := 0 to |picks|
        invariant |tasks| == |ts| && StartAll(ts, picks) == StartAll(tasks, picks[n..])
        invariant forall i :: 0 <= i < |tasks| ==> tasks[i].id == ts[i].id
        invariant started == Ids(ts, picks[..n])
        invariant runningCount == old(runningCount) + n
      {
        assert picks[n..][1..] == picks[n + 1..];
        var idx := picks[n];
        tasks := tasks[idx := tasks[idx].(status := Running)];
        runningCount := runningCount + 1;
        started := started + [tasks[idx].id];
      }
      assert picks[..|picks|] == picks;
    }

    /** `tick`: collect the pending positions, sort them stably by priority, start as many as there are slots. */
    method TickTasks() returns (started: seq<nat>)
      modifies this
      ensures (Model(), started) == Tick(old(Model()))
      ensures old(Inv(Model())) ==> Inv(Model())
    {
      hide StableSort, Inv, Count, PendingBelow, StartAll;
      ghost var s := Model();
      if Inv(s) { TickStarts(s); }
      var slots := SatSub(maxConcurrent, runningCount);
      if slots == 0 {
        StartNothing(s);
        return [];
      }
      var pending := PendingPositions();
      var order := StableSort(tasks, pending);
      var picks := if slots <= |order| then order[..slots] else order;
      assert picks == Picks(s);
      started := StartTasks(picks);
    }

    method CompleteTask(id: nat, success: bool)
      modifies this
      ensures Model() == Complete(old(Model()), id, success)
      ensures old(Inv(Model())) ==> Inv(Model())
    {
      hide Inv, Count;
      if Inv(Model()) { CompleteInv(Model(), id, success); }
      var i := Find(tasks, id);
      if i < |tasks| {
        if tasks[i].status != Running {
          return;
        }
        if success {
          tasks := tasks[i := tasks[i].(status := Completed)];
          completedCount := completedCount + 1;
        } else {
          tasks := tasks[i := tasks[i].(status := Failed)];
          failedCount := failedCount + 1;
        }
        runningCount := SatSub(runningCount, 1);
      }
    }

    method CancelTask(id: nat) returns (cancelled: bool)
      modifies this
      ensures Model() == Cancel(old(Model()), id)
      ensures cancelled <==> Model() != old(Model())
      ensures old(Inv(Model())) ==> Inv(Model())
    {
      hide Inv, Count;
      if Inv(Model()) { CancelInv(Model(), id); }
      var i := Find(tasks, id);
      if i == |tasks| || tasks[i].status.Terminal() {
        return false;
      }
      var wasRunning := tasks[i].status == Running;
      ghost var before := tasks;
      tasks := tasks[i := tasks[i].(status := Cancelled)];
      assert tasks[i] != before[i];
      if wasRunning {
        runningCount := SatSub(runningCount, 1);
      }
      cancelled := true;
    }

    method PendingCount() returns (n: nat)
      ensures n == Count(tasks, Pending)
    {
      n := 0;
      for i := 0 to |tasks|
        invariant n == Count(tasks[..i], Pending)
      {
        assert tasks[..i + 1][..i] == tasks[..i];
        if tasks[i].status == Pending {
          n := n + 1;
        }
      }
      assert tasks[..|tasks|] == tasks;
    }

    /** `scheduler_stats`: what it reports accounts for every submitted task except the cancelled ones. */
    method SchedulerStats() returns (r: Stats)
      requires Inv(Model())
      ensures r.totalSubmitted == |tasks|
      ensures r.pending == Count(tasks, Pending) && r.running == Count(tasks, Running)
      ensures r.completed == Count(tasks, Completed) && r.failed == Count(tasks, Failed)
      ensures r.completed + r.failed == 0 ==> r.successRate == 1.0
      ensures r.totalSubmitted == r.pending + r.running + r.completed + r.failed + Count(tasks, Cancelled)
      ensures 0.0 <= r.successRate <= 1.0
      ensures r.completed + r.failed > 0 ==>
        r.successRate * (r.completed + r.failed) as real == r.completed as real
    {
      hide Count;
      Conservation(tasks);
      var pending := PendingCount();
      var finished := completedCount + failedCount;
      var rate := if finished == 0 then 1.0 else completedCount as real / finished as real;
      RateBounds(completedCount, finished);
      r := Stats(nextId - 1, completedCount, failedCount, pending, runningCount, rate);
    }
  }

  lemma StartNothing(s: State)
    requires SatSub(s.maxConcurrent, s.running) == 0
    ensures Tick(s) == (s, [])
  {
    hide Order;
    assert Picks(s) == [];
  }

  lemma RateBounds(c: nat, n: nat)
    requires c <= n
    ensures n > 0 ==> 0.0 <= c as real / n as real <= 1.0 && (c as real / n as real) * n as real == c as real
  {
  }
}
