/** The drone's priority scheduler: a state machine over task statuses and the counters kept beside them. */
module Scheduler {

  datatype Status = Pending | Running | Completed | Failed | Cancelled {
    predicate Terminal() {
      Completed? || Failed? || Cancelled?
    }
  }

  datatype Kind = Scan | Monitor | Report | Sync | HealthCheck

  datatype Task = Task(id: nat, kind: Kind, priority: nat, payload: string, status: Status)

  datatype State = State(tasks: seq<Task>, maxConcurrent: nat, running: nat, completed: nat, failed: nat, nextId: nat)

  // ----- counting statuses

  function Count(ts: seq<Task>, st: Status): nat {
    if ts == [] then 0 else Count(ts[..|ts| - 1], st) + if ts[|ts| - 1].status == st then 1 else 0
  }

  function One(t: Task, st: Status): nat {
    if t.status == st then 1 else 0
  }

  lemma {:induction false} CountUpdate(ts: seq<Task>, i: nat, t: Task, st: Status)
    requires i < |ts|
    ensures Count(ts[i := t], st) + One(ts[i], st) == Count(ts, st) + One(t, st)
  {
    var us, n := ts[i := t], |ts| - 1;
    if i < n {
      assert us[..n] == ts[..n][i := t];
      CountUpdate(ts[..n], i, t, st);
    } else {
      assert us[..n] == ts[..n];
    }
  }

  lemma CountSnoc(ts: seq<Task>, t: Task, st: Status)
    ensures Count(ts + [t], st) == Count(ts, st) + One(t, st)
  {
    assert (ts + [t])[..|ts|] == ts;
  }

  lemma {:induction false} CountHas(ts: seq<Task>, i: nat)
    requires i < |ts|
    ensures Count(ts, ts[i].status) > 0
  {
    if i < |ts| - 1 {
      CountHas(ts[..|ts| - 1], i);
    }
  }

  lemma {:induction false} CountWitness(ts: seq<Task>, st: Status) returns (i: nat)
    requires Count(ts, st) > 0
    ensures i < |ts| && ts[i].status == st
  {
    if ts[|ts| - 1].status == st {
      i := |ts| - 1;
    } else {
      i := CountWitness(ts[..|ts| - 1], st);
    }
  }

  /** Every submitted task is in exactly one of the five statuses. */
  lemma {:induction false} Conservation(ts: seq<Task>)
    ensures |ts| == Count(ts, Pending) + Count(ts, Running) + Count(ts, Completed) + Count(ts, Failed) + Count(ts, Cancelled)
  {
    if ts != [] {
      Conservation(ts[..|ts| - 1]);
    }
  }

  // ----- the invariant

  ghost predicate Inv(s: State) {
    && s.maxConcurrent >= 1
    && s.running == Count(s.tasks, Running) <= s.maxConcurrent
    && s.completed == Count(s.tasks, Completed)
    && s.failed == Count(s.tasks, Failed)
    && s.nextId == |s.tasks| + 1
    && (forall i :: 0 <= i < |s.tasks| ==> s.tasks[i].id == i + 1)
  }

  function Init(maxConcurrent: nat): State {
    State([], if maxConcurrent >= 1 then maxConcurrent else 1, 0, 0, 0, 1)
  }

  // ----- submit, complete, cancel

  function Submit(s: State, kind: Kind, payload: string, priority: nat): State {
    s.(tasks := s.tasks + [Task(s.nextId, kind, priority, payload, Pending)], nextId := s.nextId + 1)
  }

  /** `saturating_sub`. */
  function SatSub(a: nat, b: nat): nat {
    if a >= b then a - b else 0
  }

  /** Position of the first task with this id, or the number of tasks. */
  function Find(ts: seq<Task>, id: nat): (i: nat)
    ensures i <= |ts| && (i < |ts| ==> ts[i].id == id) && forall j :: 0 <= j < i ==> ts[j].id != id
  {
    if ts == [] then 0 else if ts[0].id == id then 0 else 1 + Find(ts[1..], id)
  }

  function Complete(s: State, id: nat, success: bool): State {
    var i := Find(s.tasks, id);
    if i == |s.tasks| || s.tasks[i].status != Running then s
    else if success then
      s.(tasks := s.tasks[i := s.tasks[i].(status := Completed)], completed := s.completed + 1, running := SatSub(s.running, 1))
    else
      s.(tasks := s.tasks[i := s.tasks[i].(status := Failed)], failed := s.failed + 1, running := SatSub(s.running, 1))
  }

  function Cancel(s: State, id: nat): State {
    var i := Find(s.tasks, id);
    if i == |s.tasks| || s.tasks[i].status.Terminal() then s
    else
      s.(tasks := s.tasks[i := s.tasks[i].(status := Cancelled)],
         running := if s.tasks[i].status == Running then SatSub(s.running, 1) else s.running)
  }

  lemma SubmitInv(s: State, kind: Kind, payload: string, priority: nat)
    requires Inv(s)
    ensures Inv(Submit(s, kind, payload, priority))
  {
    hide Count;
    var t := Task(s.nextId, kind, priority, payload, Pending);
    CountSnoc(s.tasks, t, Running);
    CountSnoc(s.tasks, t, Completed);
    CountSnoc(s.tasks, t, Failed);
  }

  /** A submission appends one pending task with the arguments and the next id, and touches nothing else. */
  lemma SubmitAppends(s: State, kind: Kind, payload: string, priority: nat)
    requires Inv(s)
    ensures var r, n := Submit(s, kind, payload, priority), |s.tasks|;
            && |r.tasks| == n + 1 && r.tasks[..n] == s.tasks
            && r.tasks[n].id == n + 1 && r.tasks[n].kind == kind && r.tasks[n].payload == payload
            && r.tasks[n].priority == priority && r.tasks[n].status == Pending
            && r.maxConcurrent == s.maxConcurrent && r.running == s.running
            && r.completed == s.completed && r.failed == s.failed
  {
    hide Count;
  }

  /** The positions with a status. */
  function Positions(ts: seq<Task>, st: Status): set<nat> {
    set i: nat | i < |ts| && ts[i].status == st
  }

  lemma PositionsSnoc(ts: seq<Task>, st: Status)
    requires ts != []
    ensures var n := |ts| - 1;
            Positions(ts, st) == Positions(ts[..n], st) + if ts[n].status == st then {n} else {}
  {
  }

  /** A count is the number of positions with that status. */
  lemma {:induction false} CountIs(ts: seq<Task>, st: Status)
    ensures Count(ts, st) == |Positions(ts, st)|
  {
    if ts == [] {
      assert Positions(ts, st) == {};
    } else {
      var n := |ts| - 1;
      CountIs(ts[..n], st);
      PositionsSnoc(ts, st);
      assert n !in Positions(ts[..n], st);
      hide Positions;
    }
  }

  /** Moving one running or pending task to another status moves the counts with it. */
  lemma MoveInv(ts: seq<Task>, i: nat, to: Status)
    requires i < |ts| && ts[i].status != to
    ensures var us := ts[i := ts[i].(status := to)];
            && Count(us, to) == Count(ts, to) + 1
            && Count(us, ts[i].status) == Count(ts, ts[i].status) - 1
            && (forall st :: st != to && st != ts[i].status ==> Count(us, st) == Count(ts, st))
  {
    hide Count;
    var t := ts[i].(status := to);
    forall st ensures Count(ts[i := t], st) + One(ts[i], st) == Count(ts, st) + One(t, st) {
      CountUpdate(ts, i, t, st);
    }
    assert Count(ts[i := t], to) + One(ts[i], to) == Count(ts, to) + One(t, to);
    assert Count(ts[i := t], ts[i].status) + One(ts[i], ts[i].status) == Count(ts, ts[i].status) + One(t, ts[i].status);
  }

  /** Completing keeps the counters exact, and its saturating subtraction never saturates. */
  lemma CompleteInv(s: State, id: nat, success: bool)
    requires Inv(s)
    ensures Inv(Complete(s, id, success))
    ensures Complete(s, id, success) != s ==> s.running >= 1
  {
    hide Count;
    var i := Find(s.tasks, id);
    if i < |s.tasks| && s.tasks[i].status == Running {
      CountHas(s.tasks, i);
      MoveInv(s.tasks, i, if success then Completed else Failed);
    }
  }

  lemma CancelInv(s: State, id: nat)
    requires Inv(s)
    ensures Inv(Cancel(s, id))
    ensures Cancel(s, id) != s && s.tasks[Find(s.tasks, id)].status == Running ==> s.running >= 1
  {
    hide Count;
    var i := Find(s.tasks, id);
    if i < |s.tasks| && !s.tasks[i].status.Terminal() {
      CountHas(s.tasks, i);
      MoveInv(s.tasks, i, Cancelled);
    }
  }

  // ----- tick

  /** The order tasks are started in: higher priority first, then earlier submission. */
  predicate Outranks(ts: seq<Task>, i: nat, j: nat)
    requires i < |ts| && j < |ts|
  {
    ts[i].priority > ts[j].priority || (ts[i].priority == ts[j].priority && i < j)
  }

  ghost predicate Ranked(ts: seq<Task>, order: seq<nat>) {
    && (forall i :: 0 <= i < |order| ==> order[i] < |ts|)
    && (forall i, j :: 0 <= i < j < |order| ==> Outranks(ts, order[i], order[j]))
  }

  /** Positions of the pending tasks below `n`, in submission order. */
  function PendingBelow(ts: seq<Task>, n: nat): (ps: seq<nat>)
    requires n <= |ts|
    ensures forall p :: p in ps <==> 0 <= p < n && ts[p].status == Pending
    ensures forall i :: 0 <= i < |ps| ==> ps[i] < n
    ensures |ps| == Count(ts[..n], Pending)
  {
    if n == 0 then []
    else
      assert ts[..n][..n - 1] == ts[..n - 1];
      PendingBelow(ts, n - 1) + if ts[n - 1].status == Pending then [n - 1] else []
  }

  /** Where a stable descending sort puts `p`: behind everything of at least its priority. */
  function Insert(ts: seq<Task>, order: seq<nat>, p: nat): (r: seq<nat>)
    requires p < |ts| && forall i :: 0 <= i < |order| ==> order[i] < |ts|
    ensures multiset(r) == multiset(order) + multiset{p}
    ensures forall i :: 0 <= i < |r| ==> r[i] < |ts|
  {
    if order == [] then [p]
    else
      assert order == [order[0]] + order[1..];
      if ts[order[0]].priority >= ts[p].priority then [order[0]] + Insert(ts, order[1..], p)
      else [p] + order
  }

  /** `sort_by` with descending priority: a stable sort, one element at a time. */
  function StableSort(ts: seq<Task>, ps: seq<nat>): (r: seq<nat>)
    requires forall i :: 0 <= i < |ps| ==> ps[i] < |ts|
    ensures multiset(r) == multiset(ps)
    ensures forall i :: 0 <= i < |r| ==> r[i] < |ts|
  {
    if ps == [] then []
    else
      assert ps == ps[..|ps| - 1] + [ps[|ps| - 1]];
      Insert(ts, StableSort(ts, ps[..|ps| - 1]), ps[|ps| - 1])
  }

  lemma RankedCons(ts: seq<Task>, x: nat, rest: seq<nat>)
    requires x < |ts| && Ranked(ts, rest)
    requires forall j :: 0 <= j < |rest| ==> Outranks(ts, x, rest[j])
    ensures Ranked(ts, [x] + rest)
  {
    hide Outranks;
    var order := [x] + rest;
    forall i, j | 0 <= i < j < |order| ensures Outranks(ts, order[i], order[j]) {
      assert order[j] == rest[j - 1];
      if i > 0 { assert order[i] == rest[i - 1]; }
    }
  }

  lemma RankedTail(ts: seq<Task>, order: seq<nat>)
    requires order != [] && Ranked(ts, order)
    ensures Ranked(ts, order[1..])
    ensures forall j :: 0 <= j < |order[1..]| ==> Outranks(ts, order[0], order[1..][j])
  {
    hide Outranks;
    assert forall j :: 0 <= j < |order[1..]| ==> order[1..][j] == order[j + 1];
  }

  lemma {:induction false} InsertRanked(ts: seq<Task>, order: seq<nat>, p: nat)
    requires p < |ts| && Ranked(ts, order) && forall i :: 0 <= i < |order| ==> order[i] < p
    ensures Ranked(ts, Insert(ts, order, p))
  {
    if order != [] {
      RankedTail(ts, order);
      hide Ranked;
      if ts[order[0]].priority >= ts[p].priority {
        InsertRanked(ts, order[1..], p);
        var rest := Insert(ts, order[1..], p);
        forall j | 0 <= j < |rest| ensures Outranks(ts, order[0], rest[j]) {
          assert rest[j] in multiset(rest);
          assert rest[j] == p || rest[j] in order[1..];
        }
        RankedCons(ts, order[0], rest);
      } else {
        forall j | 0 <= j < |order| ensures Outranks(ts, p, order[j]) {
          assert j == 0 || order[j] == order[1..][j - 1];
        }
        RankedCons(ts, p, order);
      }
    }
  }

  /** The list of pending tasks, ranked. */
  function Order(ts: seq<Task>): seq<nat> {
    StableSort(ts, PendingBelow(ts, |ts|))
  }

  lemma {:induction false} SortRanked(ts: seq<Task>, n: nat)
    requires n <= |ts|
    ensures Ranked(ts, StableSort(ts, PendingBelow(ts, n)))
  {
    hide Count, Insert, Ranked, StableSort, PendingBelow;
    PendingStep(ts, n);
    if n == 0 {
      RankedNothing(ts);
    } else {
      SortRanked(ts, n - 1);
      var qs := PendingBelow(ts, n - 1);
      if ts[n - 1].status == Pending {
        SortBelow(ts, qs, n - 1);
        SortSnoc(ts, qs, n - 1);
        InsertRanked(ts, StableSort(ts, qs), n - 1);
      } else {
        assert qs + [] == qs;
      }
    }
  }

  lemma PendingStep(ts: seq<Task>, n: nat)
    requires n <= |ts|
    ensures PendingBelow(ts, n)
         == if n == 0 then [] else PendingBelow(ts, n - 1) + if ts[n - 1].status == Pending then [n - 1] else []
  {
  }

  lemma RankedNothing(ts: seq<Task>)
    ensures Ranked(ts, StableSort(ts, []))
  {
  }

  lemma SortSnoc(ts: seq<Task>, ps: seq<nat>, p: nat)
    requires p < |ts| && forall i :: 0 <= i < |ps| ==> ps[i] < |ts|
    ensures StableSort(ts, ps + [p]) == Insert(ts, StableSort(ts, ps), p)
  {
    hide Insert;
    assert (ps + [p])[..|ps|] == ps;
  }

  lemma RankedPair(ts: seq<Task>, order: seq<nat>, i: nat, j: nat)
    requires Ranked(ts, order) && i < j < |order|
    ensures order[i] < |ts| && order[j] < |ts| && Outranks(ts, order[i], order[j])
  {
  }

  lemma SortBelow(ts: seq<Task>, ps: seq<nat>, n: nat)
    requires n <= |ts| && forall i :: 0 <= i < |ps| ==> ps[i] < n
    ensures var order := StableSort(ts, ps); forall i :: 0 <= i < |order| ==> order[i] < n
  {
    hide StableSort;
    var order := StableSort(ts, ps);
    forall i | 0 <= i < |order| ensures order[i] < n {
      assert order[i] in multiset(order);
      assert order[i] in multiset(ps);
    }
  }

  lemma OrderFacts(ts: seq<Task>)
    ensures Ranked(ts, Order(ts)) && |Order(ts)| == Count(ts, Pending)
    ensures forall p :: p in Order(ts) <==> 0 <= p < |ts| && ts[p].status == Pending
  {
    hide StableSort, PendingBelow, Count;
    SortRanked(ts, |ts|);
    var ps := PendingBelow(ts, |ts|);
    assert ts[..|ts|] == ts;
    assert |multiset(Order(ts))| == |multiset(ps)|;
    forall p ensures p in Order(ts) <==> p in ps {
      assert p in multiset(Order(ts)) <==> p in multiset(ps);
    }
  }

  /** Mark the chosen tasks running, in order. */
  function StartAll(ts: seq<Task>, picks: seq<nat>): (us: seq<Task>)
    requires forall i :: 0 <= i < |picks| ==> picks[i] < |ts|
    ensures |us| == |ts|
    decreases |picks|
  {
    if picks == [] then ts else StartAll(ts[picks[0] := ts[picks[0]].(status := Running)], picks[1..])
  }

  function Ids(ts: seq<Task>, picks: seq<nat>): (ids: seq<nat>)
    requires forall i :: 0 <= i < |picks| ==> picks[i] < |ts|
    ensures |ids| == |picks|
  {
    seq(|picks|, i requires 0 <= i < |picks| => ts[picks[i]].id)
  }

  function Picks(s: State): (picks: seq<nat>)
    ensures forall i :: 0 <= i < |picks| ==> picks[i] < |s.tasks|
  {
    hide StableSort;
    var slots := SatSub(s.maxConcurrent, s.running);
    var order := Order(s.tasks);
    if slots <= |order| then order[..slots] else order
  }

  function Tick(s: State): (r: (State, seq<nat>))
    ensures |r.0.tasks| == |s.tasks| && |r.1| == |Picks(s)|
  {
    (s.(tasks := StartAll(s.tasks, Picks(s)), running := s.running + |Picks(s)|), Ids(s.tasks, Picks(s)))
  }

  lemma {:induction false} StartAllEffect(ts: seq<Task>, picks: seq<nat>)
    requires forall i :: 0 <= i < |picks| ==> picks[i] < |ts| && ts[picks[i]].status == Pending
    requires forall i, j :: 0 <= i < j < |picks| ==> picks[i] != picks[j]
    ensures var us := StartAll(ts, picks);
            && (forall p :: 0 <= p < |ts| ==> us[p] == if p in picks then ts[p].(status := Running) else ts[p])
            && Count(us, Pending) == Count(ts, Pending) - |picks|
            && Count(us, Running) == Count(ts, Running) + |picks|
            && (forall st: Status :: st.Terminal() ==> Count(us, st) == Count(ts, st))
    decreases |picks|
  {
    hide Count;
    if picks != [] {
      MoveInv(ts, picks[0], Running);
      var next := ts[picks[0] := ts[picks[0]].(status := Running)];
      assert picks == [picks[0]] + picks[1..];
      StartAllEffect(next, picks[1..]);
    }
  }

  lemma RankedDistinct(ts: seq<Task>, order: seq<nat>)
    requires Ranked(ts, order)
    ensures forall i, j :: 0 <= i < j < |order| ==> order[i] != order[j]
  {
  }

  /** What one tick does to the tasks: exactly the top of the order is started, nothing else moves. */
  lemma TickStarts(s: State)
    requires Inv(s)
    ensures var (s', ids) := Tick(s);
            && Inv(s')
            && |ids| == (if s.maxConcurrent - s.running <= Count(s.tasks, Pending) then s.maxConcurrent - s.running
                         else Count(s.tasks, Pending))
            && (s'.running == s'.maxConcurrent || Count(s'.tasks, Pending) == 0)
            && Count(s'.tasks, Pending) == Count(s.tasks, Pending) - |ids|
            && Count(s'.tasks, Running) == Count(s.tasks, Running) + |ids|
  {
    hide Count, Order, StartAll, Outranks;
    OrderFacts(s.tasks);
    var order, picks := Order(s.tasks), Picks(s);
    RankedDistinct(s.tasks, order);
    assert picks <= order;
    assert forall i :: 0 <= i < |picks| ==> picks[i] == order[i] && order[i] in order;
    StartAllEffect(s.tasks, picks);
    assert Completed.Terminal() && Failed.Terminal();
  }

  /** The started positions are the front of the order, and the ids name them. */
  lemma PickFacts(s: State)
    requires Inv(s)
    ensures var (s', ids) := Tick(s); var picks, order := Picks(s), Order(s.tasks);
            && |ids| == |picks| && picks <= order && Ranked(s.tasks, order)
            && (forall i :: 0 <= i < |picks| ==> ids[i] == picks[i] + 1)
            && (forall p :: p in order <==> 0 <= p < |s.tasks| && s.tasks[p].status == Pending)
            && (forall p :: 0 <= p < |s.tasks| ==>
                  s'.tasks[p] == if p in picks then s.tasks[p].(status := Running) else s.tasks[p])
  {
    hide Count, Order, StartAll, Outranks;
    OrderFacts(s.tasks);
    var order, picks := Order(s.tasks), Picks(s);
    RankedDistinct(s.tasks, order);
    assert picks <= order;
    assert forall i :: 0 <= i < |picks| ==> picks[i] == order[i] && order[i] in order;
    StartAllEffect(s.tasks, picks);
  }

  /** The returned ids were pending, are now running, and come by descending priority, ties by submission. */
  lemma TickOrder(s: State)
    requires Inv(s)
    ensures var (s', ids) := Tick(s);
            && (forall i :: 0 <= i < |ids| ==>
                  && 1 <= ids[i] <= |s.tasks|
                  && s.tasks[ids[i] - 1].status == Pending && s'.tasks[ids[i] - 1].status == Running)
            && (forall i, j :: 0 <= i < j < |ids| ==> Outranks(s.tasks, ids[i] - 1, ids[j] - 1))
            && (forall i, j :: 0 <= i < j < |ids| ==>
                  var t, u := s.tasks[ids[i] - 1], s.tasks[ids[j] - 1];
                  t.priority > u.priority || (t.priority == u.priority && ids[i] < ids[j]))
  {
    hide Tick, Picks, Order, Inv, Ranked;
    PickFacts(s);
    var (s', ids) := Tick(s);
    var picks, order := Picks(s), Order(s.tasks);
    forall i | 0 <= i < |ids|
      ensures 1 <= ids[i] <= |s.tasks| && ids[i] == order[i] + 1
      ensures s.tasks[ids[i] - 1].status == Pending && s'.tasks[ids[i] - 1].status == Running
    {
      assert picks[i] == order[i] && picks[i] in picks && order[i] in order;
    }
    forall i, j | 0 <= i < j < |ids|
      ensures Outranks(s.tasks, ids[i] - 1, ids[j] - 1)
    {
      RankedPair(s.tasks, order, i, j);
    }
  }

  /** A task still pending after the tick stands behind every started one in the order. */
  lemma PendingBehind(s: State, p: nat) returns (j: nat)
    requires Inv(s) && p < |s.tasks| && Tick(s).0.tasks[p].status == Pending
    ensures |Picks(s)| <= j < |Order(s.tasks)| && Order(s.tasks)[j] == p
  {
    hide Tick, Picks, Order, Inv, Ranked;
    PickFacts(s);
    var picks, order := Picks(s), Order(s.tasks);
    assert p in order && p !in picks;
    j :| 0 <= j < |order| && order[j] == p;
    assert forall m :: 0 <= m < |picks| ==> picks[m] == order[m] && picks[m] in picks;
  }

  /** No task left pending outranks a started one. */
  lemma TickLeavesLowest(s: State)
    requires Inv(s)
    ensures var (s', ids) := Tick(s);
            forall i, p :: 0 <= i < |ids| && 0 <= p < |s.tasks| && s'.tasks[p].status == Pending ==>
              1 <= ids[i] <= |s.tasks| && Outranks(s.tasks, ids[i] - 1, p)
  {
    hide Tick, Picks, Order, Inv, Ranked;
    PickFacts(s);
    var (s', ids) := Tick(s);
    var picks, order := Picks(s), Order(s.tasks);
    forall i, p | 0 <= i < |ids| && 0 <= p < |s.tasks| && s'.tasks[p].status == Pending
      ensures 1 <= ids[i] <= |s.tasks| && Outranks(s.tasks, ids[i] - 1, p)
    {
      var j := PendingBehind(s, p);
      assert picks[i] == order[i] && ids[i] == picks[i] + 1;
      RankedPair(s.tasks, order, i, j);
    }
  }

  /** A started task has a higher priority than one left pending, or the same and a smaller id. */
  lemma TickPriorities(s: State, i: nat, p: nat)
    requires Inv(s) && i < |Tick(s).1| && p < |s.tasks| && Tick(s).0.tasks[p].status == Pending
    ensures var q := Tick(s).1[i] - 1;
            && 0 <= q < |s.tasks|
            && (s.tasks[q].priority > s.tasks[p].priority || (s.tasks[q].priority == s.tasks[p].priority && q < p))
  {
    hide Tick, Inv;
    TickLeavesLowest(s);
  }

  /** A tick touches only the tasks it returns. */
  lemma TickFrame(s: State, p: nat)
    requires Inv(s) && p < |s.tasks| && p + 1 !in Tick(s).1
    ensures Tick(s).0.tasks[p] == s.tasks[p]
  {
    hide Tick, Picks, Order, Inv, Ranked;
    PickFacts(s);
    var ids, picks := Tick(s).1, Picks(s);
    assert forall m :: 0 <= m < |picks| ==> ids[m] == picks[m] + 1 && ids[m] in ids;
  }

  // ----- whole runs

  datatype Op =
    | SubmitOp(kind: Kind, payload: string, priority: nat)
    | TickOp
    | CompleteOp(id: nat, success: bool)
    | CancelOp(id: nat)

  function Step(s: State, op: Op): State {
    match op
    case SubmitOp(kind, payload, priority) => Submit(s, kind, payload, priority)
    case TickOp => Tick(s).0
    case CompleteOp(id, success) => Complete(s, id, success)
    case CancelOp(id) => Cancel(s, id)
  }

  function Run(s: State, ops: seq<Op>): State
    decreases |ops|
  {
    if ops == [] then s else Run(Step(s, ops[0]), ops[1..])
  }

  /** Tasks are only ever appended, keep everything but their status, and never leave a terminal status. */
  ghost predicate Evolves(s: State, s': State) {
    && |s.tasks| <= |s'.tasks| && s'.maxConcurrent == s.maxConcurrent
    && forall i :: 0 <= i < |s.tasks| ==>
         && s'.tasks[i] == s.tasks[i].(status := s'.tasks[i].status)
         && (s.tasks[i].status.Terminal() ==> s'.tasks[i].status == s.tasks[i].status)
         && (s'.tasks[i].status == Pending ==> s.tasks[i].status == Pending)
  }

  lemma StepKeeps(s: State, op: Op)
    requires Inv(s)
    ensures Inv(Step(s, op)) && Evolves(s, Step(s, op))
  {
    hide Inv, Picks;
    match op
    case SubmitOp(kind, payload, priority) => SubmitInv(s, kind, payload, priority);
    case TickOp =>
      TickStarts(s);
      TickEvolves(s);
    case CompleteOp(id, success) => CompleteInv(s, id, success);
    case CancelOp(id) => CancelInv(s, id);
  }

  lemma TickEvolves(s: State)
    requires Inv(s)
    ensures Evolves(s, Tick(s).0)
  {
    hide Inv, Picks, Order, Ranked, StartAll;
    PickFacts(s);
    var picks, order := Picks(s), Order(s.tasks);
    assert forall m :: 0 <= m < |picks| ==> picks[m] == order[m] && order[m] in order;
  }

  lemma EvolvesTrans(a: State, b: State, c: State)
    requires Evolves(a, b) && Evolves(b, c)
    ensures Evolves(a, c)
  {
    forall i | 0 <= i < |a.tasks|
      ensures c.tasks[i] == a.tasks[i].(status := c.tasks[i].status)
    {
      assert b.tasks[i] == a.tasks[i].(status := b.tasks[i].status);
      assert c.tasks[i] == b.tasks[i].(status := c.tasks[i].status);
    }
  }

  /** In every reachable state the counters are exact and no finished task has moved. */
  lemma {:induction false} RunKeeps(s: State, ops: seq<Op>)
    requires Inv(s)
    ensures Inv(Run(s, ops)) && Evolves(s, Run(s, ops))
    decreases |ops|
  {
    hide Inv, Step, Evolves;
    if ops == [] {
      EvolvesRefl(s);
    } else {
      StepKeeps(s, ops[0]);
      RunKeeps(Step(s, ops[0]), ops[1..]);
      EvolvesTrans(s, Step(s, ops[0]), Run(s, ops));
    }
  }

  /** The submissions of a run, in order. */
  function Submissions(ops: seq<Op>): seq<Op> {
    if ops == [] then [] else (if ops[0].SubmitOp? then [ops[0]] else []) + Submissions(ops[1..])
  }

  /** Task `i` came from submission `op`. */
  predicate CameFrom(t: Task, i: nat, op: Op) {
    op.SubmitOp? && t.id == i + 1 && t.kind == op.kind && t.payload == op.payload && t.priority == op.priority
  }

  lemma StepCarries(s: State, op: Op)
    requires Inv(s)
    ensures var r := Step(s, op);
            && |r.tasks| == |s.tasks| + (if op.SubmitOp? then 1 else 0) && r.maxConcurrent == s.maxConcurrent
            && (op.SubmitOp? ==> CameFrom(r.tasks[|s.tasks|], |s.tasks|, op))
  {
    hide Inv, Tick, Complete, Cancel;
    match op
    case SubmitOp(kind, payload, priority) => SubmitAppends(s, kind, payload, priority);
    case TickOp =>
      assert |Tick(s).0.tasks| == |s.tasks|;
      StepKeeps(s, op);
    case CompleteOp(id, success) =>
      StepKeeps(s, op);
      CompleteSize(s, id, success);
    case CancelOp(id) =>
      StepKeeps(s, op);
      CompleteSize(s, id, false);
  }

  lemma CompleteSize(s: State, id: nat, success: bool)
    ensures |Complete(s, id, success).tasks| == |s.tasks| && |Cancel(s, id).tasks| == |s.tasks|
  {
  }

  lemma {:induction false} RunCarriesFrom(s: State, ops: seq<Op>)
    requires Inv(s)
    ensures var r, subs, n := Run(s, ops), Submissions(ops), |s.tasks|;
            && |r.tasks| == n + |subs| && r.maxConcurrent == s.maxConcurrent
            && forall i :: 0 <= i < |subs| ==> CameFrom(r.tasks[n + i], n + i, subs[i])
    decreases |ops|
  {
    hide Inv, Step, Evolves, CameFrom;
    if ops != [] {
      var s1 := Step(s, ops[0]);
      StepKeeps(s, ops[0]);
      StepCarries(s, ops[0]);
      RunCarriesFrom(s1, ops[1..]);
      RunKeeps(s1, ops[1..]);
      var r, subs, n, k := Run(s, ops), Submissions(ops), |s.tasks|, |s1.tasks| - |s.tasks|;
      if k == 1 { StillFrom(s1, r, n, ops[0]); }
      assert forall i :: k <= i < |subs| ==> subs[i] == Submissions(ops[1..])[i - k] && n + i == |s1.tasks| + (i - k);
    }
  }

  lemma StillFrom(s: State, r: State, i: nat, op: Op)
    requires Evolves(s, r) && i < |s.tasks| && CameFrom(s.tasks[i], i, op)
    ensures i < |r.tasks| && CameFrom(r.tasks[i], i, op)
  {
  }

  /**
    In every run from a new scheduler there is one task per submission, and task `i` has id `i + 1` and the
    kind, payload and priority of the `i`-th submission; the limit is the one asked for, but at least 1.
   */
  lemma RunCarries(max: nat, ops: seq<Op>)
    ensures var r, subs := Run(Init(max), ops), Submissions(ops);
            && |r.tasks| == |subs| && r.maxConcurrent == (if max == 0 then 1 else max)
            && forall i :: 0 <= i < |subs| ==>
                 && subs[i].SubmitOp? && r.tasks[i].id == i + 1 && r.tasks[i].kind == subs[i].kind
                 && r.tasks[i].payload == subs[i].payload && r.tasks[i].priority == subs[i].priority
  {
    hide Run, Submissions;
    RunCarriesFrom(Init(max), ops);
    assert forall i :: 0 <= i < |Submissions(ops)| ==> CameFrom(Run(Init(max), ops).tasks[0 + i], i, Submissions(ops)[i]);
  }

  lemma EvolvesRefl(s: State)
    ensures Evolves(s, s)
  {
  }

  lemma ReachableInv(maxConcurrent: nat, ops: seq<Op>)
    ensures Inv(Run(Init(maxConcurrent), ops))
  {
    RunKeeps(Init(maxConcurrent), ops);
  }

  // ----- draining

  function NonTerminal(ts: seq<Task>): nat {
    Count(ts, Pending) + Count(ts, Running)
  }

  /** One tick, then one completion of the client's choice. */
  function Round(s: State, id: nat, success: bool): State {
    Complete(Tick(s).0, id, success)
  }

  predicate RunningAfterTick(s: State, id: nat) {
    1 <= id <= |Tick(s).0.tasks| && Tick(s).0.tasks[id - 1].status == Running
  }

  lemma FindById(s: State, id: nat)
    requires Inv(s) && 1 <= id <= |s.tasks|
    ensures Find(s.tasks, id) == id - 1
  {
    var i := Find(s.tasks, id);
    assert s.tasks[id - 1].id == id;
    if i < |s.tasks| { assert s.tasks[i].id == i + 1; }
  }

  /** While work is left a tick always leaves something running to complete. */
  lemma ProgressPossible(s: State) returns (id: nat)
    requires Inv(s) && NonTerminal(s.tasks) > 0
    ensures RunningAfterTick(s, id)
  {
    hide Count, Tick;
    TickStarts(s);
    var s' := Tick(s).0;
    var i := CountWitness(s'.tasks, Running);
    id := i + 1;
  }

  /** Each round retires exactly one task. */
  lemma RoundRetiresOne(s: State, id: nat, success: bool)
    requires Inv(s) && RunningAfterTick(s, id)
    ensures Inv(Round(s, id, success)) && NonTerminal(Round(s, id, success).tasks) == NonTerminal(s.tasks) - 1
  {
    hide Count, Tick;
    TickStarts(s);
    var s' := Tick(s).0;
    FindById(s', id);
    CompleteInv(s', id, success);
    MoveInv(s'.tasks, id - 1, if success then Completed else Failed);
  }

  function Rounds(s: State, choices: seq<(nat, bool)>): State
    decreases |choices|
  {
    if choices == [] then s else Rounds(Round(s, choices[0].0, choices[0].1), choices[1..])
  }

  /** Every choice completes a task that is running at that point. */
  predicate Valid(s: State, choices: seq<(nat, bool)>)
    decreases |choices|
  {
    choices == [] ||
    (RunningAfterTick(s, choices[0].0) && Valid(Round(s, choices[0].0, choices[0].1), choices[1..]))
  }

  /** With no new submissions, one round per unfinished task drains the scheduler, whichever tasks are completed. */
  lemma {:induction false} Drains(s: State, choices: seq<(nat, bool)>)
    requires Inv(s) && Valid(s, choices) && |choices| == NonTerminal(s.tasks)
    ensures NonTerminal(Rounds(s, choices).tasks) == 0
    decreases |choices|
  {
    hide NonTerminal, Inv, Round, RunningAfterTick;
    if choices != [] {
      RoundRetiresOne(s, choices[0].0, choices[0].1);
      Drains(Round(s, choices[0].0, choices[0].1), choices[1..]);
    }
  }

  /** Such a draining run always exists, whatever the outcomes are to be. */
  lemma {:induction false} DrainingRunExists(s: State, outcomes: seq<bool>) returns (choices: seq<(nat, bool)>)
    requires Inv(s) && |outcomes| == NonTerminal(s.tasks)
    ensures Valid(s, choices) && |choices| == |outcomes| && forall i :: 0 <= i < |choices| ==> choices[i].1 == outcomes[i]
    ensures NonTerminal(Rounds(s, choices).tasks) == 0
    decreases |outcomes|
  {
    hide NonTerminal, Inv, Round, RunningAfterTick;
    if outcomes == [] {
      choices := [];
    } else {
      var id := ProgressPossible(s);
      RoundRetiresOne(s, id, outcomes[0]);
      var rest := DrainingRunExists(Round(s, id, outcomes[0]), outcomes[1..]);
      choices := [(id, outcomes[0])] + rest;
      assert choices[1..] == rest;
    }
  }

  // ----- what completing and cancelling do to the named task

  /** Completing touches the task with that id, and only if it is running. */
  lemma CompleteMovesOne(s: State, id: nat, success: bool, i: nat)
    requires Inv(s) && i < |s.tasks|
    ensures |Complete(s, id, success).tasks| == |s.tasks|
    ensures Complete(s, id, success).tasks[i]
         == if i + 1 == id && s.tasks[i].status == Running
            then s.tasks[i].(status := if success then Completed else Failed) else s.tasks[i]
  {
    hide Count;
    if 1 <= id <= |s.tasks| { FindById(s, id); }
  }

  /** Cancelling touches the task with that id, unless it is already terminal. */
  lemma CancelMovesOne(s: State, id: nat, i: nat)
    requires Inv(s) && i < |s.tasks|
    ensures |Cancel(s, id).tasks| == |s.tasks|
    ensures Cancel(s, id).tasks[i]
         == if i + 1 == id && !s.tasks[i].status.Terminal() then s.tasks[i].(status := Cancelled) else s.tasks[i]
  {
    hide Count;
    if 1 <= id <= |s.tasks| { FindById(s, id); }
  }
}
