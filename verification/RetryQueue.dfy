// The local judge queue: publishers and workers around one bounded channel,
// with panicking tasks put back by the worker that ran them.
module RetryQueue {
  import opened Text

  const MAX_RETRIES := 3
  const CAPACITY := 1024
  const WORKERS := 4

  // id names one Publish; retry is RetryCount; runs and panics count what has
  // happened to the task so far.
  datatype Task = Task(id: nat, retry: nat, runs: nat, panics: nat)

  datatype Worker = Idle | Busy(task: Task) | Requeueing(task: Task)

  // pubs are publishers inside Publish whose send has not gone through.
  datatype State = State(
    cap: nat, published: nat, pubs: seq<Task>, queue: seq<Task>, workers: seq<Worker>, done: seq<Task>, dropped: seq<Task>)

  datatype Action =
    | Arrive            // a publisher calls Publish
    | Send(j: nat)      // its channel send succeeds
    | Receive(w: nat)   // a worker takes the oldest task and starts the handler
    | Return(w: nat)    // the handler returns
    | Panic(w: nat)     // the handler panics; Requeue drops the task or sends it
    | Resend(w: nat)    // the worker's channel send succeeds

  predicate Enabled(s: State, a: Action) {
    match a
    case Arrive => true
    case Send(j) => j < |s.pubs| && |s.queue| < s.cap
    case Receive(w) => w < |s.workers| && s.workers[w].Idle? && s.queue != []
    case Return(w) => w < |s.workers| && s.workers[w].Busy?
    case Panic(w) => w < |s.workers| && s.workers[w].Busy?
    case Resend(w) => w < |s.workers| && s.workers[w].Requeueing? && |s.queue| < s.cap
  }

  function Panicked(t: Task): Task { t.(retry := t.retry + 1, panics := t.panics + 1) }

  function Do(s: State, a: Action): State
    requires Enabled(s, a)
  {
    match a
    case Arrive => s.(pubs := s.pubs + [Task(s.published, 0, 0, 0)], published := s.published + 1)
    case Send(j) => s.(pubs := s.pubs[..j] + s.pubs[j + 1..], queue := s.queue + [s.pubs[j]])
    case Receive(w) =>
      var t := s.queue[0];
      s.(queue := s.queue[1..], workers := s.workers[w := Busy(t.(runs := t.runs + 1))])
    case Return(w) => s.(workers := s.workers[w := Idle], done := s.done + [s.workers[w].task])
    case Panic(w) =>
      var t := s.workers[w].task;
      var u := Panicked(t);
      if u.retry > MAX_RETRIES then s.(workers := s.workers[w := Idle], dropped := s.dropped + [u])
      else s.(workers := s.workers[w := Requeueing(u)])
    case Resend(w) => s.(workers := s.workers[w := Idle], queue := s.queue + [s.workers[w].task])
  }

  function Init(cap: nat, workers: nat): State {
    State(cap, 0, [], [], seq(workers, _ => Idle), [], [])
  }

  function Run(s0: State, actions: seq<Action>): Option<State> {
    if actions == [] then Some(s0)
    else
      match Run(s0, actions[..|actions| - 1])
      case None => None
      case Some(s) => if Enabled(s, actions[|actions| - 1]) then Some(Do(s, actions[|actions| - 1])) else None
  }

  // ---- Conservation ----

  // How often a task id occurs in a list, and among the workers.
  function Count(ts: seq<Task>, id: nat): nat {
    if ts == [] then 0 else (if ts[0].id == id then 1 else 0) + Count(ts[1..], id)
  }

  function Holds(w: Worker, id: nat): nat { if !w.Idle? && w.task.id == id then 1 else 0 }

  function HeldCount(ws: seq<Worker>, id: nat): nat {
    if ws == [] then 0 else Holds(ws[0], id) + HeldCount(ws[1..], id)
  }

  function Places(s: State, id: nat): nat {
    Count(s.pubs, id) + Count(s.queue, id) + HeldCount(s.workers, id) + Count(s.done, id) + Count(s.dropped, id)
  }

  lemma {:induction false} CountConcat(a: seq<Task>, b: seq<Task>, id: nat)
    ensures Count(a + b, id) == Count(a, id) + Count(b, id)
  {
    if a == [] {
      assert a + b == b;
    } else {
      assert (a + b)[1..] == a[1..] + b;
      CountConcat(a[1..], b, id);
    }
  }

  lemma CountSnoc(ts: seq<Task>, t: Task, id: nat)
    ensures Count(ts + [t], id) == Count(ts, id) + if t.id == id then 1 else 0
  {
    CountConcat(ts, [t], id);
    assert [t][1..] == [];
  }

  lemma CountWithout(ts: seq<Task>, j: nat, id: nat)
    requires j < |ts|
    ensures Count(ts, id) == Count(ts[..j] + ts[j + 1..], id) + if ts[j].id == id then 1 else 0
  {
    assert ts == ts[..j] + [ts[j]] + ts[j + 1..];
    CountConcat(ts[..j] + [ts[j]], ts[j + 1..], id);
    CountSnoc(ts[..j], ts[j], id);
    CountConcat(ts[..j], ts[j + 1..], id);
  }

  lemma {:induction false} HeldUpdate(ws: seq<Worker>, w: nat, v: Worker, id: nat)
    requires w < |ws|
    ensures HeldCount(ws[w := v], id) == HeldCount(ws, id) - Holds(ws[w], id) + Holds(v, id)
  {
    if w == 0 {
      assert ws[0 := v][1..] == ws[1..];
    } else {
      assert ws[w := v][1..] == ws[1..][w - 1 := v];
      HeldUpdate(ws[1..], w - 1, v, id);
    }
  }

  lemma DoConserves(s: State, a: Action, id: nat)
    requires Enabled(s, a)
    ensures Places(Do(s, a), id) == Places(s, id) + if a.Arrive? && id == s.published then 1 else 0
  {
    var t := Do(s, a);
    match a
    case Arrive => CountSnoc(s.pubs, Task(s.published, 0, 0, 0), id);
    case Send(j) =>
      CountWithout(s.pubs, j, id);
      CountSnoc(s.queue, s.pubs[j], id);
    case Receive(w) => HeldUpdate(s.workers, w, t.workers[w], id);
    case Return(w) =>
      HeldUpdate(s.workers, w, Idle, id);
      CountSnoc(s.done, s.workers[w].task, id);
    case Panic(w) =>
      HeldUpdate(s.workers, w, t.workers[w], id);
      CountSnoc(s.dropped, Panicked(s.workers[w].task), id);
    case Resend(w) =>
      HeldUpdate(s.workers, w, Idle, id);
      CountSnoc(s.queue, s.workers[w].task, id);
  }

  // ---- What holds of a task in each place ----

  predicate Rested(t: Task) { t.runs == t.retry == t.panics && t.retry <= MAX_RETRIES }

  predicate InRun(t: Task) { t.runs == t.retry + 1 && t.panics == t.retry && t.retry <= MAX_RETRIES }

  predicate Exhausted(t: Task) { t.runs == t.retry == t.panics == MAX_RETRIES + 1 }

  ghost predicate PlacesOk(s: State) {
    && |s.queue| <= s.cap
    && (forall i :: 0 <= i < |s.pubs| ==> Rested(s.pubs[i]) && s.pubs[i].retry == 0)
    && (forall i :: 0 <= i < |s.queue| ==> Rested(s.queue[i]))
    && (forall w :: 0 <= w < |s.workers| && s.workers[w].Busy? ==> InRun(s.workers[w].task))
    && (forall w :: 0 <= w < |s.workers| && s.workers[w].Requeueing? ==>
          Rested(s.workers[w].task) && s.workers[w].task.retry >= 1)
    && (forall i :: 0 <= i < |s.done| ==> InRun(s.done[i]))
    && (forall i :: 0 <= i < |s.dropped| ==> Exhausted(s.dropped[i]))
  }

  lemma DoKeepsPlaces(s: State, a: Action)
    requires Enabled(s, a) && PlacesOk(s)
    ensures PlacesOk(Do(s, a))
  {
  }

  lemma {:induction false} RunKeepsPlaces(cap: nat, workers: nat, actions: seq<Action>)
    requires Run(Init(cap, workers), actions).Some?
    ensures var s := Run(Init(cap, workers), actions).value;
            PlacesOk(s) && s.cap == cap && |s.workers| == workers
  {
    if actions != [] {
      var init := actions[..|actions| - 1];
      RunKeepsPlaces(cap, workers, init);
      DoKeepsPlaces(Run(Init(cap, workers), init).value, actions[|actions| - 1]);
    }
  }

  lemma {:induction false} NothingHeld(ws: seq<Worker>, id: nat)
    requires forall w :: 0 <= w < |ws| ==> ws[w].Idle?
    ensures HeldCount(ws, id) == 0
  {
    if ws != [] {
      NothingHeld(ws[1..], id);
    }
  }

  // Over every interleaving, each published task is in exactly one place, and
  // there exactly once; nothing else is anywhere.
  lemma {:induction false} EachTaskOnce(cap: nat, workers: nat, actions: seq<Action>, id: nat)
    requires Run(Init(cap, workers), actions).Some?
    ensures var s := Run(Init(cap, workers), actions).value;
            Count(s.pubs, id) + Count(s.queue, id) + HeldCount(s.workers, id) + Count(s.done, id) + Count(s.dropped, id) ==
            if id < s.published then 1 else 0
  {
    if actions == [] {
      NothingHeld(Init(cap, workers).workers, id);
    } else {
      var init := actions[..|actions| - 1];
      EachTaskOnce(cap, workers, init, id);
      DoConserves(Run(Init(cap, workers), init).value, actions[|actions| - 1], id);
    }
  }

  // A task runs at most four times: a finished one as often as it panicked plus
  // once, and a dropped one panicked on all of its four runs.
  lemma AtMostFourRuns(cap: nat, workers: nat, actions: seq<Action>)
    requires Run(Init(cap, workers), actions).Some?
    ensures var s := Run(Init(cap, workers), actions).value;
            && (forall t :: t in s.done ==> t.runs == t.panics + 1 && t.runs <= 4)
            && (forall t :: t in s.dropped ==> t.runs == t.panics == 4)
            && (forall t :: t in s.queue || t in s.pubs ==> t.runs == t.panics <= 3)
            && (forall w :: 0 <= w < |s.workers| && !s.workers[w].Idle? ==> s.workers[w].task.runs <= 4)
  {
    RunKeepsPlaces(cap, workers, actions);
  }

  // ---- First in, first out ----

  function Ids(ts: seq<Task>): seq<nat> {
    seq(|ts|, i requires 0 <= i < |ts| => ts[i].id)
  }

  // The ids put into the channel by publishers and requeueing workers, in order.
  function Sent(s0: State, actions: seq<Action>): seq<nat> {
    if actions == [] then []
    else
      var init, a := actions[..|actions| - 1], actions[|actions| - 1];
      match Run(s0, init)
      case None => Sent(s0, init)
      case Some(s) =>
        if a.Send? && a.j < |s.pubs| then Sent(s0, init) + [s.pubs[a.j].id]
        else if a.Resend? && a.w < |s.workers| && !s.workers[a.w].Idle? then Sent(s0, init) + [s.workers[a.w].task.id]
        else Sent(s0, init)
  }

  // The ids of the tasks the workers hold right after taking them, in order.
  function Received(s0: State, actions: seq<Action>): seq<nat> {
    if actions == [] then []
    else
      var init, a := actions[..|actions| - 1], actions[|actions| - 1];
      match Run(s0, actions)
      case None => Received(s0, init)
      case Some(t) =>
        if a.Receive? && a.w < |t.workers| && !t.workers[a.w].Idle? then Received(s0, init) + [t.workers[a.w].task.id]
        else Received(s0, init)
  }

  // Over every interleaving the channel is first in, first out: what has been
  // received followed by what is queued is what has been sent.
  lemma {:induction false} FirstInFirstOut(cap: nat, workers: nat, actions: seq<Action>)
    requires Run(Init(cap, workers), actions).Some?
    ensures var s0 := Init(cap, workers);
            Received(s0, actions) + Ids(Run(s0, actions).value.queue) == Sent(s0, actions)
  {
    var s0 := Init(cap, workers);
    if actions != [] {
      var init, a := actions[..|actions| - 1], actions[|actions| - 1];
      FirstInFirstOut(cap, workers, init);
      ChannelStep(Run(s0, init).value, a, Received(s0, init));
    }
  }

  lemma ChannelStep(s: State, a: Action, received: seq<nat>)
    requires Enabled(s, a)
    ensures var t := Do(s, a);
            match a
            case Send(j) => Ids(t.queue) == Ids(s.queue) + [s.pubs[j].id]
            case Resend(w) => Ids(t.queue) == Ids(s.queue) + [s.workers[w].task.id]
            case Receive(w) =>
              !t.workers[w].Idle? && received + [t.workers[w].task.id] + Ids(t.queue) == received + Ids(s.queue)
            case _ => Ids(t.queue) == Ids(s.queue)
  {
    if a.Receive? {
      assert Ids(s.queue) == [s.queue[0].id] + Ids(s.queue[1..]);
    }
  }

  // Where an id first stands in a list, its length if nowhere.
  function First(ids: seq<nat>, id: nat): (k: nat)
    ensures k <= |ids| && (k < |ids| ==> ids[k] == id)
    ensures forall i :: 0 <= i < k ==> ids[i] != id
  {
    if ids == [] || ids[0] == id then 0 else 1 + First(ids[1..], id)
  }

  // A task's first run starts before that of any task sent later.
  lemma FirstRunsInOrder(cap: nat, workers: nat, actions: seq<Action>, early: nat, late: nat)
    requires Run(Init(cap, workers), actions).Some?
    requires var s0 := Init(cap, workers);
             First(Sent(s0, actions), early) < First(Sent(s0, actions), late) && late in Received(s0, actions)
    ensures var s0 := Init(cap, workers);
            early in Received(s0, actions) && First(Received(s0, actions), early) < First(Received(s0, actions), late)
  {
    var s0 := Init(cap, workers);
    var sent, received := Sent(s0, actions), Received(s0, actions);
    FirstInFirstOut(cap, workers, actions);
    assert forall i :: 0 <= i < |received| ==> received[i] == sent[i];
    var k := First(received, late);
    assert k < |received| && sent[k] == late;
    assert received[First(sent, early)] == early;
  }

  // ---- Termination ----

  function TaskWork(ts: seq<Task>, base: int): int {
    if ts == [] then 0 else base - 3 * ts[0].retry + TaskWork(ts[1..], base)
  }

  function WorkerWork(w: Worker): int {
    match w
    case Idle => 0
    case Busy(t) => 11 - 3 * t.retry
    case Requeueing(t) => 13 - 3 * t.retry
  }

  function WorkersWork(ws: seq<Worker>): int {
    if ws == [] then 0 else WorkerWork(ws[0]) + WorkersWork(ws[1..])
  }

  function Work(s: State): int {
    13 * |s.pubs| + TaskWork(s.queue, 12) + WorkersWork(s.workers)
  }

  lemma {:induction false} TaskWorkSnoc(ts: seq<Task>, t: Task, base: int)
    ensures TaskWork(ts + [t], base) == TaskWork(ts, base) + base - 3 * t.retry
  {
    if ts == [] {
      assert ts + [t] == [t] && [t][1..] == [];
    } else {
      assert (ts + [t])[1..] == ts[1..] + [t];
      TaskWorkSnoc(ts[1..], t, base);
    }
  }

  lemma {:induction false} WorkersWorkUpdate(ws: seq<Worker>, w: nat, v: Worker)
    requires w < |ws|
    ensures WorkersWork(ws[w := v]) == WorkersWork(ws) - WorkerWork(ws[w]) + WorkerWork(v)
  {
    if w == 0 {
      assert ws[0 := v][1..] == ws[1..];
    } else {
      assert ws[w := v][1..] == ws[1..][w - 1 := v];
      WorkersWorkUpdate(ws[1..], w - 1, v);
    }
  }

  lemma {:induction false} WorkNonNegative(queue: seq<Task>, ws: seq<Worker>)
    requires forall i :: 0 <= i < |queue| ==> Rested(queue[i])
    requires forall w :: 0 <= w < |ws| && !ws[w].Idle? ==> ws[w].task.retry <= MAX_RETRIES
    ensures TaskWork(queue, 12) >= 0 && WorkersWork(ws) >= 0
  {
    if queue != [] {
      WorkNonNegative(queue[1..], ws);
    } else if ws != [] {
      WorkNonNegative(queue, ws[1..]);
    }
  }

  // Every step but the arrival of a new publisher uses up work.
  lemma StepUsesWork(s: State, a: Action)
    requires Enabled(s, a) && PlacesOk(s)
    ensures Work(Do(s, a)) <= Work(s) + if a.Arrive? then 13 else -1
  {
    var t := Do(s, a);
    match a
    case Arrive =>
    case Send(j) => TaskWorkSnoc(s.queue, s.pubs[j], 12);
    case Receive(w) => WorkersWorkUpdate(s.workers, w, t.workers[w]);
    case Return(w) => WorkersWorkUpdate(s.workers, w, Idle);
    case Panic(w) => WorkersWorkUpdate(s.workers, w, t.workers[w]);
    case Resend(w) =>
      WorkersWorkUpdate(s.workers, w, Idle);
      TaskWorkSnoc(s.queue, s.workers[w].task, 12);
  }

  function Arrivals(actions: seq<Action>): nat {
    if actions == [] then 0
    else Arrivals(actions[..|actions| - 1]) + if actions[|actions| - 1].Arrive? then 1 else 0
  }

  // A run with n publications takes at most 14 * n steps.
  lemma RunsAreShort(cap: nat, workers: nat, actions: seq<Action>)
    requires Run(Init(cap, workers), actions).Some?
    ensures |actions| <= 14 * Arrivals(actions)
  {
    WorkPays(cap, workers, actions);
    RunKeepsPlaces(cap, workers, actions);
    var s := Run(Init(cap, workers), actions).value;
    WorkNonNegative(s.queue, s.workers);
  }

  lemma {:induction false} WorkPays(cap: nat, workers: nat, actions: seq<Action>)
    requires Run(Init(cap, workers), actions).Some?
    ensures |actions| + Work(Run(Init(cap, workers), actions).value) <= 14 * Arrivals(actions)
  {
    if actions == [] {
      IdleWork(Init(cap, workers).workers);
    } else {
      var init := actions[..|actions| - 1];
      WorkPays(cap, workers, init);
      RunKeepsPlaces(cap, workers, init);
      StepUsesWork(Run(Init(cap, workers), init).value, actions[|actions| - 1]);
    }
  }

  lemma {:induction false} IdleWork(ws: seq<Worker>)
    requires forall w :: 0 <= w < |ws| ==> ws[w].Idle?
    ensures WorkersWork(ws) == 0
  {
    if ws != [] {
      IdleWork(ws[1..]);
    }
  }

  // ---- Stuck states ----

  // Nothing can happen unless a new publisher arrives (handlers do return).
  ghost predicate Stuck(s: State) {
    forall a: Action :: Enabled(s, a) ==> a.Arrive?
  }

  ghost predicate NothingLeft(s: State) {
    s.pubs == [] && s.queue == [] && forall w :: 0 <= w < |s.workers| ==> s.workers[w].Idle?
  }

  ghost predicate Deadlocked(s: State) {
    |s.queue| == s.cap && forall w :: 0 <= w < |s.workers| ==> s.workers[w].Requeueing?
  }

  lemma StuckMeans(s: State)
    requires PlacesOk(s) && s.cap >= 1 && |s.workers| >= 1 && Stuck(s)
    ensures NothingLeft(s) || Deadlocked(s)
  {
    forall w | 0 <= w < |s.workers| ensures !s.workers[w].Busy? {
      assert Enabled(s, Return(w)) <==> s.workers[w].Busy?;
    }
    if w :| 0 <= w < |s.workers| && s.workers[w].Idle? {
      assert Enabled(s, Receive(w)) <==> s.queue != [];
      assert Enabled(s, Send(0)) <==> s.pubs != [];
      forall v | 0 <= v < |s.workers| ensures s.workers[v].Idle? {
        assert Enabled(s, Resend(v)) <==> s.workers[v].Requeueing?;
      }
    } else {
      assert Enabled(s, Resend(0)) <==> |s.queue| < s.cap;
    }
  }

  // A reachable state is stuck exactly when all work is finished or the channel
  // is full and every worker is blocked putting a task back.
  lemma StuckExactlyWhen(cap: nat, workers: nat, actions: seq<Action>)
    requires cap >= 1 && workers >= 1 && Run(Init(cap, workers), actions).Some?
    ensures var s := Run(Init(cap, workers), actions).value;
            Stuck(s) <==> NothingLeft(s) || Deadlocked(s)
  {
    RunKeepsPlaces(cap, workers, actions);
    var s := Run(Init(cap, workers), actions).value;
    if Stuck(s) {
      StuckMeans(s);
    }
  }

  // ---- How many tasks a deadlock takes ----

  function Working(ws: seq<Worker>): nat {
    if ws == [] then 0 else (if ws[0].Idle? then 0 else 1) + Working(ws[1..])
  }

  // Tasks accepted or being published that are neither done nor dropped.
  function Outstanding(s: State): nat { |s.pubs| + |s.queue| + Working(s.workers) }

  lemma {:induction false} WorkingUpdate(ws: seq<Worker>, w: nat, v: Worker)
    requires w < |ws|
    ensures Working(ws[w := v]) == Working(ws) - (if ws[w].Idle? then 0 else 1) + (if v.Idle? then 0 else 1)
  {
    if w == 0 {
      assert ws[0 := v][1..] == ws[1..];
    } else {
      assert ws[w := v][1..] == ws[1..][w - 1 := v];
      WorkingUpdate(ws[1..], w - 1, v);
    }
  }

  lemma {:induction false} AllWorking(ws: seq<Worker>)
    ensures (forall w :: 0 <= w < |ws| ==> !ws[w].Idle?) ==> Working(ws) == |ws|
    ensures (forall w :: 0 <= w < |ws| ==> ws[w].Idle?) ==> Working(ws) == 0
  {
    if ws != [] {
      AllWorking(ws[1..]);
    }
  }

  lemma {:induction false} OutstandingCounts(cap: nat, workers: nat, actions: seq<Action>)
    requires Run(Init(cap, workers), actions).Some?
    ensures var s := Run(Init(cap, workers), actions).value;
            Outstanding(s) + |s.done| + |s.dropped| == s.published
  {
    if actions == [] {
      AllWorking(Init(cap, workers).workers);
    } else {
      var init, a := actions[..|actions| - 1], actions[|actions| - 1];
      OutstandingCounts(cap, workers, init);
      var s := Run(Init(cap, workers), init).value;
      if !a.Arrive? && !a.Send? {
        WorkingUpdate(s.workers, a.w, Do(s, a).workers[a.w]);
      }
    }
  }

  // While fewer than cap + workers published tasks are unfinished (1028 for the
  // shipped sizes), the queue is never deadlocked.
  lemma NoDeadlockBelow(cap: nat, workers: nat, actions: seq<Action>)
    requires Run(Init(cap, workers), actions).Some?
    ensures var s := Run(Init(cap, workers), actions).value;
            s.published - |s.done| - |s.dropped| < cap + workers ==> !Deadlocked(s)
  {
    RunKeepsPlaces(cap, workers, actions);
    OutstandingCounts(cap, workers, actions);
    AllWorking(Run(Init(cap, workers), actions).value.workers);
  }

  // ---- A deadlock can happen ----

  ghost predicate Reaches(s0: State, s: State) {
    exists actions :: Run(s0, actions) == Some(s)
  }

  lemma ReachesNext(s0: State, s: State, a: Action)
    requires Reaches(s0, s) && Enabled(s, a)
    ensures Reaches(s0, Do(s, a))
  {
    var actions :| Run(s0, actions) == Some(s);
    var more := actions + [a];
    assert more[..|more| - 1] == actions;
    assert Run(s0, more) == Some(Do(s, a));
  }

  // k workers run first attempts, the others are idle.
  ghost predicate FirstBusy(s: State, k: nat) {
    && s.pubs == [] && k <= |s.workers|
    && (forall w :: 0 <= w < k ==> s.workers[w].Busy? && s.workers[w].task.retry == 0)
    && (forall w :: k <= w < |s.workers| ==> s.workers[w].Idle?)
  }

  lemma {:induction false} FillWorkers(cap: nat, workers: nat, k: nat) returns (s: State)
    requires cap >= 1 && k <= workers
    ensures Reaches(Init(cap, workers), s) && s.cap == cap && |s.workers| == workers
    ensures FirstBusy(s, k) && s.queue == []
  {
    if k == 0 {
      s := Init(cap, workers);
      assert Run(s, []) == Some(s);
    } else {
      s := FillWorkers(cap, workers, k - 1);
      s := PublishOne(Init(cap, workers), s);
      ReachesNext(Init(cap, workers), s, Receive(k - 1));
      s := Do(s, Receive(k - 1));
    }
  }

  // One publisher comes and its send goes through.
  lemma PublishOne(s0: State, s: State) returns (t: State)
    requires Reaches(s0, s) && s.pubs == [] && |s.queue| < s.cap
    ensures Reaches(s0, t) && t.cap == s.cap && t.workers == s.workers && t.pubs == []
    ensures |t.queue| == |s.queue| + 1 && t.queue[|s.queue|].retry == 0
  {
    ReachesNext(s0, s, Arrive);
    t := Do(s, Arrive);
    ReachesNext(s0, t, Send(0));
    t := Do(t, Send(0));
  }

  lemma {:induction false} FillQueue(cap: nat, workers: nat, m: nat) returns (s: State)
    requires cap >= 1 && m <= cap
    ensures Reaches(Init(cap, workers), s) && s.cap == cap && |s.workers| == workers
    ensures FirstBusy(s, workers) && |s.queue| == m
  {
    if m == 0 {
      s := FillWorkers(cap, workers, workers);
    } else {
      s := FillQueue(cap, workers, m - 1);
      s := PublishOne(Init(cap, workers), s);
    }
  }

  lemma {:induction false} PanicWorkers(cap: nat, workers: nat, k: nat) returns (s: State)
    requires cap >= 1 && k <= workers
    ensures Reaches(Init(cap, workers), s) && s.cap == |s.queue| == cap && |s.workers| == workers
    ensures forall w :: 0 <= w < k ==> s.workers[w].Requeueing?
    ensures forall w :: k <= w < workers ==> s.workers[w].Busy? && s.workers[w].task.retry == 0
  {
    if k == 0 {
      s := FillQueue(cap, workers, cap);
    } else {
      s := PanicWorkers(cap, workers, k - 1);
      ReachesNext(Init(cap, workers), s, Panic(k - 1));
      s := Do(s, Panic(k - 1));
    }
  }

  // For every capacity and number of workers some run ends in the deadlock;
  // in particular for the shipped 1024 slots and 4 workers.
  lemma DeadlockReachable(cap: nat, workers: nat) returns (s: State)
    requires cap >= 1
    ensures Reaches(Init(cap, workers), s) && Deadlocked(s) && Stuck(s)
  {
    s := PanicWorkers(cap, workers, workers);
  }

  lemma ShippedQueueCanDeadlock() returns (s: State)
    ensures Reaches(Init(CAPACITY, WORKERS), s) && Stuck(s) && |s.queue| == 1024 && |s.workers| == 4
  {
    s := PanicWorkers(CAPACITY, WORKERS, WORKERS);
  }
}
