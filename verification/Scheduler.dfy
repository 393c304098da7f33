/** The queues of the scheduler as a step machine (task.c:33-58, task.c:118-127, task.c:261-294, task.c:454-537).
    Every queue operation is atomic under its lock; the steps of different CPUs interleave freely. */
module Scheduler {
  import opened Geometry

  datatype Status = Ready | Running | Exited

  /** Where a CPU stands in run_thread or scheduler; a task it holds in a local variable is named. */
  datatype Pc =
    | Idle                     // running its current task
    | Spawned(task: nat)       // in run_thread, before sched_enqueue_balanced
    | CheckExit                // while (!queue_empty(exit queue))
    | DequeueExit
    | CheckReady               // if (!queue_empty(ready queue))
    | DequeueReady
    | MarkRunning(task: nat)   // new_task->status = TASK_RUNNING
    | RequeueOld(task: nat)    // switch (old_task->status)
    | SetCurrent(task: nat)    // current[cpuid] = new_task

  datatype Cpu = Cpu(current: Option<nat>, ready: seq<nat>, exit: seq<nat>, pc: Pc)

  datatype Place = OnCpu(cpu: nat) | InHand(cpu: nat) | InReady(cpu: nat) | InExit(cpu: nat) | Reaped

  /** Tasks are numbered in the order of their creation; place records where each one is. */
  datatype State = State(cpus: seq<Cpu>, status: seq<Status>, place: seq<Place>, reaped: seq<nat>)

  datatype Event =
    Spawn(cpu: nat) | Enqueue(cpu: nat, target: nat) | Tick(cpu: nat) | Exit(cpu: nat) | Advance(cpu: nat)

  /** Can the CPU do this now? Interrupts are off in run_thread and in scheduler. */
  predicate Enabled(s: State, ev: Event) {
    && ev.cpu < |s.cpus|
    && var u := s.cpus[ev.cpu];
       match ev
       case Spawn(_) => u.pc.Idle?
       case Enqueue(_, target) => u.pc.Spawned? && target < |s.cpus|
       case Tick(_) => u.pc.Idle?
       case Exit(_) => u.pc.Idle? && u.current.Some?
       case Advance(_) => !u.pc.Idle? && !u.pc.Spawned?
  }

  function SetCpu(s: State, c: nat, u: Cpu): State
    requires c < |s.cpus|
  {
    s.(cpus := s.cpus[c := u])
  }

  function Move(s: State, t: nat, p: Place): State {
    if t < |s.place| then s.(place := s.place[t := p]) else s
  }

  function Mark(s: State, t: nat, st: Status): State {
    if t < |s.status| then s.(status := s.status[t := st]) else s
  }

  /** What one step does. */
  function Apply(s: State, ev: Event): State
    requires Enabled(s, ev)
  {
    var c := ev.cpu;
    var u := s.cpus[c];
    match ev
    case Spawn(_) =>
      var t := |s.place|;
      if u.current.None? then
        SetCpu(s.(status := s.status + [Running], place := s.place + [OnCpu(c)]), c, u.(current := Some(t)))
      else
        SetCpu(s.(status := s.status + [Ready], place := s.place + [InHand(c)]), c, u.(pc := Spawned(t)))
    case Enqueue(_, target) =>
      var t := u.pc.task;
      var s1 := SetCpu(s, c, u.(pc := Idle));
      Move(SetCpu(s1, target, s1.cpus[target].(ready := s1.cpus[target].ready + [t])), t, InReady(target))
    case Tick(_) => if u.current.Some? then SetCpu(s, c, u.(pc := CheckExit)) else s
    case Exit(_) => Mark(s, u.current.value, Exited)
    case Advance(_) => Scheduled(s, c)
  }

  /** The next step of scheduler(). */
  function Scheduled(s: State, c: nat): State
    requires c < |s.cpus| && !s.cpus[c].pc.Idle? && !s.cpus[c].pc.Spawned?
  {
    var u := s.cpus[c];
    match u.pc
    case CheckExit => SetCpu(s, c, u.(pc := if u.exit == [] then CheckReady else DequeueExit))
    case DequeueExit =>
      if u.exit == [] then s
      else Move(SetCpu(s.(reaped := s.reaped + [u.exit[0]]), c, u.(exit := u.exit[1..], pc := CheckExit)), u.exit[0],
          Reaped)
    case CheckReady => SetCpu(s, c, u.(pc := if u.ready == [] then Idle else DequeueReady))
    case DequeueReady =>
      if u.ready == [] then s
      else Move(SetCpu(s, c, u.(ready := u.ready[1..], pc := MarkRunning(u.ready[0]))), u.ready[0], InHand(c))
    case MarkRunning(t) => Mark(SetCpu(s, c, u.(pc := RequeueOld(t))), t, Running)
    case RequeueOld(t) =>
      if u.current.Some? && u.current.value < |s.status| then
        var old_ := u.current.value;
        match s.status[old_]
        case Running => Move(SetCpu(s, c, u.(ready := u.ready + [old_], pc := SetCurrent(t))), old_, InReady(c))
        case Exited => Move(SetCpu(s, c, u.(exit := u.exit + [old_], pc := SetCurrent(t))), old_, InExit(c))
        case Ready => SetCpu(s, c, u.(pc := SetCurrent(t)))
      else s
    case SetCurrent(t) => Move(SetCpu(s, c, u.(current := Some(t), pc := Idle)), t, OnCpu(c))
  }

  // ----- the invariant

  ghost predicate NoDup(q: seq<nat>) {
    forall i, j :: 0 <= i < j < |q| ==> q[i] != q[j]
  }

  /** The task a CPU holds in a local variable. */
  function Hand(u: Cpu): Option<nat> {
    match u.pc
    case Spawned(t) => Some(t)
    case MarkRunning(t) => Some(t)
    case RequeueOld(t) => Some(t)
    case SetCurrent(t) => Some(t)
    case _ => None
  }

  /** The task that is current and in no queue; after RequeueOld the current pointer is stale. */
  function Seated(u: Cpu): Option<nat> {
    if u.pc.SetCurrent? then None else u.current
  }

  /** Exactly the tasks placed at p are in q. */
  ghost predicate Holds(place: seq<Place>, q: seq<nat>, p: Place) {
    && NoDup(q) && (forall t :: t in q ==> t < |place| && place[t] == p)
    && forall t :: 0 <= t < |place| && place[t] == p ==> t in q
  }

  ghost predicate HoldsOne(place: seq<Place>, o: Option<nat>, p: Place) {
    && (o.Some? ==> o.value < |place| && place[o.value] == p)
    && forall t :: 0 <= t < |place| && place[t] == p ==> o == Some(t)
  }

  ghost predicate CpuOk(s: State, c: nat)
    requires c < |s.cpus| && |s.status| == |s.place|
  {
    var u := s.cpus[c];
    && Holds(s.place, u.ready, InReady(c)) && Holds(s.place, u.exit, InExit(c))
    && HoldsOne(s.place, Hand(u), InHand(c)) && HoldsOne(s.place, Seated(u), OnCpu(c))
    && (!u.pc.Idle? ==> u.current.Some?)
    && (u.pc.DequeueExit? ==> u.exit != []) && (u.pc.DequeueReady? ==> u.ready != [])
    && (Seated(u).Some? ==> s.status[Seated(u).value] != Ready)
    && (u.pc.RequeueOld? || u.pc.SetCurrent? ==> s.status[u.pc.task] == Running)
    && (u.pc.Spawned? ==> s.status[u.pc.task] == Ready)
  }

  /** Every task is in exactly one place, and the places are what the queues and pointers say. */
  ghost predicate Placed(s: State) {
    && |s.status| == |s.place|
    && (forall t :: 0 <= t < |s.place| && !s.place[t].Reaped? ==> s.place[t].cpu < |s.cpus|)
    && Holds(s.place, s.reaped, Reaped)
    && forall c :: 0 <= c < |s.cpus| ==> CpuOk(s, c)
  }

  // ----- one task moves

  lemma HoldsKept(place: seq<Place>, t: nat, to: Place, q: seq<nat>, p: Place)
    requires Holds(place, q, p) && t < |place| && place[t] != p && to != p
    ensures Holds(place[t := to], q, p)
  {
  }

  lemma HoldsAdd(place: seq<Place>, t: nat, q: seq<nat>, p: Place)
    requires Holds(place, q, p) && t < |place| && place[t] != p
    ensures Holds(place[t := p], q + [t], p)
  {
    var q' := q + [t];
    assert q'[|q|] == t;
    assert forall x :: x in q ==> x in q';
  }

  lemma HoldsPop(place: seq<Place>, to: Place, q: seq<nat>, p: Place)
    requires Holds(place, q, p) && q != [] && to != p
    ensures q[0] < |place| && place[q[0]] == p && Holds(place[q[0] := to], q[1..], p)
  {
    assert q[0] in q;
    var r := q[1..];
    assert forall i :: 0 <= i < |r| ==> r[i] == q[i + 1];
    assert forall x :: x in q ==> x == q[0] || x in r;
    assert forall x :: x in r ==> x in q && x != q[0];
  }

  lemma OneKept(place: seq<Place>, t: nat, to: Place, o: Option<nat>, p: Place)
    requires HoldsOne(place, o, p) && t < |place| && place[t] != p && to != p
    ensures HoldsOne(place[t := to], o, p)
  {
  }

  /** A task that moves between other CPUs, or dies there, does not concern this one. */
  lemma OtherCpu(s: State, s': State, d: nat, t: nat, to: Place)
    requires d < |s.cpus| && |s.status| == |s.place| && CpuOk(s, d) && t < |s.place| && |s'.cpus| == |s.cpus|
      && s'.cpus[d] == s.cpus[d]
    requires s'.place == s.place[t := to] && s'.status == s.status
    requires s.place[t].Reaped? || s.place[t].cpu != d
    requires to.Reaped? || to.cpu != d
    ensures CpuOk(s', d)
  {
    var u := s.cpus[d];
    hide Holds, HoldsOne;
    HoldsKept(s.place, t, to, u.ready, InReady(d));
    HoldsKept(s.place, t, to, u.exit, InExit(d));
    OneKept(s.place, t, to, Hand(u), InHand(d));
    OneKept(s.place, t, to, Seated(u), OnCpu(d));
  }

  /** Steps that move no task. */
  lemma SameCpu(s: State, s': State, d: nat)
    requires d < |s.cpus| && |s.status| == |s.place| && CpuOk(s, d) && |s'.cpus| == |s.cpus| && s'.place == s.place
      && s'.status == s.status
    requires var u, v := s.cpus[d], s'.cpus[d];
             && v.ready == u.ready && v.exit == u.exit && Hand(v) == Hand(u) && Seated(v) == Seated(u)
             && v.current == u.current
             && !v.pc.Spawned? && !v.pc.RequeueOld? && !v.pc.SetCurrent?
             && (!v.pc.Idle? ==> u.current.Some?) && (v.pc.DequeueExit? ==> v.exit != [])
             && (v.pc.DequeueReady? ==> v.ready != [])
    ensures CpuOk(s', d)
  {
  }

  /** The common frame: one task t of CPU c moves to another place of CPU c, or is reaped; c itself is shown
      separately. */
  lemma MovePlaced(s: State, s': State, c: nat, t: nat, to: Place)
    requires Placed(s) && c < |s.cpus| && t < |s.place| && s.place[t] != Reaped && s.place[t].cpu == c
    requires |s'.cpus| == |s.cpus| && (forall d :: 0 <= d < |s.cpus| && d != c ==> s'.cpus[d] == s.cpus[d])
    requires s'.place == s.place[t := to] && s'.status == s.status && (to.Reaped? || to.cpu == c)
    requires s'.reaped == if to.Reaped? then s.reaped + [t] else s.reaped
    requires CpuOk(s', c)
    ensures Placed(s')
  {
    if to.Reaped? {
      HoldsAdd(s.place, t, s.reaped, Reaped);
    } else {
      HoldsKept(s.place, t, to, s.reaped, Reaped);
    }
    hide Holds, HoldsOne;
    forall d | 0 <= d < |s'.cpus|
      ensures CpuOk(s', d)
    {
      if d != c { OtherCpu(s, s', d, t, to); }
    }
  }

  // ----- the steps

  lemma PlacedDequeueExit(s: State, c: nat)
    requires Placed(s) && c < |s.cpus| && s.cpus[c].pc.DequeueExit?
    ensures Placed(Scheduled(s, c))
    ensures s.cpus[c].exit != [] && s.cpus[c].current != Some(s.cpus[c].exit[0])
  {
    assert CpuOk(s, c);
    var u, s' := s.cpus[c], Scheduled(s, c);
    var t := u.exit[0];
    HoldsPop(s.place, Reaped, u.exit, InExit(c));
    hide Holds;
    HoldsKept(s.place, t, Reaped, u.ready, InReady(c));
    MovePlaced(s, s', c, t, Reaped);
  }

  lemma PlacedDequeueReady(s: State, c: nat)
    requires Placed(s) && c < |s.cpus| && s.cpus[c].pc.DequeueReady?
    ensures Placed(Scheduled(s, c)) && s.cpus[c].ready != []
  {
    assert CpuOk(s, c);
    var u, s' := s.cpus[c], Scheduled(s, c);
    var t := u.ready[0];
    HoldsPop(s.place, InHand(c), u.ready, InReady(c));
    hide Holds;
    HoldsKept(s.place, t, InHand(c), u.exit, InExit(c));
    MovePlaced(s, s', c, t, InHand(c));
  }

  lemma PlacedRequeue(s: State, c: nat)
    requires Placed(s) && c < |s.cpus| && s.cpus[c].pc.RequeueOld?
    ensures Placed(Scheduled(s, c))
  {
    assert CpuOk(s, c);
    var u, s' := s.cpus[c], Scheduled(s, c);
    var old_ := u.current.value;
    var to := if s.status[old_] == Running then InReady(c) else InExit(c);
    if s.status[old_] == Running {
      HoldsAdd(s.place, old_, u.ready, InReady(c));
      HoldsKept(s.place, old_, to, u.exit, InExit(c));
    } else {
      HoldsAdd(s.place, old_, u.exit, InExit(c));
      HoldsKept(s.place, old_, to, u.ready, InReady(c));
    }
    hide Holds;
    MovePlaced(s, s', c, old_, to);
  }

  lemma PlacedSetCurrent(s: State, c: nat)
    requires Placed(s) && c < |s.cpus| && s.cpus[c].pc.SetCurrent?
    ensures Placed(Scheduled(s, c))
  {
    assert CpuOk(s, c);
    var u, s' := s.cpus[c], Scheduled(s, c);
    var t := u.pc.task;
    HoldsKept(s.place, t, OnCpu(c), u.ready, InReady(c));
    HoldsKept(s.place, t, OnCpu(c), u.exit, InExit(c));
    hide Holds;
    MovePlaced(s, s', c, t, OnCpu(c));
  }

  /** Setting the status of a task that this CPU holds or runs. */
  lemma PlacedMarkRunning(s: State, c: nat)
    requires Placed(s) && c < |s.cpus| && s.cpus[c].pc.MarkRunning?
    ensures Placed(Scheduled(s, c))
  {
    assert CpuOk(s, c);
    var t, s' := s.cpus[c].pc.task, Scheduled(s, c);
    assert t < |s.place| && s.place[t] == InHand(c);
    hide Holds;
    forall d | 0 <= d < |s'.cpus|
      ensures CpuOk(s', d)
    {
      assert CpuOk(s, d);
    }
  }

  lemma PlacedExit(s: State, c: nat)
    requires Placed(s) && Enabled(s, Exit(c))
    ensures Placed(Apply(s, Exit(c)))
  {
    assert CpuOk(s, c);
    var t, s' := s.cpus[c].current.value, Apply(s, Exit(c));
    assert t < |s.place| && s.place[t] == OnCpu(c);
    hide Holds;
    forall d | 0 <= d < |s'.cpus|
      ensures CpuOk(s', d)
    {
      assert CpuOk(s, d);
    }
  }

  lemma PlacedLook(s: State, s': State, c: nat)
    requires Placed(s) && c < |s.cpus| && |s'.cpus| == |s.cpus|
      && (forall d :: 0 <= d < |s.cpus| && d != c ==> s'.cpus[d] == s.cpus[d])
    requires s'.place == s.place && s'.status == s.status && s'.reaped == s.reaped
    requires var u, v := s.cpus[c], s'.cpus[c];
             && v.ready == u.ready && v.exit == u.exit && Hand(v) == Hand(u) && Seated(v) == Seated(u)
             && v.current == u.current
             && !v.pc.Spawned? && !v.pc.RequeueOld? && !v.pc.SetCurrent?
             && (!v.pc.Idle? ==> u.current.Some?) && (v.pc.DequeueExit? ==> v.exit != [])
             && (v.pc.DequeueReady? ==> v.ready != [])
    ensures Placed(s')
  {
    hide Holds, HoldsOne;
    forall d | 0 <= d < |s'.cpus|
      ensures CpuOk(s', d)
    {
      assert CpuOk(s, d);
      if d == c { SameCpu(s, s', d); }
    }
  }

  /** A new task: nothing else is affected. */
  lemma HoldsNew(place: seq<Place>, to: Place, q: seq<nat>, p: Place)
    requires Holds(place, q, p) && to != p
    ensures Holds(place + [to], q, p)
  {
  }

  lemma NewCpu(s: State, s': State, d: nat, to: Place)
    requires d < |s.cpus| && |s.status| == |s.place| && CpuOk(s, d) && |s'.cpus| == |s.cpus|
    requires s'.place == s.place + [to] && |s'.status| == |s.status| + 1 && s'.status[..|s.status|] == s.status
    requires s'.cpus[d] == s.cpus[d] && !to.Reaped? && to.cpu != d
    ensures CpuOk(s', d)
  {
    var u := s.cpus[d];
    HoldsNew(s.place, to, u.ready, InReady(d));
    HoldsNew(s.place, to, u.exit, InExit(d));
    hide Holds;
    assert forall t :: 0 <= t < |s.status| ==> s'.status[t] == s'.status[..|s.status|][t];
  }

  lemma PlacedSpawn(s: State, c: nat)
    requires Placed(s) && Enabled(s, Spawn(c))
    ensures Placed(Apply(s, Spawn(c)))
  {
    assert CpuOk(s, c);
    var s' := Apply(s, Spawn(c));
    var u := s.cpus[c];
    var to := if u.current.None? then OnCpu(c) else InHand(c);
    assert s'.place == s.place + [to];
    assert s'.status[..|s.status|] == s.status;
    HoldsNew(s.place, to, s.reaped, Reaped);
    HoldsNew(s.place, to, u.ready, InReady(c));
    HoldsNew(s.place, to, u.exit, InExit(c));
    hide Holds;
    forall d | 0 <= d < |s'.cpus|
      ensures CpuOk(s', d)
    {
      if d != c {
        assert CpuOk(s, d);
        NewCpu(s, s', d, to);
      }
    }
  }

  lemma PlacedEnqueue(s: State, c: nat, target: nat)
    requires Placed(s) && Enabled(s, Enqueue(c, target))
    ensures Placed(Apply(s, Enqueue(c, target)))
  {
    assert CpuOk(s, c) && CpuOk(s, target);
    var s' := Apply(s, Enqueue(c, target));
    var t := s.cpus[c].pc.task;
    var to := InReady(target);
    HoldsKept(s.place, t, to, s.reaped, Reaped);
    forall d | 0 <= d < |s'.cpus|
      ensures CpuOk(s', d)
    {
      assert CpuOk(s, d);
      EnqueueCpu(s, c, target, d);
    }
    hide Holds, HoldsOne;
  }

  lemma EnqueueCpu(s: State, c: nat, target: nat, d: nat)
    requires Placed(s) && Enabled(s, Enqueue(c, target)) && d < |s.cpus|
    ensures |Apply(s, Enqueue(c, target)).status| == |Apply(s, Enqueue(c, target)).place|
      && CpuOk(Apply(s, Enqueue(c, target)), d)
  {
    assert CpuOk(s, c) && CpuOk(s, d);
    var s' := Apply(s, Enqueue(c, target));
    var t, u := s.cpus[c].pc.task, s.cpus[d];
    var to := InReady(target);
    assert t < |s.place| && s.place[t] == InHand(c);
    if d == target {
      HoldsAdd(s.place, t, u.ready, to);
    } else {
      HoldsKept(s.place, t, to, u.ready, InReady(d));
    }
    HoldsKept(s.place, t, to, u.exit, InExit(d));
    OneKept(s.place, t, to, Seated(u), OnCpu(d));
    if d == c {
      OneGone(s.place, t, to, InHand(c));
    } else {
      OneKept(s.place, t, to, Hand(u), InHand(d));
    }
    hide Holds, HoldsOne;
  }

  lemma OneGone(place: seq<Place>, t: nat, to: Place, p: Place)
    requires HoldsOne(place, Some(t), p) && to != p
    ensures HoldsOne(place[t := to], None, p)
  {
  }

  /** The next step of scheduler() keeps everything in its place. */
  lemma PlacedScheduled(s: State, c: nat)
    requires Placed(s) && Enabled(s, Advance(c))
    ensures Placed(Scheduled(s, c))
  {
    assert CpuOk(s, c);
    hide Holds, HoldsOne;
    match s.cpus[c].pc
    case CheckExit => PlacedLook(s, Scheduled(s, c), c);
    case DequeueExit => PlacedDequeueExit(s, c);
    case CheckReady => PlacedLook(s, Scheduled(s, c), c);
    case DequeueReady => PlacedDequeueReady(s, c);
    case MarkRunning(t) => PlacedMarkRunning(s, c);
    case RequeueOld(t) => PlacedRequeue(s, c);
    case SetCurrent(t) => PlacedSetCurrent(s, c);
  }

  lemma StepPlaced(s: State, ev: Event)
    requires Placed(s) && Enabled(s, ev)
    ensures Placed(Apply(s, ev))
  {
    match ev
    case Spawn(c) => PlacedSpawn(s, c);
    case Enqueue(c, target) => PlacedEnqueue(s, c, target);
    case Tick(c) =>
      if s.cpus[c].current.Some? {
        assert CpuOk(s, c);
        hide Holds, HoldsOne, CpuOk;
        PlacedLook(s, Apply(s, ev), c);
      }
    case Exit(c) => PlacedExit(s, c);
    case Advance(c) => PlacedScheduled(s, c);
  }

  // ----- who is where

  /** What a place says about the status of a task there. */
  ghost predicate Suits(p: Place, st: Status) {
    match p
    case OnCpu(_) => st != Ready
    case InHand(_) => st != Exited
    case InReady(_) => st != Exited
    case InExit(_) => st == Exited
    case Reaped => st == Exited
  }

  ghost predicate AllSuit(s: State) {
    |s.status| == |s.place| && forall t :: 0 <= t < |s.place| ==> Suits(s.place[t], s.status[t])
  }

  /** scheduler() looks at the ready queue only once the exit queue is empty, so that never holds two tasks. */
  ghost predicate Cleared(u: Cpu) {
    && |u.exit| <= 1 && (u.exit != [] ==> u.current.Some?)
    && (u.pc.CheckReady? || u.pc.DequeueReady? || u.pc.MarkRunning? || u.pc.RequeueOld? ==> u.exit == [])
  }

  /** Every task is in one place, and in the right one: exited tasks are on their CPU, in its exit queue or reaped, the
      others are current, ready or on their way. */
  ghost predicate Sound(s: State) {
    Placed(s) && AllSuit(s) && forall c :: 0 <= c < |s.cpus| ==> Cleared(s.cpus[c])
  }

  lemma StepSuits(s: State, ev: Event)
    requires Placed(s) && AllSuit(s) && Enabled(s, ev)
    ensures AllSuit(Apply(s, ev))
  {
    PlaceFacts(s, ev.cpu);
    hide Placed;
    if ev.Advance? { ScheduledSuits(s, ev.cpu); }
  }

  lemma ScheduledSuits(s: State, c: nat)
    requires PlacesKnown(s, c) && AllSuit(s) && Enabled(s, Advance(c))
    ensures AllSuit(Scheduled(s, c))
  {
  }

  /** What the tasks a CPU deals with have in common. */
  ghost predicate PlacesKnown(s: State, c: nat) {
    && c < |s.cpus| && |s.status| == |s.place|
    && var u := s.cpus[c];
       && (u.exit != [] ==> u.exit[0] < |s.place| && s.place[u.exit[0]] == InExit(c))
       && (u.ready != [] ==> u.ready[0] < |s.place| && s.place[u.ready[0]] == InReady(c))
       && (Hand(u).Some? ==> Hand(u).value < |s.place| && s.place[Hand(u).value] == InHand(c))
       && (Seated(u).Some? ==> Seated(u).value < |s.place| && s.place[Seated(u).value] == OnCpu(c))
       && (u.pc.RequeueOld? || u.pc.SetCurrent? ==> s.status[u.pc.task] == Running)
  }

  lemma PlaceFacts(s: State, c: nat)
    requires Placed(s) && c < |s.cpus|
    ensures PlacesKnown(s, c)
  {
    assert CpuOk(s, c);
    var u := s.cpus[c];
    assert u.exit != [] ==> u.exit[0] in u.exit;
    assert u.ready != [] ==> u.ready[0] in u.ready;
  }

  lemma StepClears(s: State, ev: Event)
    requires Enabled(s, ev) && forall c :: 0 <= c < |s.cpus| ==> Cleared(s.cpus[c])
    ensures forall c :: 0 <= c < |Apply(s, ev).cpus| ==> Cleared(Apply(s, ev).cpus[c])
  {
    assert Cleared(s.cpus[ev.cpu]);
  }

  lemma StepSound(s: State, ev: Event)
    requires Sound(s) && Enabled(s, ev)
    ensures Sound(Apply(s, ev))
  {
    hide Placed, AllSuit, Cleared;
    StepPlaced(s, ev);
    StepSuits(s, ev);
    StepClears(s, ev);
  }

  // ----- whole runs

  /** The states of a run, one after each event. */
  ghost predicate IsRun(ss: seq<State>, evs: seq<Event>) {
    && |ss| == |evs| + 1
    && forall i :: 0 <= i < |evs| ==> Enabled(ss[i], evs[i]) && ss[i + 1] == Apply(ss[i], evs[i])
  }

  /** task_init: no task, empty queues. */
  function Start(cpus: nat): State {
    State(seq(cpus, _ => Cpu(None, [], [], Idle)), [], [], [])
  }

  lemma StartSound(cpus: nat)
    ensures Sound(Start(cpus))
  {
  }

  /** Over all interleavings of spawns, ticks, exits and scheduler steps, every task stays in exactly one place. */
  lemma {:induction false} RunSound(ss: seq<State>, evs: seq<Event>, i: nat)
    requires IsRun(ss, evs) && i < |ss| && Sound(ss[0])
    ensures Sound(ss[i])
  {
    if i > 0 {
      RunSound(ss, evs, i - 1);
      StepSound(ss[i - 1], evs[i - 1]);
    }
  }

  /** What a place means: the task is there and nowhere else, on any CPU. */
  lemma ExactlyOnePlace(s: State, t: nat, d: nat)
    requires Sound(s) && t < |s.place| && d < |s.cpus|
    ensures t in s.cpus[d].ready <==> s.place[t] == InReady(d)
    ensures t in s.cpus[d].exit <==> s.place[t] == InExit(d)
    ensures Hand(s.cpus[d]) == Some(t) <==> s.place[t] == InHand(d)
    ensures Seated(s.cpus[d]) == Some(t) <==> s.place[t] == OnCpu(d)
    ensures t in s.reaped <==> s.place[t] == Reaped
  {
    assert CpuOk(s, d);
  }

  /** In every state of every run: a dequeue finds a task, and what is reaped is no CPU's current task. */
  lemma ReapIsSafe(ss: seq<State>, evs: seq<Event>, i: nat, c: nat, d: nat)
    requires IsRun(ss, evs) && i < |ss| && Sound(ss[0]) && c < |ss[i].cpus| && d < |ss[i].cpus|
    ensures ss[i].cpus[c].pc.DequeueReady? ==> ss[i].cpus[c].ready != []
    ensures ss[i].cpus[c].pc.DequeueExit? ==>
              ss[i].cpus[c].exit != [] && Seated(ss[i].cpus[d]) != Some(ss[i].cpus[c].exit[0])
    ensures ss[i].cpus[c].pc.DequeueExit? ==> ss[i].cpus[c].current != Some(ss[i].cpus[c].exit[0])
    ensures NoDup(ss[i].reaped)
    ensures forall t :: t in ss[i].reaped ==> t < |ss[i].status| && ss[i].status[t] == Exited
    ensures forall t :: t in ss[i].cpus[c].exit ==> t < |ss[i].status| && ss[i].status[t] == Exited
    ensures forall t :: t in ss[i].cpus[c].ready ==> t < |ss[i].status| && ss[i].status[t] != Exited
  {
    RunSound(ss, evs, i);
    var s := ss[i];
    assert CpuOk(s, c);
    if s.cpus[c].pc.DequeueExit? {
      assert s.cpus[c].exit[0] in s.cpus[c].exit;
      ExactlyOnePlace(s, s.cpus[c].exit[0], d);
      ExactlyOnePlace(s, s.cpus[c].exit[0], c);
    }
  }

  /** Where an exited task can be, and where it can go from there. */
  ghost predicate Onward(p: Place, p': Place) {
    match p
    case OnCpu(c) => p' == OnCpu(c) || p' == InExit(c) || p' == Reaped
    case InExit(c) => p' == InExit(c) || p' == Reaped
    case _ => p' == Reaped
  }

  lemma ExitedStep(s: State, ev: Event, t: nat)
    requires Sound(s) && Enabled(s, ev) && t < |s.place| && s.status[t] == Exited
    ensures t < |Apply(s, ev).place| && t < |Apply(s, ev).status| && Apply(s, ev).status[t] == Exited
    ensures Onward(s.place[t], Apply(s, ev).place[t])
  {
    PlaceFacts(s, ev.cpu);
    assert Suits(s.place[t], s.status[t]);
    hide Placed, AllSuit, Sound;
  }

  /** A task that exited stays so. Once it has left its CPU, it is never current again, in no ready queue and in no
      hand, but in the exit queue of that CPU or reaped; and what is reaped stays so. */
  lemma {:induction false} ExitedIsFinal(ss: seq<State>, evs: seq<Event>, i: nat, j: nat, t: nat)
    requires IsRun(ss, evs) && i <= j < |ss| && Sound(ss[0]) && t < |ss[i].status| && ss[i].status[t] == Exited
    ensures |ss[i].status| == |ss[i].place| && t < |ss[j].place| == |ss[j].status| && ss[j].status[t] == Exited
    ensures Onward(ss[i].place[t], ss[j].place[t])
  {
    RunSound(ss, evs, i);
    if i == j {
      assert Suits(ss[i].place[t], ss[i].status[t]);
    } else {
      ExitedIsFinal(ss, evs, i, j - 1, t);
      RunSound(ss, evs, j - 1);
      RunSound(ss, evs, j);
      hide Placed, Cleared, Enabled, Apply;
      ExitedStep(ss[j - 1], evs[j - 1], t);
    }
  }

  /** After exit() a task is off its CPU from the next switch on, and then in the exit queue there or reaped. */
  lemma ExitLeaves(ss: seq<State>, evs: seq<Event>, c: nat, t: nat, i: nat)
    requires IsRun(ss, evs) && Sound(ss[0]) && evs != [] && evs[0] == Exit(c) && ss[0].cpus[c].current == Some(t)
    requires 1 <= i < |ss|
    ensures c < |ss[i].cpus| && t < |ss[i].status| && ss[i].status[t] == Exited
    ensures Seated(ss[i].cpus[c]) == Some(t) || t in ss[i].cpus[c].exit || t in ss[i].reaped
  {
    assert CpuOk(ss[0], c);
    RunSound(ss, evs, 1);
    RunSound(ss, evs, i);
    CpusStay(ss, evs, i);
    ExitedIsFinal(ss, evs, 1, i, t);
    ExactlyOnePlace(ss[i], t, c);
  }

  lemma {:induction false} CpusStay(ss: seq<State>, evs: seq<Event>, i: nat)
    requires IsRun(ss, evs) && i < |ss|
    ensures |ss[i].cpus| == |ss[0].cpus|
  {
    if i > 0 {
      CpusStay(ss, evs, i - 1);
      assert ss[i - 1 + 1] == Apply(ss[i - 1], evs[i - 1]);
    }
  }

  // ----- fairness

  /** Does this step complete a call of scheduler() on c? Without a current task the call returns at once. */
  predicate Returns(s: State, ev: Event, c: nat)
    requires Enabled(s, ev)
  {
    || (ev == Advance(c) && c < |Apply(s, ev).cpus| && Apply(s, ev).cpus[c].pc.Idle?)
    || (ev == Tick(c) && s.cpus[c].current.None?)
  }

  /** The number of scheduler() calls on c completed in the first i steps. */
  function Calls(ss: seq<State>, evs: seq<Event>, c: nat, i: nat): nat
    requires |ss| == |evs| + 1 && i <= |evs|
  {
    if i == 0 then 0
    else Calls(ss, evs, c, i - 1) + if Enabled(ss[i - 1], evs[i - 1]) && Returns(ss[i - 1], evs[i - 1], c) then 1 else 0
  }

  /** After n calls the task is n places further ahead, or in the hand of the call that is about to run it. */
  predicate Waits(u: Cpu, t: nat, k: nat, n: nat) {
    n <= k ==>
      if u.pc.MarkRunning? || u.pc.RequeueOld? || u.pc.SetCurrent? then
        if n == k then u.pc.task == t else k - n - 1 < |u.ready| && u.ready[k - n - 1] == t
      else k - n < |u.ready| && u.ready[k - n] == t
  }

  lemma WaitsStep(s: State, ev: Event, c: nat, t: nat, k: nat, n: nat)
    requires Sound(s) && Enabled(s, ev) && c < |s.cpus| && n <= k && Waits(s.cpus[c], t, k, n)
    requires s.cpus[c].current.Some?
    ensures c < |Apply(s, ev).cpus|
    ensures !Returns(s, ev, c) ==> Waits(Apply(s, ev).cpus[c], t, k, n)
    ensures Returns(s, ev, c) && n < k ==> Waits(Apply(s, ev).cpus[c], t, k, n + 1)
    ensures Returns(s, ev, c) && n == k ==> Apply(s, ev).cpus[c].current == Some(t)
  {
    assert CpuOk(s, c);
    hide Holds, HoldsOne, Sound, CpuOk;
    if ev == Advance(c) {
      PcFacts(s, c);
      WaitsAdvance(s, c, t, k, n);
    } else {
      WaitsOther(s, ev, c, t, k, n);
    }
  }

  lemma PcFacts(s: State, c: nat)
    requires c < |s.cpus| && |s.status| == |s.place| && CpuOk(s, c) && !s.cpus[c].pc.Idle?
    ensures s.cpus[c].current.Some? && (s.cpus[c].pc.DequeueReady? ==> s.cpus[c].ready != [])
    ensures s.cpus[c].pc.DequeueExit? ==> s.cpus[c].exit != []
    ensures s.cpus[c].pc.RequeueOld? ==> s.cpus[c].current.value < |s.status|
  {
  }

  /** Other steps only append to the queue. */
  lemma WaitsOther(s: State, ev: Event, c: nat, t: nat, k: nat, n: nat)
    requires Enabled(s, ev) && c < |s.cpus| && n <= k && Waits(s.cpus[c], t, k, n) && ev != Advance(c)
    ensures |Apply(s, ev).cpus| == |s.cpus| && Waits(Apply(s, ev).cpus[c], t, k, n)
  {
    var u, v := s.cpus[c], Apply(s, ev).cpus[c];
    assert u.ready <= v.ready by { OnlyAppends(s, ev, c); }
  }

  lemma OnlyAppends(s: State, ev: Event, c: nat)
    requires Enabled(s, ev) && c < |s.cpus| && ev != Advance(c)
    ensures |Apply(s, ev).cpus| == |s.cpus| && s.cpus[c].ready <= Apply(s, ev).cpus[c].ready
    ensures Apply(s, ev).cpus[c].pc == s.cpus[c].pc || s.cpus[c].pc.Idle? || s.cpus[c].pc.Spawned?
    ensures Apply(s, ev).cpus[c].pc == s.cpus[c].pc || Apply(s, ev).cpus[c].pc in {Idle, CheckExit, Spawned(|s.place|)}
  {
  }

  /** A step of the call itself. */
  lemma WaitsAdvance(s: State, c: nat, t: nat, k: nat, n: nat)
    requires Enabled(s, Advance(c)) && n <= k && Waits(s.cpus[c], t, k, n)
    requires s.cpus[c].current.Some? && (s.cpus[c].pc.DequeueReady? ==> s.cpus[c].ready != [])
    ensures var s' := Scheduled(s, c);
            && |s'.cpus| == |s.cpus|
            && (!s'.cpus[c].pc.Idle? ==> Waits(s'.cpus[c], t, k, n))
            && (s'.cpus[c].pc.Idle? && n < k ==> Waits(s'.cpus[c], t, k, n + 1))
            && (s'.cpus[c].pc.Idle? && n == k ==> s'.cpus[c].current == Some(t))
  {
  }

  /** Once a CPU has a current task it always has one. */
  lemma CurrentStays(s: State, ev: Event, c: nat)
    requires Enabled(s, ev) && c < |s.cpus| && s.cpus[c].current.Some?
    ensures |Apply(s, ev).cpus| == |s.cpus| && Apply(s, ev).cpus[c].current.Some?
  {
  }

  /** The task is current when the (k + 1)-th scheduler() call on c returns. */
  ghost predicate RunsInTurn(ss: seq<State>, evs: seq<Event>, c: nat, t: nat, k: nat)
    requires |ss| == |evs| + 1
  {
    forall i :: 0 < i <= |evs| && Calls(ss, evs, c, i - 1) == k && Calls(ss, evs, c, i) == k + 1 ==>
      c < |ss[i].cpus| && ss[i].cpus[c].current == Some(t)
  }

  /** A task in the hand of a call in progress goes first. */
  function Ahead(u: Cpu): nat {
    if u.pc.MarkRunning? || u.pc.RequeueOld? || u.pc.SetCurrent? then 1 else 0
  }

  lemma {:induction false} WaitsAt(ss: seq<State>, evs: seq<Event>, c: nat, t: nat, k: nat, i: nat)
    requires IsRun(ss, evs) && Sound(ss[0]) && c < |ss[0].cpus| && ss[0].cpus[c].current.Some?
    requires Waits(ss[0].cpus[c], t, k, 0) && i <= |evs|
    ensures c < |ss[i].cpus| && ss[i].cpus[c].current.Some?
    ensures Calls(ss, evs, c, i) <= k ==> Waits(ss[i].cpus[c], t, k, Calls(ss, evs, c, i))
    ensures i > 0 && Calls(ss, evs, c, i) == k + 1 && Calls(ss, evs, c, i - 1) == k ==> ss[i].cpus[c].current == Some(t)
  {
    if i > 0 {
      WaitsAt(ss, evs, c, t, k, i - 1);
      RunSound(ss, evs, i - 1);
      hide Sound, Waits;
      CurrentStays(ss[i - 1], evs[i - 1], c);
      var n := Calls(ss, evs, c, i - 1);
      if n <= k {
        WaitsStep(ss[i - 1], evs[i - 1], c, t, k, n);
      }
    }
  }

  /** On a CPU with a current task, wherever it is in scheduler(), a ready task at position k becomes current by the
      (k + 1)-th call that returns, or one later if a task was already on its way; whatever else happens. */
  lemma Fair(ss: seq<State>, evs: seq<Event>, c: nat, t: nat, k: nat)
    requires IsRun(ss, evs) && Sound(ss[0]) && c < |ss[0].cpus| && ss[0].cpus[c].current.Some?
    requires k < |ss[0].cpus[c].ready| && ss[0].cpus[c].ready[k] == t
    ensures RunsInTurn(ss, evs, c, t, k + Ahead(ss[0].cpus[c]))
  {
    var m := k + Ahead(ss[0].cpus[c]);
    forall i | 0 < i <= |evs| && Calls(ss, evs, c, i - 1) == m && Calls(ss, evs, c, i) == m + 1
      ensures c < |ss[i].cpus| && ss[i].cpus[c].current == Some(t)
    {
      WaitsAt(ss, evs, c, t, m, i);
    }
  }

  /** A CPU without a current task leaves its queue alone, however often scheduler() is called on it. */
  lemma {:induction false} IdleTicks(s: State, c: nat, n: nat, i: nat)
    requires c < |s.cpus| && s.cpus[c].pc.Idle? && s.cpus[c].current.None? && i <= n
    ensures IsRun(seq(n + 1, _ => s), seq(n, _ => Tick(c)))
    ensures Calls(seq(n + 1, _ => s), seq(n, _ => Tick(c)), c, i) == i
  {
    if i > 0 {
      IdleTicks(s, c, n, i - 1);
    }
  }

  /** Fairness holds on all runs from a state exactly when the CPU has a current task in that state. */
  lemma FairExactly(s: State, c: nat, t: nat, k: nat)
    requires Sound(s) && c < |s.cpus| && k < |s.cpus[c].ready| && s.cpus[c].ready[k] == t
    ensures (forall ss, evs :: IsRun(ss, evs) && ss[0] == s ==> RunsInTurn(ss, evs, c, t, k + Ahead(s.cpus[c])))
            <==> s.cpus[c].current.Some?
  {
    if s.cpus[c].current.Some? {
      forall ss, evs | IsRun(ss, evs) && ss[0] == s
        ensures RunsInTurn(ss, evs, c, t, k + Ahead(s.cpus[c]))
      {
        Fair(ss, evs, c, t, k);
      }
    } else {
      assert CpuOk(s, c);
      var ss, evs := seq(k + 2, _ => s), seq(k + 1, _ => Tick(c));
      IdleTicks(s, c, k + 1, k);
      IdleTicks(s, c, k + 1, k + 1);
      assert !RunsInTurn(ss, evs, c, t, k);
    }
  }

  /** A run from the start to a state in which fairness fails: CPU 0 starts two tasks and gives the second to CPU 1. */
  function StarvedStates(): seq<State> {
    var s0 := Start(2);
    var s1 := Apply(s0, Spawn(0));
    var s2 := Apply(s1, Spawn(0));
    [s0, s1, s2, Apply(s2, Enqueue(0, 1))]
  }

  lemma Starved()
    ensures IsRun(StarvedStates(), [Spawn(0), Spawn(0), Enqueue(0, 1)]) && StarvedStates()[0] == Start(2)
    ensures StarvedStates()[3].cpus[1] == Cpu(None, [1], [], Idle)
    ensures exists ss, evs :: IsRun(ss, evs) && ss[0] == StarvedStates()[3] && !RunsInTurn(ss, evs, 1, 1, 0)
  {
    var s := StarvedStates()[3];
    StartSound(2);
    RunSound(StarvedStates(), [Spawn(0), Spawn(0), Enqueue(0, 1)], 3);
    FairExactly(s, 1, 1, 0);
  }

  // ----- progress

  /** How many steps of its own a CPU is at most away from the end of the call it is in. */
  function StepsLeft(u: Cpu): nat {
    match u.pc
    case CheckExit => 2 * |u.exit| + 6
    case DequeueExit => 2 * |u.exit| + 5
    case CheckReady => 5
    case DequeueReady => 4
    case MarkRunning(_) => 3
    case RequeueOld(_) => 2
    case SetCurrent(_) => 1
    case _ => 0
  }

  /** A tick on a CPU with a current task starts a call; each step brings its end nearer, whatever the other CPUs do in
      between. So every call ends, after at most eight steps. */
  lemma CallEnds(s: State, ev: Event, c: nat)
    requires Sound(s) && Enabled(s, ev) && c < |s.cpus|
    ensures |Apply(s, ev).cpus| == |s.cpus| && StepsLeft(s.cpus[c]) <= 8
    ensures ev == Tick(c) && s.cpus[c].current.Some? ==> Apply(s, ev).cpus[c].pc == CheckExit
    ensures ev == Advance(c) ==> StepsLeft(Apply(s, ev).cpus[c]) < StepsLeft(s.cpus[c])
    ensures ev.cpu != c ==> StepsLeft(Apply(s, ev).cpus[c]) == StepsLeft(s.cpus[c])
    ensures StepsLeft(s.cpus[c]) == 0 <==> s.cpus[c].pc.Idle? || s.cpus[c].pc.Spawned?
  {
    assert CpuOk(s, c) && Cleared(s.cpus[c]);
    hide Sound, CpuOk;
    if ev == Advance(c) {
      PcFacts(s, c);
      AdvanceEnds(s, c);
    } else if ev.cpu != c {
      OthersWait(s, ev, c);
    }
  }

  lemma AdvanceEnds(s: State, c: nat)
    requires Enabled(s, Advance(c)) && s.cpus[c].current.Some?
    requires s.cpus[c].pc.DequeueExit? ==> s.cpus[c].exit != []
    requires s.cpus[c].pc.DequeueReady? ==> s.cpus[c].ready != []
    requires s.cpus[c].pc.RequeueOld? ==> s.cpus[c].current.value < |s.status|
    ensures |Scheduled(s, c).cpus| == |s.cpus| && StepsLeft(Scheduled(s, c).cpus[c]) < StepsLeft(s.cpus[c])
  {
  }

  lemma OthersWait(s: State, ev: Event, c: nat)
    requires Enabled(s, ev) && c < |s.cpus| && ev.cpu != c
    ensures |Apply(s, ev).cpus| == |s.cpus| && Apply(s, ev).cpus[c].pc == s.cpus[c].pc
    ensures Apply(s, ev).cpus[c].exit == s.cpus[c].exit
  {
  }

  /** The scheduler calls on c that the task in its exit queue may still see return. */
  function Grace(u: Cpu): nat {
    if u.pc.SetCurrent? then 1 else 0
  }

  lemma GraceStep(s: State, ev: Event, c: nat, t: nat)
    requires Sound(s) && Enabled(s, ev) && c < |s.cpus| && t in s.cpus[c].exit
    ensures |Apply(s, ev).cpus| == |s.cpus| && t < |Apply(s, ev).place|
    ensures t in Apply(s, ev).cpus[c].exit || Apply(s, ev).place[t] == Reaped
    ensures t in Apply(s, ev).cpus[c].exit ==>
              Grace(Apply(s, ev).cpus[c]) + (if Returns(s, ev, c) then 1 else 0) <= Grace(s.cpus[c])
  {
    assert CpuOk(s, c) && Cleared(s.cpus[c]);
    assert s.cpus[c].exit == [t];
    hide Sound, CpuOk, Apply, Returns, Grace;
    if ev.cpu == c { GraceOwn(s, ev, c, t); } else { GraceOther(s, ev, c, t); }
  }

  lemma GraceOwn(s: State, ev: Event, c: nat, t: nat)
    requires Enabled(s, ev) && ev.cpu == c && s.cpus[c].exit == [t] && Cleared(s.cpus[c]) && t < |s.place|
    ensures |Apply(s, ev).cpus| == |s.cpus| && t < |Apply(s, ev).place|
    ensures t in Apply(s, ev).cpus[c].exit || Apply(s, ev).place[t] == Reaped
    ensures t in Apply(s, ev).cpus[c].exit ==>
              Grace(Apply(s, ev).cpus[c]) + (if Returns(s, ev, c) then 1 else 0) <= Grace(s.cpus[c])
  {
  }

  lemma GraceOther(s: State, ev: Event, c: nat, t: nat)
    requires Enabled(s, ev) && c < |s.cpus| && ev.cpu != c && t in s.cpus[c].exit && t < |s.place|
    ensures |Apply(s, ev).cpus| == |s.cpus| && t < |Apply(s, ev).place| && !Returns(s, ev, c)
    ensures t in Apply(s, ev).cpus[c].exit && Grace(Apply(s, ev).cpus[c]) == Grace(s.cpus[c])
  {
    OthersWait(s, ev, c);
  }

  /** A task in the exit queue of a CPU is reaped by the next call of scheduler() there: once that has returned, it is
      gone. */
  lemma {:induction false} ReapedInTime(ss: seq<State>, evs: seq<Event>, c: nat, t: nat, i: nat)
    requires IsRun(ss, evs) && Sound(ss[0]) && c < |ss[0].cpus| && t in ss[0].cpus[c].exit && i <= |evs|
    ensures c < |ss[i].cpus| && t < |ss[i].place|
    ensures (t in ss[i].cpus[c].exit && Calls(ss, evs, c, i) + Grace(ss[i].cpus[c]) <= Grace(ss[0].cpus[c]))
            || ss[i].place[t] == Reaped
    ensures Calls(ss, evs, c, i) > Grace(ss[0].cpus[c]) ==> ss[i].place[t] == Reaped
  {
    RunSound(ss, evs, i);
    if i == 0 {
      assert CpuOk(ss[0], c);
    } else {
      ReapedInTime(ss, evs, c, t, i - 1);
      RunSound(ss, evs, i - 1);
      if ss[i - 1].place[t] == Reaped {
        ReapedStays(ss[i - 1], evs[i - 1], t, c);
      } else {
        hide Sound, Grace;
        GraceStep(ss[i - 1], evs[i - 1], c, t);
      }
    }
  }

  lemma ReapedStays(s: State, ev: Event, t: nat, c: nat)
    requires Sound(s) && Enabled(s, ev) && t < |s.place| && s.place[t] == Reaped && c < |s.cpus|
    ensures |Apply(s, ev).cpus| == |s.cpus| && t < |Apply(s, ev).place| && Apply(s, ev).place[t] == Reaped
  {
    assert Suits(s.place[t], s.status[t]);
    ExitedStep(s, ev, t);
  }

  // ----- sched_enqueue_balanced

  /** find_extreme_index with min_cmp: the first of the least loaded queues. */
  method LeastLoaded(load: seq<int>) returns (idx: int)
    ensures load == [] ==> idx == -1
    ensures load != [] ==> 0 <= idx < |load| && (forall i :: 0 <= i < |load| ==> load[idx] <= load[i])
    ensures load != [] ==> forall i :: 0 <= i < idx ==> load[idx] < load[i]
  {
    if |load| == 0 {
      return -1;
    }
    idx := 0;
    var i := 1;
    while i < |load|
      invariant 1 <= i <= |load| && 0 <= idx < i
      invariant (forall j :: 0 <= j < i ==> load[idx] <= load[j]) && forall j :: 0 <= j < idx ==> load[idx] < load[j]
    {
      if load[i] < load[idx] {
        idx := i;
      }
      i := i + 1;
    }
  }
}
