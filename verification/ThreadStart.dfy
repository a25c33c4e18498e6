/** Starting enclave threads: a task queue inside the enclave, host threads that attach on request, and the
    promise each request waits for. Every interleaving of their atomic steps is a run of this machine. */
module ThreadStart {

  datatype Status = Success | Failure

  datatype Promise = Unset | Fulfilled(status: Status)

  /** Where a host thread is: spawned, holding a task it took, told the requester, inside the task's checkpoint,
      running the task, done with it, out of the checkpoint. */
  datatype Phase =
    | Spawned
    | Popped(task: nat)
    | Told(task: nat)
    | Entered(task: nat)
    | Running(task: nat)
    | Finished(task: nat)
    | Left

  /** A host thread with its start promise; held says its context still has the promise. */
  datatype Host = Host(phase: Phase, promise: Promise, held: bool, sets: nat) {
    /** Fulfil the start promise and let go of it; without it, nothing. */
    function SetStatus(s: Status): Host {
      if held then this.(promise := Fulfilled(s), held := false, sets := sets + 1) else this
    }

    /** The task it has taken, or -1. */
    function Task(): int {
      if phase.Spawned? || phase.Left? then -1 else phase.task
    }

    /** Inside a checkpoint. */
    predicate Live() {
      phase.Entered? || phase.Running? || phase.Finished?
    }

    /** Its task has been started. */
    predicate Ran() {
      phase.Running? || phase.Finished?
    }
  }

  /** The thread that creates a task: it has queued it, waits for its host thread, or has gone on. */
  datatype Creator = Pushed | Waiting | Returned

  datatype TaskState = Created | Started | Completed

  /** Task i was created by creator i, who requested host thread i. */
  datatype State = State(queue: seq<nat>, creators: seq<Creator>, tasks: seq<TaskState>, runs: seq<nat>,
                         hosts: map<nat, Host>, running: nat, shutdown: bool)

  datatype Action =
    | Push
    | Request(c: nat)
    | RequestFails(c: nat)
    | AttachFails(h: nat)
    | Pop(h: nat)
    | Tell(h: nat)
    | Enter(h: nat)
    | Begin(h: nat)
    | Finish(h: nat)
    | Leave(h: nat)
    | EcallReturns(h: nat, s: Status)
    | Resume(c: nat)
    | BeginShutdown
    | EndShutdown

  const INIT: State := State([], [], [], [], map[], 0, false)

  /** The step can be taken. Taking a task from the queue is not guarded by the queue's length: that is to be proved. */
  predicate Enabled(s: State, a: Action) {
    match a
    case Push => true
    case Request(c) => c < |s.creators| && s.creators[c].Pushed?
    case RequestFails(c) => c < |s.creators| && s.creators[c].Pushed?
    case AttachFails(h) => h in s.hosts && s.hosts[h].phase.Spawned?
    case Pop(h) => h in s.hosts && s.hosts[h].phase.Spawned?
    case Tell(h) => h in s.hosts && s.hosts[h].phase.Popped?
    case Enter(h) => h in s.hosts && s.hosts[h].phase.Told?
    case Begin(h) => h in s.hosts && s.hosts[h].phase.Entered?
    case Finish(h) => h in s.hosts && s.hosts[h].phase.Running?
    case Leave(h) => h in s.hosts && s.hosts[h].phase.Finished?
    case EcallReturns(h, _) => h in s.hosts && s.hosts[h].phase.Left?
    case Resume(c) => c < |s.creators| && s.creators[c].Waiting? && c in s.hosts && s.hosts[c].promise.Fulfilled?
    case BeginShutdown => !s.shutdown
    case EndShutdown => s.shutdown && s.running == 0
  }

  /** The state right after a start request was answered. */
  function OnStart(st: Status): TaskState {
    if st.Success? then Started else Completed
  }

  ghost function Apply(s: State, a: Action): State
    requires Enabled(s, a) && |s.tasks| == |s.runs| == |s.creators|
  {
    match a
    case Push =>
      s.(queue := s.queue + [|s.creators|], creators := s.creators + [Pushed], tasks := s.tasks + [Created],
        runs := s.runs + [0])
    case Request(c) =>
      s.(creators := s.creators[c := Waiting], hosts := s.hosts[c := Host(Spawned, Unset, true, 0)])
    case RequestFails(c) =>
      s.(creators := s.creators[c := Returned], tasks := s.tasks[c := OnStart(Failure)])
    case AttachFails(h) =>
      s.(hosts := s.hosts[h := s.hosts[h].SetStatus(Failure).(phase := Left)])
    case Pop(h) =>
      if s.queue == [] then s
      else s.(queue := s.queue[1..], hosts := s.hosts[h := s.hosts[h].(phase := Popped(s.queue[0]))])
    case Tell(h) =>
      s.(hosts := s.hosts[h := s.hosts[h].SetStatus(Success).(phase := Told(s.hosts[h].phase.task))])
    case Enter(h) =>
      s.(hosts := s.hosts[h := s.hosts[h].(phase := Entered(s.hosts[h].phase.task))], running := s.running + 1)
    case Begin(h) =>
      var t := s.hosts[h].phase.task;
      if t >= |s.tasks| then s
      else s.(hosts := s.hosts[h := s.hosts[h].(phase := Running(t))], tasks := s.tasks[t := Started],
        runs := s.runs[t := s.runs[t] + 1])
    case Finish(h) =>
      var t := s.hosts[h].phase.task;
      if t >= |s.tasks| then s
      else s.(hosts := s.hosts[h := s.hosts[h].(phase := Finished(t))], tasks := s.tasks[t := Completed])
    case Leave(h) =>
      s.(hosts := s.hosts[h := s.hosts[h].(phase := Left)], running := if s.running > 0 then s.running - 1 else 0)
    case EcallReturns(h, st) =>
      if st.Success? then s else s.(hosts := s.hosts[h := s.hosts[h].SetStatus(st)])
    case Resume(c) =>
      s.(creators := s.creators[c := Returned], tasks := s.tasks[c := OnStart(s.hosts[c].promise.status)])
    case BeginShutdown => s.(shutdown := true)
    case EndShutdown => s
  }

  // ---- The invariant ---------------------------------------------------------------------------

  ghost function ToAttach(hosts: map<nat, Host>): set<nat> {
    set h | h in hosts && hosts[h].phase.Spawned?
  }

  ghost function ToRequest(creators: seq<Creator>): set<nat> {
    set c | 0 <= c < |creators| && creators[c].Pushed?
  }

  ghost function Checkpoints(hosts: map<nat, Host>): set<nat> {
    set h | h in hosts && hosts[h].Live()
  }

  lemma HostUpdate(hosts: map<nat, Host>, h: nat, x: Host)
    ensures ToAttach(hosts[h := x]) == if x.phase.Spawned? then ToAttach(hosts) + {h} else ToAttach(hosts) - {h}
    ensures Checkpoints(hosts[h := x]) == if x.Live() then Checkpoints(hosts) + {h} else Checkpoints(hosts) - {h}
  {
  }

  lemma CreatorUpdate(creators: seq<Creator>, c: nat, x: Creator)
    requires c < |creators| && !x.Pushed?
    ensures ToRequest(creators[c := x]) == ToRequest(creators) - {c}
    ensures ToRequest(creators + [Pushed]) == ToRequest(creators) + {|creators|}
  {
  }

  ghost predicate Sized(s: State) {
    |s.tasks| == |s.runs| == |s.creators| && forall h :: h in s.hosts ==> h < |s.creators| && !s.creators[h].Pushed?
  }

  /** The creators whose request for a host thread failed, or whose host thread failed to attach. */
  ghost function FailedStarts(s: State): set<nat> {
    set c | 0 <= c < |s.creators| &&
            if c in s.hosts then s.hosts[c].promise == Fulfilled(Failure) else s.creators[c].Returned?
  }

  /** The queue serves every host thread still to attach, and is longer by the number of failed starts. */
  ghost predicate Enough(s: State) {
    |s.queue| == |ToAttach(s.hosts)| + |ToRequest(s.creators)| + |FailedStarts(s)|
  }

  /** The task a host thread has is off the queue, and has run if the thread started it. */
  ghost predicate TaskOk(s: State, x: Host) {
    x.Task() == -1 || (x.Task() < |s.runs| && x.Task() !in s.queue && s.runs[x.Task()] == if x.Ran() then 1 else 0)
  }

  /** Every task is in at most one place, and has run only if it was entered. */
  ghost predicate OnePlace(s: State) {
    && Sized(s)
    && (forall i :: 0 <= i < |s.queue| ==> s.queue[i] < |s.runs| && s.runs[s.queue[i]] == 0)
    && (forall i, j :: 0 <= i < j < |s.queue| ==> s.queue[i] != s.queue[j])
    && (forall h :: h in s.hosts ==> TaskOk(s, s.hosts[h]))
    && (forall h, k :: h in s.hosts && k in s.hosts && h != k ==>
      s.hosts[h].Task() == -1 || s.hosts[h].Task() != s.hosts[k].Task())
    && (forall t :: 0 <= t < |s.runs| ==> s.runs[t] <= 1)
  }

  /** The counter counts the live checkpoints. */
  ghost predicate Counted(s: State) {
    s.running == |Checkpoints(s.hosts)|
  }

  /** The promise is held until it is fulfilled, once, on the way to the task. */
  ghost predicate Promised(x: Host) {
    && (x.held <==> x.promise.Unset?) && x.sets == (if x.held then 0 else 1)
    && (x.held <==> x.phase.Spawned? || x.phase.Popped?)
  }

  /** A promise is fulfilled at most once, and one that is not yet has a host thread on its way to it. */
  ghost predicate OneShot(s: State) {
    && (forall h :: h in s.hosts ==> Promised(s.hosts[h]))
    && (forall c :: 0 <= c < |s.creators| && s.creators[c].Waiting? ==> c in s.hosts)
  }

  ghost predicate Inv(s: State) {
    Enough(s) && OnePlace(s) && Counted(s) && OneShot(s)
  }

  lemma InitInv()
    ensures Inv(INIT)
  {
    assert ToAttach(INIT.hosts) == {} && ToRequest(INIT.creators) == {} && Checkpoints(INIT.hosts) == {};
  }

  lemma EnoughKept(s: State, a: Action)
    requires Enough(s) && Sized(s) && OneShot(s) && Enabled(s, a)
    ensures Enough(Apply(s, a)) && (a.Pop? ==> s.queue != [])
  {
    hide ToAttach, ToRequest;
    FailedAfter(s, a);
    hide FailedStarts, OneShot, Sized;
    if a.Push? || a.Request? || a.RequestFails? || a.Resume? || a.BeginShutdown? || a.EndShutdown? {
      CreatorKeepsEnough(s, a);
    } else {
      HostKeepsEnough(s, a);
    }
  }

  lemma CreatorKeepsEnough(s: State, a: Action)
    requires Enough(s) && Sized(s) && Enabled(s, a)
    requires a.Push? || a.Request? || a.RequestFails? || a.Resume? || a.BeginShutdown? || a.EndShutdown?
    requires FailedStarts(Apply(s, a)) == FailedStarts(s) + if a.RequestFails? then {a.c} else {}
    requires a.RequestFails? ==> a.c !in FailedStarts(s)
    ensures Enough(Apply(s, a))
  {
    hide ToAttach, ToRequest, FailedStarts;
    match a {
      case Push => OneMoreRequest(s.creators);
      case Request(c) =>
        CreatorUpdate(s.creators, c, Waiting);
        HostUpdate(s.hosts, c, Apply(s, a).hosts[c]);
        Members(s, c, c);
      case RequestFails(c) =>
        CreatorUpdate(s.creators, c, Returned);
        Members(s, c, c);
      case Resume(c) =>
        CreatorUpdate(s.creators, c, Returned);
        Members(s, c, c);
      case BeginShutdown =>
      case EndShutdown =>
    }
  }

  lemma HostKeepsEnough(s: State, a: Action)
    requires Enough(s) && Sized(s) && Enabled(s, a)
    requires !(a.Push? || a.Request? || a.RequestFails? || a.Resume? || a.BeginShutdown? || a.EndShutdown?)
    requires FailedStarts(Apply(s, a)) == FailedStarts(s) + if a.AttachFails? then {a.h} else {}
    requires a.AttachFails? ==> a.h !in FailedStarts(s)
    ensures Enough(Apply(s, a)) && (a.Pop? ==> s.queue != [])
  {
    hide ToAttach, ToRequest, FailedStarts;
    Members(s, a.h, 0);
    if a.AttachFails? {
      HostUpdate(s.hosts, a.h, Apply(s, a).hosts[a.h]);
    } else if a.Pop? {
      HostUpdate(s.hosts, a.h, s.hosts[a.h].(phase := Popped(if s.queue == [] then 0 else s.queue[0])));
    } else {
      SameHosts(s.hosts, a.h, Apply(s, a).hosts[a.h]);
    }
  }

  /** Only a failed request and a failed attaching add a failed start. */
  lemma FailedAfter(s: State, a: Action)
    requires Sized(s) && OneShot(s) && Enabled(s, a)
    ensures FailedStarts(Apply(s, a)) ==
            match a
            case RequestFails(c) => FailedStarts(s) + {c}
            case AttachFails(h) => FailedStarts(s) + {h}
            case _ => FailedStarts(s)
    ensures a.RequestFails? ==> a.c !in FailedStarts(s)
    ensures a.AttachFails? ==> a.h !in FailedStarts(s)
  {
  }

  lemma SameHosts(hosts: map<nat, Host>, h: nat, x: Host)
    requires h in hosts
    ensures x.phase.Spawned? == hosts[h].phase.Spawned? ==> ToAttach(hosts[h := x]) == ToAttach(hosts)
    ensures x.Live() == hosts[h].Live() ==> Checkpoints(hosts[h := x]) == Checkpoints(hosts)
  {
  }

  lemma OneMoreRequest(creators: seq<Creator>)
    ensures ToRequest(creators + [Pushed]) == ToRequest(creators) + {|creators|} && |creators| !in ToRequest(creators)
  {
  }

  lemma Members(s: State, h: nat, c: nat)
    ensures h in s.hosts && s.hosts[h].phase.Spawned? ==> h in ToAttach(s.hosts)
    ensures h in s.hosts && s.hosts[h].Live() ==> h in Checkpoints(s.hosts)
    ensures c < |s.creators| ==> (s.creators[c].Pushed? <==> c in ToRequest(s.creators))
    ensures h !in s.hosts ==> h !in ToAttach(s.hosts) && h !in Checkpoints(s.hosts)
    ensures h in s.hosts && !s.hosts[h].Live() ==> h !in Checkpoints(s.hosts)
  {
  }

  lemma CountedKept(s: State, a: Action)
    requires Counted(s) && Sized(s) && Enabled(s, a)
    ensures Counted(Apply(s, a)) && (a.Leave? ==> s.running > 0)
  {
    hide Checkpoints;
    if a.Request? {
      RequestCounts(s, a.c);
    } else if a.Enter? {
      EnterCounts(s, a.h);
    } else if a.Leave? {
      LeaveCounts(s, a.h);
    } else if a.AttachFails? || a.Pop? || a.Tell? || a.Begin? || a.Finish? || a.EcallReturns? {
      SameCheckpoints(s, a);
    }
  }

  lemma RequestCounts(s: State, c: nat)
    requires Counted(s) && Sized(s) && Enabled(s, Request(c))
    ensures Counted(Apply(s, Request(c)))
  {
    hide Checkpoints;
    HostUpdate(s.hosts, c, Host(Spawned, Unset, true, 0));
    Members(s, c, c);
  }

  lemma EnterCounts(s: State, h: nat)
    requires Counted(s) && Sized(s) && Enabled(s, Enter(h))
    ensures Counted(Apply(s, Enter(h)))
  {
    hide Checkpoints;
    HostUpdate(s.hosts, h, s.hosts[h].(phase := Entered(s.hosts[h].phase.task)));
    Members(s, h, 0);
  }

  lemma LeaveCounts(s: State, h: nat)
    requires Counted(s) && Sized(s) && Enabled(s, Leave(h))
    ensures Counted(Apply(s, Leave(h))) && s.running > 0
  {
    hide Checkpoints;
    HostUpdate(s.hosts, h, s.hosts[h].(phase := Left));
    Members(s, h, 0);
  }

  /** The other steps of a host thread do not enter or leave a checkpoint. */
  lemma SameCheckpoints(s: State, a: Action)
    requires Sized(s) && Enabled(s, a) && (a.AttachFails? || a.Pop? || a.Tell? || a.Begin? || a.Finish?
             || a.EcallReturns?)
    ensures Checkpoints(Apply(s, a).hosts) == Checkpoints(s.hosts) && Apply(s, a).running == s.running
  {
    SameHosts(s.hosts, a.h, Apply(s, a).hosts[a.h]);
  }

  lemma OneShotKept(s: State, a: Action)
    requires OneShot(s) && Sized(s) && Enabled(s, a)
    ensures OneShot(Apply(s, a))
  {
    var s' := Apply(s, a);
    forall h | h in s'.hosts
      ensures Promised(s'.hosts[h])
    {
      assert h in s.hosts ==> Promised(s.hosts[h]);
    }
    hide Promised;
  }

  /** A host thread that moves on with its task, or without one. */
  lemma HostMoves(s: State, h: nat, x: Host)
    requires OnePlace(s) && h in s.hosts
             && (x.Task() == -1 || (x.Task() == s.hosts[h].Task() && x.Ran() == s.hosts[h].Ran()))
    ensures OnePlace(s.(hosts := s.hosts[h := x]))
  {
    var s' := s.(hosts := s.hosts[h := x]);
    forall k | k in s'.hosts
      ensures TaskOk(s', s'.hosts[k])
    {
      assert TaskOk(s, s.hosts[k]);
    }
  }

  lemma PopKeeps(s: State, h: nat)
    requires OnePlace(s) && h in s.hosts && s.hosts[h].phase.Spawned? && s.queue != []
    ensures OnePlace(s.(queue := s.queue[1..], hosts := s.hosts[h := s.hosts[h].(phase := Popped(s.queue[0]))]))
  {
    var s' := s.(queue := s.queue[1..], hosts := s.hosts[h := s.hosts[h].(phase := Popped(s.queue[0]))]);
    assert forall i :: 0 <= i < |s'.queue| ==> s'.queue[i] == s.queue[i + 1];
    assert s.queue[0] in s.queue;
    forall k | k in s'.hosts
      ensures TaskOk(s', s'.hosts[k])
    {
      assert TaskOk(s, s.hosts[k]);
    }
    assert forall k :: k in s.hosts ==> s.hosts[k].Task() != s.queue[0];
  }

  lemma BeginKeeps(s: State, h: nat)
    requires OnePlace(s) && h in s.hosts && s.hosts[h].phase.Entered?
    ensures s.hosts[h].phase.task < |s.tasks|
    ensures OnePlace(Apply(s, Begin(h)))
  {
    assert TaskOk(s, s.hosts[h]);
    var t := s.hosts[h].phase.task;
    var s' := Apply(s, Begin(h));
    forall k | k in s'.hosts
      ensures TaskOk(s', s'.hosts[k])
    {
      assert TaskOk(s, s.hosts[k]);
    }
  }

  lemma PushKeeps(s: State)
    requires OnePlace(s)
    ensures OnePlace(Apply(s, Push))
  {
  }

  lemma RequestKeeps(s: State, c: nat)
    requires OnePlace(s) && Enabled(s, Request(c))
    ensures OnePlace(Apply(s, Request(c)))
  {
  }

  lemma OnePlaceKept(s: State, a: Action)
    requires OnePlace(s) && Sized(s) && Enabled(s, a) && (a.Pop? ==> s.queue != [])
    ensures OnePlace(Apply(s, a))
  {
    hide OnePlace;
    match a {
      case Push => PushKeeps(s);
      case Request(c) => RequestKeeps(s, c);
      case AttachFails(h) => HostMoves(s, h, s.hosts[h].SetStatus(Failure).(phase := Left));
      case Pop(h) => PopKeeps(s, h);
      case Tell(h) => HostMoves(s, h, s.hosts[h].SetStatus(Success).(phase := Told(s.hosts[h].phase.task)));
      case Enter(h) => EnterKeeps(s, h);
      case Begin(h) => BeginKeeps(s, h);
      case Finish(h) => FinishKeeps(s, h);
      case Leave(h) => LeaveKeeps(s, h);
      case EcallReturns(h, st) => HostMoves(s, h, s.hosts[h].SetStatus(st));
      case _ => OthersKeep(s, a);
    }
  }

  lemma OthersKeep(s: State, a: Action)
    requires OnePlace(s) && Enabled(s, a) && (a.RequestFails? || a.Resume? || a.BeginShutdown? || a.EndShutdown?)
    ensures OnePlace(Apply(s, a))
  {
  }

  lemma EnterKeeps(s: State, h: nat)
    requires OnePlace(s) && h in s.hosts && s.hosts[h].phase.Told?
    ensures OnePlace(Apply(s, Enter(h)))
  {
    HostMoves(s, h, s.hosts[h].(phase := Entered(s.hosts[h].phase.task)));
  }

  lemma FinishKeeps(s: State, h: nat)
    requires OnePlace(s) && h in s.hosts && s.hosts[h].phase.Running?
    ensures OnePlace(Apply(s, Finish(h)))
  {
    assert TaskOk(s, s.hosts[h]);
    HostMoves(s, h, s.hosts[h].(phase := Finished(s.hosts[h].phase.task)));
  }

  lemma LeaveKeeps(s: State, h: nat)
    requires OnePlace(s) && h in s.hosts && s.hosts[h].phase.Finished?
    ensures OnePlace(Apply(s, Leave(h)))
  {
    HostMoves(s, h, s.hosts[h].(phase := Left));
  }

  /** Every step keeps the invariant. */
  lemma StepInv(s: State, a: Action)
    requires Inv(s) && Enabled(s, a)
    ensures Inv(Apply(s, a))
  {
    hide Enough, Counted, OneShot;
    EnoughKept(s, a);
    CountedKept(s, a);
    OneShotKept(s, a);
    OnePlaceKept(s, a);
  }

  // ---- Whole runs ------------------------------------------------------------------------------

  ghost predicate Run(states: seq<State>, steps: seq<Action>) {
    && |states| == |steps| + 1 && states[0] == INIT
    && forall i :: 0 <= i < |steps| ==>
         && |states[i].tasks| == |states[i].runs| == |states[i].creators|
         && Enabled(states[i], steps[i]) && states[i + 1] == Apply(states[i], steps[i])
  }

  lemma {:induction false} RunInv(states: seq<State>, steps: seq<Action>, i: nat)
    requires Run(states, steps) && i < |states|
    ensures Inv(states[i])
    decreases i
  {
    hide Inv, Apply, Enabled;
    if i == 0 {
      InitInv();
    } else {
      RunInv(states, steps, i - 1);
      StepInv(states[i - 1], steps[i - 1]);
    }
  }

  /** Over every run: a host thread that attaches finds a task in the queue, the counter of running threads
      neither underflows nor misses one, no task runs twice, and no promise is fulfilled twice. */
  lemma RunIsSafe(states: seq<State>, steps: seq<Action>, i: nat)
    requires Run(states, steps) && i < |steps|
    ensures var s, a := states[i], steps[i];
            && (a.Pop? ==> s.queue != [])
            && (a.Leave? ==> s.running > 0)
            && (a.EndShutdown? ==> forall h :: h in s.hosts ==> !s.hosts[h].Live())
            && (forall t :: 0 <= t < |s.runs| ==> s.runs[t] <= 1)
            && (forall h :: h in s.hosts ==> s.hosts[h].sets <= 1)
  {
    var s, a := states[i], steps[i];
    RunInv(states, steps, i);
    EnoughKept(s, a);
    CountedKept(s, a);
    if a.EndShutdown? {
      forall h | h in s.hosts
        ensures !s.hosts[h].Live()
      {
        Members(s, h, 0);
      }
    }
    hide Apply, Enough, Counted;
  }

  /** A creator that waits is never forgotten: until its promise is fulfilled, its host thread is still on the
      way to do so, and it can take its next step. */
  lemma WaiterIsServed(states: seq<State>, steps: seq<Action>, i: nat, c: nat)
    requires Run(states, steps) && i < |states| && c < |states[i].creators| && states[i].creators[c].Waiting?
    ensures c in states[i].hosts
    ensures Enabled(states[i], Resume(c)) || Enabled(states[i], Pop(c)) || Enabled(states[i], Tell(c))
    ensures Enabled(states[i], Pop(c)) ==> states[i].queue != []
  {
    RunInv(states, steps, i);
    if Enabled(states[i], Pop(c)) {
      EnoughKept(states[i], Pop(c));
    }
  }

  // ---- Tasks left behind -----------------------------------------------------------------------

  /** The tasks in the queue are the last ones created, in the order of their creation. */
  ghost predicate Fifo(s: State) {
    |s.queue| <= |s.creators| && forall k :: 0 <= k < |s.queue| ==> s.queue[k] == |s.creators| - |s.queue| + k
  }

  lemma FifoKept(s: State, a: Action)
    requires Fifo(s) && Sized(s) && Enabled(s, a)
    ensures Fifo(Apply(s, a))
  {
  }

  lemma {:induction false} RunFifo(states: seq<State>, steps: seq<Action>, i: nat)
    requires Run(states, steps) && i < |states|
    ensures Fifo(states[i])
    decreases i
  {
    hide Inv, Apply, Enabled, Fifo;
    if i == 0 {
      InitFifo();
    } else {
      RunFifo(states, steps, i - 1);
      RunInv(states, steps, i - 1);
      SizedOf(states[i - 1]);
      FifoKept(states[i - 1], steps[i - 1]);
    }
  }

  lemma InitFifo()
    ensures Fifo(INIT)
  {
  }

  /** The numbers from lo to hi. */
  ghost function Between(lo: nat, hi: nat): (r: set<nat>)
    requires lo <= hi
    ensures forall t :: t in r <==> lo <= t < hi
    ensures |r| == hi - lo
    decreases hi - lo
  {
    if lo == hi then {} else Between(lo, hi - 1) + {hi - 1}
  }

  /** A set of numbers below n as large as the set of the last ones is that set unless one of it comes before them. */
  lemma LastOnes(a: set<nat>, n: nat)
    requires |a| <= n && forall t :: t in a ==> t < n
    ensures (exists t :: n - |a| <= t < n && t !in a) <==> exists t :: t in a && t < n - |a|
  {
    var last := Between(n - |a|, n);
    if a <= last {
      assert last == a + (last - a);
    }
    if last <= a {
      assert a == last + (a - last);
    }
  }

  /** With no host thread still to come, the tasks left in the queue are the last ones created, as many as starts have
      failed. So a task whose start did not fail is left if and only if a start failed that was not among them. */
  lemma LeftBehind(states: seq<State>, steps: seq<Action>, i: nat)
    requires Run(states, steps) && i < |states|
    requires ToAttach(states[i].hosts) == {} && ToRequest(states[i].creators) == {}
    ensures var s := states[i]; var failed := FailedStarts(s);
            && |failed| <= |s.creators|
            && (forall t: nat :: t in s.queue <==> |s.creators| - |failed| <= t < |s.creators|)
            && ((exists t :: t in s.queue && t !in failed) <==>
              exists c :: c in failed && c < |s.creators| - |failed|)
  {
    hide ToAttach, ToRequest, Run;
    RunInv(states, steps, i);
    RunFifo(states, steps, i);
    var s := states[i];
    var failed := FailedStarts(s);
    forall t: nat | |s.creators| - |failed| <= t < |s.creators|
      ensures t in s.queue
    {
      assert s.queue[t - (|s.creators| - |s.queue|)] == t;
    }
    LastOnes(failed, |s.creators|);
  }

  /** Such a run: the second creator's host thread takes the first one's task, and reports to its own creator that the
      start succeeded. */
  lemma WrongTaskStarts() returns (states: seq<State>, steps: seq<Action>)
    ensures Run(states, steps)
    ensures var s := states[|steps|];
            && s.queue == [1] && s.creators == [Returned, Returned] && s.tasks == [Completed, Started]
            && s.hosts == map[0 := Host(Left, Fulfilled(Failure), false, 1),
              1 := Host(Told(0), Fulfilled(Success), false, 1)]
            && ToAttach(s.hosts) == {} && ToRequest(s.creators) == {} && FailedStarts(s) == {0}
  {
    var failed, got := Host(Left, Fulfilled(Failure), false, 1), Fulfilled(Success);
    states, steps := SecondAttaches(failed);
    hide Run;
    states, steps := Then(states, steps, Tell(1), Pair([1], Returned, Waiting, Completed, Created,
                          map[0 := failed, 1 := Host(Told(0), got, false, 1)]));
    states, steps := Then(states, steps, Resume(1), Pair([1], Returned, Returned, Completed, Started,
                          map[0 := failed, 1 := Host(Told(0), got, false, 1)]));
  }

  lemma SecondAttaches(failed: Host) returns (states: seq<State>, steps: seq<Action>)
    requires failed == Host(Left, Fulfilled(Failure), false, 1)
    ensures Run(states, steps) && |states| == |steps| + 1
    ensures states[|steps|] ==
            Pair([1], Returned, Waiting, Completed, Created, map[0 := failed, 1 := Host(Popped(0), Unset, true, 0)])
  {
    states, steps := FirstFails(failed);
    hide Run;
    states, steps := Then(states, steps, Request(1), Pair([0, 1], Returned, Waiting, Completed, Created,
                          map[0 := failed, 1 := Host(Spawned, Unset, true, 0)]));
    states, steps := Then(states, steps, Pop(1), Pair([1], Returned, Waiting, Completed, Created,
                          map[0 := failed, 1 := Host(Popped(0), Unset, true, 0)]));
  }

  lemma FirstFails(failed: Host) returns (states: seq<State>, steps: seq<Action>)
    requires failed == Host(Left, Fulfilled(Failure), false, 1)
    ensures Run(states, steps) && |states| == |steps| + 1
    ensures states[|steps|] == Pair([0, 1], Returned, Pushed, Completed, Created, map[0 := failed])
  {
    states, steps := [INIT], [];
    assert Run(states, steps);
    hide Run;
    states, steps := Then(states, steps, Push, State([0], [Pushed], [Created], [0], map[], 0, false));
    states, steps := Then(states, steps, Push, Pair([0, 1], Pushed, Pushed, Created, Created, map[]));
    states, steps := Then(states, steps, Request(0), Pair([0, 1], Waiting, Pushed, Created, Created,
                          map[0 := Host(Spawned, Unset, true, 0)]));
    states, steps := Then(states, steps, AttachFails(0),
      Pair([0, 1], Waiting, Pushed, Created, Created, map[0 := failed]));
    states, steps := Then(states, steps, Resume(0),
      Pair([0, 1], Returned, Pushed, Completed, Created, map[0 := failed]));
  }

  /** A state of two tasks, none of which has run. */
  function Pair(queue: seq<nat>, c0: Creator, c1: Creator, t0: TaskState, t1: TaskState, hosts: map<nat, Host>): State {
    State(queue, [c0, c1], [t0, t1], [0, 0], hosts, 0, false)
  }

  // ---- The state a joiner waits for ------------------------------------------------------------

  /** Task c has been finished. */
  ghost predicate Done(s: State, c: nat) {
    && c < |s.tasks| == |s.creators| == |s.runs| && s.runs[c] == 1
    && forall h :: h in s.hosts ==> s.hosts[h].Task() != c || s.hosts[h].phase.Finished?
  }

  /** It stays so, and once its creator has gone on its state does not change any more. */
  lemma DoneStays(s: State, a: Action, c: nat)
    requires Inv(s) && Enabled(s, a) && Done(s, c)
    ensures Done(Apply(s, a), c)
    ensures s.creators[c].Returned? ==> Apply(s, a).creators[c].Returned? && Apply(s, a).tasks[c] == s.tasks[c]
  {
    hide Enough, Counted, OneShot;
    EnoughKept(s, a);
    assert c !in s.queue;
    if a.Begin? || a.Finish? {
      assert TaskOk(s, s.hosts[a.h]);
    }
  }

  lemma ReturnedStays(s: State, a: Action, c: nat)
    requires Sized(s) && Enabled(s, a) && c < |s.creators| && s.creators[c].Returned?
    ensures c < |Apply(s, a).creators| && Apply(s, a).creators[c].Returned?
  {
  }

  lemma FinishIsDone(s: State, h: nat)
    requires Inv(s) && Enabled(s, Finish(h))
    ensures var c := s.hosts[h].phase.task;
            Done(Apply(s, Finish(h)), c) && Apply(s, Finish(h)).tasks[c] == Completed
              && Apply(s, Finish(h)).creators == s.creators
  {
    assert TaskOk(s, s.hosts[h]);
  }

  lemma {:induction false} DoneForGood(states: seq<State>, steps: seq<Action>, f: nat, k: nat, c: nat)
    requires Run(states, steps) && f <= k < |states| && Done(states[f], c)
    ensures Done(states[k], c)
    ensures states[f].creators[c].Returned? ==>
            states[k].creators[c].Returned? && states[k].tasks[c] == states[f].tasks[c]
    decreases k
  {
    hide Done, Inv, Apply, Enabled;
    if f < k {
      DoneForGood(states, steps, f, k - 1, c);
      RunInv(states, steps, k - 1);
      DoneIsSized(states[f], c);
      DoneIsSized(states[k - 1], c);
      DoneStays(states[k - 1], steps[k - 1], c);
    }
  }

  lemma DoneIsSized(s: State, c: nat)
    requires Done(s, c)
    ensures c < |s.creators| == |s.tasks|
  {
  }

  lemma {:induction false} ReturnedForGood(states: seq<State>, steps: seq<Action>, r: nat, k: nat, c: nat)
    requires Run(states, steps) && r <= k < |states| && c < |states[r].creators| && states[r].creators[c].Returned?
    ensures c < |states[k].creators| && states[k].creators[c].Returned?
    decreases k
  {
    hide Inv, Apply, Enabled;
    if r < k {
      ReturnedForGood(states, steps, r, k - 1, c);
      RunInv(states, steps, k - 1);
      SizedOf(states[k - 1]);
      ReturnedStays(states[k - 1], steps[k - 1], c);
    }
  }

  lemma SizedOf(s: State)
    requires Inv(s)
    ensures Sized(s)
  {
  }

  /** Once a task is finished and its creator has gone on, its state is Completed for good if and only if the
      creator went on before the task was finished, or was told that the start or the request had failed. */
  lemma StateForGood(states: seq<State>, steps: seq<Action>, r: nat, f: nat, k: nat)
    requires Run(states, steps) && r < k && f < k < |states| && steps[f].Finish?
    requires steps[r].Resume? || steps[r].RequestFails?
    requires states[f].hosts[steps[f].h].phase.task == steps[r].c
    ensures var c := steps[r].c;
            && c < |states[k].tasks|
            && (states[k].tasks[c] == Completed <==>
              r < f || steps[r].RequestFails? || states[r].hosts[c].promise.status == Failure)
  {
    hide Inv, Done, TaskOk;
    var c, h := steps[r].c, steps[f].h;
    RunInv(states, steps, f);
    RunInv(states, steps, r);
    FinishIsDone(states[f], h);
    DoneIsSized(states[f + 1], c);
    if r < f {
      ReturnedForGood(states, steps, r + 1, f, c);
      DoneForGood(states, steps, f + 1, k, c);
    } else {
      DoneForGood(states, steps, f + 1, r, c);
      DoneStays(states[r], steps[r], c);
      DoneForGood(states, steps, r + 1, k, c);
    }
    DoneIsSized(states[k], c);
  }

  lemma Extend(states: seq<State>, steps: seq<Action>, a: Action, s: State)
    requires Run(states, steps)
    requires var l := states[|steps|]; |l.tasks| == |l.runs| == |l.creators| && Enabled(l, a) && s == Apply(l, a)
    ensures Run(states + [s], steps + [a])
  {
    hide Apply, Enabled;
    var ss, aa := states + [s], steps + [a];
    forall i | 0 <= i < |aa|
      ensures |ss[i].tasks| == |ss[i].runs| == |ss[i].creators| && Enabled(ss[i], aa[i])
              && ss[i + 1] == Apply(ss[i], aa[i])
    {
      if i < |steps| {
        assert ss[i] == states[i] && ss[i + 1] == states[i + 1] && aa[i] == steps[i];
      }
    }
  }

  /** The state of the only task's run below. */
  function Solo(queue: seq<nat>, c: Creator, t: TaskState, n: nat, x: Host, running: nat): State {
    State(queue, [c], [t], [n], map[0 := x], running, false)
  }

  /** Such a run: the task is finished before its creator is told, and its state ends as Started. */
  lemma CompletionLost() returns (states: seq<State>, steps: seq<Action>)
    ensures Run(states, steps)
    ensures states[|steps|] == Solo([], Returned, Started, 1, Host(Left, Fulfilled(Success), false, 1), 0)
  {
    hide Run;
    var got := Fulfilled(Success);
    states, steps := UpToTelling();
    states, steps := Then(states, steps, Enter(0), Solo([], Waiting, Created, 0, Host(Entered(0), got, false, 1), 1));
    states, steps := Then(states, steps, Begin(0), Solo([], Waiting, Started, 1, Host(Running(0), got, false, 1), 1));
    states, steps := Then(states, steps, Finish(0),
      Solo([], Waiting, Completed, 1, Host(Finished(0), got, false, 1), 1));
    states, steps := Then(states, steps, Leave(0), Solo([], Waiting, Completed, 1, Host(Left, got, false, 1), 0));
    states, steps := Then(states, steps, Resume(0), Solo([], Returned, Started, 1, Host(Left, got, false, 1), 0));
  }

  lemma UpToTelling() returns (states: seq<State>, steps: seq<Action>)
    ensures Run(states, steps) && |states| == |steps| + 1
    ensures states[|steps|] == Solo([], Waiting, Created, 0, Host(Told(0), Fulfilled(Success), false, 1), 0)
  {
    states, steps := [INIT], [];
    assert Run(states, steps);
    hide Run;
    states, steps := Then(states, steps, Push, State([0], [Pushed], [Created], [0], map[], 0, false));
    states, steps := Then(states, steps, Request(0), Solo([0], Waiting, Created, 0, Host(Spawned, Unset, true, 0), 0));
    states, steps := Then(states, steps, Pop(0), Solo([], Waiting, Created, 0, Host(Popped(0), Unset, true, 0), 0));
    states, steps := Then(states, steps, Tell(0),
      Solo([], Waiting, Created, 0, Host(Told(0), Fulfilled(Success), false, 1), 0));
  }

  lemma Then(states: seq<State>, steps: seq<Action>, a: Action, s: State) returns (ss: seq<State>, aa: seq<Action>)
    requires Run(states, steps) && |states| == |steps| + 1
    requires var l := states[|steps|]; |l.tasks| == |l.runs| == |l.creators| && Enabled(l, a) && s == Apply(l, a)
    ensures Run(ss, aa) && |ss| == |aa| + 1 && ss[|aa|] == s
  {
    Extend(states, steps, a, s);
    ss, aa := states + [s], steps + [a];
  }
}
