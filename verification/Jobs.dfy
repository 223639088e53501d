/** Background jobs and the subscriptions to their completion (`background.rs`, `server.rs`). The
    task that waits for the child, the notifier and the listeners interleave in any way; each mutex
    section and each send is one step. */
module Jobs {
  import opened Wrappers

  datatype Status = Running | Exited(code: int)

  /** How far the task that waits for the child has come. */
  datatype Waiter =
    | Waiting
    | Ended(code: int, result: string)
    | OutputStored(code: int)
    | TimeStored(code: int)
    | StatusStored
    | Completed

  /** How far the completion callback has come. */
  datatype Notifier = NotStarted | Starting | Sending(todo: seq<nat>, reached: bool) | Done(reached: bool)

  /** `cancelling` counts the cancel calls that saw the job running and have yet to note their request. */
  datatype Job = Job(status: Status, output: Option<string>, finishedAt: Option<nat>, cancelRequested: bool,
                     cancelling: nat, asTask: bool, waiter: Waiter, notifier: Notifier)

  /** A listener registers, then checks each job it asked for, then waits for its stream to end. */
  datatype Phase = Opening | Checking(todo: seq<nat>) | Replaying(job: nat, rest: seq<nat>) | Streaming | Closed

  datatype Listener = Listener(wants: seq<nat>, phase: Phase)

  /** The jobs, the listeners, the registered sinks in order, the notifications that arrived, by listener
      and job, and the attempts to push one to the peer, by job and success. */
  datatype State = State(jobs: map<nat, Job>, listeners: map<nat, Listener>, sinks: seq<nat>, arrived: set<(nat, nat)>,
                         pushes: set<(nat, bool)>)

  const START := State(map[], map[], [], {}, {})

  function Without(sinks: seq<nat>, l: nat): (r: seq<nat>)
    ensures forall m :: m in r <==> m in sinks && m != l
  {
    if sinks == [] then [] else (if sinks[0] == l then [] else [sinks[0]]) + Without(sinks[1..], l)
  }

  /** The registered sinks whose filter covers the job. */
  function SinksFor(s: State, sinks: seq<nat>, j: nat): (r: seq<nat>)
    ensures forall l :: l in r <==> l in sinks && l in s.listeners && j in s.listeners[l].wants
  {
    if sinks == [] then []
    else
      (if sinks[0] in s.listeners && j in s.listeners[sinks[0]].wants then [sinks[0]] else [])
      + SinksFor(s, sinks[1..], j)
  }

  datatype Step =
    | Promote(j: nat, asTask: bool)
    | End(j: nat, code: int, result: string)
    | StoreOutput(j: nat)
    | StoreTime(j: nat, now: nat)
    | StoreStatus(j: nat)
    | Complete(j: nat)
    | Clone(j: nat)
    | Send(j: nat, ok: bool)
    | Fallback(j: nat, ok: bool)
    | AskCancel(j: nat)
    | NoteCancel(j: nat)
    | Open(l: nat, wants: seq<nat>)
    | Register(l: nat)
    | Check(l: nat)
    | Replay(l: nat, ok: bool, pushOk: bool)
    | Close(l: nat)

  predicate JobStep(step: Step)
  {
    !(step.Promote? || step.Open? || step.Register? || step.Check? || step.Replay? || step.Close?)
  }

  predicate ListenerStep(step: Step) { step.Register? || step.Check? || step.Replay? || step.Close? }

  predicate Enabled(s: State, step: Step)
  {
    if step.Promote? then step.j !in s.jobs
    else if step.Open? then step.l !in s.listeners
    else if ListenerStep(step) then
      step.l in s.listeners
      && match step
         case Register(l) => s.listeners[l].phase == Opening
         case Check(l) => s.listeners[l].phase.Checking?
         case Replay(l, _, _) => s.listeners[l].phase.Replaying?
         case _ => s.listeners[step.l].phase == Streaming
    else
      step.j in s.jobs
      && var job := s.jobs[step.j];
         match step
         case End(_, _, _) => job.waiter == Waiting
         case StoreOutput(_) => job.waiter.Ended?
         case StoreTime(_, _) => job.waiter.OutputStored?
         case StoreStatus(_) => job.waiter.TimeStored?
         case Complete(_) => job.waiter == StatusStored
         case Clone(_) => job.notifier == Starting
         case Send(_, _) => job.notifier.Sending? && job.notifier.todo != []
         case Fallback(_, _) => job.notifier.Sending? && job.notifier.todo == []
         case NoteCancel(_) => job.cancelling > 0
         case _ => true
  }

  /** What a job's own step makes of it. Output and time are written once. */
  function JobAfter(s: State, step: Step): Job
    requires JobStep(step) && Enabled(s, step)
  {
    var job := s.jobs[step.j];
    match step
    case End(_, code, result) => job.(waiter := Ended(code, result))
    case StoreOutput(_) =>
      job.(output := if job.output.Some? then job.output else Some(job.waiter.result),
           waiter := OutputStored(job.waiter.code))
    case StoreTime(_, now) =>
      job.(finishedAt := if job.finishedAt.Some? then job.finishedAt else Some(now),
           waiter := TimeStored(job.waiter.code))
    case StoreStatus(_) => job.(status := Exited(job.waiter.code), waiter := StatusStored)
    case Complete(_) => job.(waiter := Completed, notifier := Starting)
    case Clone(j) => job.(notifier := Sending(SinksFor(s, s.sinks, j), false))
    case Send(_, ok) => job.(notifier := Sending(job.notifier.todo[1..], job.notifier.reached || ok))
    case Fallback(_, _) => job.(notifier := Done(job.notifier.reached))
    case AskCancel(_) => if job.status == Running then job.(cancelling := job.cancelling + 1) else job
    case NoteCancel(_) => job.(cancelRequested := true, cancelling := job.cancelling - 1)
  }

  predicate HasExited(s: State, j: nat) { j in s.jobs && s.jobs[j].status.Exited? }

  function PhaseAfter(s: State, step: Step): Phase
    requires ListenerStep(step) && Enabled(s, step)
  {
    var listener := s.listeners[step.l];
    match step
    case Register(_) => Checking(listener.wants)
    case Check(_) =>
      var todo := listener.phase.todo;
      if todo == [] then Streaming
      else if HasExited(s, todo[0]) then Replaying(todo[0], todo[1..])
      else Checking(todo[1..])
    case Replay(_, _, _) => Checking(listener.phase.rest)
    case Close(_) => Closed
  }

  function Next(s: State, step: Step): State
    requires Enabled(s, step)
  {
    match step
    case Promote(j, asTask) =>
      s.(jobs := s.jobs[j := Job(Running, None, None, false, 0, asTask, Waiting, NotStarted)])
    case Open(l, wants) => s.(listeners := s.listeners[l := Listener(wants, Opening)])
    case Register(l) =>
      s.(listeners := s.listeners[l := s.listeners[l].(phase := PhaseAfter(s, step))], sinks := s.sinks + [l])
    case Check(l) => s.(listeners := s.listeners[l := s.listeners[l].(phase := PhaseAfter(s, step))])
    case Replay(l, ok, pushOk) =>
      var j := s.listeners[l].phase.job;
      s.(listeners := s.listeners[l := s.listeners[l].(phase := PhaseAfter(s, step))],
         sinks := if ok then s.sinks else Without(s.sinks, l),
         arrived := if ok then s.arrived + {(l, j)} else s.arrived,
         pushes := if ok then s.pushes else s.pushes + {(j, pushOk)})
    case Close(l) => s.(listeners := s.listeners[l := s.listeners[l].(phase := Closed)], sinks := Without(s.sinks, l))
    case Send(j, ok) =>
      var l := s.jobs[j].notifier.todo[0];
      s.(jobs := s.jobs[j := JobAfter(s, step)],
         sinks := if ok then s.sinks else Without(s.sinks, l),
         arrived := if ok then s.arrived + {(l, j)} else s.arrived)
    case Fallback(j, ok) =>
      s.(jobs := s.jobs[j := JobAfter(s, step)],
         pushes := if s.jobs[j].notifier.reached || s.jobs[j].asTask then s.pushes else s.pushes + {(j, ok)})
    case _ => s.(jobs := s.jobs[step.j := JobAfter(s, step)])
  }

  // ----- what every step keeps

  /** Output, then time, then status, then notification. */
  ghost predicate InOrder(job: Job)
  {
    && (job.status.Exited? <==> job.waiter.StatusStored? || job.waiter.Completed?)
    && (job.output.Some? <==> !job.waiter.Waiting? && !job.waiter.Ended?)
    && (job.finishedAt.Some? <==> job.waiter.TimeStored? || job.status.Exited?)
    && (job.notifier == NotStarted <==> !job.waiter.Completed?)
  }

  /** The jobs a listener has still to check. */
  function ToCheck(p: Phase): seq<nat>
  {
    match p
    case Checking(todo) => todo
    case Replaying(j, rest) => [j] + rest
    case _ => []
  }

  /** A completion that the notifier has begun to announce has reached the listener, or the notifier
      still has it on its list, or the listener still has the job on its own. */
  ghost predicate Accounted(job: Job, phase: Phase, l: nat, j: nat, arrived: set<(nat, nat)>)
  {
    job.notifier.Sending? || job.notifier.Done? ==>
      (l, j) in arrived || (job.notifier.Sending? && l in job.notifier.todo) || j in ToCheck(phase)
  }

  ghost predicate NothingLost(s: State)
  {
    forall l, j | l in s.sinks && l in s.listeners && j in s.listeners[l].wants && j in s.jobs ::
      Accounted(s.jobs[j], s.listeners[l].phase, l, j, s.arrived)
  }

  ghost predicate Arrival(s: State, l: nat, j: nat)
  {
    l in s.listeners && j in s.listeners[l].wants && HasExited(s, j)
  }

  /** Notifications are sent only to listeners that asked, about jobs that have exited. */
  ghost predicate OnlyTrue(s: State)
  {
    && (forall l, j | (l, j) in s.arrived :: Arrival(s, l, j))
    && (forall j, l | j in s.jobs && s.jobs[j].notifier.Sending? && l in s.jobs[j].notifier.todo ::
          l in s.listeners && j in s.listeners[l].wants)
    && (forall l | l in s.listeners && s.listeners[l].phase.Replaying? :: HasExited(s, s.listeners[l].phase.job))
    && forall l, j | l in s.listeners && j in ToCheck(s.listeners[l].phase) :: j in s.listeners[l].wants
  }

  ghost predicate Registered(s: State)
  {
    forall l | l in s.sinks :: l in s.listeners && s.listeners[l].phase != Opening
  }

  ghost predicate Valid(s: State)
  {
    (forall j | j in s.jobs :: InOrder(s.jobs[j])) && NothingLost(s) && OnlyTrue(s) && Registered(s)
  }

  lemma JobStaysInOrder(s: State, step: Step)
    requires JobStep(step) && Enabled(s, step) && InOrder(s.jobs[step.j])
    ensures InOrder(JobAfter(s, step))
    ensures s.jobs[step.j].status.Exited? ==> JobAfter(s, step).status == s.jobs[step.j].status
    ensures s.jobs[step.j].output.Some? ==> JobAfter(s, step).output == s.jobs[step.j].output
  {
  }

  /** A job's own step leaves its completion accounted for. */
  lemma JobStepAccounts(s: State, step: Step, l: nat)
    requires JobStep(step) && Enabled(s, step) && InOrder(s.jobs[step.j]) && Registered(s) && l in Next(s, step).sinks
    requires step.j in s.listeners[l].wants && Accounted(s.jobs[step.j], s.listeners[l].phase, l, step.j, s.arrived)
    ensures Accounted(JobAfter(s, step), s.listeners[l].phase, l, step.j, Next(s, step).arrived)
  {
    if step.Send? {
      var todo := s.jobs[step.j].notifier.todo;
      assert l in todo ==> l == todo[0] || l in todo[1..];
    }
  }

  lemma JobStepNothingLost(s: State, step: Step)
    requires Valid(s) && JobStep(step) && Enabled(s, step)
    ensures NothingLost(Next(s, step))
  {
    var s' := Next(s, step);
    forall l, j | l in s'.sinks && l in s'.listeners && j in s'.listeners[l].wants && j in s'.jobs
      ensures Accounted(s'.jobs[j], s'.listeners[l].phase, l, j, s'.arrived)
    {
      assert l in s.sinks && Accounted(s.jobs[j], s.listeners[l].phase, l, j, s.arrived);
      if j == step.j {
        JobStepAccounts(s, step, l);
      }
    }
  }

  lemma JobStepOnlyTrue(s: State, step: Step)
    requires Valid(s) && JobStep(step) && Enabled(s, step)
    ensures OnlyTrue(Next(s, step))
  {
    var s' := Next(s, step);
    JobStaysInOrder(s, step);
    assert forall j :: HasExited(s, j) ==> HasExited(s', j);
    forall l, j | (l, j) in s'.arrived
      ensures Arrival(s', l, j)
    {
      if (l, j) in s.arrived {
        assert Arrival(s, l, j);
      }
    }
    forall j, l | j in s'.jobs && s'.jobs[j].notifier.Sending? && l in s'.jobs[j].notifier.todo
      ensures l in s'.listeners && j in s'.listeners[l].wants
    {
      if j == step.j && step.Send? {
        assert l in s.jobs[j].notifier.todo;
      }
    }
  }

  lemma JobStepIsValid(s: State, step: Step)
    requires Valid(s) && JobStep(step) && Enabled(s, step)
    ensures Valid(Next(s, step))
  {
    JobStaysInOrder(s, step);
    JobStepNothingLost(s, step);
    JobStepOnlyTrue(s, step);
  }

  /** A listener's own step leaves the completions of its jobs accounted for. */
  lemma ListenerStepAccounts(s: State, step: Step, j: nat)
    requires Valid(s) && ListenerStep(step) && Enabled(s, step) && step.l in Next(s, step).sinks
    requires j in s.jobs && j in s.listeners[step.l].wants
    ensures Accounted(s.jobs[j], PhaseAfter(s, step), step.l, j, Next(s, step).arrived)
  {
    var l := step.l;
    if !step.Register? {
      assert Accounted(s.jobs[j], s.listeners[l].phase, l, j, s.arrived);
    }
    if step.Check? {
      var todo := s.listeners[l].phase.todo;
      assert j in todo ==> j == todo[0] || j in todo[1..];
      assert InOrder(s.jobs[j]);
    }
  }

  lemma ListenerStepNothingLost(s: State, step: Step)
    requires Valid(s) && ListenerStep(step) && Enabled(s, step)
    ensures NothingLost(Next(s, step))
  {
    var s' := Next(s, step);
    forall l, j | l in s'.sinks && l in s'.listeners && j in s'.listeners[l].wants && j in s'.jobs
      ensures Accounted(s'.jobs[j], s'.listeners[l].phase, l, j, s'.arrived)
    {
      if l == step.l {
        ListenerStepAccounts(s, step, j);
      } else {
        assert l in s.sinks && Accounted(s.jobs[j], s.listeners[l].phase, l, j, s.arrived);
      }
    }
  }

  lemma ListenerStepOnlyTrue(s: State, step: Step)
    requires Valid(s) && ListenerStep(step) && Enabled(s, step)
    ensures OnlyTrue(Next(s, step))
  {
    var s' := Next(s, step);
    forall l, j | (l, j) in s'.arrived
      ensures Arrival(s', l, j)
    {
      if (l, j) in s.arrived {
        assert Arrival(s, l, j);
      } else {
        assert j in ToCheck(s.listeners[l].phase);
      }
    }
    forall l, j | l in s'.listeners && j in ToCheck(s'.listeners[l].phase)
      ensures j in s'.listeners[l].wants
    {
      if l == step.l && !step.Register? {
        assert j in ToCheck(s.listeners[l].phase);
      }
    }
  }

  lemma ListenerStepIsValid(s: State, step: Step)
    requires Valid(s) && ListenerStep(step) && Enabled(s, step)
    ensures Valid(Next(s, step))
  {
    ListenerStepNothingLost(s, step);
    ListenerStepOnlyTrue(s, step);
  }

  lemma PromoteIsValid(s: State, step: Step)
    requires Valid(s) && step.Promote? && Enabled(s, step)
    ensures Valid(Next(s, step))
  {
    var s' := Next(s, step);
    forall l, j | (l, j) in s'.arrived
      ensures Arrival(s', l, j)
    {
      assert Arrival(s, l, j);
    }
    forall l, j | l in s'.sinks && l in s'.listeners && j in s'.listeners[l].wants && j in s'.jobs
      ensures Accounted(s'.jobs[j], s'.listeners[l].phase, l, j, s'.arrived)
    {
      assert j != step.j ==> Accounted(s.jobs[j], s.listeners[l].phase, l, j, s.arrived);
    }
  }

  lemma OpenIsValid(s: State, step: Step)
    requires Valid(s) && step.Open? && Enabled(s, step)
    ensures Valid(Next(s, step))
  {
    var s' := Next(s, step);
    forall l, j | (l, j) in s'.arrived
      ensures Arrival(s', l, j)
    {
      assert Arrival(s, l, j);
    }
    forall l, j | l in s'.sinks && l in s'.listeners && j in s'.listeners[l].wants && j in s'.jobs
      ensures Accounted(s'.jobs[j], s'.listeners[l].phase, l, j, s'.arrived)
    {
      assert Accounted(s.jobs[j], s.listeners[l].phase, l, j, s.arrived);
    }
  }

  lemma StepIsValid(s: State, step: Step)
    requires Valid(s) && Enabled(s, step)
    ensures Valid(Next(s, step))
  {
    if step.Promote? {
      PromoteIsValid(s, step);
    } else if step.Open? {
      OpenIsValid(s, step);
    } else if ListenerStep(step) {
      ListenerStepIsValid(s, step);
    } else {
      JobStepIsValid(s, step);
    }
  }

  // ----- every run

  ghost predicate Run(steps: seq<Step>, states: seq<State>)
  {
    && |states| == |steps| + 1 && states[0] == START
    && forall i | 0 <= i < |steps| :: Enabled(states[i], steps[i]) && states[i + 1] == Next(states[i], steps[i])
  }

  lemma {:induction false} RunIsValid(steps: seq<Step>, states: seq<State>, n: nat)
    requires Run(steps, states) && n < |states|
    ensures Valid(states[n])
  {
    if n > 0 {
      RunIsValid(steps, states, n - 1);
      assert Enabled(states[n - 1], steps[n - 1]) && states[n - 1 + 1] == Next(states[n - 1], steps[n - 1]);
      StepIsValid(states[n - 1], steps[n - 1]);
    }
  }

  /** In every interleaving, once the notifier of a job is done and a listener that asked for the job
      has made its checks, the completion has reached the listener, if it is still registered. */
  lemma NoCompletionIsLost(steps: seq<Step>, states: seq<State>, n: nat, l: nat, j: nat)
    requires Run(steps, states) && n < |states|
    requires l in states[n].sinks && l in states[n].listeners && states[n].listeners[l].phase == Streaming
             && j in states[n].listeners[l].wants
    requires j in states[n].jobs && states[n].jobs[j].notifier.Done?
    ensures (l, j) in states[n].arrived
  {
    RunIsValid(steps, states, n);
    assert Accounted(states[n].jobs[j], states[n].listeners[l].phase, l, j, states[n].arrived);
  }

  /** A finished job stays finished, with the same output. */
  lemma {:induction false} FinishedStays(steps: seq<Step>, states: seq<State>, i: nat, k: nat, j: nat)
    requires Run(steps, states) && i <= k < |states| && j in states[i].jobs
    ensures j in states[k].jobs
    ensures states[i].jobs[j].status.Exited? ==> states[k].jobs[j].status == states[i].jobs[j].status
    ensures states[i].jobs[j].output.Some? ==> states[k].jobs[j].output == states[i].jobs[j].output
    decreases k - i
  {
    if i < k {
      FinishedStays(steps, states, i, k - 1, j);
      RunIsValid(steps, states, k - 1);
      assert Enabled(states[k - 1], steps[k - 1]) && states[k - 1 + 1] == Next(states[k - 1], steps[k - 1]);
      if JobStep(steps[k - 1]) {
        JobStaysInOrder(states[k - 1], steps[k - 1]);
      }
    }
  }

  /** What reading a job gives: the status is read first, the output later. */
  function ReadJob(first: Job, later: Job, tail: string): Option<(Status, string)>
  {
    if first.status.Exited? then
      if later.output.Some? then Some((first.status, later.output.value)) else None
    else Some((first.status, tail))
  }

  /** In every run reading a registered job gives a result, whatever happens while it reads, and a
      job that reads as exited reads the same ever after. */
  lemma ReadIsComplete(steps: seq<Step>, states: seq<State>, i: nat, k: nat, i': nat, k': nat, j: nat, tail: string)
    requires Run(steps, states) && i <= k < |states| && i <= i' <= k' < |states| && j in states[i].jobs
    ensures j in states[k].jobs && j in states[i'].jobs && j in states[k'].jobs
    ensures var r := ReadJob(states[i].jobs[j], states[k].jobs[j], tail);
            r.Some? && (r.value.0.Exited? ==> ReadJob(states[i'].jobs[j], states[k'].jobs[j], tail) == r)
  {
    RunIsValid(steps, states, i);
    assert InOrder(states[i].jobs[j]);
    FinishedStays(steps, states, i, k, j);
    FinishedStays(steps, states, i, i', j);
    FinishedStays(steps, states, i, k', j);
  }

  /** What of the end of a job is recorded so far agrees with the given code and output. */
  ghost predicate Records(job: Job, code: int, result: string)
  {
    match job.waiter
    case Waiting => false
    case Ended(c, r) => c == code && r == result
    case OutputStored(c) => c == code && job.output == Some(result)
    case TimeStored(c) => c == code && job.output == Some(result)
    case _ => job.status == Exited(code) && job.output == Some(result)
  }

  lemma StillRecords(s: State, step: Step, j: nat, code: int, result: string)
    requires Enabled(s, step) && j in s.jobs && InOrder(s.jobs[j]) && Records(s.jobs[j], code, result)
    ensures j in Next(s, step).jobs && Records(Next(s, step).jobs[j], code, result)
  {
  }

  lemma BeginsToEnd(s: State, step: Step, j: nat)
    requires Enabled(s, step) && j in Next(s, step).jobs && Next(s, step).jobs[j].waiter != Waiting
    requires j !in s.jobs || s.jobs[j].waiter == Waiting
    ensures step.End? && step.j == j && Records(Next(s, step).jobs[j], step.code, step.result)
  {
  }

  /** The step with which a job ended, as what is recorded of it tells. */
  lemma {:induction false} EndIsRecorded(steps: seq<Step>, states: seq<State>, n: nat, j: nat)
    returns (code: int, result: string)
    requires Run(steps, states) && n < |states| && j in states[n].jobs && states[n].jobs[j].waiter != Waiting
    ensures End(j, code, result) in steps[..n] && Records(states[n].jobs[j], code, result)
  {
    var s, step := states[n - 1], steps[n - 1];
    assert Enabled(s, step) && states[n - 1 + 1] == Next(s, step);
    assert steps[..n] == steps[..n - 1] + [step];
    if j in s.jobs && s.jobs[j].waiter != Waiting {
      code, result := EndIsRecorded(steps, states, n - 1, j);
      assert InOrder(s.jobs[j]) by { RunIsValid(steps, states, n - 1); }
      StillRecords(s, step, j, code, result);
    } else {
      BeginsToEnd(s, step, j);
      code, result := step.code, step.result;
    }
  }

  /** A job that reads as exited reads with the code and the output that it ended with. */
  lemma ReadTellsHowItEnded(steps: seq<Step>, states: seq<State>, i: nat, k: nat, j: nat, tail: string)
    returns (code: int, result: string)
    requires Run(steps, states) && i <= k < |states| && j in states[i].jobs && states[i].jobs[j].status.Exited?
    ensures End(j, code, result) in steps[..i] && j in states[k].jobs
    ensures ReadJob(states[i].jobs[j], states[k].jobs[j], tail) == Some((Exited(code), result))
  {
    RunIsValid(steps, states, i);
    assert InOrder(states[i].jobs[j]);
    code, result := EndIsRecorded(steps, states, i, j);
    FinishedStays(steps, states, i, k, j);
  }

  /** A listener that was notified asked for the job, and reading the job then gives its exit. */
  lemma NotifiedListenerReadsExit(steps: seq<Step>, states: seq<State>, n: nat, l: nat, j: nat, tail: string)
    requires Run(steps, states) && n < |states| && (l, j) in states[n].arrived
    ensures l in states[n].listeners && j in states[n].listeners[l].wants && j in states[n].jobs
    ensures var r := ReadJob(states[n].jobs[j], states[n].jobs[j], tail); r.Some? && r.value.0.Exited?
  {
    RunIsValid(steps, states, n);
    assert Arrival(states[n], l, j) && InOrder(states[n].jobs[j]);
  }

  // ----- every completion is announced

  ghost predicate PushTried(s: State, j: nat) { (j, true) in s.pushes || (j, false) in s.pushes }

  ghost predicate ReachedSome(s: State, j: nat) { exists l :: (l, j) in s.arrived }

  /** What the notifier takes for delivered was; what it did not deliver it tried to push, except for a
      task, whose client polls. */
  ghost predicate Announced(s: State, j: nat)
    requires j in s.jobs
  {
    match s.jobs[j].notifier
    case Sending(_, reached) => reached ==> ReachedSome(s, j)
    case Done(reached) => if reached then ReachedSome(s, j) else s.jobs[j].asTask || PushTried(s, j)
    case _ => true
  }

  ghost predicate AllAnnounced(s: State)
  {
    (forall j | j in s.jobs :: Announced(s, j)) && forall j, ok | (j, ok) in s.pushes :: HasExited(s, j)
  }

  lemma StepAnnounces(s: State, step: Step)
    requires Valid(s) && Enabled(s, step) && AllAnnounced(s)
    ensures AllAnnounced(Next(s, step))
  {
    var s' := Next(s, step);
    assert s.arrived <= s'.arrived && s.pushes <= s'.pushes;
    if JobStep(step) {
      JobStaysInOrder(s, step);
    }
    assert forall j :: HasExited(s, j) ==> HasExited(s', j);
    forall j | j in s'.jobs
      ensures Announced(s', j)
    {
      if j in s.jobs {
        JobStaysAnnounced(s, step, s', j);
      }
    }
    forall j, ok | (j, ok) in s'.pushes
      ensures HasExited(s', j)
    {
      PushIsTrue(s, step, j, ok);
    }
  }

  lemma JobStaysAnnounced(s: State, step: Step, s': State, j: nat)
    requires Enabled(s, step) && s' == Next(s, step) && j in s.jobs && j in s'.jobs && Announced(s, j)
    requires s.arrived <= s'.arrived && s.pushes <= s'.pushes
    ensures Announced(s', j)
  {
    if step.Send? && step.j == j && step.ok {
      assert (s.jobs[j].notifier.todo[0], j) in s'.arrived;
    }
    if ReachedSome(s, j) {
      var l :| (l, j) in s.arrived;
      assert (l, j) in s'.arrived;
    }
  }

  lemma PushIsTrue(s: State, step: Step, j: nat, ok: bool)
    requires Valid(s) && Enabled(s, step) && AllAnnounced(s) && (j, ok) in Next(s, step).pushes
    ensures HasExited(s, j)
  {
    if (j, ok) !in s.pushes {
      if step.Fallback? {
        assert InOrder(s.jobs[j]);
      }
    }
  }

  lemma {:induction false} RunAnnounces(steps: seq<Step>, states: seq<State>, n: nat)
    requires Run(steps, states) && n < |states|
    ensures AllAnnounced(states[n])
  {
    if n > 0 {
      RunAnnounces(steps, states, n - 1);
      RunIsValid(steps, states, n - 1);
      assert Enabled(states[n - 1], steps[n - 1]) && states[n - 1 + 1] == Next(states[n - 1], steps[n - 1]);
      StepAnnounces(states[n - 1], steps[n - 1]);
    }
  }

  /** In every interleaving, once the notifier of a job is done its completion has reached a stream or a
      push to the peer was tried, unless the job is a task; and nothing is pushed about a running job. */
  lemma CompletionIsAnnounced(steps: seq<Step>, states: seq<State>, n: nat, j: nat)
    requires Run(steps, states) && n < |states|
    ensures j in states[n].jobs && states[n].jobs[j].notifier.Done? && !states[n].jobs[j].asTask ==>
              ReachedSome(states[n], j) || PushTried(states[n], j)
    ensures PushTried(states[n], j) ==> HasExited(states[n], j)
  {
    RunAnnounces(steps, states, n);
  }

  /** The step is why a push about the job is tried: a listener could not be told that the job had exited
      before, or the notifier has told no stream and the job is no task. */
  ghost predicate IsReason(s: State, step: Step, j: nat, ok: bool)
  {
    match step
    case Replay(l, told, pushOk) =>
      !told && pushOk == ok && l in s.listeners && s.listeners[l].phase.Replaying? && s.listeners[l].phase.job == j
    case Fallback(job, pushOk) =>
      job == j && pushOk == ok && j in s.jobs && !s.jobs[j].asTask && s.jobs[j].notifier == Sending([], false)
    case _ => false
  }

  /** No push is tried without such a step. */
  lemma {:induction false} PushHasReason(steps: seq<Step>, states: seq<State>, n: nat, j: nat, ok: bool)
    returns (m: nat)
    requires Run(steps, states) && n < |states| && (j, ok) in states[n].pushes
    ensures m < n && IsReason(states[m], steps[m], j, ok)
  {
    m := n - 1;
    assert Enabled(states[m], steps[m]) && states[m + 1] == Next(states[m], steps[m]);
    if (j, ok) in states[m].pushes {
      m := PushHasReason(steps, states, m, j, ok);
    }
  }

  // ----- cancelling

  ghost predicate AskedWhileRunning(steps: seq<Step>, states: seq<State>, n: nat, j: nat)
    requires |states| == |steps| + 1 && n <= |steps|
  {
    exists m :: 0 <= m < n && steps[m] == AskCancel(j) && j in states[m].jobs && states[m].jobs[j].status == Running
  }

  /** A job is marked as cancelled only if some cancel saw it running. */
  lemma {:induction false} CancelledWasRunning(steps: seq<Step>, states: seq<State>, n: nat, j: nat)
    requires Run(steps, states) && n < |states| && j in states[n].jobs
    requires states[n].jobs[j].cancelRequested || states[n].jobs[j].cancelling > 0
    ensures AskedWhileRunning(steps, states, n, j)
  {
    if n > 0 {
      var s, step := states[n - 1], steps[n - 1];
      assert Enabled(s, step) && states[n - 1 + 1] == Next(s, step);
      if j in s.jobs && (s.jobs[j].cancelRequested || s.jobs[j].cancelling > 0) {
        CancelledWasRunning(steps, states, n - 1, j);
      } else {
        assert step == AskCancel(j) && s.jobs[j].status == Running;
      }
    }
  }

  /** Once a job has exited and no cancel that saw it running is under way, its mark stays. */
  lemma {:induction false} MarkStays(steps: seq<Step>, states: seq<State>, i: nat, k: nat, j: nat)
    requires Run(steps, states) && i <= k < |states| && HasExited(states[i], j) && states[i].jobs[j].cancelling == 0
    ensures HasExited(states[k], j) && states[k].jobs[j].cancelling == 0
    ensures states[k].jobs[j].cancelRequested == states[i].jobs[j].cancelRequested
    decreases k - i
  {
    if i < k {
      MarkStays(steps, states, i, k - 1, j);
      FinishedStays(steps, states, i, k, j);
      assert Enabled(states[k - 1], steps[k - 1]) && states[k - 1 + 1] == Next(states[k - 1], steps[k - 1]);
    }
  }

  /** Otherwise it may change: a cancel that is under way can mark any job that has exited since. */
  lemma MarkCanComeLate(steps: seq<Step>, states: seq<State>, j: nat) returns (step: Step, s': State)
    requires Run(steps, states) && HasExited(states[|steps|], j) && states[|steps|].jobs[j].cancelling > 0
    ensures Run(steps + [step], states + [s']) && HasExited(s', j) && s'.jobs[j].cancelRequested
  {
    step := NoteCancel(j);
    s' := Next(states[|steps|], step);
    var steps', states' := steps + [step], states + [s'];
    forall i | 0 <= i < |steps'|
      ensures Enabled(states'[i], steps'[i]) && states'[i + 1] == Next(states'[i], steps'[i])
    {
      if i < |steps| {
        assert Enabled(states[i], steps[i]) && states[i + 1] == Next(states[i], steps[i]);
      }
    }
  }
}
