/** The task manager of libs/tasks.js: a Task runs its job once it is
    started and records whether the job finished or threw, and a Tasks
    manager starts every new task, then polls until one has failed or all
    are done, announcing its progress as events.

    A job is foreign code. What it does when start calls it is a `Run`
    value given by the caller: whether it calls its done callback before
    returning, and whether it throws. A done callback called later, after
    start has returned, is the method `Finish`. The events the manager
    triggers are recorded in order in `fired`; the timer that schedules
    the next poll is left to the caller, who calls `Poll` for each tick. */
module TaskQueue {
  import opened Wrappers
  import Classy

  datatype Status = New | Working | Done | Error

  /** The part of a task that start changes: its status and the exception
      its job threw, if any. */
  datatype TaskState = TaskState(status: Status, error: Option<string>)

  /** What a job does while start runs it. */
  datatype Run = Run(callsDone: bool, throws: Option<string>)

  /** The state after start: a working or failed task is left alone;
      otherwise (a new task, or a done one, which is not guarded) the job
      runs, and the task is done if the job called back, failed if it
      threw, and working if neither. */
  function Started(s: TaskState, run: Run): TaskState
  {
    if s.status == Working || s.status == Error then s
    else if run.throws.Some? then TaskState(Error, run.throws)
    else TaskState(if run.callsDone then Done else Working, s.error)
  }

  /** start on a working or failed task changes nothing; a done task runs
      again just like a new one. */
  lemma StartGuard(s: TaskState, run: Run)
    ensures s.status == Working || s.status == Error ==> Started(s, run) == s
    ensures s.status == Done ==> Started(s, run) == Started(TaskState(New, s.error), run)
  {
  }

  /** A task that was run ends working, done or failed; it failed exactly
      when the job threw, and then it holds what was thrown. */
  lemma StartOutcome(s: TaskState, run: Run)
    requires s.status == New || s.status == Done
    ensures Started(s, run).status != New
    ensures Started(s, run).status == Error <==> run.throws.Some?
    ensures run.throws.Some? ==> Started(s, run).error == run.throws
    ensures Started(s, run).status == Done <==> run.throws.None? && run.callsDone
  {
  }

  class Task {
    const fn: nat
    var status: Status
    var error: Option<string>

    function State(): TaskState
      reads this
    {
      TaskState(status, error)
    }

    /** init(fn): a new task, with no error. */
    constructor (fn: nat)
      ensures this.fn == fn && State() == TaskState(New, None)
    {
      this.fn := fn;
      error := None;
      status := New;
    }

    /** start(): see Started. */
    method Start(run: Run)
      modifies this
      ensures State() == Started(old(State()), run)
    {
      if status == Working || status == Error {
        return;
      }
      status := Working;
      if run.callsDone {
        status := Done;
      }
      if run.throws.Some? {
        error := run.throws;
        status := Error;
      }
    }

    /** The done callback, called by the job after start has returned. */
    method Finish()
      modifies this
      ensures State() == TaskState(Done, old(error))
    {
      status := Done;
    }
  }

  /** What broadcast does to the states of the tasks: every new task is
      started, with the run its job makes; the others are left alone. */
  function Broadcasted(s: seq<TaskState>, runs: seq<Run>): (r: seq<TaskState>)
    requires |runs| == |s|
    ensures |r| == |s|
  {
    seq(|s|, i requires 0 <= i < |s| => if s[i].status == New then Started(s[i], runs[i]) else s[i])
  }

  /** broadcast starts exactly the new tasks: after it no task is new, and
      every task that was not new is as it was. */
  lemma BroadcastStartsNew(s: seq<TaskState>, runs: seq<Run>)
    requires |runs| == |s|
    ensures forall i :: 0 <= i < |s| ==> Broadcasted(s, runs)[i].status != New
    ensures forall i :: 0 <= i < |s| && s[i].status != New ==> Broadcasted(s, runs)[i] == s[i]
  {
    forall i | 0 <= i < |s| && s[i].status == New
      ensures Broadcasted(s, runs)[i].status != New
    {
      StartOutcome(s[i], runs[i]);
    }
  }

  /** So a second broadcast, whatever the jobs would do, changes nothing. */
  lemma BroadcastTwice(s: seq<TaskState>, runs: seq<Run>, again: seq<Run>)
    requires |runs| == |s| == |again|
    ensures Broadcasted(Broadcasted(s, runs), again) == Broadcasted(s, runs)
  {
    BroadcastStartsNew(s, runs);
  }

  // ------------------------------------------------------------------ polling

  /** The events the manager triggers. */
  datatype Signal = Begin | Failed | Progress(done: nat, total: nat) | Ready

  function CountDone(s: seq<TaskState>): (n: nat)
    ensures n <= |s|
  {
    if s == [] then 0 else CountDone(s[..|s| - 1]) + (if s[|s| - 1].status == Done then 1 else 0)
  }

  predicate HasError(s: seq<TaskState>)
  {
    exists i :: 0 <= i < |s| && s[i].status == Error
  }

  /** One poll: 'error' if some task failed; otherwise 'progress' with the
      share of tasks done, then 'ready' once all are done. */
  function PollSignals(s: seq<TaskState>): seq<Signal>
  {
    if HasError(s) then [Failed]
    else [Progress(CountDone(s), |s|)] + (if CountDone(s) < |s| then [] else [Ready])
  }

  /** Whether the manager polls again. */
  predicate PollsAgain(s: seq<TaskState>)
  {
    !HasError(s) && CountDone(s) < |s|
  }

  /** Every task is done exactly when the count of done tasks is all of
      them. */
  lemma {:induction false} AllDone(s: seq<TaskState>)
    ensures CountDone(s) == |s| <==> forall i :: 0 <= i < |s| ==> s[i].status == Done
  {
    if s != [] {
      var init := s[..|s| - 1];
      AllDone(init);
      assert forall i :: 0 <= i < |init| ==> init[i] == s[i];
    }
  }

  /** A poll reports failure exactly when a task failed, 'ready' exactly
      when none failed and all are done, and polls again exactly when
      neither. */
  lemma PollOutcome(s: seq<TaskState>)
    ensures PollSignals(s) == [Failed] <==> exists i :: 0 <= i < |s| && s[i].status == Error
    ensures Ready in PollSignals(s) <==> forall i :: 0 <= i < |s| ==> s[i].status == Done
    ensures PollsAgain(s) <==> Failed !in PollSignals(s) && Ready !in PollSignals(s)
  {
    AllDone(s);
    if HasError(s) {
      var i :| 0 <= i < |s| && s[i].status == Error;
      assert s[i].status != Done;
    } else {
      assert PollSignals(s)[0] == Progress(CountDone(s), |s|);
    }
  }

  /** The states of a list of tasks, in order. */
  function StatesOf(ts: seq<Task>): (r: seq<TaskState>)
    reads ts
    ensures |r| == |ts| && forall i :: 0 <= i < |ts| ==> r[i] == ts[i].State()
  {
    seq(|ts|, i requires 0 <= i < |ts| reads ts => ts[i].State())
  }

  class Tasks {
    var tasks: seq<Task>
    var started: bool
    var fired: seq<Signal>
    const events: Classy.Events

    /** No task object is listed twice. */
    ghost predicate Valid()
      reads this
    {
      forall i, j :: 0 <= i < j < |tasks| ==> tasks[i] != tasks[j]
    }

    function States(): (r: seq<TaskState>)
      reads this, tasks
      ensures |r| == |tasks|
    {
      StatesOf(tasks)
    }

    /** init(): no tasks, not started. */
    constructor ()
      ensures tasks == [] && !started && fired == [] && Valid()
      ensures fresh(events) && events.events == map[]
    {
      tasks := [];
      started := false;
      fired := [];
      events := new Classy.Events();
    }

    /** add(fn): a fresh new task goes last, and is returned. */
    method Add(fn: nat) returns (task: Task)
      requires Valid()
      modifies this
      ensures fresh(task) && task.fn == fn && task.State() == TaskState(New, None)
      ensures tasks == old(tasks) + [task] && Valid()
      ensures started == old(started) && fired == old(fired)
    {
      task := new Task(fn);
      tasks := tasks + [task];
    }

    /** broadcast(): start every task whose status is 'new'; `runs` says
        what each task's job does if it is started. */
    method Broadcast(runs: seq<Run>)
      requires Valid() && |runs| == |tasks|
      modifies tasks
      ensures States() == Broadcasted(old(States()), runs)
    {
      for i := 0 to |tasks|
        invariant forall j :: 0 <= j < i ==>
                    tasks[j].State() == if old(tasks[j].State()).status == New
                                        then Started(old(tasks[j].State()), runs[j])
                                        else old(tasks[j].State())
        invariant forall j :: i <= j < |tasks| ==> tasks[j].State() == old(tasks[j].State())
      {
        if tasks[i].status == New {
          tasks[i].Start(runs[i]);
        }
      }
    }

    /** One tick of the polling loop. */
    method Poll() returns (again: bool)
      modifies this
      ensures tasks == old(tasks) && started == old(started)
      ensures fired == old(fired) + PollSignals(States())
      ensures again == PollsAgain(States())
    {
      var s := States();
      fired := fired + PollSignals(s);
      again := PollsAgain(s);
    }

    /** start(): broadcast on every call; the first call also marks the
        manager started, triggers 'start' and polls for the first time. */
    method Start(runs: seq<Run>) returns (polling: bool)
      requires Valid() && |runs| == |tasks|
      modifies this, tasks
      ensures tasks == old(tasks) && started
      ensures States() == Broadcasted(old(States()), runs)
      ensures old(started) ==> fired == old(fired) && !polling
      ensures !old(started) ==> fired == old(fired) + [Begin] + PollSignals(States())
      ensures !old(started) ==> polling == PollsAgain(States())
    {
      Broadcast(runs);
      if started {
        return false;
      }
      started := true;
      fired := fired + [Begin];
      polling := Poll();
    }

    /** start(callback): callback listens for 'ready', then start(). */
    method StartWith(callback: nat, runs: seq<Run>) returns (polling: bool)
      requires Valid() && |runs| == |tasks|
      modifies this, tasks, events
      ensures events.events == old(events.events)["ready" := (if "ready" in old(events.events) then old(events.events)["ready"] else []) + [callback]]
      ensures tasks == old(tasks) && started
      ensures States() == Broadcasted(old(States()), runs)
      ensures old(started) ==> fired == old(fired) && !polling
      ensures !old(started) ==> fired == old(fired) + [Begin] + PollSignals(States())
      ensures !old(started) ==> polling == PollsAgain(States())
    {
      events.On("ready", callback);
      polling := Start(runs);
    }
  }
}
