/** The goroutines of `Scan` as one transition system: a producer that walks and
    queues, a bounded jobs channel, workers, an unbuffered outcomes channel to which
    workers and producer both send, and a collector. Every interleaving is a run. */
module Pipeline {
  import opened Common

  const JOBS_CAPACITY: nat := 1024

  /** What the walker does, in order: queue a file, or report an error of its own. */
  datatype Task = Queue(path: string) | Report(path: string)

  /** An outcome on its way to the report: of a scanned file, or of the walker. */
  datatype Item = FromFile(path: string) | FromWalker(path: string)

  datatype Producer =
    | Walking(left: seq<Task>)
    | Queueing(path: string, left: seq<Task>)   // counted, waiting for room in jobs
    | Done                                      // jobs closed

  datatype Worker = Idle | Holding(path: string) | Exited

  datatype Collector = Selecting | Processing(item: Item) | Returned(complete: bool)

  datatype State = State(
    producer: Producer, jobs: seq<string>, workers: seq<Worker>, outcomesClosed: bool, collector: Collector,
    processed: seq<Item>, discovered: int, scanned: int, cancelled: bool)

  function Start(tasks: seq<Task>, workers: nat): State {
    State(Walking(tasks), [], seq(workers, _ => Idle), false, Selecting, [], 0, 0, false)
  }

  /** One atomic step. A send on `outcomes` and its receipt are one step, since the
      channel has no buffer. */
  datatype Step =
    | Count | Send | SendError | CloseJobs
    | Take(worker: nat) | Deliver(worker: nat) | Exit(worker: nat)
    | CloseOutcomes | Process | Return
    | Cancel | AbandonSend | AbandonError | AbandonWalk | Quit(worker: nat) | ReturnCancelled

  predicate JobsClosed(s: State) {
    s.producer.Done?
  }

  predicate AllExited(workers: seq<Worker>) {
    forall i :: 0 <= i < |workers| ==> workers[i].Exited?
  }

  predicate Enabled(s: State, step: Step) {
    match step
    case Count => s.producer.Walking? && s.producer.left != [] && s.producer.left[0].Queue?
    case Send => s.producer.Queueing? && |s.jobs| < JOBS_CAPACITY
    case SendError =>
      && s.producer.Walking? && s.producer.left != [] && s.producer.left[0].Report?
      && s.collector.Selecting? && !s.outcomesClosed
    case CloseJobs => s.producer == Walking([])
    case Take(i) => i < |s.workers| && s.workers[i].Idle? && s.jobs != []
    case Deliver(i) => i < |s.workers| && s.workers[i].Holding? && s.collector.Selecting? && !s.outcomesClosed
    case Exit(i) => i < |s.workers| && s.workers[i].Idle? && s.jobs == [] && JobsClosed(s)
    case CloseOutcomes => AllExited(s.workers) && !s.outcomesClosed
    case Process => s.collector.Processing?
    case Return => s.collector.Selecting? && s.outcomesClosed
    case Cancel => !s.cancelled
    case AbandonSend => s.cancelled && s.producer.Queueing?
    case AbandonError => s.cancelled && s.producer.Walking? && s.producer.left != [] && s.producer.left[0].Report?
    case AbandonWalk => s.cancelled && s.producer.Walking?
    case Quit(i) => s.cancelled && i < |s.workers| && !s.workers[i].Exited?
    case ReturnCancelled => s.cancelled && s.collector.Selecting?
  }

  function Do(s: State, step: Step): State
    requires Enabled(s, step)
  {
    match step
    case Count =>
      s.(producer := Queueing(s.producer.left[0].path, s.producer.left[1..]), discovered := s.discovered + 1)
    case Send => s.(producer := Walking(s.producer.left), jobs := s.jobs + [s.producer.path])
    case SendError =>
      s.(producer := Walking(s.producer.left[1..]), collector := Processing(FromWalker(s.producer.left[0].path)))
    case CloseJobs => s.(producer := Done)
    case Take(i) => s.(workers := s.workers[i := Holding(s.jobs[0])], jobs := s.jobs[1..])
    case Deliver(i) => s.(workers := s.workers[i := Idle], collector := Processing(FromFile(s.workers[i].path)))
    case Exit(i) => s.(workers := s.workers[i := Exited])
    case CloseOutcomes => s.(outcomesClosed := true)
    case Process =>
      s.(collector := Selecting, processed := s.processed + [s.collector.item],
         scanned := s.scanned + if s.collector.item.FromFile? then 1 else 0)
    case Return => s.(collector := Returned(true))
    case Cancel => s.(cancelled := true)
    case AbandonSend => s.(producer := Walking([]), discovered := s.discovered - 1)
    case AbandonError => s.(producer := Walking(s.producer.left[1..]))
    case AbandonWalk => s.(producer := Walking([]))
    case Quit(i) => s.(workers := s.workers[i := Exited])
    case ReturnCancelled => s.(collector := Returned(false))
  }

  /** The state a run of steps leads to, if every step is enabled when it is taken. */
  function After(s: State, run: seq<Step>): Option<State>
    decreases |run|
  {
    if run == [] then Some(s)
    else if !Enabled(s, run[0]) then None
    else After(Do(s, run[0]), run[1..])
  }

  predicate Uncancelled(run: seq<Step>) {
    forall i :: 0 <= i < |run| ==> !run[i].Cancel?
  }

  /** A sender would send on a closed channel. */
  predicate SendsOnClosed(s: State) {
    s.outcomesClosed
    && ((s.producer.Walking? && s.producer.left != [] && s.producer.left[0].Report?)
        || exists i :: 0 <= i < |s.workers| && s.workers[i].Holding?)
  }

  // -------------------------------------------------------- what is where in a state

  function TaskItem(t: Task): Item {
    match t case Queue(path) => FromFile(path) case Report(path) => FromWalker(path)
  }

  /** The items a walk will become, in its order. */
  function TaskItems(tasks: seq<Task>): seq<Item> {
    if tasks == [] then [] else [TaskItem(tasks[0])] + TaskItems(tasks[1..])
  }

  function One(found: bool): nat {
    if found then 1 else 0
  }

  // How often an item is in each place.

  function InItems(items: seq<Item>, x: Item): nat {
    if items == [] then 0 else One(items[0] == x) + InItems(items[1..], x)
  }

  function InTasks(tasks: seq<Task>, x: Item): nat {
    if tasks == [] then 0 else One(TaskItem(tasks[0]) == x) + InTasks(tasks[1..], x)
  }

  function InProducer(p: Producer, x: Item): nat {
    match p
    case Walking(left) => InTasks(left, x)
    case Queueing(path, left) => One(FromFile(path) == x) + InTasks(left, x)
    case Done => 0
  }

  function InJobs(jobs: seq<string>, x: Item): nat {
    if jobs == [] then 0 else One(FromFile(jobs[0]) == x) + InJobs(jobs[1..], x)
  }

  function InWorker(w: Worker, x: Item): nat {
    One(w.Holding? && FromFile(w.path) == x)
  }

  function InWorkers(workers: seq<Worker>, x: Item): nat {
    if workers == [] then 0 else InWorker(workers[0], x) + InWorkers(workers[1..], x)
  }

  function InCollector(c: Collector, x: Item): nat {
    One(c.Processing? && c.item == x)
  }

  /** How often an item is anywhere, from the walk still to do to the report. */
  function Tally(s: State, x: Item): nat {
    InProducer(s.producer, x) + InJobs(s.jobs, x) + InWorkers(s.workers, x) + InCollector(s.collector, x) +
      InItems(s.processed, x)
  }

  lemma {:induction false} JobsAppend(jobs: seq<string>, path: string, x: Item)
    ensures InJobs(jobs + [path], x) == InJobs(jobs, x) + One(FromFile(path) == x)
  {
    if jobs != [] {
      assert (jobs + [path])[1..] == jobs[1..] + [path];
      JobsAppend(jobs[1..], path, x);
    }
  }

  lemma {:induction false} ItemsAppend(items: seq<Item>, item: Item, x: Item)
    ensures InItems(items + [item], x) == InItems(items, x) + One(item == x)
  {
    if items != [] {
      assert (items + [item])[1..] == items[1..] + [item];
      ItemsAppend(items[1..], item, x);
    }
  }

  lemma {:induction false} WorkersUpdate(workers: seq<Worker>, i: nat, w: Worker, x: Item)
    requires i < |workers|
    ensures InWorkers(workers[i := w], x) + InWorker(workers[i], x) == InWorkers(workers, x) + InWorker(w, x)
  {
    if i > 0 {
      assert workers[i := w][1..] == workers[1..][i - 1 := w];
      WorkersUpdate(workers[1..], i - 1, w, x);
    } else {
      assert workers[i := w][1..] == workers[1..];
    }
  }

  lemma {:induction false} ItemsTally(items: seq<Item>, x: Item)
    ensures multiset(items)[x] == InItems(items, x)
  {
    if items != [] {
      assert items == [items[0]] + items[1..];
      ItemsTally(items[1..], x);
    }
  }

  lemma {:induction false} TasksTally(tasks: seq<Task>, x: Item)
    ensures InItems(TaskItems(tasks), x) == InTasks(tasks, x)
  {
    if tasks != [] {
      TasksTally(tasks[1..], x);
    }
  }

  /** How many of some items are files. */
  function Files(items: seq<Item>): nat {
    if items == [] then 0 else (if items[0].FromFile? then 1 else 0) + Files(items[1..])
  }

  lemma {:induction false} FilesAppend(items: seq<Item>, item: Item)
    ensures Files(items + [item]) == Files(items) + if item.FromFile? then 1 else 0
  {
    if items != [] {
      assert (items + [item])[1..] == items[1..] + [item];
      FilesAppend(items[1..], item);
    }
  }

  // --------------------------------------------------------- the counters, always

  function HeldCount(workers: seq<Worker>): nat {
    if workers == [] then 0 else (if workers[0].Holding? then 1 else 0) + HeldCount(workers[1..])
  }

  lemma {:induction false} HeldCountUpdate(workers: seq<Worker>, i: nat, w: Worker)
    requires i < |workers|
    ensures HeldCount(workers[i := w]) + (if workers[i].Holding? then 1 else 0)
         == HeldCount(workers) + if w.Holding? then 1 else 0
  {
    if i > 0 {
      assert workers[i := w][1..] == workers[1..][i - 1 := w];
      HeldCountUpdate(workers[1..], i - 1, w);
    } else {
      assert workers[i := w][1..] == workers[1..];
    }
  }

  /** Files counted as discovered and not yet as scanned. */
  function InFlight(s: State): nat {
    (if s.producer.Queueing? then 1 else 0) + |s.jobs| + HeldCount(s.workers)
    + if s.collector.Processing? && s.collector.item.FromFile? then 1 else 0
  }

  /** Holds in every state, cancelled or not: workers that quit may lose a file, but
      nothing is scanned that was not discovered. */
  predicate Counted(s: State) {
    && s.scanned == Files(s.processed)
    && s.discovered >= s.scanned + InFlight(s)
    && (!s.cancelled ==> s.discovered == s.scanned + InFlight(s))
  }

  lemma StepKeepsCounts(s: State, step: Step)
    requires Counted(s) && Enabled(s, step)
    ensures Counted(Do(s, step))
  {
    hide HeldCount, InWorkers, InTasks, InItems, InJobs;
    match step
    case Take(i) => HeldCountUpdate(s.workers, i, Holding(s.jobs[0]));
    case Deliver(i) => HeldCountUpdate(s.workers, i, Idle);
    case Exit(i) => HeldCountUpdate(s.workers, i, Exited);
    case Quit(i) => HeldCountUpdate(s.workers, i, Exited);
    case Process => FilesAppend(s.processed, s.collector.item);
    case Count =>
    case Send =>
    case SendError =>
    case CloseJobs =>
    case CloseOutcomes =>
    case Return =>
    case Cancel =>
    case AbandonSend =>
    case AbandonError =>
    case AbandonWalk =>
    case ReturnCancelled =>
  }

  lemma {:induction false} NothingHeld(workers: seq<Worker>)
    requires forall i :: 0 <= i < |workers| ==> !workers[i].Holding?
    ensures HeldCount(workers) == 0 && forall x :: InWorkers(workers, x) == 0
  {
    if workers != [] {
      assert forall i :: 0 <= i < |workers[1..]| ==> workers[1..][i] == workers[i + 1];
      NothingHeld(workers[1..]);
    }
  }

  lemma {:induction false} CountsAfter(s: State, run: seq<Step>)
    requires Counted(s) && After(s, run).Some?
    ensures Counted(After(s, run).value)
    decreases |run|
  {
    if run != [] {
      StepKeepsCounts(s, run[0]);
      CountsAfter(Do(s, run[0]), run[1..]);
    }
  }

  /** In every reachable state of every run, cancelled ones included, no more files are
      counted as scanned than as discovered. */
  lemma ScannedNeverExceedsDiscovered(tasks: seq<Task>, workers: nat, run: seq<Step>)
    requires After(Start(tasks, workers), run).Some?
    ensures 0 <= After(Start(tasks, workers), run).value.scanned <= After(Start(tasks, workers), run).value.discovered
  {
    NothingHeld(Start(tasks, workers).workers);
    CountsAfter(Start(tasks, workers), run);
  }

  // ------------------------------------------- what holds while nobody cancels

  /** The invariant of runs without cancellation, for a total of items. */
  ghost predicate Orderly(s: State, tasks: seq<Task>) {
    && !s.cancelled && Counted(s)
    && |s.workers| > 0 && |s.jobs| <= JOBS_CAPACITY
    && (forall x: Item :: Tally(s, x) == InTasks(tasks, x))
    && (forall i :: 0 <= i < |s.workers| && s.workers[i].Exited? ==> JobsClosed(s) && s.jobs == [])
    && (s.outcomesClosed ==> AllExited(s.workers))
    && (s.collector.Returned? ==> s.outcomesClosed && s.collector.complete)
  }

  /** A step moves items from one place to the next and loses none. */
  lemma ItemsMove(s: State, step: Step, x: Item)
    requires Enabled(s, step) && !s.cancelled && !step.Cancel?
    ensures Tally(Do(s, step), x) == Tally(s, x)
  {
    match step
    case Count =>
    case Send => JobsAppend(s.jobs, s.producer.path, x);
    case SendError =>
    case CloseJobs =>
    case Take(i) => WorkersUpdate(s.workers, i, Holding(s.jobs[0]), x);
    case Deliver(i) => WorkersUpdate(s.workers, i, Idle, x);
    case Exit(i) => WorkersUpdate(s.workers, i, Exited, x);
    case CloseOutcomes =>
    case Process => ItemsAppend(s.processed, s.collector.item, x);
    case Return =>
  }

  lemma StepKeepsOrder(s: State, step: Step, tasks: seq<Task>)
    requires Orderly(s, tasks) && Enabled(s, step) && !step.Cancel?
    ensures Orderly(Do(s, step), tasks)
  {
    hide Tally, Counted;
    forall x: Item ensures Tally(Do(s, step), x) == InTasks(tasks, x) {
      ItemsMove(s, step, x);
    }
    StepKeepsCounts(s, step);
  }

  lemma {:induction false} OrderAfter(s: State, run: seq<Step>, tasks: seq<Task>)
    requires Orderly(s, tasks) && After(s, run).Some? && Uncancelled(run)
    ensures Orderly(After(s, run).value, tasks)
    decreases |run|
  {
    hide Orderly;
    if run != [] {
      StepKeepsOrder(s, run[0], tasks);
      assert forall i :: 0 <= i < |run[1..]| ==> run[1..][i] == run[i + 1];
      OrderAfter(Do(s, run[0]), run[1..], tasks);
    }
  }

  lemma StartIsOrderly(tasks: seq<Task>, workers: nat)
    requires workers > 0
    ensures Orderly(Start(tasks, workers), tasks)
  {
    NothingHeld(Start(tasks, workers).workers);
  }

  /** No sender ever faces a closed channel while nobody cancels. */
  lemma OrderlyIsSafe(s: State, tasks: seq<Task>)
    requires Orderly(s, tasks)
    ensures !SendsOnClosed(s)
  {
  }

  // ------------------------------------------------------------------ termination

  function TaskWork(tasks: seq<Task>): nat {
    if tasks == [] then 0 else (if tasks[0].Queue? then 5 else 2) + TaskWork(tasks[1..])
  }

  function WorkerWork(workers: seq<Worker>): nat {
    if workers == [] then 0
    else (match workers[0] case Idle => 1 case Holding(_) => 3 case Exited => 0) + WorkerWork(workers[1..])
  }

  /** A bound on the steps still to come. */
  function Work(s: State): nat {
    (match s.producer
     case Walking(left) => 1 + TaskWork(left)
     case Queueing(_, left) => 5 + TaskWork(left)
     case Done => 0)
    + 3 * |s.jobs| + WorkerWork(s.workers) + (if s.outcomesClosed then 0 else 1)
    + match s.collector case Selecting => 1 case Processing(_) => 2 case Returned(_) => 0
  }

  lemma {:induction false} WorkerWorkUpdate(workers: seq<Worker>, i: nat, w: Worker)
    requires i < |workers|
    ensures WorkerWork(workers[i := w]) + (match workers[i] case Idle => 1 case Holding(_) => 3 case Exited => 0)
         == WorkerWork(workers) + match w case Idle => 1 case Holding(_) => 3 case Exited => 0
  {
    if i > 0 {
      assert workers[i := w][1..] == workers[1..][i - 1 := w];
      WorkerWorkUpdate(workers[1..], i - 1, w);
    } else {
      assert workers[i := w][1..] == workers[1..];
    }
  }

  lemma StepsDoWork(s: State, step: Step)
    requires Enabled(s, step) && !s.cancelled && !step.Cancel?
    ensures Work(Do(s, step)) < Work(s)
  {
    match step
    case Take(i) => WorkerWorkUpdate(s.workers, i, Holding(s.jobs[0]));
    case Deliver(i) => WorkerWorkUpdate(s.workers, i, Idle);
    case Exit(i) => WorkerWorkUpdate(s.workers, i, Exited);
    case Count =>
    case Send =>
    case SendError =>
    case CloseJobs =>
    case CloseOutcomes =>
    case Process =>
    case Return =>
  }

  lemma {:induction false} RunsAreBounded(s: State, run: seq<Step>)
    requires !s.cancelled && After(s, run).Some? && Uncancelled(run)
    ensures |run| + Work(After(s, run).value) <= Work(s)
    decreases |run|
  {
    hide Work;
    if run != [] {
      StepsDoWork(s, run[0]);
      assert forall i :: 0 <= i < |run[1..]| ==> run[1..][i] == run[i + 1];
      RunsAreBounded(Do(s, run[0]), run[1..]);
    }
  }

  /** A step that can be taken in an orderly state whose collector has not returned. */
  lemma SomethingIsEnabled(s: State, tasks: seq<Task>) returns (step: Step)
    requires Orderly(s, tasks) && !s.collector.Returned?
    ensures Enabled(s, step) && !step.Cancel?
  {
    if s.collector.Processing? {
      return Process;
    }
    if s.outcomesClosed {
      return Return;
    }
    if AllExited(s.workers) {
      return CloseOutcomes;
    }
    var i :| 0 <= i < |s.workers| && !s.workers[i].Exited?;
    if s.workers[i].Holding? {
      return Deliver(i);
    }
    if s.jobs != [] {
      return Take(i);
    }
    match s.producer
    case Done => return Exit(i);
    case Queueing(_, _) => return Send;
    case Walking(left) =>
      return if left == [] then CloseJobs else if left[0].Queue? then Count else SendError;
  }

  // ------------------------------------------------------------------ main results

  /** The paths the walker queues, in order, and the tasks of a walk without errors. */
  function QueuedPaths(tasks: seq<Task>): seq<string> {
    if tasks == [] then []
    else if tasks[0].Queue? then [tasks[0].path] + QueuedPaths(tasks[1..])
    else QueuedPaths(tasks[1..])
  }

  function FilePaths(items: seq<Item>): seq<string> {
    if items == [] then []
    else if items[0].FromFile? then [items[0].path] + FilePaths(items[1..])
    else FilePaths(items[1..])
  }

  lemma {:induction false} FilePathsCount(items: seq<Item>, path: string)
    ensures multiset(FilePaths(items))[path] == multiset(items)[FromFile(path)]
    ensures |FilePaths(items)| == Files(items)
  {
    if items != [] {
      assert items == [items[0]] + items[1..];
      FilePathsCount(items[1..], path);
    }
  }

  lemma {:induction false} QueuedPathsCount(tasks: seq<Task>, path: string)
    ensures multiset(QueuedPaths(tasks))[path] == InTasks(tasks, FromFile(path))
  {
    if tasks != [] {
      QueuedPathsCount(tasks[1..], path);
    }
  }

  lemma SamePaths(items: seq<Item>, tasks: seq<Task>)
    requires forall x: Item :: InItems(items, x) == InTasks(tasks, x)
    ensures multiset(FilePaths(items)) == multiset(QueuedPaths(tasks))
    ensures Files(items) == |QueuedPaths(tasks)|
  {
    forall path ensures multiset(FilePaths(items))[path] == multiset(QueuedPaths(tasks))[path] {
      FilePathsCount(items, path);
      QueuedPathsCount(tasks, path);
      ItemsTally(items, FromFile(path));
    }
    FilePathsCount(items, "");
    var a, b := FilePaths(items), QueuedPaths(tasks);
    assert multiset(a) == multiset(b);
    assert |a| == |multiset(a)| == |multiset(b)| == |b|;
  }

  /** In every interleaving that nobody cancels: no send on a closed channel, in any
      state; the run is no longer than the work at the start; as long as the collector
      has not returned, some goroutine can go on; and once it has, it returned a
      complete report in which every queued path and every walker error was processed
      exactly once, with both file counters at the number of queued paths. */
  lemma ExactlyOnce(tasks: seq<Task>, workers: nat, run: seq<Step>)
    requires workers > 0 && Uncancelled(run) && After(Start(tasks, workers), run).Some?
    ensures
      var s := After(Start(tasks, workers), run).value;
      && !SendsOnClosed(s)
      && |run| <= 3 + workers + TaskWork(tasks)
      && (s.collector.Returned? || exists step :: Enabled(s, step) && !step.Cancel?)
      && (s.collector.Returned? ==>
            && s.collector.complete && multiset(s.processed) == multiset(TaskItems(tasks))
            && multiset(FilePaths(s.processed)) == multiset(QueuedPaths(tasks))
            && s.scanned == s.discovered == |QueuedPaths(tasks)|)
  {
    hide Orderly, After;
    var s := After(Start(tasks, workers), run).value;
    StartIsOrderly(tasks, workers);
    OrderAfter(Start(tasks, workers), run, tasks);
    OrderlyIsSafe(s, tasks);
    StartWork(tasks, workers);
    RunsAreBounded(Start(tasks, workers), run);
    if s.collector.Returned? {
      ReturnedIsEmpty(s, tasks);
      SamePaths(s.processed, tasks);
    } else {
      var step := SomethingIsEnabled(s, tasks);
    }
  }

  lemma {:induction false} IdleWork(n: nat)
    ensures WorkerWork(seq(n, _ => Idle)) == n
  {
    if n > 0 {
      assert seq(n, _ => Idle)[1..] == seq(n - 1, _ => Idle);
      IdleWork(n - 1);
    }
  }

  lemma StartWork(tasks: seq<Task>, workers: nat)
    ensures Work(Start(tasks, workers)) == 3 + workers + TaskWork(tasks) && !Start(tasks, workers).cancelled
  {
    IdleWork(workers);
  }

  lemma ReturnedIsEmpty(s: State, tasks: seq<Task>)
    requires Orderly(s, tasks) && s.collector.Returned?
    ensures s.collector.complete && multiset(s.processed) == multiset(TaskItems(tasks))
    ensures forall x: Item :: InItems(s.processed, x) == InTasks(tasks, x)
    ensures s.scanned == s.discovered == Files(s.processed)
  {
    assert s.workers[0].Exited?;
    NothingHeld(s.workers);
    forall x: Item
      ensures InItems(s.processed, x) == InTasks(tasks, x) && multiset(s.processed)[x] == multiset(TaskItems(tasks))[x]
    {
      assert Tally(s, x) == InTasks(tasks, x);
      ItemsTally(s.processed, x);
      ItemsTally(TaskItems(tasks), x);
      TasksTally(tasks, x);
    }
    assert multiset(s.processed) == multiset(TaskItems(tasks));
  }

  /** With cancellation the channel may be closed while the walker still wants to report:
      one worker quits, `outcomes` is closed, and the walker stands before a send. */
  lemma CancellationCanCloseEarly()
    ensures
      var tasks, run := [Report("unreadable")], [Cancel, Quit(0), CloseOutcomes];
      var s := After(Start(tasks, 1), run);
      s.Some? && SendsOnClosed(s.value) && !s.value.collector.Returned?
  {
  }
}
