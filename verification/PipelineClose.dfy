/** When a sender can come to stand before the closed `outcomes` channel: in some
    cancelled run of every scan whose walk reports an error, and in no other run. */
module PipelineClose {
  import opened Common
  import opened Pipeline

  predicate HasReport(tasks: seq<Task>) {
    exists i :: 0 <= i < |tasks| && tasks[i].Report?
  }

  lemma {:induction false} AfterConcat(s: State, a: seq<Step>, b: seq<Step>)
    requires After(s, a).Some?
    ensures After(s, a + b) == After(After(s, a).value, b)
    decreases |a|
  {
    hide Enabled, Do;
    if a == [] {
      assert a + b == b;
    } else {
      assert (a + b)[1..] == a[1..] + b;
      AfterConcat(Do(s, a[0]), a[1..], b);
    }
  }

  lemma OneStep(s: State, step: Step)
    requires Enabled(s, step)
    ensures After(s, [step]) == Some(Do(s, step))
  {
  }

  // ------------------------------------------------------------------- it can happen

  /** Everybody waits for the walker. */
  predicate Waiting(s: State, left: seq<Task>) {
    && s.producer == Walking(left) && s.jobs == [] && |s.workers| > 0 && !s.outcomesClosed && s.collector.Selecting?
    && s.workers[0].Idle?
  }

  /** One file goes all the way to the report. */
  lemma OneFile(s: State, left: seq<Task>) returns (run: seq<Step>, t: State)
    requires Waiting(s, left) && left != [] && left[0].Queue?
    ensures After(s, run) == Some(t) && Waiting(t, left[1..]) && t.cancelled == s.cancelled
  {
    var s1 := Do(s, Count);
    var s2 := Do(s1, Send);
    var s3 := Do(s2, Take(0));
    var s4 := Do(s3, Deliver(0));
    t := Do(s4, Process);
    run := [Count] + ([Send] + ([Take(0)] + ([Deliver(0)] + [Process])));
    OneStep(s, Count);
    OneStep(s1, Send);
    OneStep(s2, Take(0));
    OneStep(s3, Deliver(0));
    OneStep(s4, Process);
    hide After, Enabled, Do;
    AfterConcat(s3, [Deliver(0)], [Process]);
    AfterConcat(s2, [Take(0)], [Deliver(0)] + [Process]);
    AfterConcat(s1, [Send], [Take(0)] + ([Deliver(0)] + [Process]));
    AfterConcat(s, [Count], [Send] + ([Take(0)] + ([Deliver(0)] + [Process])));
  }

  lemma {:induction false} UpToReport(s: State, left: seq<Task>) returns (run: seq<Step>, t: State, rest: seq<Task>)
    requires Waiting(s, left) && HasReport(left)
    ensures After(s, run) == Some(t) && Waiting(t, rest) && rest != [] && rest[0].Report?
    ensures t.cancelled == s.cancelled
    decreases |left|
  {
    hide Waiting, Do, Enabled;
    if left[0].Report? {
      return [], s, left;
    }
    var i :| 0 <= i < |left| && left[i].Report?;
    assert left[1..][i - 1].Report?;
    var first, middle := OneFile(s, left);
    var more;
    more, t, rest := UpToReport(middle, left[1..]);
    AfterConcat(s, first, more);
    run := first + more;
  }

  /** The workers from some number on quit. */
  lemma {:induction false} QuitFrom(s: State, i: nat) returns (run: seq<Step>, t: State)
    requires s.cancelled && i <= |s.workers| && forall j :: 0 <= j < i ==> s.workers[j].Exited?
    ensures After(s, run) == Some(t) && AllExited(t.workers) && t == s.(workers := t.workers)
    decreases |s.workers| - i
  {
    if i == |s.workers| {
      return [], s;
    }
    if s.workers[i].Exited? {
      run, t := QuitFrom(s, i + 1);
      return;
    }
    var next := Do(s, Quit(i));
    OneStep(s, Quit(i));
    var more;
    more, t := QuitFrom(next, i + 1);
    AfterConcat(s, [Quit(i)], more);
    run := [Quit(i)] + more;
  }

  lemma CloseEarly(s: State, left: seq<Task>) returns (run: seq<Step>, t: State)
    requires Waiting(s, left) && left != [] && left[0].Report? && !s.cancelled
    ensures After(s, run) == Some(t) && SendsOnClosed(t)
  {
    var cancelled := Do(s, Cancel);
    OneStep(s, Cancel);
    var quits, quit := QuitFrom(cancelled, 0);
    t := Do(quit, CloseOutcomes);
    OneStep(quit, CloseOutcomes);
    AfterConcat(cancelled, quits, [CloseOutcomes]);
    AfterConcat(s, [Cancel], quits + [CloseOutcomes]);
    run := [Cancel] + (quits + [CloseOutcomes]);
  }

  // ------------------------------------------------------------- and only then

  /** What the walker has left is the end of the walk, and the channel is closed only
      behind the last worker; cancelled or not. */
  predicate Closing(s: State, tasks: seq<Task>) {
    && (s.outcomesClosed ==> AllExited(s.workers))
    && (match s.producer
        case Walking(left) => HasReport(left) ==> HasReport(tasks)
        case Queueing(_, left) => HasReport(left) ==> HasReport(tasks)
        case Done => true)
  }

  lemma StepKeepsClosing(s: State, step: Step, tasks: seq<Task>)
    requires Closing(s, tasks) && Enabled(s, step)
    ensures Closing(Do(s, step), tasks)
  {
  }

  lemma {:induction false} ClosingAfter(s: State, run: seq<Step>, tasks: seq<Task>)
    requires Closing(s, tasks) && After(s, run).Some?
    ensures Closing(After(s, run).value, tasks)
    decreases |run|
  {
    hide Closing, Enabled, Do;
    if run != [] {
      StepKeepsClosing(s, run[0], tasks);
      ClosingAfter(Do(s, run[0]), run[1..], tasks);
    }
  }

  /** Exactly the scans whose walk reports an error have a run that brings a sender
      before the closed channel, whatever the number of workers; every such run is
      cancelled on the way. */
  lemma CloseHazard(tasks: seq<Task>, workers: nat)
    requires workers > 0
    ensures (exists run ::
               After(Start(tasks, workers), run).Some? && SendsOnClosed(After(Start(tasks, workers), run).value))
            <==> HasReport(tasks)
    ensures forall run ::
              After(Start(tasks, workers), run).Some? && SendsOnClosed(After(Start(tasks, workers), run).value) ==>
                  !Uncancelled(run)
  {
    var s := Start(tasks, workers);
    if HasReport(tasks) {
      HazardArises(tasks, workers);
    }
    forall run | After(s, run).Some? && SendsOnClosed(After(s, run).value)
      ensures !Uncancelled(run) && HasReport(tasks)
    {
      HazardNeedsReport(tasks, workers, run);
    }
  }

  lemma HazardNeedsReport(tasks: seq<Task>, workers: nat, run: seq<Step>)
    requires workers > 0 && After(Start(tasks, workers), run).Some?
    requires SendsOnClosed(After(Start(tasks, workers), run).value)
    ensures HasReport(tasks) && !Uncancelled(run)
  {
    hide After;
    var t := After(Start(tasks, workers), run).value;
    ClosingAfter(Start(tasks, workers), run, tasks);
    assert t.producer.left[0].Report?;
    if Uncancelled(run) {
      ExactlyOnce(tasks, workers, run);
    }
  }

  lemma HazardArises(tasks: seq<Task>, workers: nat)
    requires workers > 0 && HasReport(tasks)
    ensures exists run ::
              After(Start(tasks, workers), run).Some? && SendsOnClosed(After(Start(tasks, workers), run).value)
  {
    hide After, SendsOnClosed;
    var s := Start(tasks, workers);
    var first, t, rest := UpToReport(s, tasks);
    var last, u := CloseEarly(t, rest);
    AfterConcat(s, first, last);
    assert After(s, first + last) == Some(u);
  }
}
