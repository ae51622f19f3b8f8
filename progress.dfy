/**
 * The progress counter of the calculator base class: the number of tasks of
 * the current kind, how many of them have completed, the last percentage
 * reported and the progress handler called whenever that percentage rises.
 */
module Progress {

  /** The progress handler: the default one, which does nothing, or one a caller registered. */
  datatype Handler = DefaultHandler | Registered(name: string)

  /** One call of the progress handler, with the percentage it was given. */
  datatype Notification = Notification(handler: Handler, percent: nat)

  /** The whole percentage of `total` tasks that `done` completed tasks represent. */
  function Percent(done: nat, total: nat): (p: nat)
    requires total > 0
    ensures p * total <= done * 100 < (p + 1) * total
  {
    done * 100 / total
  }

  /** More completed tasks never give a smaller percentage. */
  lemma PercentMonotone(d1: nat, d2: nat, total: nat)
    requires total > 0 && d1 <= d2
    ensures Percent(d1, total) <= Percent(d2, total)
  {
    var p1, p2 := Percent(d1, total), Percent(d2, total);
    if p2 < p1 {
      assert (p2 + 1) * total <= p1 * total by {
        MulLeft(p2 + 1, p1, total);
      }
      assert false;
    }
  }

  lemma MulLeft(a: nat, b: nat, c: nat)
    requires a <= b
    ensures a * c <= b * c
  {
  }

  /** No more tasks than there are never give more than 100; all of them give exactly 100. */
  lemma PercentBounds(done: nat, total: nat)
    requires total > 0 && done <= total
    ensures Percent(done, total) <= 100
    ensures done == total ==> Percent(done, total) == 100
  {
    PercentMonotone(done, total, total);
    assert total * 100 / total == 100;
  }

  /** The percentages at which the handler is called during the first `done` completions. */
  function Rises(total: nat, done: nat): seq<nat>
    requires total > 0
  {
    if done == 0 then []
    else if Percent(done, total) > Percent(done - 1, total) then Rises(total, done - 1) + [Percent(done, total)]
    else Rises(total, done - 1)
  }

  predicate StrictlyIncreasing(s: seq<nat>) {
    forall i, j :: 0 <= i < j < |s| ==> s[i] < s[j]
  }

  /**
   * The handler's percentages strictly increase, lie in `1..Percent(done, total)`,
   * end at `Percent(done, total)` when there is any, and so number at most that.
   */
  lemma {:induction false} RisesShape(total: nat, done: nat)
    requires total > 0
    ensures var r := Rises(total, done);
      && StrictlyIncreasing(r)
      && (forall i :: 0 <= i < |r| ==> 0 < r[i] <= Percent(done, total))
      && (|r| > 0 ==> r[|r| - 1] == Percent(done, total))
      && |r| <= Percent(done, total)
  {
    if done > 0 {
      RisesShape(total, done - 1);
      PercentMonotone(done - 1, done, total);
    }
  }

  /** A handler is called at most 100 times while no more tasks complete than were spawned. */
  lemma AtMostHundredCalls(total: nat, done: nat)
    requires total > 0 && done <= total
    ensures |Rises(total, done)| <= 100
    ensures done == total ==> |Rises(total, done)| > 0 && Rises(total, done)[|Rises(total, done)| - 1] == 100
  {
    var r := Rises(total, done);
    var p := Percent(done, total);
    RisesShape(total, done);
    PercentBounds(done, total);
    assert |r| <= p <= 100;
    if done == total {
      PercentBounds(0, total);
      assert done > 0 && Percent(done - 1, total) < p;
    }
  }

  function Percents(ns: seq<Notification>): (ps: seq<nat>)
    ensures |ps| == |ns| && forall i :: 0 <= i < |ns| ==> ps[i] == ns[i].percent
  {
    seq(|ns|, i requires 0 <= i < |ns| => ns[i].percent)
  }

  class Calculator {
    /** The name of the kind of task being counted. */
    var taskname: string
    /** The number of tasks spawned; 0 also stands for "not yet counted". */
    var numTasks: nat
    var tasksDone: nat
    /** The last percentage reported. */
    var percent: nat
    var progressHandler: Handler
    /** Every call made to a progress handler so far, oldest first. */
    var notifications: seq<Notification>
    /** Where in `notifications` the current count started. */
    ghost var epochStart: nat

    /**
     * The stored percentage is the one the completed tasks represent, and
     * since the count started the handler was called exactly at its rises.
     */
    ghost predicate Valid()
      reads this
    {
      && epochStart <= |notifications|
      && (numTasks == 0 ==> tasksDone == 0 && percent == 0 && epochStart == |notifications|)
      && (numTasks > 0 ==>
            percent == Percent(tasksDone, numTasks)
            && Percents(notifications[epochStart..]) == Rises(numTasks, tasksDone))
    }

    /** A fresh calculator: nothing counted, the default handler. */
    constructor ()
      ensures Valid()
      ensures taskname == "" && numTasks == 0 && tasksDone == 0 && percent == 0
      ensures progressHandler == DefaultHandler && notifications == []
    {
      taskname := "";
      numTasks := 0;
      tasksDone := 0;
      percent := 0;
      progressHandler := DefaultHandler;
      notifications := [];
      epochStart := 0;
    }

    /** `register_progress_handler`: later rises are reported to `fn`. */
    method RegisterProgressHandler(fn: Handler)
      requires Valid()
      modifies this
      ensures Valid()
      ensures progressHandler == fn
      ensures taskname == old(taskname) && numTasks == old(numTasks) && tasksDone == old(tasksDone)
      ensures percent == old(percent) && notifications == old(notifications) && epochStart == old(epochStart)
    {
      progressHandler := fn;
    }

    /**
     * `initialize_percent`: start counting the tasks of the argument list,
     * which is returned as it was given.
     */
    method InitializePercent<A>(taskName: string, taskArgs: seq<A>) returns (arglist: seq<A>)
      requires Valid()
      modifies this
      ensures Valid()
      ensures arglist == taskArgs
      ensures taskname == taskName && numTasks == |taskArgs| && tasksDone == 0 && percent == 0
      ensures progressHandler == old(progressHandler) && notifications == old(notifications)
      ensures epochStart == |notifications|
    {
      taskname := taskName;
      arglist := taskArgs;
      numTasks := |arglist|;
      tasksDone := 0;
      percent := 0;
      epochStart := |notifications|;
      if numTasks > 0 {
        assert Percents(notifications[epochStart..]) == [];
      }
    }

    /**
     * `log_percent`: count one more completed task and, when the percentage
     * rises, store it and call the handler with it.
     */
    method LogPercent()
      requires Valid() && numTasks > 0
      modifies this
      ensures Valid()
      ensures tasksDone == old(tasksDone) + 1
      ensures percent == Percent(tasksDone, numTasks) && percent >= old(percent)
      ensures percent > old(percent) ==> notifications == old(notifications) + [Notification(progressHandler, percent)]
      ensures percent == old(percent) ==> notifications == old(notifications)
      ensures taskname == old(taskname) && numTasks == old(numTasks)
      ensures progressHandler == old(progressHandler) && epochStart == old(epochStart)
    {
      tasksDone := tasksDone + 1;
      var p := tasksDone * 100 / numTasks;
      PercentMonotone(tasksDone - 1, tasksDone, numTasks);
      if p > percent {
        percent := p;
        notifications := notifications + [Notification(progressHandler, p)];
        assert notifications[epochStart..] == old(notifications)[epochStart..] + [Notification(progressHandler, p)];
      }
    }

    /** `task_completed`: by default, exactly `log_percent`. */
    method TaskCompleted<R>(taskResult: R)
      requires Valid() && numTasks > 0
      modifies this
      ensures Valid()
      ensures tasksDone == old(tasksDone) + 1
      ensures percent == Percent(tasksDone, numTasks) && percent >= old(percent)
      ensures percent > old(percent) ==> notifications == old(notifications) + [Notification(progressHandler, percent)]
      ensures percent == old(percent) ==> notifications == old(notifications)
      ensures taskname == old(taskname) && numTasks == old(numTasks)
      ensures progressHandler == old(progressHandler) && epochStart == old(epochStart)
    {
      LogPercent();
    }

    /**
     * `parallelize`, with the tasks run one after the other: count the
     * tasks, run each and report its completion. Afterwards every task has
     * been counted, the percentage is 100 and the handler was called at most
     * 100 times, with strictly increasing percentages ending at 100.
     */
    method Parallelize<A, R>(taskName: string, taskArgs: seq<A>, taskFunc: A -> R) returns (results: seq<R>)
      requires Valid()
      modifies this
      ensures Valid()
      ensures |results| == |taskArgs| && forall i :: 0 <= i < |taskArgs| ==> results[i] == taskFunc(taskArgs[i])
      ensures taskname == taskName && numTasks == |taskArgs| == tasksDone
      ensures |taskArgs| > 0 ==> percent == 100
      ensures old(|notifications|) <= |notifications| <= old(|notifications|) + 100
      ensures notifications[..old(|notifications|)] == old(notifications)
      ensures StrictlyIncreasing(Percents(notifications[old(|notifications|)..]))
      ensures |taskArgs| > 0 ==> |notifications| > old(|notifications|) && notifications[|notifications| - 1].percent == 100
    {
      var arglist := InitializePercent(taskName, taskArgs);
      results := [];
      for i := 0 to |arglist|
        invariant Valid()
        invariant taskname == taskName && numTasks == |taskArgs| && tasksDone == i
        invariant epochStart == old(|notifications|)
        invariant notifications[..old(|notifications|)] == old(notifications)
        invariant |results| == i && forall j :: 0 <= j < i ==> results[j] == taskFunc(taskArgs[j])
      {
        var r := taskFunc(arglist[i]);
        TaskCompleted(r);
        results := results + [r];
      }
      if |taskArgs| > 0 {
        AtMostHundredCalls(numTasks, tasksDone);
        PercentBounds(tasksDone, numTasks);
        var tail := notifications[epochStart..];
        assert Percents(tail)[|tail| - 1] == tail[|tail| - 1].percent;
        assert tail[|tail| - 1] == notifications[|notifications| - 1];
        RisesShape(numTasks, tasksDone);
      }
    }
  }

  /** A calculator's handler has been called at most 100 times since it started counting. */
  lemma EpochBound(c: Calculator)
    requires c.Valid() && c.tasksDone <= c.numTasks
    ensures |c.notifications| - c.epochStart <= 100
    ensures c.numTasks > 0 && c.tasksDone == c.numTasks ==> c.percent == 100
  {
    if c.numTasks > 0 {
      AtMostHundredCalls(c.numTasks, c.tasksDone);
      PercentBounds(c.tasksDone, c.numTasks);
      assert |Percents(c.notifications[c.epochStart..])| == |c.notifications| - c.epochStart;
    }
  }
}
