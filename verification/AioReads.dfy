/** The read at the end of wpdk_aio_iov_done (src/aio.c): a party that drops references without
    dropping the last one reads the count once more before it returns. Here that read is a step of
    its own, and a party that has dropped its references no longer keeps the io_task from being freed. */
module AioReads {
  import opened AioRequest

  /** The io_task; whether the submitter has a read to do before it goes on; how many completions have
      one to do; and whether any read came after the io_task was freed. */
  datatype Watch = Watch(task: Task, mine: bool, theirs: nat, stale: bool)

  /** The submitter's step drops references, and its caller does not use the count. The drop after a
      failed segment is not among them: its read is the submitter's step from Dropped on. */
  predicate Drops(q: Request, t: Task)
    requires q.Valid() && Shaped(q, t)
  {
    match t.pc
    case Loop => t.i == q.Size()
    case SyncStored => true
    case SyncCounted => t.isShort[t.i]
    case Reread(count) => count != 1
    case _ => false
  }

  function SubmitStep(q: Request, w: Watch): Watch
    requires q.Valid() && Shaped(q, w.task) && !w.task.pc.Returned?
  {
    var t' := Submit(q, w.task);
    Watch(t', Drops(q, w.task) && t'.active != 0, w.theirs, w.stale || (w.task.pc.Dropped? && w.task.freed > 0))
  }

  function CompleteStep(q: Request, w: Watch, k: nat): Watch
    requires q.Valid() && Shaped(q, w.task) && k < q.Size() && q.Reply(k).Async?
  {
    var t' := Complete(q, w.task, k);
    w.(task := t', theirs := w.theirs + if w.task.phase[k] == Stored && t'.active != 0 then 1 else 0)
  }

  ghost predicate Next(q: Request, w: Watch, w': Watch)
    requires q.Valid()
  {
    || (Shaped(q, w.task) && !w.mine && !w.task.pc.Returned? && w' == SubmitStep(q, w))
    || (Shaped(q, w.task) && exists k: nat :: Completes(q, w, w', k))
    || (w.mine && w' == w.(mine := false, stale := w.stale || w.task.freed > 0))
    || (w.theirs > 0 && w' == w.(theirs := w.theirs - 1, stale := w.stale || w.task.freed > 0))
  }

  ghost predicate Completes(q: Request, w: Watch, w': Watch, k: nat)
    requires q.Valid() && Shaped(q, w.task)
  {
    && k < q.Size() && q.Reply(k).Async? && (w.task.phase[k] == InFlight || w.task.phase[k] == Stored)
    && w' == CompleteStep(q, w, k)
  }

  ghost predicate IsRun(q: Request, run: seq<Watch>)
    requires q.Valid()
  {
    && run != [] && run[0] == Watch(Start(q), false, 0, false)
    && forall j :: 0 <= j < |run| - 1 ==> Next(q, run[j], run[j + 1])
  }

  function Last(run: seq<Watch>): Watch
    requires run != []
  {
    run[|run| - 1]
  }

  /** The reads change nothing in the io_task, so that all that holds of it without them holds of it
      here. */
  lemma NextInv(q: Request, w: Watch, w': Watch)
    requires Inv(q, w.task) && Next(q, w, w')
    ensures Inv(q, w'.task)
  {
    if w'.task != w.task {
      hide Inv, Submit, Complete;
      assert Shaped(q, w.task);
      if exists k: nat :: Completes(q, w, w', k) {
        var k: nat :| Completes(q, w, w', k);
        assert CompletesAt(q, w.task, w'.task, k);
      }
      StepInv(q, w.task, w'.task);
    }
  }

  lemma {:induction false} RunInv(q: Request, run: seq<Watch>)
    requires q.Valid() && IsRun(q, run)
    ensures Inv(q, Last(run).task)
  {
    var n := |run| - 1;
    if n == 0 {
      StartInv(q);
    } else {
      RunInv(q, run[..n]);
      NextInv(q, run[n - 1], run[n]);
    }
  }

  // ----- without a segment left to complete on its own -----

  /** Only the submitter moves, and it reads before anything can be freed. */
  ghost predicate Alone(q: Request, w: Watch) {
    Inv(q, w.task) && w.theirs == 0 && !w.stale && (w.mine ==> w.task.freed == 0)
  }

  lemma NotStarted(q: Request, t: Task, k: nat)
    requires Inv(q, t) && !SomeAsync(q, q.Stop(0)) && k < q.Size() && q.Reply(k).Async?
    ensures t.phase[k] == Idle
  {
    assert SegmentOk(q, t, k);
  }

  lemma AloneNext(q: Request, w: Watch, w': Watch)
    requires Alone(q, w) && !SomeAsync(q, q.Stop(0)) && Next(q, w, w')
    ensures Alone(q, w')
  {
    NextInv(q, w, w');
    if exists k: nat :: Completes(q, w, w', k) {
      var k: nat :| Completes(q, w, w', k);
      NotStarted(q, w.task, k);
      assert false;
    }
  }

  lemma {:induction false} NeverStale(q: Request, run: seq<Watch>)
    requires q.Valid() && IsRun(q, run) && !SomeAsync(q, q.Stop(0))
    ensures Alone(q, Last(run))
  {
    var n := |run| - 1;
    if n == 0 {
      StartInv(q);
    } else {
      NeverStale(q, run[..n]);
      AloneNext(q, run[n - 1], run[n]);
    }
  }

  // ----- with one -----

  /** Nothing has completed on its own yet. */
  ghost predicate AllInFlight(q: Request, t: Task)
    requires q.Valid() && Shaped(q, t)
  {
    forall k: nat :: k < t.i && q.Reply(k).Async? ==> t.phase[k] == InFlight
  }

  lemma SubmitInFlight(q: Request, t: Task)
    requires Inv(q, t) && !t.pc.Returned? && AllInFlight(q, t)
    ensures Shaped(q, Submit(q, t)) && AllInFlight(q, Submit(q, t))
  {
    if t.i < q.Size() { assert SegmentOk(q, t, t.i); }
  }

  /** A segment in flight is outstanding. */
  lemma StillOutstanding(q: Request, t: Task)
    requires Inv(q, t) && AllInFlight(q, t) && SomeAsync(q, t.i)
    ensures Outstanding(t.phase) > 0 && (t.pc.Returned? ==> t.active > 0 && t.freed == 0)
  {
    var k: nat :| k < t.i && q.Reply(k).Async?;
    if Outstanding(t.phase) == 0 {
      NothingOutstanding(t.phase, k);
      assert false;
    }
  }

  /** The submitter's last step leaves it with a read to do. */
  lemma ReturnsWithRead(q: Request, w: Watch)
    requires Inv(q, w.task) && !w.task.pc.Returned? && AllInFlight(q, w.task) && SomeAsync(q, q.Stop(0))
    ensures SubmitStep(q, w).task.pc.Returned? ==> SubmitStep(q, w).mine
  {
    var t, t' := w.task, Submit(q, w.task);
    if t'.pc.Returned? {
      assert Next(q, w.(mine := false), SubmitStep(q, w.(mine := false)));
      NextInv(q, w.(mine := false), SubmitStep(q, w.(mine := false)));
      SubmitInFlight(q, t);
      StillOutstanding(q, t');
    }
  }

  /** The submitter runs on alone until it has returned. */
  lemma {:induction false} RunToReturn(q: Request, run: seq<Watch>) returns (longer: seq<Watch>)
    requires q.Valid() && IsRun(q, run) && SomeAsync(q, q.Stop(0))
    requires var w := Last(run); Inv(q, w.task) && AllInFlight(q, w.task) && (w.task.pc.Returned? ==> w.mine)
    ensures IsRun(q, longer) && Last(longer).mine && Last(longer).task.pc.Returned?
    decreases Rank(q, Last(run).task), if Last(run).mine then 1 else 0
  {
    var w := Last(run);
    if w.task.pc.Returned? {
      longer := run;
    } else if w.mine {
      longer := RunToReturn(q, run + [w.(mine := false, stale := w.stale || w.task.freed > 0)]);
    } else {
      var w' := SubmitStep(q, w);
      assert Next(q, w, w');
      NextInv(q, w, w');
      ReturnsWithRead(q, w);
      SubmitInFlight(q, w.task);
      SubmitRank(q, w.task);
      longer := RunToReturn(q, run + [w']);
    }
  }

  /** Then the segments complete, the last of them frees the io_task, and the submitter reads it. */
  lemma {:induction false} CompleteAll(q: Request, run: seq<Watch>) returns (longer: seq<Watch>)
    requires q.Valid() && IsRun(q, run) && Last(run).mine && Last(run).task.pc.Returned?
    ensures IsRun(q, longer) && Last(longer).stale
    decreases Rank(q, Last(run).task)
  {
    var w := Last(run);
    RunInv(q, run);
    if Outstanding(w.task.phase) == 0 {
      longer := run + [w.(mine := false, stale := w.stale || w.task.freed > 0)];
    } else {
      var k := SomeOutstanding(w.task.phase);
      assert SegmentOk(q, w.task, k);
      var w' := CompleteStep(q, w, k);
      assert Completes(q, w, w', k) && CompletesAt(q, w.task, w'.task, k);
      CompleteRank(q, w.task, w'.task, k);
      longer := CompleteAll(q, run + [w']);
    }
  }

  /** Some run reads the io_task after it was freed if and only if a segment that is started is left
      to complete on its own. */
  lemma StaleIff(q: Request)
    requires q.Valid()
    ensures (exists run: seq<Watch> :: IsRun(q, run) && Last(run).stale) <==> SomeAsync(q, q.Stop(0))
  {
    if SomeAsync(q, q.Stop(0)) {
      StartInv(q);
      var run := RunToReturn(q, [Watch(Start(q), false, 0, false)]);
      run := CompleteAll(q, run);
    } else {
      forall run: seq<Watch> | IsRun(q, run) ensures !Last(run).stale {
        NeverStale(q, run);
      }
    }
  }
}
