/** One vectored request of the libaio emulation (src/aio.c): wpdk_aio_readv / writev together
    with the completions of its sub-I/Os, as a state machine whose steps are the atomic
    operations on the shared task. Completions may happen in any order, between any two steps
    of the submitter. */
module AioRequest {

  /** How the environment answers one ReadFile or WriteFile: at once with a byte count, with
      ERROR_IO_PENDING and a result reported later, or with an error. */
  datatype Answer = Sync(n: nat) | Async(res: int) | Fail(rc: int)

  /** Segment lengths, the file offset, and the environment's answers. */
  datatype Request = Request(lens: seq<nat>, offset: int, answers: seq<Answer>)
  {
    predicate Valid() {
      && |lens| == |answers| >= 2
      && forall k :: 0 <= k < |answers| && answers[k].Fail? ==> answers[k].rc > 0
    }

    function Size(): nat { |lens| }

    /** Empty segments are not handed to the operating system. */
    function Reply(k: nat): Answer
      requires k < |lens| && |lens| == |answers|
    {
      if lens[k] == 0 then Sync(0) else answers[k]
    }

    /** The segment after which no further one is started, or the number of segments. */
    function Stop(from: nat): (k: nat)
      requires from <= |lens| && |lens| == |answers|
      ensures from <= k <= |lens|
      ensures forall j :: from <= j < k ==> Reply(j).Async? || Reply(j) == Sync(lens[j])
      ensures k < |lens| ==> Reply(k).Fail? || (Reply(k).Sync? && Reply(k).n != lens[k])
      decreases |lens| - from
    {
      if from == |lens| then from
      else match Reply(from)
        case Sync(n) => if n == lens[from] then Stop(from + 1) else from
        case Async(_) => Stop(from + 1)
        case Fail(_) => from
    }

    /** The bytes transferred in order, up to the first short segment, or the first error. */
    function Total(from: nat, sum: int): int
      requires from <= |lens| && |lens| == |answers|
      decreases |lens| - from
    {
      if from == |lens| then sum
      else match Reply(from)
        case Fail(rc) => -rc
        case Sync(n) => if n != lens[from] then sum + n else Total(from + 1, sum + n)
        case Async(res) =>
          if res < 0 then res
          else if res != lens[from] then sum + res
          else Total(from + 1, sum + res)
    }
  }

  function Sum(s: seq<nat>): nat { if s == [] then 0 else Sum(s[..|s| - 1]) + s[|s| - 1] }

  // ----- the shared task -----

  /** A sub-I/O: not started, in flight, result stored but not yet counted, counted. */
  datatype Phase = Idle | InFlight | Stored | Counted

  /** The submitter: at the loop head, after storing the result of a synchronous segment,
      after counting it, after storing an error, after dropping the unstarted segments, after
      reading the remaining count, and returned. */
  datatype Pc = Loop | SyncStored | SyncCounted | FailStored | Dropped | Reread(count: int) | Returned(rc: int)

  /** task[k + 1] is split into result, isShort (its type field points to the result) and where
      (its file offset). Posted and freed count wpdk_aio_task_done and free. */
  datatype Task = Task(
    pc: Pc, i: nat, active: int, phase: seq<Phase>, result: seq<int>, isShort: seq<bool>, where: seq<int>,
    posted: nat, freed: nat, event: int)

  const EINTR: int := 4

  function Outstanding(phase: seq<Phase>): nat {
    if phase == [] then 0
    else
      var last := phase[|phase| - 1];
      Outstanding(phase[..|phase| - 1]) + if last == InFlight || last == Stored then 1 else 0
  }

  /** The loop in wpdk_aio_iov_done. */
  function Fold(result: seq<int>, isShort: seq<bool>, from: nat, sum: int): int
    requires |result| == |isShort| && from <= |result|
    decreases |result| - from
  {
    if sum < 0 || from == |result| then sum
    else
      var sum' := if result[from] < 0 then result[from] else sum + result[from];
      if isShort[from] then sum' else Fold(result, isShort, from + 1, sum')
  }

  /** That loop, as written. */
  method ComputeFold(result: seq<int>, isShort: seq<bool>) returns (sum: int)
    requires |result| == |isShort|
    ensures sum == Fold(result, isShort, 0, 0)
  {
    sum := 0;
    var i := 0;
    while sum >= 0 && i < |result|
      decreases |result| - i
      invariant i <= |result| && Fold(result, isShort, i, sum) == Fold(result, isShort, 0, 0)
    {
      if result[i] < 0 {
        sum := result[i];
      } else {
        sum := sum + result[i];
      }
      if isShort[i] {
        return;
      }
      i := i + 1;
    }
  }

  /** wpdk_aio_iov_done(task, count): drop references, and finish the request with the last. */
  function IovDone(t: Task, count: int): Task
    requires |t.result| == |t.isShort|
  {
    var t' := t.(active := t.active - count);
    if t'.active == 0 then
      t'.(posted := t.posted + 1, freed := t.freed + 1, event := Fold(t.result, t.isShort, 0, 0))
    else t'
  }

  /** wpdk_aio_allocate */
  function Start(q: Request): Task {
    var n := q.Size();
    Task(Loop, 0, n + 1, seq(n, _ => Idle), seq(n, _ => 0), seq(n, _ => false), seq(n, _ => 0), 0, 0, 0)
  }

  predicate Shaped(q: Request, t: Task) {
    && |t.phase| == |t.result| == |t.isShort| == |t.where| == q.Size()
    && t.i <= q.Size()
    && (t.pc.Loop? || t.pc.Returned? || t.i < q.Size())
  }

  function Store(t: Task, k: nat, len: nat, res: int): Task
    requires k < |t.result| == |t.isShort|
  {
    t.(result := t.result[k := res], isShort := t.isShort[k := t.isShort[k] || res != len])
  }

  /** The submitter's next step. */
  function Submit(q: Request, t: Task): Task
    requires q.Valid() && Shaped(q, t) && !t.pc.Returned?
  {
    var n, i := q.Size(), t.i;
    match t.pc
    case Loop =>
      if i == n then IovDone(t, 1).(pc := Returned(0))
      else
        var t1 := t.(result := t.result[i := q.lens[i]], where := t.where[i := q.offset + Sum(q.lens[..i])]);
        (match q.Reply(i)
         case Sync(m) => Store(t1, i, q.lens[i], m).(pc := SyncStored)
         case Async(_) => t1.(phase := t.phase[i := InFlight], i := i + 1)
         case Fail(rc) => t1.(result := t.result[i := -rc], pc := FailStored))
    case SyncStored => IovDone(t, 1).(phase := t.phase[i := Counted], pc := SyncCounted)
    case SyncCounted =>
      if t.isShort[i] then IovDone(t, n - i).(pc := Returned(0)) else t.(i := i + 1, pc := Loop)
    case FailStored => IovDone(t, n - i).(pc := Dropped)
    case Dropped => t.(pc := Reread(t.active))
    case Reread(count) =>
      if count == 1 then t.(freed := t.freed + 1, pc := Returned(t.result[i]))
      else IovDone(t, 1).(pc := Returned(EINTR))
  }

  /** A sub-I/O in flight completes: its result is stored, and then counted. */
  function Complete(q: Request, t: Task, k: nat): Task
    requires q.Valid() && Shaped(q, t) && k < q.Size() && q.Reply(k).Async?
  {
    if t.phase[k] == InFlight then Store(t, k, q.lens[k], q.Reply(k).res).(phase := t.phase[k := Stored])
    else IovDone(t, 1).(phase := t.phase[k := Counted])
  }

  ghost predicate Next(q: Request, t: Task, t': Task)
    requires q.Valid() && Shaped(q, t)
  {
    || (!t.pc.Returned? && t' == Submit(q, t))
    || exists k: nat :: CompletesAt(q, t, t', k)
  }

  ghost predicate CompletesAt(q: Request, t: Task, t': Task, k: nat)
    requires q.Valid() && Shaped(q, t)
  {
    && k < q.Size() && q.Reply(k).Async? && (t.phase[k] == InFlight || t.phase[k] == Stored)
    && t' == Complete(q, t, k)
  }

  // ----- the invariant -----

  /** The references the submitter still has to drop: one for itself and one for each segment
      that it has neither handed over nor counted. */
  function Owed(q: Request, t: Task): int {
    match t.pc
    case Loop => q.Size() - t.i + 1
    case SyncStored => q.Size() - t.i + 1
    case SyncCounted => q.Size() - t.i
    case FailStored => q.Size() - t.i + 1
    case Dropped => 1
    case Reread(_) => 1
    case Returned(_) => 0
  }

  /** Reference counting: active is what is outstanding plus what the submitter owes, until the
      task is freed, once, with nothing outstanding. */
  ghost predicate Counts(q: Request, t: Task) {
    && t.posted <= t.freed <= 1
    && (t.freed == 0 ==> t.active == Outstanding(t.phase) + Owed(q, t) > 0)
    && (t.freed == 1 ==> t.pc.Returned? && Outstanding(t.phase) == 0)
    && (t.pc.Reread? ==> t.pc.count >= t.active)
  }

  /** The result and the short mark that segment k ends with. */
  ghost predicate Settled(q: Request, t: Task, k: nat)
    requires q.Valid() && Shaped(q, t) && k < q.Size()
  {
    match q.Reply(k)
    case Sync(m) => t.result[k] == m && t.isShort[k] == (m != q.lens[k])
    case Async(res) => t.result[k] == res && t.isShort[k] == (res != q.lens[k])
    case Fail(rc) => t.result[k] == -rc && !t.isShort[k]
  }

  ghost predicate SegmentOk(q: Request, t: Task, k: nat)
    requires q.Valid() && Shaped(q, t) && k < q.Size()
  {
    && (k < t.i || (k == t.i && !t.pc.Loop?) ==> t.where[k] == q.offset + Sum(q.lens[..k]))
    && if k < t.i then
         match q.Reply(k)
         case Sync(m) => t.phase[k] == Counted && Settled(q, t, k)
         case Async(res) =>
           && t.phase[k] != Idle
           && (if t.phase[k] == InFlight then t.result[k] == q.lens[k] && !t.isShort[k] else Settled(q, t, k))
         case Fail(_) => false
       else if k == t.i && !t.pc.Loop? then
         match q.Reply(k)
         case Sync(m) =>
           && Settled(q, t, k) && !t.pc.FailStored? && !t.pc.Dropped? && !t.pc.Reread?
           && t.phase[k] == if t.pc.SyncStored? then Idle else Counted
         case Async(_) => false
         case Fail(rc) =>
           && Settled(q, t, k) && !t.pc.SyncStored? && !t.pc.SyncCounted? && t.phase[k] == Idle
       else t.phase[k] == Idle && t.result[k] == 0 && !t.isShort[k]
  }

  /** Where the submitter stands among the segments, and what it returns. */
  ghost predicate Standing(q: Request, t: Task)
    requires q.Valid() && Shaped(q, t)
  {
    && t.i <= q.Stop(0)
    && (t.pc.FailStored? || t.pc.Dropped? || t.pc.Reread? || t.pc.Returned? ==> t.i == q.Stop(0))
    && (t.pc.Returned? ==>
          if t.i < q.Size() && q.Reply(t.i).Fail? then
            if t.pc.rc == EINTR then t.freed == t.posted
            else t.pc.rc == -q.Reply(t.i).rc && t.freed == 1 && t.posted == 0
          else t.pc.rc == 0 && t.freed == t.posted)
    && (!t.pc.Returned? ==> t.freed == 0)
    && (t.pc.Reread? && t.pc.count != 1 ==> SomeAsync(q, t.i))
    && (t.pc.Returned? && t.pc.rc == EINTR ==> SomeAsync(q, t.i))
  }

  ghost predicate SomeAsync(q: Request, i: nat)
    requires q.Valid() && i <= q.Size()
  {
    exists k: nat :: k < i && q.Reply(k).Async?
  }

  ghost predicate Inv(q: Request, t: Task) {
    && q.Valid() && Shaped(q, t) && Counts(q, t) && Standing(q, t)
    && (forall k: nat :: k < q.Size() ==> SegmentOk(q, t, k))
    && (t.posted == 1 ==> t.event == q.Total(0, 0))
  }

  lemma {:induction false} OutstandingUpdate(phase: seq<Phase>, k: nat, p: Phase)
    requires k < |phase|
    ensures Outstanding(phase[k := p]) == Outstanding(phase)
      - (if phase[k] == InFlight || phase[k] == Stored then 1 else 0) + (if p == InFlight || p == Stored then 1 else 0)
  {
    var n := |phase| - 1;
    if k == n {
      assert phase[k := p][..n] == phase[..n];
    } else {
      OutstandingUpdate(phase[..n], k, p);
      assert phase[k := p][..n] == phase[..n][k := p];
    }
  }

  lemma {:induction false} NothingOutstanding(phase: seq<Phase>, k: nat)
    requires Outstanding(phase) == 0 && k < |phase|
    ensures phase[k] != InFlight && phase[k] != Stored
  {
    if k == |phase| - 1 {
    } else {
      NothingOutstanding(phase[..|phase| - 1], k);
    }
  }

  lemma {:induction false} IdleOutstanding(n: nat)
    ensures Outstanding(seq(n, _ => Idle)) == 0
  {
    if n == 0 {
    } else {
      assert seq(n, _ => Idle)[..n - 1] == seq(n - 1, _ => Idle);
      IdleOutstanding(n - 1);
    }
  }

  lemma StartInv(q: Request)
    requires q.Valid()
    ensures Inv(q, Start(q))
  {
    IdleOutstanding(q.Size());
  }

  // ----- the result -----

  /** Folding settled segments in order gives the specified total, whatever the later ones hold. */
  lemma {:induction false} FoldIsTotal(q: Request, t: Task, from: nat, sum: int)
    requires q.Valid() && Shaped(q, t) && from <= q.Stop(0) && sum >= 0
    requires forall k: nat :: k <= q.Stop(0) && k < q.Size() ==> Settled(q, t, k)
    ensures Fold(t.result, t.isShort, from, sum) == q.Total(from, sum)
    decreases q.Size() - from
  {
    if from == q.Size() {
    } else {
      assert Settled(q, t, from);
      if from < q.Stop(0) {
        if q.Reply(from).Async? && (q.Reply(from).res < 0 || q.Reply(from).res != q.lens[from]) {
        } else {
          FoldIsTotal(q, t, from + 1, sum + t.result[from]);
        }
      } else if q.Reply(from).Fail? {
        assert Fold(t.result, t.isShort, from, sum) == Fold(t.result, t.isShort, from + 1, -q.Reply(from).rc);
      }
    }
  }

  /** When the last reference goes, every started segment has settled. */
  lemma LastReference(q: Request, t: Task)
    requires q.Valid() && Shaped(q, t) && t.i == q.Stop(0) && Outstanding(t.phase) == 0
    requires forall k: nat :: k < q.Size() ==> SegmentOk(q, t, k)
    requires t.i < q.Size() ==> !t.pc.Loop?
    ensures Fold(t.result, t.isShort, 0, 0) == q.Total(0, 0)
  {
    forall k: nat | k <= q.Stop(0) && k < q.Size() ensures Settled(q, t, k) {
      NothingOutstanding(t.phase, k);
      assert SegmentOk(q, t, k);
    }
    FoldIsTotal(q, t, 0, 0);
  }

  // ----- every step keeps the invariant -----

  lemma StepLoopEnd(q: Request, t: Task)
    requires Inv(q, t) && t.pc.Loop? && t.i == q.Size()
    ensures Inv(q, Submit(q, t))
  {
    var t' := Submit(q, t);
    if t.active == 1 { LastReference(q, t); }
    forall k: nat | k < q.Size() ensures SegmentOk(q, t', k) {
      assert SegmentOk(q, t, k);
    }
  }

  lemma StepLoopStart(q: Request, t: Task)
    requires Inv(q, t) && t.pc.Loop? && t.i < q.Size()
    ensures Inv(q, Submit(q, t))
  {
    var i, t' := t.i, Submit(q, t);
    assert SegmentOk(q, t, i);
    StopOnward(q, i);
    OutstandingUpdate(t.phase, i, InFlight);
    assert Counts(q, t') && Standing(q, t');
    forall k: nat | k < q.Size() ensures SegmentOk(q, t', k) {
      assert SegmentOk(q, t, k);
    }
  }

  /** Whether the segment reached is the stopping one is decided by its own reply. */
  lemma {:induction false} StopOnward(q: Request, i: nat)
    requires q.Valid() && i < q.Size() && i <= q.Stop(0)
    ensures i == q.Stop(0) <==> q.Reply(i).Fail? || (q.Reply(i).Sync? && q.Reply(i).n != q.lens[i])
  {}

  lemma StepSync(q: Request, t: Task)
    requires Inv(q, t) && (t.pc.SyncStored? || t.pc.SyncCounted?)
    ensures Inv(q, Submit(q, t))
  {
    var i, t' := t.i, Submit(q, t);
    assert SegmentOk(q, t, i);
    StopOnward(q, i);
    if t.pc.SyncStored? {
      OutstandingUpdate(t.phase, i, Counted);
    } else if t.isShort[i] {
      if t.active == q.Size() - i { LastReference(q, t); }
    }
    forall k: nat | k < q.Size() ensures SegmentOk(q, t', k) {
      assert SegmentOk(q, t, k);
    }
  }

  lemma StepFail(q: Request, t: Task)
    requires Inv(q, t) && (t.pc.FailStored? || t.pc.Dropped? || t.pc.Reread?)
    ensures Inv(q, Submit(q, t))
  {
    var i, t' := t.i, Submit(q, t);
    assert SegmentOk(q, t, i);
    if t.pc.Reread? && t.active == 1 { LastReference(q, t); }
    if t.pc.Dropped? && t.active != 1 {
      var k := SomeOutstanding(t.phase);
      assert SegmentOk(q, t, k);
    }
    forall k: nat | k < q.Size() ensures SegmentOk(q, t', k) {
      assert SegmentOk(q, t, k);
    }
  }

  /** The result of a segment is stored. */
  lemma StepStore(q: Request, t: Task, k: nat)
    requires Inv(q, t) && k < q.Size() && q.Reply(k).Async? && t.phase[k] == InFlight
    ensures Inv(q, Complete(q, t, k))
  {
    var t' := Complete(q, t, k);
    assert SegmentOk(q, t, k);
    OutstandingUpdate(t.phase, k, Stored);
    if t.freed == 1 {
      NothingOutstanding(t.phase, k);
      assert false;
    }
    hide Outstanding;
    forall j: nat | j < q.Size() ensures SegmentOk(q, t', j) {
      assert SegmentOk(q, t, j);
    }
  }

  lemma CountSegments(q: Request, t: Task, k: nat)
    requires Inv(q, t) && k < q.Size() && q.Reply(k).Async? && t.phase[k] == Stored
    ensures Shaped(q, Complete(q, t, k)) && forall j: nat :: j < q.Size() ==> SegmentOk(q, Complete(q, t, k), j)
  {
    hide Counts, Standing, Fold, Outstanding;
    assert SegmentOk(q, t, k);
    forall j: nat | j < q.Size() ensures SegmentOk(q, Complete(q, t, k), j) {
      assert SegmentOk(q, t, j);
    }
  }

  /** And then it is counted. */
  lemma StepCount(q: Request, t: Task, k: nat)
    requires Inv(q, t) && k < q.Size() && q.Reply(k).Async? && t.phase[k] == Stored
    ensures Inv(q, Complete(q, t, k))
  {
    var t' := Complete(q, t, k);
    CountSegments(q, t, k);
    OutstandingUpdate(t.phase, k, Counted);
    hide Outstanding, Fold, SegmentOk;
    if t.freed == 1 {
      NothingOutstanding(t.phase, k);
      assert false;
    }
    if t'.posted == 1 {
      LastReference(q, t');
    }
  }

  lemma StepComplete(q: Request, t: Task, t': Task, k: nat)
    requires Inv(q, t) && CompletesAt(q, t, t', k)
    ensures Inv(q, t')
  {
    hide Complete, Counts, Standing, SegmentOk;
    if t.phase[k] == InFlight {
      StepStore(q, t, k);
    } else {
      StepCount(q, t, k);
    }
  }

  lemma StepInv(q: Request, t: Task, t': Task)
    requires Inv(q, t) && Next(q, t, t')
    ensures Inv(q, t')
  {
    hide Counts, Standing, SegmentOk, Submit, Complete;
    if !t.pc.Returned? && t' == Submit(q, t) {
      if t.pc.Loop? && t.i == q.Size() {
        StepLoopEnd(q, t);
      } else if t.pc.Loop? {
        StepLoopStart(q, t);
      } else if t.pc.SyncStored? || t.pc.SyncCounted? {
        StepSync(q, t);
      } else {
        StepFail(q, t);
      }
    } else {
      var k: nat :| CompletesAt(q, t, t', k);
      StepComplete(q, t, t', k);
    }
  }

  // ----- whole runs -----

  /** A finite execution: the io_task from allocation on, one step at a time. */
  ghost predicate IsRun(q: Request, run: seq<Task>)
    requires q.Valid()
  {
    && run != [] && run[0] == Start(q)
    && forall j :: 0 <= j < |run| - 1 ==> Shaped(q, run[j]) && Next(q, run[j], run[j + 1])
  }

  lemma {:induction false} RunInv(q: Request, run: seq<Task>, j: nat)
    requires q.Valid() && IsRun(q, run) && j < |run|
    ensures Inv(q, run[j])
  {
    if j == 0 {
      StartInv(q);
    } else {
      RunInv(q, run, j - 1);
      StepInv(q, run[j - 1], run[j]);
    }
  }

  /** In every interleaving: the count is exact, the request is finished and freed at most once,
      and never while a sub-I/O is outstanding; what is posted does not depend on the order. */
  lemma RunSafe(q: Request, run: seq<Task>, j: nat)
    requires q.Valid() && IsRun(q, run) && j < |run|
    ensures var t := run[j];
      && Shaped(q, t) && t.posted <= t.freed <= 1
      && (t.freed == 0 ==> t.active == Outstanding(t.phase) + Owed(q, t))
      && (t.freed == 1 ==> Outstanding(t.phase) == 0 && t.pc.Returned?)
      && (t.posted == 1 ==> t.event == q.Total(0, 0))
      && (forall k: nat :: k < q.Size() && t.phase[k] != Idle ==>
          k <= q.Stop(0) && t.where[k] == q.offset + Sum(q.lens[..k]))
  {
    RunInv(q, run, j);
    forall k: nat | k < q.Size() && run[j].phase[k] != Idle
      ensures k <= q.Stop(0) && run[j].where[k] == q.offset + Sum(q.lens[..k])
    {
      assert SegmentOk(q, run[j], k);
    }
  }

  /** Nothing more can happen. */
  predicate Quiet(t: Task) {
    t.pc.Returned? && Outstanding(t.phase) == 0
  }

  /** A run can go on until it is quiet. */
  lemma NoDeadlock(q: Request, t: Task)
    requires Inv(q, t)
    ensures Quiet(t) <==> !exists t' :: Next(q, t, t')
  {
    if t.pc.Returned? && Outstanding(t.phase) > 0 {
      var k := SomeOutstanding(t.phase);
      assert SegmentOk(q, t, k);
      assert CompletesAt(q, t, Complete(q, t, k), k);
      assert Next(q, t, Complete(q, t, k));
    }
    if !t.pc.Returned? {
      assert Next(q, t, Submit(q, t));
    }
    if Quiet(t) && exists t' :: Next(q, t, t') {
      var t' :| Next(q, t, t');
      var k: nat :| CompletesAt(q, t, t', k);
      NothingOutstanding(t.phase, k);
      assert false;
    }
  }

  lemma {:induction false} SomeOutstanding(phase: seq<Phase>) returns (k: nat)
    requires Outstanding(phase) > 0
    ensures k < |phase| && (phase[k] == InFlight || phase[k] == Stored)
  {
    var n := |phase| - 1;
    if phase[n] == InFlight || phase[n] == Stored { k := n; } else { k := SomeOutstanding(phase[..n]); }
  }

  /** And it cannot go on forever. */
  function Rank(q: Request, t: Task): int {
    Weight(t.phase) + 5 * (q.Size() - t.i) + match t.pc
      case Loop => 4
      case SyncStored => 3
      case SyncCounted => 2
      case FailStored => 3
      case Dropped => 2
      case Reread(_) => 1
      case Returned(_) => 0
  }

  function Weight(phase: seq<Phase>): nat {
    if phase == [] then 0
    else Weight(phase[..|phase| - 1]) + match phase[|phase| - 1]
      case Idle => 0
      case InFlight => 2
      case Stored => 1
      case Counted => 0
  }

  lemma {:induction false} WeightUpdate(phase: seq<Phase>, k: nat, p: Phase)
    requires k < |phase|
    ensures Weight(phase[k := p]) == Weight(phase) - Weight([phase[k]]) + Weight([p])
  {
    var n := |phase| - 1;
    assert [phase[k]][..0] == [] && [p][..0] == [];
    if k == n {
      assert phase[k := p][..n] == phase[..n];
    } else {
      WeightUpdate(phase[..n], k, p);
      assert phase[k := p][..n] == phase[..n][k := p];
    }
  }

  lemma SubmitRank(q: Request, t: Task)
    requires Inv(q, t) && !t.pc.Returned?
    ensures Rank(q, Submit(q, t)) < Rank(q, t)
  {
    if t.i < q.Size() {
      assert SegmentOk(q, t, t.i);
      hide Counts, Standing, SegmentOk, Inv;
      WeightUpdate(t.phase, t.i, InFlight);
      WeightUpdate(t.phase, t.i, Counted);
    }
  }

  lemma CompleteRank(q: Request, t: Task, t': Task, k: nat)
    requires Inv(q, t) && CompletesAt(q, t, t', k)
    ensures Rank(q, t') < Rank(q, t)
  {
    hide Counts, Standing, SegmentOk;
    WeightUpdate(t.phase, k, if t.phase[k] == InFlight then Stored else Counted);
  }

  lemma StepRank(q: Request, t: Task, t': Task)
    requires Inv(q, t) && Next(q, t, t')
    ensures 0 <= Rank(q, t') < Rank(q, t)
  {
    StepInv(q, t, t');
    hide Counts, Standing, SegmentOk, Submit, Complete;
    if !t.pc.Returned? && t' == Submit(q, t) {
      SubmitRank(q, t);
    } else {
      var k: nat :| CompletesAt(q, t, t', k);
      CompleteRank(q, t, t', k);
    }
  }

  /** A run that has become quiet: an accepted request has been reported exactly once, with the
      specified total, and a rejected one not at all; either way the io_task is freed exactly once.
      A request is rejected only when a segment failed, and reported as interrupted only when it
      failed after a segment was left to complete on its own. */
  lemma QuietOutcome(q: Request, run: seq<Task>)
    requires q.Valid() && IsRun(q, run) && Quiet(run[|run| - 1])
    ensures var t, stop := run[|run| - 1], q.Stop(0);
      && t.freed == 1
      && (t.pc.rc == 0 || t.pc.rc == EINTR ==> t.posted == 1 && t.event == q.Total(0, 0))
      && (t.pc.rc != 0 && t.pc.rc != EINTR ==> t.posted == 0 && t.pc.rc < 0)
      && (t.pc.rc == 0 <==> !(stop < q.Size() && q.Reply(stop).Fail?))
      && (t.pc.rc < 0 ==> t.pc.rc == -q.Reply(stop).rc)
      && (t.pc.rc == EINTR ==> SomeAsync(q, stop))
  {
    RunInv(q, run, |run| - 1);
  }
}
