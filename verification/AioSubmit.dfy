/** One call of wpdk_io_submit (src/aio.c) over a list of iocbs, with the completions of what it
    has started and with other users of the same context, as a state machine. Taking a place in
    the context is a load followed by a compare-and-swap, between which anything may happen. */
module AioSubmit {
  import opened AioRequest
  import opened Options

  /** A control block: one that is refused outright (NULL, a bad handle, an unknown opcode, an
      invalid iovec), a single buffer, or a vector of at least two. */
  datatype Iocb = Invalid | Single(len: nat, answer: Answer) | Vector(q: Request)
  {
    predicate Valid() {
      match this
      case Invalid => true
      case Single(_, answer) => answer.Fail? ==> answer.rc > 0
      case Vector(q) => q.Valid()
    }
  }

  /** What has become of an iocb; One is the io_task of a single buffer. */
  datatype Slot = Fresh | One(solo: Solo) | Many(task: Task)
  {
    /** The task is allocated: it holds a place in the context. */
    function Live(): nat {
      match this
      case Fresh => 0
      case One(solo) => if solo == Allocated || solo == SoloInFlight then 1 else 0
      case Many(t) => if t.freed == 0 then 1 else 0
    }

    function Posted(): nat {
      match this
      case Fresh => 0
      case One(solo) => if solo == SoloPosted then 1 else 0
      case Many(t) => t.posted
    }
  }

  datatype Solo = Allocated | SoloInFlight | SoloPosted | SoloAborted

  /** The call: the index of the current iocb, whether it has memory for its io_task, the count it has
      loaded from the context, the shared counter, the places held by other calls, and what it has
      returned. */
  datatype Call = Call(cur: nat, memory: bool, loaded: Option<int>, slots: seq<Slot>, iocount: int, others: nat,
                       ret: Option<int>)

  const EAGAIN: int := 11
  const EINVAL: int := 22

  function LiveCount(slots: seq<Slot>): nat {
    if slots == [] then 0 else LiveCount(slots[..|slots| - 1]) + slots[|slots| - 1].Live()
  }

  lemma {:induction false} LiveCountUpdate(slots: seq<Slot>, k: nat, x: Slot)
    requires k < |slots|
    ensures LiveCount(slots[k := x]) == LiveCount(slots) - slots[k].Live() + x.Live()
  {
    var n := |slots| - 1;
    if k == n {
      assert slots[k := x][..n] == slots[..n];
    } else {
      LiveCountUpdate(slots[..n], k, x);
      assert slots[k := x][..n] == slots[..n][k := x];
    }
  }

  /** An iocb that could not be started: what has been started counts, if anything has. */
  function Early(cur: nat, rc: int): int { if cur > 0 then cur else rc }

  /** Replace slot k, giving its place in the context back if it is no longer live. */
  function Put(s: Call, k: nat, x: Slot): Call
    requires k < |s.slots|
  {
    s.(slots := s.slots[k := x], iocount := s.iocount - s.slots[k].Live() + x.Live())
  }

  predicate Shape(ios: seq<Iocb>, s: Call) {
    && |s.slots| == |ios| && s.cur <= |ios|
    && (forall k :: 0 <= k < |ios| ==> ios[k].Valid())
    && (forall k :: 0 <= k < |ios| && s.slots[k].Many? ==> ios[k].Vector? && Shaped(ios[k].q, s.slots[k].task))
    && (forall k :: 0 <= k < |ios| && s.slots[k].One? ==> ios[k].Single?)
    && (s.loaded.Some? ==> s.memory && s.cur < |ios| && s.slots[s.cur].Fresh? && !ios[s.cur].Invalid?)
  }

  function Begin(n: nat, iocount: nat): Call {
    Call(0, false, None, seq(n, _ => Fresh), iocount, iocount, None)
  }

  /** The call's own next step. */
  function Advance(ios: seq<Iocb>, size: nat, s: Call): Call
    requires Shape(ios, s) && s.ret.None?
  {
    var c := s.cur;
    if c == |ios| then s.(ret := Some(c))
    else match s.slots[c]
      case Fresh =>
        if ios[c].Invalid? then s.(ret := Some(Early(c, -EINVAL)))
        else if !s.memory then s.(memory := true)
        else if s.loaded.None? then
          if s.iocount >= size then s.(ret := Some(Early(c, -EAGAIN))) else s.(loaded := Some(s.iocount))
        else if s.loaded.value != s.iocount then s.(loaded := None)
        else
          var x := if ios[c].Single? then One(Allocated) else Many(Start(ios[c].q));
          Put(s, c, x).(memory := false, loaded := None)
      case One(solo) =>
        var reply := if ios[c].len == 0 then Sync(0) else ios[c].answer;
        (match reply
         case Sync(_) => Put(s, c, One(SoloPosted)).(cur := c + 1)
         case Async(_) => Put(s, c, One(SoloInFlight)).(cur := c + 1)
         case Fail(rc) => Put(s, c, One(SoloAborted)).(ret := Some(Early(c, -rc))))
      case Many(t) =>
        if !t.pc.Returned? then Put(s, c, Many(Submit(ios[c].q, t)))
        else if t.pc.rc == 0 then s.(cur := c + 1)
        else if t.pc.rc == EINTR then s.(ret := Some(c + 1))
        else s.(ret := Some(Early(c, t.pc.rc)))
  }

  /** A sub-I/O of iocb k completes. */
  ghost predicate Completion(ios: seq<Iocb>, s: Call, s': Call, k: nat)
    requires Shape(ios, s)
  {
    && k < |ios|
    && match s.slots[k]
       case Fresh => false
       case One(solo) => solo == SoloInFlight && s' == Put(s, k, One(SoloPosted))
       case Many(t) => exists j: nat, t' :: CompletesAt(ios[k].q, t, t', j) && s' == Put(s, k, Many(t'))
  }

  /** Another call takes a place, which the compare-and-swap allows below size only, or gives
      one back. */
  ghost predicate Interference(size: nat, s: Call, s': Call) {
    || (s.iocount < size && s' == s.(iocount := s.iocount + 1, others := s.others + 1))
    || (s.others > 0 && s' == s.(iocount := s.iocount - 1, others := s.others - 1))
  }

  /** The io_task for the current iocb cannot be allocated. */
  ghost predicate NoMemory(ios: seq<Iocb>, s: Call, s': Call)
    requires Shape(ios, s)
  {
    && s.ret.None? && !s.memory && s.cur < |ios| && s.slots[s.cur].Fresh? && !ios[s.cur].Invalid?
    && s' == s.(ret := Some(Early(s.cur, -EAGAIN)))
  }

  ghost predicate CallNext(ios: seq<Iocb>, size: nat, s: Call, s': Call)
    requires Shape(ios, s)
  {
    || (s.ret.None? && s' == Advance(ios, size, s))
    || (exists k: nat :: Completion(ios, s, s', k))
    || Interference(size, s, s')
    || NoMemory(ios, s, s')
  }

  // ----- the invariant -----

  /** An iocb that the call counts as started. */
  ghost predicate Accepted(x: Slot) {
    match x
    case Fresh => false
    case One(solo) => solo == SoloInFlight || solo == SoloPosted
    case Many(t) => t.pc.Returned? && (t.pc.rc == 0 || t.pc.rc == EINTR)
  }

  /** One that it does not count, and that will never be reported. */
  ghost predicate Declined(x: Slot) {
    match x
    case Fresh => true
    case One(solo) => solo == SoloAborted
    case Many(t) => t.pc.Returned? && t.pc.rc < 0
  }

  ghost predicate SlotOk(ios: seq<Iocb>, s: Call, k: nat)
    requires Shape(ios, s) && k < |ios|
  {
    && (s.slots[k].Many? ==> Inv(ios[k].q, s.slots[k].task))
    && (k < s.cur ==> Accepted(s.slots[k]))
    && (k > s.cur ==> s.slots[k].Fresh?)
    && (k == s.cur && s.slots[k].One? ==>
          if s.ret.None? then s.slots[k].solo == Allocated else s.slots[k].solo == SoloAborted)
    && (k == s.cur && s.slots[k].Many? && s.ret.Some? ==> s.slots[k].task.pc.Returned? && s.slots[k].task.pc.rc != 0)
  }

  /** The call has returned the number of accepted iocbs, or an error if there are none. */
  ghost predicate RetOk(ios: seq<Iocb>, s: Call)
    requires Shape(ios, s)
  {
    s.ret.Some? ==>
      var r := s.ret.value;
      var counted := if r > 0 then r else 0;
      && s.loaded.None? && counted <= |ios|
      && (forall k :: 0 <= k < counted ==> Accepted(s.slots[k]))
      && (forall k :: counted <= k < |ios| ==> Declined(s.slots[k]))
  }

  ghost predicate CallInv(ios: seq<Iocb>, size: nat, s: Call) {
    && Shape(ios, s) && RetOk(ios, s)
    && s.iocount == s.others + LiveCount(s.slots) <= size
    && (s.loaded.Some? ==> s.loaded.value < size)
    && forall k: nat :: k < |ios| ==> SlotOk(ios, s, k)
  }

  lemma {:induction false} FreshLive(n: nat)
    ensures LiveCount(seq(n, _ => Fresh)) == 0
  {
    if n == 0 {
    } else {
      assert seq(n, _ => Fresh)[..n - 1] == seq(n - 1, _ => Fresh);
      FreshLive(n - 1);
    }
  }

  lemma BeginInv(ios: seq<Iocb>, size: nat, iocount: nat)
    requires iocount <= size && forall k :: 0 <= k < |ios| ==> ios[k].Valid()
    ensures CallInv(ios, size, Begin(|ios|, iocount))
  {
    FreshLive(|ios|);
  }

  /** The steps that change nothing but the call's own bookkeeping. */
  lemma AdvanceQuietly(ios: seq<Iocb>, size: nat, s: Call)
    requires CallInv(ios, size, s) && s.ret.None?
    requires s.cur == |ios| || (s.slots[s.cur].Many? && s.slots[s.cur].task.pc.Returned?)
    ensures CallInv(ios, size, Advance(ios, size, s))
  {
    var c, s' := s.cur, Advance(ios, size, s);
    if c < |ios| { assert SlotOk(ios, s, c); }
    forall k: nat | k < |ios| ensures SlotOk(ios, s', k) {
      assert SlotOk(ios, s, k);
    }
    forall k: nat | k < |ios| ensures (k < c ==> Accepted(s.slots[k])) && (k > c ==> s.slots[k].Fresh?) {
      assert SlotOk(ios, s, k);
    }
  }

  /** The slots are as they were, and the call moves on or refuses the current iocb. */
  lemma Unmoved(ios: seq<Iocb>, size: nat, s: Call, s': Call)
    requires CallInv(ios, size, s) && s.ret.None? && s.cur < |ios| && s.slots[s.cur].Fresh?
    requires s'.slots == s.slots && s'.cur == s.cur && s'.iocount == s.iocount && s'.others == s.others
    requires s'.loaded.Some? ==> s'.memory && s'.loaded.value < size && !ios[s.cur].Invalid?
    requires s'.ret.Some? ==> Counted(s'.ret.value) == s.cur && s'.loaded.None?
    ensures CallInv(ios, size, s')
  {
    hide Inv, LiveCount;
    forall k: nat | k < |ios| ensures SlotOk(ios, s', k) {
      assert SlotOk(ios, s, k);
    }
    forall k: nat | k < |ios| ensures (k < s.cur ==> Accepted(s.slots[k])) && (k > s.cur ==> s.slots[k].Fresh?) {
      assert SlotOk(ios, s, k);
    }
  }

  /** One slot is replaced, and is accepted or declined as before if the call has returned. */
  lemma Replaced(ios: seq<Iocb>, size: nat, s: Call, s': Call, k: nat)
    requires CallInv(ios, size, s) && Shape(ios, s') && k < |ios| && s'.slots == s.slots[k := s'.slots[k]]
    requires s'.cur == s.cur && s'.ret == s.ret && s'.others == s.others && (s'.loaded == s.loaded || s'.loaded == None)
    requires s'.iocount == s.iocount - s.slots[k].Live() + s'.slots[k].Live() <= size
    requires SlotOk(ios, s', k)
    requires s.ret.Some? ==>
      (Accepted(s'.slots[k]) <==> Accepted(s.slots[k])) && (Declined(s'.slots[k]) <==> Declined(s.slots[k]))
    ensures CallInv(ios, size, s')
  {
    LiveCountUpdate(s.slots, k, s'.slots[k]);
    hide Inv, LiveCount;
    forall j: nat | j < |ios| ensures SlotOk(ios, s', j) {
      assert SlotOk(ios, s, j);
    }
  }

  /** Refusing the current iocb, or one half of taking a place. */
  lemma AdvanceFresh(ios: seq<Iocb>, size: nat, s: Call)
    requires CallInv(ios, size, s) && s.ret.None? && s.cur < |ios| && s.slots[s.cur].Fresh?
    ensures CallInv(ios, size, Advance(ios, size, s))
  {
    var c, s' := s.cur, Advance(ios, size, s);
    if s.loaded.Some? && s.loaded.value == s.iocount {
      if ios[c].Vector? { StartInv(ios[c].q); }
      hide Inv, LiveCount, RetOk;
      Replaced(ios, size, s, s', c);
    } else {
      hide Inv, LiveCount, RetOk, SlotOk;
      Unmoved(ios, size, s, s');
    }
  }

  /** Issuing the I/O of a single buffer. */
  lemma AdvanceOne(ios: seq<Iocb>, size: nat, s: Call)
    requires CallInv(ios, size, s) && s.ret.None? && s.cur < |ios| && s.slots[s.cur].One?
    ensures CallInv(ios, size, Advance(ios, size, s))
  {
    var c, s' := s.cur, Advance(ios, size, s);
    assert SlotOk(ios, s, c);
    LiveCountUpdate(s.slots, c, s'.slots[c]);
    hide Inv, LiveCount;
    forall k: nat | k < |ios| ensures SlotOk(ios, s', k) {
      assert SlotOk(ios, s, k);
    }
    forall k: nat | k < |ios| ensures (k < c ==> Accepted(s.slots[k])) && (k > c ==> s.slots[k].Fresh?) {
      assert SlotOk(ios, s, k);
    }
  }

  /** A task takes a step, and gives its place back if that step frees it. */
  lemma TaskStep(ios: seq<Iocb>, size: nat, s: Call, k: nat, t': Task)
    requires CallInv(ios, size, s) && k < |ios| && s.slots[k].Many?
    requires Next(ios[k].q, s.slots[k].task, t')
    requires s.slots[k].task.pc.Returned? ==> t'.pc == s.slots[k].task.pc
    requires !s.slots[k].task.pc.Returned? ==> k == s.cur && s.ret.None?
    ensures CallInv(ios, size, Put(s, k, Many(t')))
  {
    var s', t := Put(s, k, Many(t')), s.slots[k].task;
    hide Inv, Next, LiveCount;
    assert SlotOk(ios, s, k);
    FreedStays(ios[k].q, t, t');
    Replaced(ios, size, s, s', k);
  }

  lemma FreedStays(q: Request, t: Task, t': Task)
    requires Inv(q, t) && Next(q, t, t')
    ensures Inv(q, t') && Shaped(q, t') && t'.freed >= t.freed
  {
    StepInv(q, t, t');
  }

  lemma AdvanceInv(ios: seq<Iocb>, size: nat, s: Call)
    requires CallInv(ios, size, s) && s.ret.None?
    ensures CallInv(ios, size, Advance(ios, size, s))
  {
    var c := s.cur;
    if c == |ios| {
      AdvanceQuietly(ios, size, s);
    } else {
      match s.slots[c]
      case Fresh => AdvanceFresh(ios, size, s);
      case One(_) => AdvanceOne(ios, size, s);
      case Many(t) =>
        if t.pc.Returned? {
          AdvanceQuietly(ios, size, s);
        } else {
          assert Next(ios[c].q, t, Submit(ios[c].q, t));
          TaskStep(ios, size, s, c, Submit(ios[c].q, t));
        }
    }
  }

  lemma SoloCompletes(ios: seq<Iocb>, size: nat, s: Call, k: nat)
    requires CallInv(ios, size, s) && k < |ios| && s.slots[k] == One(SoloInFlight)
    ensures CallInv(ios, size, Put(s, k, One(SoloPosted)))
  {
    var s' := Put(s, k, One(SoloPosted));
    hide Inv, LiveCount;
    assert SlotOk(ios, s, k);
    Replaced(ios, size, s, s', k);
  }

  lemma CompletionInv(ios: seq<Iocb>, size: nat, s: Call, s': Call, k: nat)
    requires CallInv(ios, size, s) && Completion(ios, s, s', k)
    ensures CallInv(ios, size, s')
  {
    assert SlotOk(ios, s, k);
    hide LiveCount, RetOk, Inv;
    match s.slots[k]
    case One(solo) =>
      SoloCompletes(ios, size, s, k);
    case Many(t) =>
      var j: nat, t' :| CompletesAt(ios[k].q, t, t', j) && s' == Put(s, k, Many(t'));
      assert Next(ios[k].q, t, t');
      assert t'.pc == t.pc;
      TaskStep(ios, size, s, k, t');
  }

  lemma MemoryInv(ios: seq<Iocb>, size: nat, s: Call, s': Call)
    requires CallInv(ios, size, s) && NoMemory(ios, s, s')
    ensures CallInv(ios, size, s')
  {
    hide Inv, LiveCount, RetOk, SlotOk;
    Unmoved(ios, size, s, s');
  }

  lemma CallStepInv(ios: seq<Iocb>, size: nat, s: Call, s': Call)
    requires CallInv(ios, size, s) && CallNext(ios, size, s, s')
    ensures CallInv(ios, size, s')
  {
    if s.ret.None? && s' == Advance(ios, size, s) {
      AdvanceInv(ios, size, s);
    } else if Interference(size, s, s') {
      hide LiveCount;
      forall k: nat | k < |ios| ensures SlotOk(ios, s', k) {
        assert SlotOk(ios, s, k);
      }
    } else if NoMemory(ios, s, s') {
      MemoryInv(ios, size, s, s');
    } else {
      var k: nat :| Completion(ios, s, s', k);
      CompletionInv(ios, size, s, s', k);
    }
  }

  // ----- whole runs -----

  ghost predicate IsCallRun(ios: seq<Iocb>, size: nat, run: seq<Call>) {
    && run != [] && 0 <= run[0].iocount <= size && run[0] == Begin(|ios|, run[0].iocount)
    && (forall k :: 0 <= k < |ios| ==> ios[k].Valid())
    && forall j :: 0 <= j < |run| - 1 ==> Shape(ios, run[j]) && CallNext(ios, size, run[j], run[j + 1])
  }

  lemma {:induction false} CallRunInv(ios: seq<Iocb>, size: nat, run: seq<Call>, j: nat)
    requires IsCallRun(ios, size, run) && j < |run|
    ensures CallInv(ios, size, run[j])
  {
    if j == 0 {
      BeginInv(ios, size, run[0].iocount);
    } else {
      CallRunInv(ios, size, run, j - 1);
      CallStepInv(ios, size, run[j - 1], run[j]);
    }
  }

  /** In every interleaving the counter is the number of live requests, of this call and of the
      others, and never exceeds the size of the context; no iocb is reported twice. */
  lemma CounterExact(ios: seq<Iocb>, size: nat, run: seq<Call>, j: nat)
    requires IsCallRun(ios, size, run) && j < |run|
    ensures var s := run[j];
      && s.iocount == s.others + LiveCount(s.slots) <= size
      && forall k :: 0 <= k < |s.slots| ==> s.slots[k].Posted() <= 1
  {
    CallRunInv(ios, size, run, j);
    forall k: nat | k < |ios| ensures run[j].slots[k].Posted() <= 1 {
      assert SlotOk(ios, run[j], k);
    }
  }

  /** The call has returned and nothing it started is still live. */
  ghost predicate AllQuiet(s: Call) {
    s.ret.Some? && forall k :: 0 <= k < |s.slots| ==> s.slots[k].Live() == 0
  }

  /** A call that returned k > 0 has started exactly the first k iocbs: each of them has been
      reported exactly once, and none of the later ones; after an error nothing is reported. */
  lemma SubmittedExactly(ios: seq<Iocb>, size: nat, run: seq<Call>)
    requires IsCallRun(ios, size, run) && AllQuiet(run[|run| - 1])
    ensures var s := run[|run| - 1]; var r := s.ret.value;
      && r <= |ios| == |s.slots|
      && forall k :: 0 <= k < |ios| ==> s.slots[k].Posted() == if k < r then 1 else 0
  {
    var s := run[|run| - 1];
    CallRunInv(ios, size, run, |run| - 1);
    forall k: nat | k < |ios| ensures s.slots[k].Posted() == if k < s.ret.value then 1 else 0 {
      assert SlotOk(ios, s, k);
    }
  }

  // ----- where a call stops -----

  /** The environment's answers make this iocb fail: it is invalid, or its buffer or the segment at
      which it stops is refused. */
  predicate MustFail(io: Iocb)
    requires io.Valid()
  {
    match io
    case Invalid => true
    case Single(len, answer) => len > 0 && answer.Fail?
    case Vector(q) => q.Stop(0) < q.Size() && q.Reply(q.Stop(0)).Fail?
  }

  /** How many iocbs a call that returned r has started. */
  function Counted(r: int): nat { if r > 0 then r else 0 }

  /** What a call has passed does not fail, and it has stopped at the end, at an iocb that does, or
      where it was refused a place or memory. */
  ghost predicate StopOk(ios: seq<Iocb>, s: Call, refused: bool)
    requires Shape(ios, s)
  {
    && (forall k :: 0 <= k < s.cur ==> !MustFail(ios[k]))
    && (s.ret.Some? ==>
          || (Counted(s.ret.value) == s.cur && (s.cur == |ios| || MustFail(ios[s.cur]) || refused))
          || (Counted(s.ret.value) == s.cur + 1 <= |ios| && ios[s.cur].Vector? && MustFail(ios[s.cur])))
  }

  /** In this step the call gives up because the context is full. */
  ghost predicate NoPlace(ios: seq<Iocb>, size: nat, s: Call, s': Call)
    requires Shape(ios, s)
  {
    && s.ret.None? && s.memory && s.loaded.None? && s.cur < |ios| && s.slots[s.cur].Fresh? && !ios[s.cur].Invalid?
    && s.iocount >= size && s' == s.(ret := Some(Early(s.cur, -EAGAIN)))
  }

  /** It gives up because the context is full or there is no memory. */
  ghost predicate Refuses(ios: seq<Iocb>, size: nat, s: Call, s': Call)
    requires Shape(ios, s)
  {
    NoPlace(ios, size, s, s') || NoMemory(ios, s, s')
  }

  lemma StopAdvance(ios: seq<Iocb>, size: nat, s: Call, refused: bool)
    requires CallInv(ios, size, s) && s.ret.None? && StopOk(ios, s, refused)
    requires Shape(ios, Advance(ios, size, s))
    ensures StopOk(ios, Advance(ios, size, s), refused || NoPlace(ios, size, s, Advance(ios, size, s)))
  {
    if s.cur < |ios| { assert SlotOk(ios, s, s.cur); }
    hide LiveCount, SlotOk, SegmentOk, Counts, RetOk;
  }

  lemma StopStep(ios: seq<Iocb>, size: nat, s: Call, s': Call, refused: bool)
    requires CallInv(ios, size, s) && CallNext(ios, size, s, s') && StopOk(ios, s, refused)
    ensures Shape(ios, s') && StopOk(ios, s', refused || Refuses(ios, size, s, s'))
  {
    CallStepInv(ios, size, s, s');
    hide Inv, LiveCount, SlotOk, RetOk;
    if s.ret.None? && s' == Advance(ios, size, s) {
      hide Advance;
      StopAdvance(ios, size, s, refused);
      StopMore(ios, s', refused || NoPlace(ios, size, s, s'), refused || Refuses(ios, size, s, s'));
    } else {
      hide Advance;
      assert s'.cur == s.cur && (s'.ret == s.ret || NoMemory(ios, s, s'));
    }
  }

  lemma StopMore(ios: seq<Iocb>, s: Call, refused: bool, more: bool)
    requires Shape(ios, s) && StopOk(ios, s, refused) && (refused ==> more)
    ensures StopOk(ios, s, more)
  {
  }

  /** Some step of the run before state j refused a place or memory. */
  ghost predicate RefusedBefore(ios: seq<Iocb>, size: nat, run: seq<Call>, j: nat)
    requires j < |run| && forall i :: 0 <= i < |run| - 1 ==> Shape(ios, run[i])
  {
    exists i :: 0 <= i < j && Refuses(ios, size, run[i], run[i + 1])
  }

  lemma {:induction false} StopRun(ios: seq<Iocb>, size: nat, run: seq<Call>, j: nat)
    requires IsCallRun(ios, size, run) && j < |run|
    ensures Shape(ios, run[j]) && StopOk(ios, run[j], RefusedBefore(ios, size, run, j))
  {
    if j == 0 {
      hide Inv, LiveCount, MustFail;
      assert run[0].cur == 0;
    } else {
      StopRun(ios, size, run, j - 1);
      CallRunInv(ios, size, run, j - 1);
      var s, s', refused := run[j - 1], run[j], RefusedBefore(ios, size, run, j - 1);
      assert refused || Refuses(ios, size, run[j - 1], run[j - 1 + 1]) ==> RefusedBefore(ios, size, run, j);
      hide CallInv, CallNext, StopOk, RefusedBefore, Refuses;
      StopStep(ios, size, s, s', refused);
      StopMore(ios, s', refused || Refuses(ios, size, s, s'), RefusedBefore(ios, size, run, j));
    }
  }

  /** A call stops at the first iocb that must fail, counting it only if it is a vector that was
      interrupted, or else at the end, unless it was refused a place in the context or memory. */
  lemma StopsAtFirstFailure(ios: seq<Iocb>, size: nat, run: seq<Call>)
    requires IsCallRun(ios, size, run) && run[|run| - 1].ret.Some?
    ensures var n := Counted(run[|run| - 1].ret.value);
      && n <= |ios|
      && (forall k :: 0 <= k < n - 1 ==> !MustFail(ios[k]))
      && (n > 0 && MustFail(ios[n - 1]) ==> ios[n - 1].Vector?)
      && (n == |ios| || MustFail(ios[n]) || (n > 0 && MustFail(ios[n - 1])) || RefusedBefore(ios, size, run, |run| - 1))
  {
    StopRun(ios, size, run, |run| - 1);
  }
}
