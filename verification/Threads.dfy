/** The thread records of src/pthread.c: creator, started thread, joiners and detachers share one
    record per thread, and who frees it depends on the interleaving.

    Every section under wpdk_threads_lock is one step, and so is every access outside the lock.
    Threads are numbered in order of creation; the id and the handle that the operating system
    gives to thread r are r + 1, so both are nonzero and never reused. */
module Threads {
  import opened Options

  const MAXTHREADS: nat := 8192

  /** The creator: record allocated, start routine stored, _beginthreadex done, record published,
      thread resumed, finished; or given up. */
  datatype Creator = Allocated | Filled | Begun(ok: bool) | Published(ok: bool) | Resumed | Created | GaveUp

  /** The thread: its copy of the record's index is all it keeps once it runs. */
  datatype Body =
    | NoThread | Suspended | Ready | Starting(index: int) | Running(index: int) | Stored(v: int) | Terminated(v: int)

  /** A struct thread, with the state of its creator and of its thread, how often the record was
      freed and the handle closed, and which call took it out of the table. */
  datatype Record = Record(
    id: nat, h: nat, start: bool, index: int, result: int,
    detached: bool, creator: Creator, body: Body, freed: nat, closed: nat, taker: Option<Take>)

  /** The call, and whether the start routine was still set when it took the record. */
  datatype Take = Take(call: nat, start: bool)

  /** A call of pthread_join or pthread_detach. */
  datatype Call = Call(id: nat, join: bool, pc: CallPc)

  datatype CallPc =
    | Called
    | Waiting(slot: nat)
    | Waited(slot: nat, ok: bool)
    | Taken(r: nat, h: nat, start: bool, value: int, ok: bool)
    | HandleClosed(r: nat, start: bool, value: int, ok: bool)
    | Finished(ok: bool, value: int)

  /** Everything; bad is set by an access to freed memory or outside the table, a second free or a
      second close. */
  datatype State = State(slots: seq<Option<nat>>, hwm: nat, recs: seq<Record>, calls: seq<Call>, bad: bool)

  predicate Initial(s: State) {
    && |s.slots| == MAXTHREADS && (forall i :: 0 <= i < |s.slots| ==> s.slots[i] == None) && s.hwm == 0
    && s.recs == [] && s.calls == [] && !s.bad
  }

  // ----- the scans of the table -----

  /** A slot holds the record of the given thread. */
  predicate Holds(s: State, i: int, id: nat) {
    0 <= i < |s.slots| && s.slots[i].Some? && s.slots[i].value < |s.recs| && s.recs[s.slots[i].value].id == id
  }

  /** The first slot below hwm that holds the thread, or hwm. */
  function Lookup(s: State, id: nat, from: nat): (i: nat)
    requires from <= s.hwm <= |s.slots|
    ensures from <= i <= s.hwm && (i < s.hwm ==> Holds(s, i, id))
    ensures forall k :: from <= k < i ==> !Holds(s, k, id)
    decreases s.hwm - from
  {
    if from == s.hwm || Holds(s, from, id) then from else Lookup(s, id, from + 1)
  }

  /** The loop in wpdk_allocate_thread. */
  method ScanFree(slots: seq<Option<nat>>) returns (i: nat)
    ensures i == FirstFree(slots, 0)
  {
    i := 0;
    while i < |slots|
      invariant i <= |slots| && FirstFree(slots, 0) == FirstFree(slots, i)
    {
      if slots[i] == None {
        return;
      }
      i := i + 1;
    }
  }

  /** The loop in wpdk_get_thread_info, wpdk_thread_done and wpdk_detach_thread. */
  method ScanId(s: State, id: nat) returns (i: nat)
    requires s.hwm <= |s.slots|
    ensures i == Lookup(s, id, 0)
  {
    i := 0;
    while i < s.hwm
      invariant i <= s.hwm && Lookup(s, id, 0) == Lookup(s, id, i)
    {
      if Holds(s, i, id) {
        return;
      }
      i := i + 1;
    }
  }

  /** A scan reads the id of every record in the table. */
  ghost predicate TableFreed(s: State) {
    exists i ::
      0 <= i < |s.slots| && s.slots[i].Some? && s.slots[i].value < |s.recs| && s.recs[s.slots[i].value].freed > 0
  }

  // ----- memory and handles -----

  function SetRec(s: State, r: nat, x: Record): State
    requires r < |s.recs|
  {
    s.(recs := s.recs[r := x])
  }

  function SetCall(s: State, c: nat, pc: CallPc): State
    requires c < |s.calls|
  {
    s.(calls := s.calls[c := s.calls[c].(pc := pc)])
  }

  /** An access to the record. */
  function Touch(s: State, r: nat): State
    requires r < |s.recs|
  {
    s.(bad := s.bad || s.recs[r].freed > 0)
  }

  function Free(s: State, r: nat): State
    requires r < |s.recs|
  {
    SetRec(Touch(s, r), r, s.recs[r].(freed := s.recs[r].freed + 1))
  }

  function CloseHandle(s: State, r: nat): State
    requires r < |s.recs|
  {
    SetRec(s, r, s.recs[r].(closed := s.recs[r].closed + 1)).(bad := s.bad || s.recs[r].closed > 0)
  }

  ghost function Scan(s: State): State { s.(bad := s.bad || TableFreed(s)) }

  // ----- the steps -----

  /** wpdk_allocate_thread */
  function AllocateStep(s: State, detached: bool): State {
    var r, i := |s.recs|, FirstFree(s.slots, 0);
    var x := Record(0, 0, false, i, 0, detached, Allocated, NoThread, 0, 0, None);
    if i < |s.slots| then
      s.(recs := s.recs + [x], slots := s.slots[i := Some(r)], hwm := if i >= s.hwm then i + 1 else s.hwm)
    else
      s.(recs := s.recs + [x.(index := -1, creator := GaveUp, freed := 1)])
  }

  /** wpdk_pthread_create, after the allocation; ok is the answer of _beginthreadex. */
  function CreatorStep(s: State, r: nat, ok: bool): State
    requires r < |s.recs| && s.recs[r].creator != Created && s.recs[r].creator != GaveUp
  {
    var x := s.recs[r];
    match x.creator
    case Allocated => SetRec(Touch(s, r), r, x.(start := true, creator := Filled))
    case Filled => SetRec(s, r, x.(creator := Begun(ok), body := if ok then Suspended else NoThread))
    case Begun(began) =>
      var h := if x.detached || !began then 0 else r + 1;
      var y := x.(id := if began then r + 1 else 0, h := h, creator := Published(began));
      if h != 0 then SetRec(Touch(s, r), r, y)
      else if 0 <= x.index < |s.slots| then
        SetRec(Touch(s, r), r, y.(index := -1)).(slots := s.slots[x.index := None])
      else SetRec(s, r, y.(index := -1)).(bad := true)
    case Published(began) =>
      if !began then
        var f := Free(s, r); SetRec(f, r, f.recs[r].(creator := GaveUp))
      else
        SetRec(s, r, x.(creator := Resumed, body := if x.closed == 0 then Ready else x.body))
    case Resumed =>
      if x.detached then
        var f := CloseHandle(s, r); SetRec(f, r, f.recs[r].(creator := Created))
      else SetRec(s, r, x.(creator := Created))
  }

  /** wpdk_thread_starting, outside and inside the lock, and the end of the thread. */
  function BodyStep(s: State, r: nat): State
    requires r < |s.recs| && (s.recs[r].body.Ready? || s.recs[r].body.Starting? || s.recs[r].body.Stored?)
  {
    var x := s.recs[r];
    match x.body
    case Ready => SetRec(Touch(s, r), r, x.(start := false, body := Starting(x.index)))
    case Starting(index) =>
      if index == -1 then
        var f := Free(s, r); SetRec(f, r, f.recs[r].(body := Running(index)))
      else SetRec(s, r, x.(body := Running(index)))
    case Stored(v) => SetRec(s, r, x.(body := Terminated(v)))
  }

  /** wpdk_thread_done: the start routine returned v (byIndex), or pthread_exit was called. */
  ghost function DoneStep(s: State, r: nat, v: int, byIndex: bool): State
    requires r < |s.recs| && s.recs[r].body.Running? && s.hwm <= |s.slots|
  {
    var x := s.recs[r];
    var i: int := if byIndex && x.body.index != -1 then x.body.index else Lookup(s, r + 1, 0);
    var s1 := SetRec(Scan(s), r, x.(body := Stored(v)));
    if Holds(s, i, r + 1) then
      var r2 := s.slots[i].value; SetRec(s1, r2, s1.recs[r2].(result := v))
    else s1
  }

  /** A new call; pthread_join refuses the id 0. */
  function CallStep(s: State, id: nat, join: bool): State {
    s.(calls := s.calls + [Call(id, join, Called)])
  }

  /** wpdk_get_thread_info, and then the wait: it ends when the thread has, and it may fail once the
      handle has been closed. */
  ghost function JoinStep(s: State, c: nat, failed: bool): State
    requires c < |s.calls| && s.calls[c].join && s.hwm <= |s.slots|
    requires s.calls[c].pc.Called? || (s.calls[c].pc.Waiting? && 0 < s.calls[c].id <= |s.recs|)
  {
    var id := s.calls[c].id;
    match s.calls[c].pc
    case Called =>
      var i := Lookup(s, id, 0);
      SetCall(Scan(s), c, if i < s.hwm then Waiting(i) else Finished(false, 0))
    case Waiting(i) =>
      var x := s.recs[id - 1];
      if failed && x.closed > 0 then SetCall(s, c, Waited(i, false))
      else if x.body.Terminated? then SetCall(s, c, Waited(i, true))
      else s
  }

  /** wpdk_detach_thread under the lock, from pthread_detach or from pthread_join after its wait. */
  ghost function TakeStep(s: State, c: nat): State
    requires c < |s.calls| && s.hwm <= |s.slots|
    requires if s.calls[c].join then s.calls[c].pc.Waited? else s.calls[c].pc.Called?
  {
    var id, pc := s.calls[c].id, s.calls[c].pc;
    var i := if pc.Waited? then pc.slot else Lookup(s, id, 0);
    if Holds(s, i, id) then
      var r := s.slots[i].value;
      var x := s.recs[r];
      var s1 := SetRec(Touch(Scan(s), r), r, x.(index := -1, taker := Some(Take(c, x.start))));
      SetCall(s1.(slots := s.slots[i := None]), c, Taken(r, x.h, x.start, x.result, pc.Called? || pc.ok))
    else SetCall(Scan(s), c, Finished(false, 0))
  }

  /** wpdk_detach_thread after the lock: close the handle, and free the record unless the thread
      will. */
  function ReleaseStep(s: State, c: nat): State
    requires c < |s.calls|
    requires match s.calls[c].pc
      case Taken(r, _, _, _, _) => r < |s.recs|
      case HandleClosed(r, _, _, _) => r < |s.recs|
      case _ => false
  {
    match s.calls[c].pc
    case Taken(r, h, start, value, ok) =>
      SetCall(if h != 0 then CloseHandle(s, r) else s, c, HandleClosed(r, start, value, ok))
    case HandleClosed(r, start, value, ok) =>
      SetCall(if start then s else Free(s, r), c, Finished(ok, value))
  }

  // ----- the invariant -----

  predicate NotStarted(b: Body) { b.Suspended? || b.Ready? }

  /** The thread has not yet passed the point where it may free its record. */
  predicate BeforeFree(b: Body) { b.Suspended? || b.Ready? || b.Starting? }

  /** The copied index, where there is one, satisfies what is said of it. */
  predicate CopyIs(b: Body, index: int) { b.Starting? || b.Running? ==> b.index == index }

  /** A record while it is being created, or after that failed. */
  ghost predicate CreatingOk(x: Record) {
    && x.taker == None && x.closed == 0 && x.id == 0 && x.h == 0
    && match x.creator
       case Allocated => x.index >= 0 && x.body == NoThread && !x.start
       case Filled => x.index >= 0 && x.body == NoThread && x.start
       case Begun(ok) => x.index >= 0 && x.start && x.body == if ok then Suspended else NoThread
       case Published(ok) => !ok && x.index == -1 && x.body == NoThread && x.freed == 0
       case GaveUp => x.index == -1 && x.body == NoThread && x.freed == 1
       case _ => false
  }

  /** A thread that was created detached: it frees its record, and the creator closes the handle. */
  ghost predicate DetachedOk(x: Record) {
    && x.h == 0 && x.index == -1 && x.taker == None && CopyIs(x.body, -1)
    && x.closed == (if x.creator == Created then 1 else 0)
    && x.freed == (if BeforeFree(x.body) then 0 else 1)
  }

  /** A joinable thread that nobody has joined or detached is in the table. */
  ghost predicate JoinableOk(x: Record) {
    && x.index >= 0 && x.closed == 0 && CopyIs(x.body, x.index)
    && (x.body.Stored? || x.body.Terminated? ==> x.result == x.body.v)
  }

  /** One that has been taken out: the taker closes the handle, and the taker or the thread frees
      the record, according to whether the start routine was still set. */
  ghost predicate TakenOk(s: State, r: nat, x: Record, take: Take) {
    && take.call < |s.calls| && s.calls[take.call].id == r + 1 && x.index == -1
    && var pc := s.calls[take.call].pc;
    && (match pc
        case Taken(r2, h, start, value, ok) => r2 == r && h == r + 1 && start == take.start && x.closed == 0
        case HandleClosed(r2, start, value, ok) => r2 == r && start == take.start && x.closed == 1
        case Finished(ok, value) => x.closed == 1
        case _ => false)
    && (if take.start then
          CopyIs(x.body, -1) && x.freed == if BeforeFree(x.body) then 0 else 1
        else
          && !NotStarted(x.body) && (x.body.Starting? || x.body.Running? ==> x.body.index >= 0)
          && x.freed == if pc.Finished? then 1 else 0)
  }

  ghost predicate RecordOk(s: State, r: nat)
    requires r < |s.recs|
  {
    var x := s.recs[r];
    && x.freed <= 1 && x.index >= -1
    && (x.index >= 0 ==> x.index < |s.slots| && s.slots[x.index] == Some(r) && x.index < s.hwm && x.freed == 0)
    && if x.creator == Resumed || x.creator == Created || x.creator == Published(true) then
         && x.id == r + 1 && x.body != NoThread && x.start == NotStarted(x.body)
         && (x.creator == Published(true) ==> x.body == Suspended)
         && (x.creator != Published(true) && x.body == Suspended ==> x.closed == 1 && !x.detached)
         && if x.detached then DetachedOk(x)
            else
              && x.h == r + 1
              && match x.taker
                 case None => JoinableOk(x)
                 case Some(take) => TakenOk(s, r, x, take)
       else CreatingOk(x)
  }

  /** The thread that a call is about. */
  ghost predicate Known(s: State, id: nat) {
    0 < id <= |s.recs| && s.recs[id - 1].id == id
  }

  ghost predicate TookIt(s: State, c: nat, r: nat)
    requires c < |s.calls|
  {
    && r < |s.recs| && s.calls[c].id == r + 1
    && s.recs[r].taker.Some? && s.recs[r].taker.value.call == c
  }

  /** The value a join delivers is the one its thread ended with. */
  ghost predicate Delivers(s: State, c: nat, r: nat, ok: bool, value: int)
    requires c < |s.calls|
  {
    s.calls[c].join && ok ==> r < |s.recs| && s.recs[r].body == Terminated(value)
  }

  ghost predicate CallOk(s: State, c: nat)
    requires c < |s.calls|
  {
    var call := s.calls[c];
    match call.pc
    case Called => true
    case Waiting(_) => call.join && Known(s, call.id)
    case Waited(_, ok) => call.join && Known(s, call.id) && (ok ==> s.recs[call.id - 1].body.Terminated?)
    case Taken(r, _, start, value, ok) =>
      TookIt(s, c, r) && s.recs[r].taker.value.start == start && Delivers(s, c, r, ok, value)
    case HandleClosed(r, start, value, ok) =>
      TookIt(s, c, r) && s.recs[r].taker.value.start == start && Delivers(s, c, r, ok, value)
    case Finished(ok, value) =>
      ok ==> call.id > 0 && TookIt(s, c, call.id - 1) && Delivers(s, c, call.id - 1, ok, value)
  }

  ghost predicate TableOk(s: State) {
    && s.hwm <= |s.slots|
    && (forall i :: s.hwm <= i < |s.slots| ==> s.slots[i] == None)
    && (forall i :: 0 <= i < |s.slots| && s.slots[i].Some? ==>
        s.slots[i].value < |s.recs| && s.recs[s.slots[i].value].index == i)
  }

  ghost predicate Inv(s: State) {
    && !s.bad && TableOk(s)
    && (forall r: nat :: r < |s.recs| ==> RecordOk(s, r))
    && (forall c: nat :: c < |s.calls| ==> CallOk(s, c))
    && (forall c: nat :: c < |s.calls| ==> s.calls[c].id > 0)
  }

  lemma ScanClean(s: State)
    requires Inv(s)
    ensures !TableFreed(s)
  {
    forall i | 0 <= i < |s.slots| && s.slots[i].Some? ensures s.recs[s.slots[i].value].freed == 0 {
      assert RecordOk(s, s.slots[i].value);
    }
  }

  lemma AllocateInv(s: State, detached: bool)
    requires Inv(s)
    ensures Inv(AllocateStep(s, detached))
  {
    var s' := AllocateStep(s, detached);
    forall r: nat | r < |s'.recs| ensures RecordOk(s', r) {
      AllocateRecord(s, detached, r);
    }
    hide RecordOk;
    forall c: nat | c < |s'.calls| ensures CallOk(s', c) {
      assert CallOk(s, c);
    }
  }

  lemma AllocateRecord(s: State, detached: bool, r: nat)
    requires Inv(s) && r < |AllocateStep(s, detached).recs|
    ensures RecordOk(AllocateStep(s, detached), r)
  {
    hide CallOk;
    if r < |s.recs| { assert RecordOk(s, r); }
  }

  /** A step that changes one record in place, and nothing another party relies on. */
  lemma RecordChanged(s: State, r: nat, y: Record)
    requires Inv(s) && r < |s.recs|
    requires var x := s.recs[r];
      && y.index == x.index && y.taker == x.taker && (y.id == x.id || x.id == 0)
      && (x.body.Terminated? ==> y.body == x.body)
    requires RecordOk(SetRec(s, r, y), r)
    ensures Inv(SetRec(s, r, y))
  {
    var s' := SetRec(s, r, y);
    forall j: nat | j < |s'.recs| ensures RecordOk(s', j) {
      assert RecordOk(s, j);
    }
    forall c: nat | c < |s'.calls| ensures CallOk(s', c) {
      assert CallOk(s, c);
    }
  }

  /** A step that takes a record out of the table. */
  lemma RecordRemoved(s: State, r: nat, y: Record)
    requires Inv(s) && r < |s.recs| && 0 <= s.recs[r].index < |s.slots|
    requires var x := s.recs[r];
      && y.index == -1 && y.taker == x.taker && (y.id == x.id || x.id == 0)
      && (x.body.Terminated? ==> y.body == x.body)
    requires var s' := SetRec(s, r, y).(slots := s.slots[s.recs[r].index := None]); RecordOk(s', r)
    ensures Inv(SetRec(s, r, y).(slots := s.slots[s.recs[r].index := None]))
  {
    var s' := SetRec(s, r, y).(slots := s.slots[s.recs[r].index := None]);
    assert RecordOk(s, r);
    forall j: nat | j < |s'.recs| ensures RecordOk(s', j) {
      assert RecordOk(s, j);
    }
    forall c: nat | c < |s'.calls| ensures CallOk(s', c) {
      assert CallOk(s, c);
    }
  }

  lemma CreatorInv(s: State, r: nat, ok: bool)
    requires Inv(s) && r < |s.recs| && s.recs[r].creator != Created && s.recs[r].creator != GaveUp
    ensures Inv(CreatorStep(s, r, ok))
  {
    var s', x := CreatorStep(s, r, ok), s.recs[r];
    assert RecordOk(s, r);
    hide TableOk, CallOk;
    if x.creator.Begun? && (x.detached || !x.creator.ok) {
      RecordRemoved(s, r, s'.recs[r]);
    } else {
      assert s' == SetRec(s, r, s'.recs[r]);
      RecordChanged(s, r, s'.recs[r]);
    }
  }

  lemma BodyInv(s: State, r: nat)
    requires Inv(s) && r < |s.recs| && (s.recs[r].body.Ready? || s.recs[r].body.Starting? || s.recs[r].body.Stored?)
    ensures Inv(BodyStep(s, r))
  {
    var s' := BodyStep(s, r);
    assert RecordOk(s, r);
    hide TableOk, CallOk;
    assert s' == SetRec(s, r, s'.recs[r]);
    RecordChanged(s, r, s'.recs[r]);
  }

  /** A lookup finds a record that is in the table. */
  lemma LookupFinds(s: State, r: nat)
    requires Inv(s) && r < |s.recs| && s.recs[r].index >= 0 && s.recs[r].id == r + 1
    ensures Lookup(s, r + 1, 0) == s.recs[r].index && Holds(s, s.recs[r].index, r + 1)
  {
    assert RecordOk(s, r);
    assert Holds(s, s.recs[r].index, r + 1);
    HolderIs(s, Lookup(s, r + 1, 0), r + 1);
  }

  /** A slot that holds a thread holds its record, and no other record has that id. */
  lemma HolderIs(s: State, i: int, id: nat)
    requires Inv(s) && id > 0
    ensures Holds(s, i, id) ==>
      && s.slots[i] == Some(id - 1) && id <= |s.recs| && s.recs[id - 1].index == i
      && s.recs[id - 1].id == id && !s.recs[id - 1].detached && s.recs[id - 1].taker == None
  {
    if Holds(s, i, id) {
      assert RecordOk(s, s.slots[i].value);
    }
  }

  lemma DoneInv(s: State, r: nat, v: int, byIndex: bool)
    requires Inv(s) && r < |s.recs| && s.recs[r].body.Running?
    ensures Inv(DoneStep(s, r, v, byIndex))
  {
    var s', x := DoneStep(s, r, v, byIndex), s.recs[r];
    assert RecordOk(s, r);
    ScanClean(s);
    var i: int := if byIndex && x.body.index != -1 then x.body.index else Lookup(s, r + 1, 0);
    HolderIs(s, i, r + 1);
    if x.index >= 0 { LookupFinds(s, r); }
    hide TableOk, CallOk;
    assert s' == SetRec(s, r, s'.recs[r]);
    RecordChanged(s, r, s'.recs[r]);
  }

  /** A step in which a call only moves itself on. */
  lemma CallMoved(s: State, c: nat, pc: CallPc)
    requires Inv(s) && c < |s.calls|
    requires s.calls[c].pc.Called? || s.calls[c].pc.Waiting? || s.calls[c].pc.Waited?
    requires CallOk(SetCall(s, c, pc), c)
    ensures Inv(SetCall(s, c, pc))
  {
    var s' := SetCall(s, c, pc);
    forall r: nat | r < |s'.recs| ensures RecordOk(s', r) {
      assert RecordOk(s, r);
    }
    forall d: nat | d < |s'.calls| ensures CallOk(s', d) {
      assert CallOk(s, d);
    }
  }

  lemma CallStepInv(s: State, id: nat, join: bool)
    requires Inv(s) && id > 0
    ensures Inv(CallStep(s, id, join))
  {
    var s' := CallStep(s, id, join);
    forall r: nat | r < |s'.recs| ensures RecordOk(s', r) {
      assert RecordOk(s, r);
    }
    forall d: nat | d < |s'.calls| ensures CallOk(s', d) {
      if d < |s.calls| { assert CallOk(s, d); }
    }
  }

  lemma JoinInv(s: State, c: nat, failed: bool)
    requires Inv(s) && c < |s.calls| && s.calls[c].join && (s.calls[c].pc.Called? || s.calls[c].pc.Waiting?)
    ensures s.calls[c].pc.Waiting? ==> 0 < s.calls[c].id <= |s.recs|
    ensures Inv(JoinStep(s, c, failed))
  {
    assert CallOk(s, c);
    ScanClean(s);
    var i := Lookup(s, s.calls[c].id, 0);
    HolderIs(s, i, s.calls[c].id);
    var s' := JoinStep(s, c, failed);
    if s' != s {
      CallMoved(s, c, s'.calls[c].pc);
    }
  }

  /** What a taker leaves behind. */
  lemma TakeFound(s: State, c: nat, i: int)
    requires Inv(s) && c < |s.calls| && Holds(s, i, s.calls[c].id)
    requires if s.calls[c].join then s.calls[c].pc.Waited? && s.calls[c].pc.slot == i else s.calls[c].pc.Called?
    ensures var r := s.calls[c].id - 1; 0 <= r < |s.recs| && s.slots[i] == Some(r)
    ensures var r := s.calls[c].id - 1; var x := s.recs[r];
      && var s1 := SetRec(s, r, x.(index := -1, taker := Some(Take(c, x.start)))).(slots := s.slots[i := None]);
      Inv(SetCall(s1, c, Taken(r, x.h, x.start, x.result, s.calls[c].pc.Called? || s.calls[c].pc.ok)))
  {
    HolderIs(s, i, s.calls[c].id);
    var r := s.calls[c].id - 1;
    var x := s.recs[r];
    var s1 := SetRec(s, r, x.(index := -1, taker := Some(Take(c, x.start)))).(slots := s.slots[i := None]);
    var s' := SetCall(s1, c, Taken(r, x.h, x.start, x.result, s.calls[c].pc.Called? || s.calls[c].pc.ok));
    assert CallOk(s, c);
    assert RecordOk(s, r);
    assert RecordOk(s', r) && CallOk(s', c);
    TakenFrame(s, s', c, r);
  }

  /** Nothing that other records and calls rely on changes when a record is taken out. */
  lemma TakenFrame(s: State, s': State, c: nat, r: nat)
    requires Inv(s) && c < |s.calls| && r < |s.recs| && s.recs[r].taker == None && 0 <= s.recs[r].index < |s.slots|
    requires s.calls[c].pc.Called? || s.calls[c].pc.Waited?
    requires s'.hwm == s.hwm && s'.slots == s.slots[s.recs[r].index := None] && !s'.bad
    requires |s'.recs| == |s.recs| && s' == s.(slots := s'.slots, recs := s.recs[r := s'.recs[r]], calls := s'.calls)
    requires |s'.calls| == |s.calls| && s'.calls == s.calls[c := s'.calls[c]] && s'.calls[c].id == s.calls[c].id
    requires s'.recs[r].index == -1 && s'.recs[r].id == s.recs[r].id && s'.recs[r].body == s.recs[r].body
    requires RecordOk(s', r) && CallOk(s', c)
    ensures Inv(s')
  {
    assert RecordOk(s, r);
    forall j: nat | j < |s'.recs| ensures RecordOk(s', j) {
      assert RecordOk(s, j);
    }
    forall d: nat | d < |s'.calls| ensures CallOk(s', d) {
      assert CallOk(s, d);
    }
  }

  lemma TakeInv(s: State, c: nat)
    requires Inv(s) && c < |s.calls|
    requires if s.calls[c].join then s.calls[c].pc.Waited? else s.calls[c].pc.Called?
    ensures Inv(TakeStep(s, c))
  {
    var id, pc := s.calls[c].id, s.calls[c].pc;
    var i := if pc.Waited? then pc.slot else Lookup(s, id, 0);
    ScanClean(s);
    if Holds(s, i, id) {
      TakeFound(s, c, i);
      assert RecordOk(s, id - 1);
    } else {
      CallMoved(s, c, Finished(false, 0));
    }
  }

  /** A taker moves on, and may free the record or close the handle. */
  lemma TakerMoved(s: State, c: nat, r: nat, y: Record, pc: CallPc)
    requires Inv(s) && c < |s.calls| && TookIt(s, c, r) && !s.calls[c].pc.Called?
    requires var x := s.recs[r]; y.index == x.index && y.taker == x.taker && y.body == x.body && y.id == x.id
    requires var s' := SetCall(SetRec(s, r, y), c, pc); RecordOk(s', r) && CallOk(s', c)
    ensures Inv(SetCall(SetRec(s, r, y), c, pc))
  {
    var s' := SetCall(SetRec(s, r, y), c, pc);
    forall j: nat | j < |s'.recs| ensures RecordOk(s', j) {
      assert RecordOk(s, j);
    }
    forall d: nat | d < |s'.calls| ensures CallOk(s', d) {
      assert CallOk(s, d);
    }
  }

  lemma ReleaseInv(s: State, c: nat)
    requires Inv(s) && c < |s.calls| && (s.calls[c].pc.Taken? || s.calls[c].pc.HandleClosed?)
    ensures s.calls[c].pc.r < |s.recs| && Inv(ReleaseStep(s, c))
  {
    assert CallOk(s, c);
    var r, s' := s.calls[c].pc.r, ReleaseStep(s, c);
    assert RecordOk(s, r);
    hide TableOk;
    assert s' == SetCall(SetRec(s, r, s'.recs[r]), c, s'.calls[c].pc);
    TakerMoved(s, c, r, s'.recs[r], s'.calls[c].pc);
  }

  // ----- runs -----

  datatype Action =
    | Allocate(detached: bool) | Create(r: nat, ok: bool) | Thread(r: nat) | Done(r: nat, v: int, byIndex: bool)
    | NewCall(id: nat, join: bool) | JoinWait(c: nat, failed: bool) | TakeOut(c: nat) | Release(c: nat)

  predicate Enabled(s: State, a: Action) {
    match a
    case Allocate(_) => true
    case Create(r, _) => r < |s.recs| && s.recs[r].creator != Created && s.recs[r].creator != GaveUp
    case Thread(r) => r < |s.recs| && (s.recs[r].body.Ready? || s.recs[r].body.Starting? || s.recs[r].body.Stored?)
    case Done(r, _, _) => r < |s.recs| && s.recs[r].body.Running?
    case NewCall(id, join) => join ==> id > 0
    case JoinWait(c, _) => c < |s.calls| && s.calls[c].join && (s.calls[c].pc.Called? || s.calls[c].pc.Waiting?)
    case TakeOut(c) => c < |s.calls| && if s.calls[c].join then s.calls[c].pc.Waited? else s.calls[c].pc.Called?
    case Release(c) => c < |s.calls| && (s.calls[c].pc.Taken? || s.calls[c].pc.HandleClosed?)
  }

  /** What the steps index: the table up to hwm, and the record a call refers to. */
  predicate InRange(s: State, a: Action)
    requires Enabled(s, a)
  {
    && s.hwm <= |s.slots|
    && (a.JoinWait? && s.calls[a.c].pc.Waiting? ==> 0 < s.calls[a.c].id <= |s.recs|)
    && (a.Release? ==> s.calls[a.c].pc.r < |s.recs|)
  }

  /** One step of one party. */
  ghost function Perform(s: State, a: Action): State
    requires Enabled(s, a) && InRange(s, a)
  {
    match a
    case Allocate(detached) => AllocateStep(s, detached)
    case Create(r, ok) => CreatorStep(s, r, ok)
    case Thread(r) => BodyStep(s, r)
    case Done(r, v, byIndex) => DoneStep(s, r, v, byIndex)
    case NewCall(id, join) => CallStep(s, id, join)
    case JoinWait(c, failed) => JoinStep(s, c, failed)
    case TakeOut(c) => TakeStep(s, c)
    case Release(c) => ReleaseStep(s, c)
  }

  /** Nothing is detached by the id 0, which no thread has. */
  predicate Nonzero(a: Action) { a.NewCall? ==> a.id > 0 }

  /** Every enabled step stays inside the table and the records, and keeps the invariant. */
  lemma StepInv(s: State, a: Action)
    requires Inv(s) && Enabled(s, a) && Nonzero(a)
    ensures InRange(s, a) && Inv(Perform(s, a))
  {
    match a
    case Allocate(detached) => AllocateInv(s, detached);
    case Create(r, ok) => CreatorInv(s, r, ok);
    case Thread(r) => BodyInv(s, r);
    case Done(r, v, byIndex) => DoneInv(s, r, v, byIndex);
    case NewCall(id, join) => CallStepInv(s, id, join);
    case JoinWait(c, failed) => JoinInv(s, c, failed);
    case TakeOut(c) => TakeInv(s, c);
    case Release(c) => ReleaseInv(s, c);
  }

  /** The state after a run of actions, where the run is possible. */
  ghost function After(s: State, run: seq<Action>): Option<State>
    decreases |run|
  {
    if run == [] then Some(s)
    else if Enabled(s, run[0]) && InRange(s, run[0]) then After(Perform(s, run[0]), run[1..])
    else None
  }

  ghost predicate Reachable(s: State) {
    exists s0: State, run: seq<Action> ::
      Initial(s0) && (forall a :: a in run ==> Nonzero(a)) && After(s0, run) == Some(s)
  }

  lemma {:induction false} AfterInv(s: State, run: seq<Action>)
    requires Inv(s) && After(s, run).Some? && forall a :: a in run ==> Nonzero(a)
    ensures Inv(After(s, run).value)
    decreases |run|
  {
    if run == [] {
    } else {
      assert run[0] in run;
      StepInv(s, run[0]);
      AfterInv(Perform(s, run[0]), run[1..]);
    }
  }

  lemma ReachableInv(s: State)
    requires Reachable(s)
    ensures Inv(s)
  {
    var s0: State, run: seq<Action> :|
      Initial(s0) && (forall a :: a in run ==> Nonzero(a)) && After(s0, run) == Some(s);
    AfterInv(s0, run);
  }

  lemma {:induction false} AfterNext(s: State, run: seq<Action>, a: Action)
    requires After(s, run).Some? && Enabled(After(s, run).value, a) && InRange(After(s, run).value, a)
    ensures After(s, run + [a]) == Some(Perform(After(s, run).value, a))
    decreases |run|
  {
    if run == [] {
      assert (run + [a])[1..] == [];
    } else {
      assert (run + [a])[1..] == run[1..] + [a];
      AfterNext(Perform(s, run[0]), run[1..], a);
    }
  }

  /** Whatever is enabled in a reachable state leads to another. */
  lemma ReachableNext(s: State, a: Action)
    requires Reachable(s) && Enabled(s, a) && Nonzero(a)
    ensures InRange(s, a) && Reachable(Perform(s, a))
  {
    ReachableInv(s);
    StepInv(s, a);
    var s0: State, run: seq<Action> :|
      Initial(s0) && (forall b :: b in run ==> Nonzero(b)) && After(s0, run) == Some(s);
    AfterNext(s0, run, a);
    assert forall b :: b in run + [a] ==> Nonzero(b);
  }

  /** A run with nonzero ids goes from s to t. */
  ghost predicate Leads(s: State, t: State) {
    exists run: seq<Action> :: (forall a :: a in run ==> Nonzero(a)) && After(s, run) == Some(t)
  }

  lemma LeadsNowhere(s: State)
    ensures Leads(s, s)
  {
    assert After(s, []) == Some(s);
  }

  /** One step further from a reachable state. */
  lemma LeadsNext(s: State, t: State, a: Action)
    requires Leads(s, t) && Reachable(t) && Enabled(t, a) && Nonzero(a)
    ensures InRange(t, a) && Reachable(Perform(t, a)) && Leads(s, Perform(t, a))
  {
    ReachableNext(t, a);
    var run: seq<Action> :| (forall b :: b in run ==> Nonzero(b)) && After(s, run) == Some(t);
    AfterNext(s, run, a);
    assert forall b :: b in run + [a] ==> Nonzero(b);
  }

  // ----- what every interleaving guarantees -----

  /** Nothing is used after it was freed, freed twice or closed twice. */
  lemma MemorySafe(s: State, r: nat)
    requires Reachable(s) && r < |s.recs|
    ensures !s.bad && s.recs[r].freed <= 1 && s.recs[r].closed <= 1
  {
    ReachableInv(s);
    assert RecordOk(s, r);
  }

  /** Nobody will touch the record any more unless a new call finds it. */
  ghost predicate Settled(s: State, r: nat)
    requires r < |s.recs|
  {
    && (s.recs[r].creator == Created || s.recs[r].creator == GaveUp)
    && !s.recs[r].body.Ready? && !s.recs[r].body.Starting?
    && (s.recs[r].taker.Some? ==>
        s.recs[r].taker.value.call < |s.calls| && s.calls[s.recs[r].taker.value.call].pc.Finished?)
  }

  /** Some join or detach of the thread has taken its record out of the table. */
  predicate Claimed(s: State, r: nat)
    requires r < |s.recs|
  {
    s.recs[r].taker.Some?
  }

  /** Exactly once: the record of a created thread is freed if and only if the thread was created
      detached, joined or detached, unless it never started; its handle is closed if and only if it
      was created detached, joined or detached. A thread that could not be created leaves nothing. */
  lemma ReleasedExactlyOnce(s: State, r: nat)
    requires Reachable(s) && r < |s.recs| && Settled(s, r)
    ensures s.recs[r].creator == GaveUp ==> s.recs[r].freed == 1 && s.recs[r].closed == 0 && s.recs[r].body == NoThread
    ensures s.recs[r].creator == Created ==>
      && s.recs[r].closed == (if s.recs[r].detached || Claimed(s, r) then 1 else 0)
      && s.recs[r].freed == (if (s.recs[r].detached || Claimed(s, r)) && !s.recs[r].body.Suspended? then 1 else 0)
  {
    ReachableInv(s);
    assert RecordOk(s, r);
  }

  /** Among competing joins and detaches of one thread at most one succeeds. */
  lemma OneSuccess(s: State, c: nat, d: nat)
    requires Reachable(s) && c < |s.calls| && d < |s.calls| && s.calls[c].id == s.calls[d].id
    requires s.calls[c].pc.Finished? && s.calls[c].pc.ok && s.calls[d].pc.Finished? && s.calls[d].pc.ok
    ensures c == d
  {
    ReachableInv(s);
    assert CallOk(s, c) && CallOk(s, d);
  }

  /** A successful join delivers the value its own thread ended with, whatever was in the slot
      before or since. */
  lemma JoinDelivers(s: State, c: nat)
    requires Reachable(s) && c < |s.calls| && s.calls[c].join && s.calls[c].pc.Finished? && s.calls[c].pc.ok
    ensures 0 < s.calls[c].id <= |s.recs| && s.recs[s.calls[c].id - 1].body == Terminated(s.calls[c].pc.value)
  {
    ReachableInv(s);
    assert CallOk(s, c);
  }

  /** Every joinable thread that nobody has claimed can still be found by its id. */
  lemma FoundById(s: State, r: nat)
    requires Reachable(s) && r < |s.recs| && s.recs[r].id != 0 && !s.recs[r].detached && !Claimed(s, r)
    ensures s.hwm <= |s.slots| && Lookup(s, r + 1, 0) < s.hwm && s.slots[Lookup(s, r + 1, 0)] == Some(r)
  {
    ReachableInv(s);
    assert RecordOk(s, r);
    LookupFinds(s, r);
    HolderIs(s, s.recs[r].index, r + 1);
  }

  // ----- a call that nobody disturbs -----

  /** The thread can be joined or detached. */
  predicate Joinable(s: State, r: nat)
    requires r < |s.recs|
  {
    s.recs[r].id != 0 && !s.recs[r].detached && !Claimed(s, r)
  }

  /** What becomes of the record in a step of its creator. */
  lemma CreatorNext(s0: State, s: State, r: nat, ok: bool) returns (t: State)
    requires Leads(s0, s) && Reachable(s) && r < |s.recs| && s.recs[r].creator != Created && s.recs[r].creator != GaveUp
    ensures t == CreatorStep(s, r, ok) && t.calls == s.calls
    ensures Leads(s0, t) && Reachable(t) && |t.recs| == |s.recs| && RecordOk(t, r)
    ensures var x, y := s.recs[r], t.recs[r];
      && y.detached == x.detached && y.taker == x.taker
      && match x.creator
         case Allocated => y.creator == Filled
         case Filled => y.creator == Begun(ok)
         case Begun(began) => y.creator == Published(began)
         case Published(began) =>
           if began then y.creator == Resumed && y.body == if x.closed == 0 then Ready else x.body
           else y.creator == GaveUp && y.freed == x.freed + 1
         case Resumed => y.creator == Created && y.body == x.body
  {
    LeadsNext(s0, s, Create(r, ok));
    t := Perform(s, Create(r, ok));
    ReachableInv(t);
    hide Inv, Reachable, Leads, RecordOk;
  }

  /** Alone, a creator that has a record and can begin a thread ends with the thread about to run,
      under an id by which it can be joined or detached unless it was created detached; and if no
      thread can be begun nothing remains. */
  lemma CreateAlone(s: State, r: nat, ok: bool) returns (t: State)
    requires Reachable(s) && r < |s.recs| && s.recs[r].creator == Allocated
    ensures Leads(s, t) && Reachable(t) && |t.recs| == |s.recs| && t.recs[r].detached == s.recs[r].detached
    ensures ok ==> t.recs[r].creator == Created && t.recs[r].id == r + 1 && t.recs[r].body == Ready
    ensures ok ==> (Joinable(t, r) <==> !s.recs[r].detached)
    ensures !ok ==> t.recs[r].creator == GaveUp && t.recs[r].body == NoThread && t.recs[r].freed == 1
  {
    ReachableInv(s);
    assert RecordOk(s, r);
    LeadsNowhere(s);
    hide Inv, Reachable, Leads, CreatorStep;
    var s1 := CreatorNext(s, s, r, ok);
    var s2 := CreatorNext(s, s1, r, ok);
    var s3 := CreatorNext(s, s2, r, ok);
    t := CreatorNext(s, s3, r, ok);
    if ok {
      t := CreatorNext(s, t, r, ok);
    }
  }

  /** Both steps of a call that has taken a record. */
  lemma ReleaseTwice(s: State, c: nat)
    requires c < |s.calls| && s.calls[c].pc.Taken? && s.calls[c].pc.h != 0
    requires var r := s.calls[c].pc.r;
      r < |s.recs| && s.recs[r].closed == 0 && (s.calls[c].pc.start || s.recs[r].freed == 0)
    ensures var r, pc, s1 := s.calls[c].pc.r, s.calls[c].pc, ReleaseStep(s, c);
      && |s1.calls| == |s.calls| && s1.calls[c].pc.HandleClosed? && s1.calls[c].pc.r == r && |s1.recs| == |s.recs|
      && ReleaseStep(s1, c).calls == s.calls[c := s.calls[c].(pc := Finished(pc.ok, pc.value))]
      && ReleaseStep(s1, c).recs ==
         s.recs[r := s.recs[r].(closed := 1, freed := if pc.start then s.recs[r].freed else 1)]
  {
  }

  /** The record has been taken out by this call, which then releases it. */
  lemma ReleaseAlone(s0: State, s: State, c: nat) returns (t: State)
    requires Leads(s0, s) && Reachable(s) && c < |s.calls| && s.calls[c].pc.Taken?
    ensures Leads(s0, t) && Reachable(t)
    ensures t.calls == s.calls[c := s.calls[c].(pc := Finished(s.calls[c].pc.ok, s.calls[c].pc.value))]
    ensures var r := s.calls[c].pc.r;
      && r < |s.recs|
      && t.recs == s.recs[r := s.recs[r].(closed := 1, freed := if s.calls[c].pc.start then s.recs[r].freed else 1)]
  {
    var r := s.calls[c].pc.r;
    ReachableInv(s);
    assert CallOk(s, c) && RecordOk(s, r);
    ReleaseTwice(s, c);
    hide Inv, RecordOk, CallOk, Reachable, Leads, ReleaseStep;
    LeadsNext(s0, s, Release(c));
    var s1 := Perform(s, Release(c));
    LeadsNext(s0, s1, Release(c));
    t := Perform(s1, Release(c));
  }

  /** Alone, a detach of such a thread succeeds: the handle is closed and the slot free, and the
      record freed unless the thread has yet to start and will free it. */
  lemma DetachAlone(s: State, c: nat, r: nat) returns (t: State)
    requires Reachable(s) && r < |s.recs| && Joinable(s, r)
    requires c < |s.calls| && s.calls[c] == Call(r + 1, false, Called)
    ensures Leads(s, t) && Reachable(t) && |t.calls| == |s.calls| && t.calls[c].pc.Finished? && t.calls[c].pc.ok
    ensures var x := s.recs[r];
      && var y := x.(index := -1, closed := 1, freed := if x.start then 0 else 1, taker := Some(Take(c, x.start)));
      t.recs == s.recs[r := y]
  {
    FoundById(s, r);
    ReachableInv(s);
    assert RecordOk(s, r);
    LeadsNowhere(s);
    hide Inv, Reachable, Leads;
    LeadsNext(s, s, TakeOut(c));
    var s1 := Perform(s, TakeOut(c));
    hide Lookup;
    t := ReleaseAlone(s, s1, c);
  }

  /** Alone, a join of such a thread that has ended succeeds with its value, and leaves neither the
      record nor the handle. */
  lemma JoinAlone(s: State, c: nat, r: nat) returns (t: State)
    requires Reachable(s) && r < |s.recs| && Joinable(s, r) && s.recs[r].body.Terminated?
    requires c < |s.calls| && s.calls[c] == Call(r + 1, true, Called)
    ensures Leads(s, t) && Reachable(t) && |t.calls| == |s.calls| && t.calls[c].pc == Finished(true, s.recs[r].body.v)
    ensures |t.recs| == |s.recs| && t.recs[r].closed == 1 && t.recs[r].freed == 1
  {
    FoundById(s, r);
    ReachableInv(s);
    assert RecordOk(s, r);
    LeadsNowhere(s);
    hide Inv, Reachable, Leads;
    LeadsNext(s, s, JoinWait(c, false));
    var s1 := Perform(s, JoinWait(c, false));
    LeadsNext(s, s1, JoinWait(c, false));
    var s2 := Perform(s1, JoinWait(c, false));
    assert s2.recs == s.recs && s2.slots == s.slots && s2.calls[c].pc == Waited(Lookup(s, r + 1, 0), true);
    LeadsNext(s, s2, TakeOut(c));
    var s3 := Perform(s2, TakeOut(c));
    hide RecordOk, Lookup;
    t := ReleaseAlone(s, s3, c);
  }

  // ----- ids that come from pthread_create -----

  /** The thread has been resumed, so that its id may be known outside pthread_create. */
  predicate Resumable(x: Record) { x.creator == Resumed || x.creator == Created }

  /** A call names a thread whose creation got that far. */
  predicate Polite(s: State, a: Action) {
    a.NewCall? ==> 0 < a.id <= |s.recs| && Resumable(s.recs[a.id - 1])
  }

  ghost predicate PoliteRun(s: State, run: seq<Action>)
    decreases |run|
  {
    run != [] ==>
      && Enabled(s, run[0]) && InRange(s, run[0]) && Polite(s, run[0])
      && PoliteRun(Perform(s, run[0]), run[1..])
  }

  ghost predicate PoliteInv(s: State) {
    && (forall c: nat :: c < |s.calls| ==> 0 < s.calls[c].id <= |s.recs| && Resumable(s.recs[s.calls[c].id - 1]))
    && (forall r: nat :: r < |s.recs| && Resumable(s.recs[r]) ==> s.recs[r].body != Suspended)
  }

  /** The creator finds the handle open when it resumes the thread. */
  lemma PoliteCreator(s: State, r: nat, ok: bool)
    requires Inv(s) && PoliteInv(s) && Enabled(s, Create(r, ok))
    ensures PoliteInv(CreatorStep(s, r, ok))
  {
    assert RecordOk(s, r);
    var x, s' := s.recs[r], CreatorStep(s, r, ok);
    if x.creator == Published(true) {
      assert x.taker.None?;
    }
    hide Inv, RecordOk;
    forall j: nat | j < |s'.recs| && Resumable(s'.recs[j]) ensures s'.recs[j].body != Suspended {
      if j != r { assert s'.recs[j] == s.recs[j]; }
    }
  }

  /** Nothing that matters here changes in the records there were, nor in the ids of the calls. */
  ghost predicate SameStages(s: State, s': State) {
    && |s.recs| <= |s'.recs| && |s.calls| == |s'.calls|
    && (forall r: nat :: r < |s.recs| ==>
        && s'.recs[r].creator == s.recs[r].creator
        && (s'.recs[r].body == Suspended <==> s.recs[r].body == Suspended))
    && (forall r: nat :: |s.recs| <= r < |s'.recs| ==> !Resumable(s'.recs[r]))
    && (forall c: nat :: c < |s.calls| ==> s'.calls[c].id == s.calls[c].id)
  }

  lemma PoliteKept(s: State, s': State)
    requires PoliteInv(s) && SameStages(s, s')
    ensures PoliteInv(s')
  {
    forall c: nat | c < |s'.calls| ensures 0 < s'.calls[c].id <= |s'.recs| && Resumable(s'.recs[s'.calls[c].id - 1]) {
      assert s'.calls[c].id == s.calls[c].id;
    }
    forall r: nat | r < |s'.recs| && Resumable(s'.recs[r]) ensures s'.recs[r].body != Suspended {
      if r < |s.recs| { assert s'.recs[r].creator == s.recs[r].creator; }
    }
  }

  lemma ThreadStages(s: State, a: Action)
    requires Enabled(s, a) && InRange(s, a) && (a.Allocate? || a.Thread? || a.Done?)
    ensures SameStages(s, Perform(s, a))
  {
    hide Lookup, TableFreed;
  }

  lemma CallStages(s: State, a: Action)
    requires Enabled(s, a) && InRange(s, a) && (a.JoinWait? || a.TakeOut? || a.Release?)
    ensures SameStages(s, Perform(s, a))
  {
    hide Lookup, TableFreed;
  }

  lemma PoliteStep(s: State, a: Action)
    requires Inv(s) && PoliteInv(s) && Enabled(s, a) && InRange(s, a) && Polite(s, a)
    ensures PoliteInv(Perform(s, a))
  {
    if a.Create? {
      PoliteCreator(s, a.r, a.ok);
    } else if !a.NewCall? {
      hide Inv, PoliteInv, SameStages;
      if a.JoinWait? || a.TakeOut? || a.Release? { CallStages(s, a); } else { ThreadStages(s, a); }
      hide Perform;
      PoliteKept(s, Perform(s, a));
    }
  }

  lemma {:induction false} PoliteAfter(s: State, run: seq<Action>)
    requires Inv(s) && PoliteInv(s) && PoliteRun(s, run)
    ensures After(s, run).Some? && Inv(After(s, run).value) && PoliteInv(After(s, run).value)
    decreases |run|
  {
    if run == [] {
    } else {
      StepInv(s, run[0]);
      PoliteStep(s, run[0]);
      PoliteAfter(Perform(s, run[0]), run[1..]);
    }
  }

  /** If calls use only ids that they can have from pthread_create or from the thread itself, every
      created thread starts, and so exactly the threads that were created detached, joined or
      detached have had their record freed and their handle closed, once each. */
  lemma ReleasedPolitely(s: State, run: seq<Action>, r: nat)
    requires Initial(s) && PoliteRun(s, run) && After(s, run).Some? && r < |After(s, run).value.recs|
    requires Settled(After(s, run).value, r) && After(s, run).value.recs[r].creator == Created
    ensures var x := After(s, run).value.recs[r];
      x.freed == x.closed == if x.detached || Claimed(After(s, run).value, r) then 1 else 0
  {
    PoliteAfter(s, run);
    assert RecordOk(After(s, run).value, r);
  }

  // ----- threads that never start -----

  /** Once a thread has been resumed, whether it is suspended does not change any more. */
  lemma SuspendedStays(s: State, a: Action, r: nat)
    requires Enabled(s, a) && InRange(s, a) && r < |s.recs| && Resumable(s.recs[r])
    ensures r < |Perform(s, a).recs| && Resumable(Perform(s, a).recs[r])
    ensures Perform(s, a).recs[r].body == Suspended <==> s.recs[r].body == Suspended
  {
    if a.JoinWait? || a.TakeOut? || a.Release? {
      CallStages(s, a);
    } else if !a.Create? && !a.NewCall? {
      ThreadStages(s, a);
    }
  }

  lemma {:induction false} SuspendedAfter(s: State, run: seq<Action>, r: nat)
    requires After(s, run).Some? && r < |s.recs| && Resumable(s.recs[r])
    ensures r < |After(s, run).value.recs| && Resumable(After(s, run).value.recs[r])
    ensures After(s, run).value.recs[r].body == Suspended <==> s.recs[r].body == Suspended
    decreases |run|
  {
    if run == [] {
    } else {
      SuspendedStays(s, run[0], r);
      hide Perform;
      SuspendedAfter(Perform(s, run[0]), run[1..], r);
    }
  }

  /** A thread is left suspended for ever exactly if its handle was closed when it was about to be
      resumed; the record is then never freed. */
  lemma NeverStarted(s: State, r: nat, ok: bool, run: seq<Action>, t: State)
    requires Reachable(s) && r < |s.recs| && s.recs[r].creator == Published(true)
    requires (forall a :: a in run ==> Nonzero(a)) && After(CreatorStep(s, r, ok), run) == Some(t)
    ensures r < |t.recs| && (t.recs[r].body == Suspended <==> s.recs[r].closed == 1)
    ensures t.recs[r].body == Suspended ==> t.recs[r].freed == 0 && Claimed(t, r) && t.recs[r].taker.value.start
  {
    ReachableInv(s);
    assert RecordOk(s, r);
    CreatorInv(s, r, ok);
    AfterInv(CreatorStep(s, r, ok), run);
    SuspendedAfter(CreatorStep(s, r, ok), run, r);
    assert RecordOk(t, r);
  }

  /** From every state in which a joinable thread is published and not yet resumed, a detach leads to
      one in which all parties are done with it, and it is suspended with its record not freed. */
  lemma LeftSuspended(s: State, r: nat) returns (t: State)
    requires Reachable(s) && r < |s.recs| && s.recs[r].creator == Published(true) && Joinable(s, r)
    ensures Leads(s, t) && Reachable(t) && |t.recs| == |s.recs| && Settled(t, r) && Claimed(t, r)
    ensures t.recs[r].creator == Created && t.recs[r].body == Suspended && t.recs[r].freed == 0
  {
    var c := |s.calls|;
    ReachableInv(s);
    assert RecordOk(s, r);
    LeadsNowhere(s);
    LeadsNext(s, s, NewCall(r + 1, false));
    var s1 := Perform(s, NewCall(r + 1, false));
    var s2 := DetachAlone(s1, c, r);
    LeadsOn(s, s1, s2);
    hide Inv, Reachable, Leads, RecordOk;
    var s3 := CreatorNext(s, s2, r, true);
    t := CreatorNext(s, s3, r, true);
  }

  lemma LeadsOn(s: State, t: State, u: State)
    requires Leads(s, t) && Leads(t, u)
    ensures Leads(s, u)
  {
    var first: seq<Action> :| (forall a :: a in first ==> Nonzero(a)) && After(s, first) == Some(t);
    var second: seq<Action> :| (forall a :: a in second ==> Nonzero(a)) && After(t, second) == Some(u);
    AfterBoth(s, first, second);
    assert forall a :: a in first + second ==> Nonzero(a);
  }

  lemma {:induction false} AfterBoth(s: State, first: seq<Action>, second: seq<Action>)
    requires After(s, first).Some?
    ensures After(s, first + second) == After(After(s, first).value, second)
    decreases |first|
  {
    if first == [] {
      assert first + second == second;
    } else {
      assert (first + second)[1..] == first[1..] + second;
      hide Perform;
      AfterBoth(Perform(s, first[0]), first[1..], second);
    }
  }

  // ----- the id 0 -----

  /** Any run goes from s to t. */
  ghost predicate MayLead(s: State, t: State) {
    exists run: seq<Action> :: After(s, run) == Some(t)
  }

  lemma MayLeadNext(s: State, t: State, a: Action)
    requires MayLead(s, t) && Enabled(t, a) && InRange(t, a)
    ensures MayLead(s, Perform(t, a))
  {
    var run: seq<Action> :| After(s, run) == Some(t);
    AfterNext(s, run, a);
  }

  /** A record not yet published, in its slot and in no other. */
  ghost predicate Unpublished(s: State, r: nat) {
    && r < |s.recs| && s.hwm <= |s.slots|
    && var x := s.recs[r];
    && (x.creator == Allocated || x.creator == Filled || x.creator.Begun?) && x.id == 0 && x.h == 0
    && x.start == (x.creator != Allocated) && x.freed == 0
    && 0 <= x.index < s.hwm && s.slots[x.index] == Some(r)
    && forall i :: 0 <= i < |s.slots| && s.slots[i] == Some(r) ==> i == x.index
  }

  /** A detach of the id 0 has taken it: the creator goes on as if it had not. */
  ghost predicate TakenEarly(s: State, r: nat, x: Record, c: nat) {
    && r < |s.recs| && s.hwm <= |s.slots| && c < |s.calls|
    && s.recs[r] == x.(index := -1, taker := s.recs[r].taker)
    && s.calls[c].pc == Taken(r, 0, x.start, x.result, true)
    && forall i :: 0 <= i < |s.slots| ==> s.slots[i] != Some(r)
  }

  /** One detach of the id 0 takes this record, or one in a slot before it. */
  lemma TakeZeroStep(s0: State, s: State, r: nat) returns (t: State)
    requires MayLead(s0, s) && Unpublished(s, r)
    ensures MayLead(s0, t) && Lookup(s, 0, 0) <= s.recs[r].index
    ensures if Lookup(s, 0, 0) == s.recs[r].index then TakenEarly(t, r, s.recs[r], |s.calls|)
            else Unpublished(t, r) && t.recs[r] == s.recs[r] && Lookup(t, 0, 0) > Lookup(s, 0, 0)
  {
    var c, i := |s.calls|, Lookup(s, 0, 0);
    assert Holds(s, s.recs[r].index, 0);
    MayLeadNext(s0, s, NewCall(0, false));
    var s1 := Perform(s, NewCall(0, false));
    assert forall k :: Holds(s1, k, 0) <==> Holds(s, k, 0);
    assert Lookup(s1, 0, 0) == i;
    MayLeadNext(s0, s1, TakeOut(c));
    t := Perform(s1, TakeOut(c));
    assert forall k :: Holds(t, k, 0) ==> Holds(s, k, 0) && k != i;
  }

  /** So repeated detaches of the id 0 take it. */
  lemma {:induction false} TakeZero(s0: State, s: State, r: nat) returns (t: State, c: nat)
    requires MayLead(s0, s) && Unpublished(s, r)
    ensures MayLead(s0, t) && TakenEarly(t, r, s.recs[r], c)
    decreases s.recs[r].index - Lookup(s, 0, 0)
  {
    assert Holds(s, s.recs[r].index, 0);
    t := TakeZeroStep(s0, s, r);
    c := |s.calls|;
    if Lookup(s, 0, 0) < s.recs[r].index {
      assert Holds(t, t.recs[r].index, 0);
      t, c := TakeZero(s0, t, r);
    }
  }

  /** The creator goes on with a record that has been taken: it writes to one that was freed if the
      start routine was not yet stored, and before the table if the thread is not to be in it. */
  lemma CreateTaken(s0: State, s: State, r: nat, x: Record, c: nat) returns (t: State)
    requires MayLead(s0, s) && TakenEarly(s, r, x, c)
    requires x.start == (x.creator != Allocated)
    requires x.creator == Allocated || x.creator == Filled || (x.creator.Begun? && (x.detached || !x.creator.ok))
    ensures MayLead(s0, t) && t.bad
    decreases x.creator != Allocated, x.creator == Filled
  {
    if x.creator == Allocated {
      MayLeadNext(s0, s, Release(c));
      var s1 := Perform(s, Release(c));
      MayLeadNext(s0, s1, Release(c));
      var s2 := Perform(s1, Release(c));
      MayLeadNext(s0, s2, Create(r, true));
      t := Perform(s2, Create(r, true));
    } else {
      MayLeadNext(s0, s, Create(r, false));
      t := Perform(s, Create(r, false));
      if x.creator == Filled { t := CreateTaken(s0, t, r, x.(creator := Begun(false), body := NoThread), c); }
    }
  }

  /** pthread_detach does not refuse the id 0 as pthread_join does, and a record has that id until it
      is published. From every state with a record that is not yet published, detaches of the id 0 lead
      to one in which its creator writes to freed memory or outside the table, unless a thread that is
      not detached has already begun. */
  lemma DetachZero(s: State, r: nat) returns (t: State)
    requires Reachable(s) && r < |s.recs|
    requires var x := s.recs[r];
      x.creator == Allocated || x.creator == Filled || (x.creator.Begun? && (x.detached || !x.creator.ok))
    ensures MayLead(s, t) && t.bad
  {
    ReachableInv(s);
    assert RecordOk(s, r);
    assert After(s, []) == Some(s);
    var s1, c := TakeZero(s, s, r);
    hide Inv, RecordOk;
    t := CreateTaken(s, s1, r, s.recs[r], c);
  }

  /** One more step of the creator of a thread that has begun and is not detached. */
  lemma CreateOutside(s0: State, s: State, r: nat) returns (t: State)
    requires MayLead(s0, s) && s.hwm <= |s.slots| && r < |s.recs| && !s.recs[r].detached && s.recs[r].closed == 0
    requires s.recs[r].creator == Begun(true) || s.recs[r].creator == Published(true) || s.recs[r].creator == Resumed
    ensures MayLead(s0, t) && t.slots == s.slots && t.hwm == s.hwm && r < |t.recs|
    ensures t.recs[r] == match s.recs[r].creator
      case Begun(_) => s.recs[r].(id := r + 1, h := r + 1, creator := Published(true))
      case Published(_) => s.recs[r].(creator := Resumed, body := Ready)
      case _ => s.recs[r].(creator := Created)
  {
    MayLeadNext(s0, s, Create(r, true));
    t := Perform(s, Create(r, true));
  }

  /** In that case the thread runs outside the table, where no join or detach finds it. */
  lemma DetachZeroLoses(s: State, r: nat) returns (t: State)
    requires Reachable(s) && r < |s.recs| && s.recs[r].creator == Begun(true) && !s.recs[r].detached
    ensures MayLead(s, t) && r < |t.recs| && t.recs[r].creator == Created && t.recs[r].id == r + 1
    ensures t.recs[r].body == Ready && t.recs[r].closed == 0 && forall i :: 0 <= i < |t.slots| ==> t.slots[i] != Some(r)
  {
    ReachableInv(s);
    assert RecordOk(s, r);
    assert After(s, []) == Some(s);
    var s1, _ := TakeZero(s, s, r);
    hide Inv, RecordOk, MayLead, Reachable, Unpublished;
    var s2 := CreateOutside(s, s1, r);
    var s3 := CreateOutside(s, s2, r);
    t := CreateOutside(s, s3, r);
  }
}
