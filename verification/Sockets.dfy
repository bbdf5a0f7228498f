/** The socket table of src/socket.c: descriptors are slots that any number of threads claim by
    scan-then-compare-exchange and release by read-then-compare-exchange.

    Every read of a slot, every compare-exchange and every call into Winsock is one step. The
    operating system may hand out a socket again as soon as it has been closed. */
module SocketTable {
  import opened Options

  const MAXSOCKETS: nat := 512
  const SOCKETBASE: int := 0x10000

  /** wpdk_allocate_socket for a socket just opened. */
  datatype Opener =
    | Opened(v: nat)
    | Scanning(v: nat, i: nat)
    | Claiming(v: nat, i: nat)
    | Failing(v: nat)
    | Returned(fd: Option<int>)

  /** wpdk_close_socket */
  datatype Closer =
    | Entered(fd: int)
    | Read(fd: int, v: nat)
    | Claimed(v: nat)
    | Left(ok: bool)

  /** Who has to close an open socket. */
  datatype Owner = InSlot(i: nat) | ByOpener(k: nat) | ByCloser(k: nat)

  /** The table (None is INVALID_SOCKET); the open sockets, each with its owner, which is there for
      the proof and which no step looks at; how many were opened and closed; and whether closesocket
      was ever called with something that was not open. */
  datatype State = State(
    slots: seq<Option<nat>>, open: map<nat, Owner>, openers: seq<Opener>, closers: seq<Closer>,
    opens: nat, closes: nat, bad: bool)

  predicate Initial(s: State) {
    && |s.slots| == MAXSOCKETS && (forall i :: 0 <= i < |s.slots| ==> s.slots[i] == None)
    && s.open == map[] && s.openers == [] && s.closers == [] && s.opens == 0 && s.closes == 0 && !s.bad
  }

  predicate IsSocket(fd: int) { SOCKETBASE <= fd < SOCKETBASE + MAXSOCKETS }

  /** wpdk_get_socket */
  function GetSocket(s: State, fd: int): Option<nat> {
    if IsSocket(fd) && fd - SOCKETBASE < |s.slots| then s.slots[fd - SOCKETBASE] else None
  }

  function SetOpener(s: State, k: nat, o: Opener): State
    requires k < |s.openers|
  {
    s.(openers := s.openers[k := o])
  }

  function SetCloser(s: State, k: nat, c: Closer): State
    requires k < |s.closers|
  {
    s.(closers := s.closers[k := c])
  }

  /** closesocket */
  function Close(s: State, v: nat): State {
    s.(open := s.open - {v}, closes := s.closes + 1, bad := s.bad || v !in s.open)
  }

  /** socket or accept returned v. */
  function OpenStep(s: State, v: nat): State {
    s.(open := s.open[v := ByOpener(|s.openers|)], openers := s.openers + [Opened(v)], opens := s.opens + 1)
  }

  /** One step of wpdk_allocate_socket; ok is the answer of ioctlsocket. */
  function OpenerStep(s: State, k: nat, ok: bool): State
    requires k < |s.openers| && !s.openers[k].Returned?
  {
    match s.openers[k]
    case Opened(v) => SetOpener(s, k, if ok then Scanning(v, 0) else Failing(v))
    case Scanning(v, i) =>
      SetOpener(s, k,
        if i >= |s.slots| then Failing(v) else if s.slots[i] == None then Claiming(v, i) else Scanning(v, i + 1))
    case Claiming(v, i) =>
      if i < |s.slots| && s.slots[i] == None then
        SetOpener(s, k, Returned(Some(SOCKETBASE + i))).(slots := s.slots[i := Some(v)], open := s.open[v := InSlot(i)])
      else SetOpener(s, k, Scanning(v, i + 1))
    case Failing(v) => SetOpener(Close(s, v), k, Returned(None))
  }

  function CloserStep(s: State, k: nat): State
    requires k < |s.closers| && !s.closers[k].Left?
  {
    match s.closers[k]
    case Entered(fd) =>
      var v := GetSocket(s, fd);
      SetCloser(s, k, if v == None then Left(false) else Read(fd, v.value))
    case Read(fd, v) =>
      if GetSocket(s, fd) == Some(v) then
        SetCloser(s, k, Claimed(v)).(slots := s.slots[fd - SOCKETBASE := None], open := s.open[v := ByCloser(k)])
      else SetCloser(s, k, Left(false))
    case Claimed(v) => SetCloser(Close(s, v), k, Left(true))
  }

  // ----- the invariant: every open socket has exactly one owner -----

  predicate Holds(o: Opener, v: nat) { !o.Returned? && o.v == v }

  ghost predicate Owns(s: State, p: Owner, v: nat) {
    match p
    case InSlot(i) => i < |s.slots| && s.slots[i] == Some(v)
    case ByOpener(k) => k < |s.openers| && Holds(s.openers[k], v)
    case ByCloser(k) => k < |s.closers| && s.closers[k] == Claimed(v)
  }

  ghost predicate Inv(s: State) {
    && !s.bad && s.opens == s.closes + |s.open|
    && (forall v :: v in s.open ==> Owns(s, s.open[v], v))
    && (forall i: nat :: i < |s.slots| && s.slots[i].Some? ==>
        s.slots[i].value in s.open && s.open[s.slots[i].value] == InSlot(i))
    && (forall k: nat :: k < |s.openers| && !s.openers[k].Returned? ==>
        s.openers[k].v in s.open && s.open[s.openers[k].v] == ByOpener(k))
    && (forall k: nat :: k < |s.closers| && s.closers[k].Claimed? ==>
        s.closers[k].v in s.open && s.open[s.closers[k].v] == ByCloser(k))
  }

  lemma OpenInv(s: State, v: nat)
    requires Inv(s) && v !in s.open
    ensures Inv(OpenStep(s, v))
  {
    var s' := OpenStep(s, v);
    assert s'.open.Keys == s.open.Keys + {v};
  }

  /** Closing a socket that one party alone has to close. */
  lemma CloseSize(s: State, v: nat)
    requires v in s.open
    ensures |Close(s, v).open| == |s.open| - 1
  {
    assert Close(s, v).open.Keys == s.open.Keys - {v};
  }

  /** An opener moves on and keeps its socket. */
  lemma OpenerMoves(s: State, k: nat, o: Opener)
    requires Inv(s) && k < |s.openers| && !s.openers[k].Returned? && Holds(o, s.openers[k].v)
    ensures Inv(SetOpener(s, k, o))
  {
  }

  /** An opener puts its socket in a free slot. */
  lemma OpenerClaims(s: State, k: nat, i: nat)
    requires Inv(s) && k < |s.openers| && !s.openers[k].Returned? && i < |s.slots| && s.slots[i] == None
    ensures var v := s.openers[k].v;
      && var s' := SetOpener(s, k, Returned(Some(SOCKETBASE + i)));
      Inv(s'.(slots := s.slots[i := Some(v)], open := s.open[v := InSlot(i)]))
  {
    var v := s.openers[k].v;
    assert s.open[v := InSlot(i)].Keys == s.open.Keys;
  }

  lemma OpenerCloses(s: State, k: nat)
    requires Inv(s) && k < |s.openers| && !s.openers[k].Returned?
    ensures Inv(SetOpener(Close(s, s.openers[k].v), k, Returned(None)))
  {
    CloseSize(s, s.openers[k].v);
  }

  lemma OpenerInv(s: State, k: nat, ok: bool)
    requires Inv(s) && k < |s.openers| && !s.openers[k].Returned?
    ensures Inv(OpenerStep(s, k, ok))
  {
    var o, s' := s.openers[k], OpenerStep(s, k, ok);
    hide Inv;
    if o.Failing? {
      OpenerCloses(s, k);
    } else if o.Claiming? && o.i < |s.slots| && s.slots[o.i] == None {
      OpenerClaims(s, k, o.i);
    } else {
      OpenerMoves(s, k, s'.openers[k]);
    }
  }

  /** A closer that owns nothing moves on. */
  lemma CloserMoves(s: State, k: nat, c: Closer)
    requires Inv(s) && k < |s.closers| && !s.closers[k].Claimed? && !c.Claimed?
    ensures Inv(SetCloser(s, k, c))
  {
  }

  /** A closer takes a socket out of its slot. */
  lemma CloserClaims(s: State, k: nat, i: nat)
    requires Inv(s) && k < |s.closers| && !s.closers[k].Claimed? && i < |s.slots| && s.slots[i].Some?
    ensures var v := s.slots[i].value;
      Inv(SetCloser(s, k, Claimed(v)).(slots := s.slots[i := None], open := s.open[v := ByCloser(k)]))
  {
    var v := s.slots[i].value;
    assert s.open[v := ByCloser(k)].Keys == s.open.Keys;
  }

  lemma CloserCloses(s: State, k: nat)
    requires Inv(s) && k < |s.closers| && s.closers[k].Claimed?
    ensures Inv(SetCloser(Close(s, s.closers[k].v), k, Left(true)))
  {
    CloseSize(s, s.closers[k].v);
  }

  lemma CloserInv(s: State, k: nat)
    requires Inv(s) && k < |s.closers| && !s.closers[k].Left?
    ensures Inv(CloserStep(s, k))
  {
    var c, s' := s.closers[k], CloserStep(s, k);
    hide Inv;
    if c.Claimed? {
      CloserCloses(s, k);
    } else if c.Read? && GetSocket(s, c.fd) == Some(c.v) {
      CloserClaims(s, k, c.fd - SOCKETBASE);
    } else {
      CloserMoves(s, k, s'.closers[k]);
    }
  }

  // ----- runs -----

  datatype Action = Open(v: nat) | Opening(k: nat, ok: bool) | CloseCall(fd: int) | Closing(k: nat)

  predicate Enabled(s: State, a: Action) {
    match a
    case Open(v) => v !in s.open
    case Opening(k, _) => k < |s.openers| && !s.openers[k].Returned?
    case CloseCall(_) => true
    case Closing(k) => k < |s.closers| && !s.closers[k].Left?
  }

  function Perform(s: State, a: Action): State
    requires Enabled(s, a)
  {
    match a
    case Open(v) => OpenStep(s, v)
    case Opening(k, ok) => OpenerStep(s, k, ok)
    case CloseCall(fd) => s.(closers := s.closers + [Entered(fd)])
    case Closing(k) => CloserStep(s, k)
  }

  lemma StepInv(s: State, a: Action)
    requires Inv(s) && Enabled(s, a)
    ensures Inv(Perform(s, a)) && |Perform(s, a).slots| == |s.slots|
  {
    match a
    case Open(v) => OpenInv(s, v);
    case Opening(k, ok) => OpenerInv(s, k, ok);
    case CloseCall(_) =>
    case Closing(k) => CloserInv(s, k);
  }

  function After(s: State, run: seq<Action>): Option<State>
    decreases |run|
  {
    if run == [] then Some(s)
    else if Enabled(s, run[0]) then After(Perform(s, run[0]), run[1..])
    else None
  }

  ghost predicate Reachable(s: State) {
    exists s0: State, run: seq<Action> :: Initial(s0) && After(s0, run) == Some(s)
  }

  lemma {:induction false} AfterInv(s: State, run: seq<Action>)
    requires Inv(s) && After(s, run).Some?
    ensures Inv(After(s, run).value) && |After(s, run).value.slots| == |s.slots|
    decreases |run|
  {
    if run == [] {
    } else {
      StepInv(s, run[0]);
      AfterInv(Perform(s, run[0]), run[1..]);
    }
  }

  lemma ReachableInv(s: State)
    requires Reachable(s)
    ensures Inv(s) && |s.slots| == MAXSOCKETS
  {
    var s0: State, run: seq<Action> :| Initial(s0) && After(s0, run) == Some(s);
    AfterInv(s0, run);
  }

  // ----- what every interleaving guarantees -----

  /** Different descriptors never name the same socket, and what a descriptor names is open: it has
      not been passed to closesocket, and nobody is about to pass it. */
  lemma DescriptorsDistinct(s: State, fd: int, fd2: int)
    requires Reachable(s) && GetSocket(s, fd).Some? && GetSocket(s, fd) == GetSocket(s, fd2)
    ensures fd == fd2 && GetSocket(s, fd).value in s.open
    ensures forall k :: 0 <= k < |s.openers| ==> !Holds(s.openers[k], GetSocket(s, fd).value)
    ensures Claimed(GetSocket(s, fd).value) !in s.closers
  {
    ReachableInv(s);
  }

  /** closesocket is called at most once for each time a socket was opened, and only while it is
      open. */
  lemma ClosedAtMostOnce(s: State)
    requires Reachable(s)
    ensures !s.bad && s.opens == s.closes + |s.open|
  {
    ReachableInv(s);
  }

  ghost predicate Quiet(s: State) {
    && (forall k: nat :: k < |s.openers| ==> s.openers[k].Returned?)
    && (forall k: nat :: k < |s.closers| ==> s.closers[k].Left?)
  }

  /** Nothing leaks: once no call is in progress, the open sockets are exactly the ones that have a
      descriptor. */
  lemma NoLeak(s: State, v: nat)
    requires Reachable(s) && Quiet(s)
    ensures v in s.open <==> exists fd :: GetSocket(s, fd) == Some(v)
  {
    ReachableInv(s);
    if v in s.open {
      assert Owns(s, s.open[v], v);
      assert GetSocket(s, SOCKETBASE + s.open[v].i) == Some(v);
    }
  }

  /** Among competing closes of one descriptor that have read the same socket, at most one goes on
      to close it. */
  lemma OneCloser(s: State, j: nat, k: nat)
    requires Reachable(s) && j < |s.closers| && k < |s.closers|
    requires s.closers[j].Claimed? && s.closers[k].Claimed? && s.closers[j].v == s.closers[k].v
    ensures j == k
  {
    ReachableInv(s);
  }

  /** A descriptor that is returned was free until then and now names the socket that was opened; a
      refused socket has been closed. */
  lemma DescriptorReturned(s: State, k: nat, ok: bool)
    requires Reachable(s) && k < |s.openers| && !s.openers[k].Returned? && OpenerStep(s, k, ok).openers[k].Returned?
    ensures var s', v := OpenerStep(s, k, ok), s.openers[k].v;
      match s'.openers[k].fd
      case Some(fd) => GetSocket(s, fd) == None && GetSocket(s', fd) == Some(v)
      case None => v in s.open && v !in s'.open
  {
    ReachableInv(s);
  }

  // ----- a call that nobody disturbs -----

  /** The state in which allocation ends if slot i is the one claimed, or none. */
  function Allocated(s: State, k: nat, v: nat, i: nat): State
    requires k < |s.openers| && i <= |s.slots|
  {
    if i < |s.slots| then
      SetOpener(s, k, Returned(Some(SOCKETBASE + i))).(slots := s.slots[i := Some(v)], open := s.open[v := InSlot(i)])
    else SetOpener(Close(s, v), k, Returned(None))
  }

  /** Alone, a scan claims the first free slot from where it stands, and fails exactly if there is
      none. */
  lemma {:induction false} ScanAlone(s: State, k: nat, i: nat) returns (run: seq<Action>)
    requires k < |s.openers| && s.openers[k].Scanning? && s.openers[k].i == i <= |s.slots|
    ensures After(s, run) == Some(Allocated(s, k, s.openers[k].v, FirstFree(s.slots, i)))
    ensures forall a :: a in run ==> a == Opening(k, true)
    decreases |s.slots| - i
  {
    var a := Opening(k, true);
    var s1 := Perform(s, a);
    var last := Allocated(s, k, s.openers[k].v, FirstFree(s.slots, i)).openers[k];
    assert s1.openers[k := last] == s.openers[k := last];
    if i == |s.slots| || s.slots[i] == None {
      run := [a, a];
      assert run[1..] == [a] && After(s1, [a]) == After(Perform(s1, a), []);
    } else {
      var rest := ScanAlone(s1, k, i + 1);
      run := [a] + rest;
      assert run[1..] == rest;
    }
  }

  /** Alone, an allocation claims the first free slot of the table, and closes the socket exactly if
      there is none. */
  lemma AllocateAlone(s: State, k: nat) returns (run: seq<Action>)
    requires k < |s.openers| && s.openers[k].Opened?
    ensures After(s, run) == Some(Allocated(s, k, s.openers[k].v, FirstFree(s.slots, 0)))
    ensures forall a :: a in run ==> a == Opening(k, true)
  {
    var a := Opening(k, true);
    var s1 := Perform(s, a);
    var last := Allocated(s, k, s.openers[k].v, FirstFree(s.slots, 0)).openers[k];
    assert s1.openers[k := last] == s.openers[k := last];
    var rest := ScanAlone(s1, k, 0);
    run := [a] + rest;
    assert run[1..] == rest;
  }

  /** Alone, a close frees the descriptor and closes what it named, and fails exactly if it named
      nothing. */
  lemma CloseAlone(s: State, k: nat)
    requires Reachable(s) && k < |s.closers| && s.closers[k].Entered?
    ensures var fd, a := s.closers[k].fd, Closing(k);
      match GetSocket(s, fd)
      case None => After(s, [a]) == Some(SetCloser(s, k, Left(false)))
      case Some(v) =>
        After(s, [a, a, a]) ==
          Some(SetCloser(Close(s, v), k, Left(true)).(slots := s.slots[fd - SOCKETBASE := None]))
  {
    var fd, a := s.closers[k].fd, Closing(k);
    var s1 := Perform(s, a);
    if GetSocket(s, fd) == None {
      assert After(s, [a]) == After(s1, []);
    } else {
      var v := GetSocket(s, fd).value;
      NamedIsOpen(s, fd);
      hide Inv, Reachable;
      var s2 := Perform(s1, a);
      var s3 := Perform(s2, a);
      assert s2.open - {v} == s.open - {v} && s3.closers == s.closers[k := Left(true)];
      hide Perform;
      assert After(s2, [a]) == After(s3, []);
      assert After(s1, [a, a]) == After(s2, [a]);
      assert After(s, [a, a, a]) == After(s1, [a, a]);
    }
  }

  lemma NamedIsOpen(s: State, fd: int)
    requires Reachable(s) && GetSocket(s, fd).Some?
    ensures GetSocket(s, fd).value in s.open
  {
    ReachableInv(s);
  }
}

/** wpdk_socket_startup of src/socket.c, run by any number of threads at once. */
module SocketStartup {
  import opened Options

  datatype Memory = Unallocated | Allocated | Freed

  /** Entered, table allocated, Winsock started, pointer exchanged, returned. */
  datatype Pc = Entered | HasTable | Begun | Exchanged | Returned(ok: bool)

  datatype Startup = Startup(pc: Pc, table: Memory)

  /** wpdk_socket_fds (which startup's table), wpdk_socket_ready, the number of calls of WSAStartup
      that are still to be matched by WSACleanup, and the startups. bad is set by a second free, by
      freeing the installed table and by a cleanup too many. */
  datatype State = State(fds: Option<nat>, ready: bool, wsa: nat, startups: seq<Startup>, bad: bool)

  const INITIAL := State(None, false, 0, [], false)

  function Set(s: State, k: nat, x: Startup): State
    requires k < |s.startups|
  {
    s.(startups := s.startups[k := x])
  }

  function Free(s: State, k: nat, pc: Pc): State
    requires k < |s.startups|
  {
    Set(s, k, Startup(pc, Freed)).(bad := s.bad || s.startups[k].table != Allocated || s.fds == Some(k))
  }

  /** ok is the answer of calloc or WSAStartup. */
  function Step(s: State, k: nat, ok: bool): State
    requires k < |s.startups| && !s.startups[k].pc.Returned?
  {
    match s.startups[k].pc
    case Entered => Set(s, k, if ok then Startup(HasTable, Allocated) else Startup(Returned(false), Unallocated))
    case HasTable => if ok then Set(s, k, Startup(Begun, Allocated)).(wsa := s.wsa + 1) else Free(s, k, Returned(false))
    case Begun =>
      if s.fds == None then Set(s, k, s.startups[k].(pc := Exchanged)).(fds := Some(k)) else Free(s, k, Exchanged)
    case Exchanged =>
      var s1 := Set(s, k, s.startups[k].(pc := Returned(true)));
      if !s.ready then s1.(ready := true)
      else s1.(wsa := if s.wsa == 0 then 0 else s.wsa - 1, bad := s.bad || s.wsa == 0)
  }

  /** The startup holds a reference on Winsock that it has not yet given up or passed on. */
  predicate Holds(x: Startup) { x.pc.Begun? || x.pc.Exchanged? }

  /** How many do. */
  function Holding(startups: seq<Startup>): nat {
    if startups == [] then 0
    else (if Holds(startups[0]) then 1 else 0) + Holding(startups[1..])
  }

  ghost predicate StartupOk(s: State, k: nat)
    requires k < |s.startups|
  {
    var x := s.startups[k];
    match x.pc
    case Entered => x.table == Unallocated && s.fds != Some(k)
    case HasTable => x.table == Allocated && s.fds != Some(k)
    case Begun => x.table == Allocated && s.fds != Some(k)
    case Exchanged => s.fds.Some? && x.table == if s.fds == Some(k) then Allocated else Freed
    case Returned(ok) =>
      if ok then s.ready && s.fds.Some? && x.table == if s.fds == Some(k) then Allocated else Freed
      else s.fds != Some(k) && x.table != Allocated
  }

  ghost predicate Inv(s: State) {
    && !s.bad && (s.ready ==> s.fds.Some?) && (s.fds.Some? ==> s.fds.value < |s.startups|)
    && (forall k: nat :: k < |s.startups| ==> StartupOk(s, k))
    && s.wsa == Holding(s.startups) + if s.ready then 1 else 0
  }

  /** The count after one startup has moved. */
  lemma {:induction false} HoldingUpdate(startups: seq<Startup>, k: nat, x: Startup)
    requires k < |startups|
    ensures Holding(startups[k := x]) - Holding(startups) ==
      (if Holds(x) then 1 else 0) - if Holds(startups[k]) then 1 else 0
  {
    if k > 0 {
      assert startups[k := x][1..] == startups[1..][k - 1 := x];
      HoldingUpdate(startups[1..], k - 1, x);
    } else {
      assert startups[k := x][1..] == startups[1..];
    }
  }

  lemma {:induction false} HoldingMember(startups: seq<Startup>, k: nat)
    requires k < |startups| && Holds(startups[k])
    ensures Holding(startups) > 0
  {
    if k == 0 {
    } else {
      HoldingMember(startups[1..], k - 1);
    }
  }

  lemma {:induction false} HoldingEnter(startups: seq<Startup>, x: Startup)
    requires x.pc == Entered
    ensures Holding(startups + [x]) == Holding(startups)
  {
    if startups == [] {
    } else {
      assert (startups + [x])[1..] == startups[1..] + [x];
      HoldingEnter(startups[1..], x);
    }
  }

  lemma StepInv(s: State, k: nat, ok: bool)
    requires Inv(s) && k < |s.startups| && !s.startups[k].pc.Returned?
    ensures Inv(Step(s, k, ok))
  {
    var s' := Step(s, k, ok);
    assert StartupOk(s, k);
    HoldingUpdate(s.startups, k, s'.startups[k]);
    if s.startups[k].pc.Exchanged? { HoldingMember(s.startups, k); }
    forall j: nat | j < |s'.startups| ensures StartupOk(s', j) {
      assert StartupOk(s, j);
    }
  }

  datatype Action = Enter | Move(k: nat, ok: bool)

  function After(s: State, run: seq<Action>): Option<State>
    decreases |run|
  {
    if run == [] then Some(s)
    else match run[0]
      case Enter => After(s.(startups := s.startups + [Startup(Entered, Unallocated)]), run[1..])
      case Move(k, ok) =>
        if k < |s.startups| && !s.startups[k].pc.Returned? then After(Step(s, k, ok), run[1..]) else None
  }

  lemma {:induction false} AfterInv(s: State, run: seq<Action>)
    requires Inv(s) && After(s, run).Some?
    ensures Inv(After(s, run).value)
    decreases |run|
  {
    if run == [] {
    } else {
      match run[0]
      case Enter =>
        var s' := s.(startups := s.startups + [Startup(Entered, Unallocated)]);
        HoldingEnter(s.startups, Startup(Entered, Unallocated));
        forall j: nat | j < |s'.startups| ensures StartupOk(s', j) {
          if j < |s.startups| { assert StartupOk(s, j); }
        }
        AfterInv(s', run[1..]);
      case Move(k, ok) =>
        StepInv(s, k, ok);
        AfterInv(Step(s, k, ok), run[1..]);
    }
  }

  lemma {:induction false} HoldingNone(startups: seq<Startup>)
    requires forall k :: 0 <= k < |startups| ==> startups[k].pc.Returned?
    ensures Holding(startups) == 0
  {
    if startups == [] {
    } else {
      HoldingNone(startups[1..]);
    }
  }

  /** Whatever the interleaving, nothing is freed twice and the installed table never is; any
      startup that has succeeded finds a table installed and the flag set. Once all have returned,
      the installed table is the only one still allocated, there is one exactly if some startup
      succeeded, and then exactly one reference on Winsock is left, and otherwise none. */
  lemma OneTable(run: seq<Action>, s: State)
    requires After(INITIAL, run) == Some(s)
    ensures !s.bad && (s.fds.Some? ==> s.fds.value < |s.startups| && s.startups[s.fds.value].table == Allocated)
    ensures forall k :: 0 <= k < |s.startups| && s.startups[k].pc == Returned(true) ==> s.fds.Some? && s.ready
    ensures (forall k :: 0 <= k < |s.startups| ==> s.startups[k].pc.Returned?) ==>
      && (forall k :: 0 <= k < |s.startups| && s.startups[k].table == Allocated ==> s.fds == Some(k))
      && (s.fds.Some? <==> exists k :: 0 <= k < |s.startups| && s.startups[k].pc == Returned(true))
      && s.wsa == if s.fds.Some? then 1 else 0
  {
    AfterInv(INITIAL, run);
    forall k | 0 <= k < |s.startups|
      ensures s.startups[k].pc == Returned(true) ==> s.fds.Some? && s.ready
      ensures s.startups[k].pc.Returned? && s.startups[k].table == Allocated ==> s.fds == Some(k)
    {
      assert StartupOk(s, k);
    }
    if s.fds.Some? { assert StartupOk(s, s.fds.value); }
    if forall k :: 0 <= k < |s.startups| ==> s.startups[k].pc.Returned? {
      HoldingNone(s.startups);
      if s.fds.Some? { assert s.startups[s.fds.value].pc == Returned(true); }
    }
  }
}
