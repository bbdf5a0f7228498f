/** The registration table and the readiness scan of src/epoll.c. */
module Epoll {
  import opened Options

  datatype Errno = EBADF | EEXIST | EINVAL | ENOENT | ENOSPC | SelectError

  /** Beyond says that the source reads past its arrays; what it then does is not known. */
  datatype Result = Ok | Error(errno: Errno) | Beyond

  /** EPOLLIN, EPOLLERR, the bits that epoll_wait does not look at, and the caller's data. */
  datatype Event = Event(rd: bool, ex: bool, other: nat, data: int)

  datatype Op = Add | Del | Unknown

  /** What select answers: an error, or the ready sockets of each set. It returns the sum of the sizes
      of the two sets. */
  datatype Answer = Failed | Selected(rd: set<nat>, ex: set<nat>)

  // ----- counting the slots in use -----

  /** The sockets in the slots. */
  ghost function Sockets(slots: seq<Option<nat>>): set<nat> {
    set i | 0 <= i < |slots| && slots[i].Some? :: slots[i].value
  }

  ghost predicate Distinct(slots: seq<Option<nat>>) {
    forall i, j :: 0 <= i < j < |slots| && slots[i].Some? ==> slots[i] != slots[j]
  }

  /** Distinct sockets fill the table exactly when there are as many as slots. */
  lemma {:induction false} FullIff(slots: seq<Option<nat>>)
    requires Distinct(slots)
    ensures |Sockets(slots)| <= |slots|
    ensures |Sockets(slots)| == |slots| <==> forall i :: 0 <= i < |slots| ==> slots[i].Some?
  {
    if slots == [] {
    } else {
      var n := |slots| - 1;
      FullIff(slots[..n]);
      if slots[n].Some? {
        assert Sockets(slots) == Sockets(slots[..n]) + {slots[n].value};
        assert slots[n].value !in Sockets(slots[..n]);
      } else {
        assert Sockets(slots) == Sockets(slots[..n]);
      }
    }
  }

  // ----- the order of the scan -----

  predicate Ready(slots: seq<Option<nat>>, i: nat, rd: set<nat>, ex: set<nat>)
    requires i < |slots|
  {
    slots[i].Some? && (slots[i].value in rd || slots[i].value in ex)
  }

  /** The ready slots from lo up to hi, in order. */
  function ReadySlots(slots: seq<Option<nat>>, lo: nat, hi: nat, rd: set<nat>, ex: set<nat>): seq<nat>
    requires hi <= |slots|
    decreases hi
  {
    if hi <= lo then []
    else if Ready(slots, hi - 1, rd, ex) then ReadySlots(slots, lo, hi - 1, rd, ex) + [hi - 1]
    else ReadySlots(slots, lo, hi - 1, rd, ex)
  }

  lemma {:induction false} ReadyMembers(slots: seq<Option<nat>>, lo: nat, hi: nat, rd: set<nat>, ex: set<nat>)
    requires hi <= |slots|
    ensures var r := ReadySlots(slots, lo, hi, rd, ex);
      && (forall k :: k in r <==> lo <= k < hi && Ready(slots, k, rd, ex))
      && (forall j :: 0 <= j < |r| ==> r[j] in r)
      && (forall j, k :: 0 <= j < k < |r| ==> r[j] < r[k])
    decreases hi
  {
    if hi <= lo {
    } else {
      ReadyMembers(slots, lo, hi - 1, rd, ex);
      var q, r := ReadySlots(slots, lo, hi - 1, rd, ex), ReadySlots(slots, lo, hi, rd, ex);
      hide ReadySlots;
      if !Ready(slots, hi - 1, rd, ex) {
        assert r == q;
      }
    }
  }

  /** The scan of epoll_wait: from start to the end of the table, and then up to start. */
  function Rotation(slots: seq<Option<nat>>, start: nat, maxcount: nat, rd: set<nat>, ex: set<nat>): seq<nat>
    requires start <= |slots| && maxcount <= |slots|
  {
    ReadySlots(slots, start, maxcount, rd, ex) + ReadySlots(slots, 0, start, rd, ex)
  }

  /** The scan visits every ready socket, and each of them once. */
  lemma RotationComplete(slots: seq<Option<nat>>, start: nat, maxcount: nat, rd: set<nat>, ex: set<nat>)
    requires start <= |slots| && maxcount <= |slots| && Distinct(slots)
    requires forall i :: maxcount <= i < |slots| ==> slots[i] == None
    requires rd + ex <= Sockets(slots)
    ensures var r := Rotation(slots, start, maxcount, rd, ex);
      && (forall j, k :: 0 <= j < k < |r| ==> r[j] != r[k])
      && (forall i :: i in r <==> 0 <= i < |slots| && Ready(slots, i, rd, ex))
      && |r| == |rd + ex|
  {
    var r := Rotation(slots, start, maxcount, rd, ex);
    ReadyMembers(slots, start, maxcount, rd, ex);
    ReadyMembers(slots, 0, start, rd, ex);
    assert forall i :: 0 <= i < |slots| && Ready(slots, i, rd, ex) ==> i < maxcount;
    SameCount(slots, r, rd, ex);
  }

  /** The sockets in the slots listed. */
  ghost function SocketsAt(slots: seq<Option<nat>>, r: seq<nat>): set<nat>
    requires forall j :: 0 <= j < |r| ==> r[j] < |slots| && slots[r[j]].Some?
  {
    if r == [] then {} else SocketsAt(slots, r[1..]) + {slots[r[0]].value}
  }

  lemma {:induction false} SocketsAtMember(slots: seq<Option<nat>>, r: seq<nat>, v: nat)
    requires forall j :: 0 <= j < |r| ==> r[j] < |slots| && slots[r[j]].Some?
    ensures v in SocketsAt(slots, r) <==> exists j :: 0 <= j < |r| && slots[r[j]].value == v
  {
    if r == [] {
    } else {
      SocketsAtMember(slots, r[1..], v);
      if exists j :: 0 <= j < |r| && slots[r[j]].value == v {
        var j :| 0 <= j < |r| && slots[r[j]].value == v;
        if j > 0 { assert slots[r[1..][j - 1]].value == v; }
      }
    }
  }

  /** Distinct slots hold as many sockets. */
  lemma {:induction false} SocketsAtSize(slots: seq<Option<nat>>, r: seq<nat>)
    requires Distinct(slots)
    requires forall j, k :: 0 <= j < k < |r| ==> r[j] != r[k]
    requires forall j :: 0 <= j < |r| ==> r[j] < |slots| && slots[r[j]].Some?
    ensures |SocketsAt(slots, r)| == |r|
  {
    if r == [] {
    } else {
      var v := slots[r[0]].value;
      SocketsAtSize(slots, r[1..]);
      SocketsAtMember(slots, r[1..], v);
      assert forall j :: 0 <= j < |r[1..]| ==> r[1..][j] == r[j + 1] && slots[r[j + 1]] != slots[r[0]];
    }
  }

  /** As many distinct ready slots as ready sockets. */
  lemma SameCount(slots: seq<Option<nat>>, r: seq<nat>, rd: set<nat>, ex: set<nat>)
    requires Distinct(slots) && rd + ex <= Sockets(slots)
    requires forall j, k :: 0 <= j < k < |r| ==> r[j] != r[k]
    requires forall i :: i in r <==> 0 <= i < |slots| && Ready(slots, i, rd, ex)
    ensures |r| == |rd + ex|
  {
    assert forall j :: 0 <= j < |r| ==> r[j] in r;
    SocketsAtSize(slots, r);
    forall v: nat ensures v in SocketsAt(slots, r) <==> v in rd + ex {
      SocketsAtMember(slots, r, v);
      if v in rd + ex {
        var k :| 0 <= k < |slots| && slots[k].Some? && slots[k].value == v;
        assert Ready(slots, k, rd, ex);
        var j :| 0 <= j < |r| && r[j] == k;
      }
    }
    assert SocketsAt(slots, r) == rd + ex;
  }

  function Min(a: int, b: int): int { if a < b then a else b }

  /** What epoll_wait says of slot i. */
  function EventOf(events: seq<Event>, slots: seq<Option<nat>>, i: nat, rd: set<nat>, ex: set<nat>): Event
    requires i < |slots| == |events| && slots[i].Some?
  {
    Event(slots[i].value in rd, slots[i].value in ex, 0, events[i].data)
  }

  /** Positions n up to m of the output report the first slots of the order, each with what is ready
      of it. */
  ghost predicate Reported(out: seq<Event>, n: nat, m: nat, order: seq<nat>,
                           events: seq<Event>, slots: seq<Option<nat>>, rd: set<nat>, ex: set<nat>)
  {
    && n <= m <= |out| && m - n <= |order| && |slots| == |events|
    && forall j :: 0 <= j < m - n ==>
      order[j] < |slots| && slots[order[j]].Some? && out[n + j] == EventOf(events, slots, order[j], rd, ex)
  }

  /** Nothing changed outside positions n up to m. */
  ghost predicate Same(out: seq<Event>, was: seq<Event>, n: nat, m: nat) {
    |out| == |was| && forall k :: 0 <= k < |out| && (k < n || m <= k) ==> out[k] == was[k]
  }

  lemma SameNow(out: seq<Event>)
    ensures Same(out, out, 0, 0)
  {
  }

  lemma SameJoin(out0: seq<Event>, out1: seq<Event>, out2: seq<Event>, m: nat, n: nat)
    requires Same(out1, out0, 0, m) && Same(out2, out1, m, n) && m <= n
    ensures Same(out2, out0, 0, n)
  {
  }

  lemma ReportedNext(out: seq<Event>, n: nat, m: nat, order: seq<nat>,
                     events: seq<Event>, slots: seq<Option<nat>>, rd: set<nat>, ex: set<nat>)
    requires Reported(out, n, m, order, events, slots, rd, ex)
    requires m < |out| && n <= m < n + |order| && order[m - n] < |slots| && slots[order[m - n]].Some?
    ensures Reported(out[m := EventOf(events, slots, order[m - n], rd, ex)], n, m + 1, order, events, slots, rd, ex)
  {
  }

  /** The two loops together follow the rotation. */
  lemma RotationReported(out1: seq<Event>, out2: seq<Event>, m: nat, n: nat,
                         events: seq<Event>, slots: seq<Option<nat>>, start: nat, maxcount: nat,
                         rd: set<nat>, ex: set<nat>, limit: nat)
    requires start <= |slots| && maxcount <= |slots|
    requires Reported(out1, 0, m, ReadySlots(slots, start, maxcount, rd, ex), events, slots, rd, ex)
    requires Reported(out2, m, n, ReadySlots(slots, 0, start, rd, ex), events, slots, rd, ex)
    requires Same(out2, out1, m, n)
    requires m == Min(limit, |ReadySlots(slots, start, maxcount, rd, ex)|)
    requires n == m + Min(limit - m, |ReadySlots(slots, 0, start, rd, ex)|)
    ensures n == Min(limit, |Rotation(slots, start, maxcount, rd, ex)|)
    ensures Reported(out2, 0, n, Rotation(slots, start, maxcount, rd, ex), events, slots, rd, ex)
  {
    hide ReadySlots;
    var a, r := ReadySlots(slots, start, maxcount, rd, ex), Rotation(slots, start, maxcount, rd, ex);
    assert m < n ==> m == |a|;
    assert forall k :: 0 <= k < m ==> r[k] == a[k];
    forall j | 0 <= j < n
      ensures r[j] < |slots| && slots[r[j]].Some? && out2[j] == EventOf(events, slots, r[j], rd, ex)
    {
      if j < m { assert out1[0 + j] == out2[j]; } else { assert out2[m + (j - m)] == out2[j]; }
    }
  }

  // ----- the table as a finite map -----

  /** The slots hold exactly the registrations; slot says where each one is. */
  ghost predicate Represents(slots: seq<Option<nat>>, events: seq<Event>, maxcount: nat,
                             m: map<nat, Event>, slot: map<nat, nat>)
  {
    && |slots| == |events| && maxcount <= |slots| && m.Keys == slot.Keys
    && (forall i: nat :: maxcount <= i < |slots| ==> slots[i] == None)
    && (forall i: nat :: i < |slots| && slots[i].Some? ==>
        slots[i].value in slot && slot[slots[i].value] == i && m[slots[i].value] == events[i])
    && (forall v :: v in slot ==> slot[v] < |slots| && slots[slot[v]] == Some(v))
  }

  lemma RepresentsBounds(slots: seq<Option<nat>>, events: seq<Event>, maxcount: nat,
                         m: map<nat, Event>, slot: map<nat, nat>)
    requires Represents(slots, events, maxcount, m, slot)
    ensures |slots| == |events| && maxcount <= |slots| && m.Keys == slot.Keys
  {
  }

  /** A search below maxcount finds exactly the sockets of the map. */
  lemma RepresentsFound(slots: seq<Option<nat>>, events: seq<Event>, maxcount: nat,
                        m: map<nat, Event>, slot: map<nat, nat>, v: nat, i: nat)
    requires Represents(slots, events, maxcount, m, slot) && i <= maxcount <= |slots|
    requires (i < maxcount ==> slots[i] == Some(v)) && forall k :: 0 <= k < i ==> slots[k] != Some(v)
    ensures v in m <==> i < maxcount
    ensures v in m ==> v in slot && slot[v] == i
  {
  }

  lemma RepresentsInserted(slots: seq<Option<nat>>, events: seq<Event>, maxcount: nat,
                           m: map<nat, Event>, slot: map<nat, nat>, i: nat, v: nat, e: Event)
    requires Represents(slots, events, maxcount, m, slot) && i < |slots| && slots[i] == None && v !in m
    ensures Represents(
      slots[i := Some(v)], events[i := e], if i >= maxcount then i + 1 else maxcount, m[v := e], slot[v := i])
  {
  }

  lemma RepresentsRemoved(slots: seq<Option<nat>>, events: seq<Event>, maxcount: nat,
                          m: map<nat, Event>, slot: map<nat, nat>, v: nat)
    requires Represents(slots, events, maxcount, m, slot) && v in m
    ensures slot[v] < maxcount
    ensures Represents(
      slots[slot[v] := None], events, if slot[v] == maxcount - 1 then maxcount - 1 else maxcount, m - {v}, slot - {v})
  {
  }

  /** No two slots hold the same socket, and the table is full exactly when the map has as many
      entries as there are slots. */
  lemma RepresentsDistinct(slots: seq<Option<nat>>, events: seq<Event>, maxcount: nat,
                           m: map<nat, Event>, slot: map<nat, nat>)
    requires Represents(slots, events, maxcount, m, slot)
    ensures Distinct(slots) && Sockets(slots) == m.Keys && |m| <= |slots|
    ensures |m| == |slots| <==> forall i :: 0 <= i < |slots| ==> slots[i].Some?
  {
    assert Sockets(slots) == m.Keys by {
      forall v | v in slot ensures v in Sockets(slots) {
        assert slots[slot[v]] == Some(v);
      }
    }
    FullIff(slots);
    assert |m| == |m.Keys|;
  }

  /** The scan finds as many slots as sockets are ready, which is at most what select returns. */
  lemma RotationLength(slots: seq<Option<nat>>, events: seq<Event>, maxcount: nat,
                       m: map<nat, Event>, slot: map<nat, nat>, start: nat, rd: set<nat>, ex: set<nat>)
    requires Represents(slots, events, maxcount, m, slot) && start <= |slots| && rd + ex <= m.Keys
    ensures maxcount <= |slots| == |events|
    ensures |Rotation(slots, start, maxcount, rd, ex)| == |rd + ex| <= |rd| + |ex|
  {
    RepresentsDistinct(slots, events, maxcount, m, slot);
    RotationComplete(slots, start, maxcount, rd, ex);
    UnionSize(rd, ex);
  }

  /** Nothing registered that select could report. */
  ghost predicate Idle(m: map<nat, Event>) {
    forall v :: v in m ==> !m[v].rd && !m[v].ex
  }

  class Table {
    const socket: array<Option<nat>>
    const event: array<Event>
    var start: nat
    var maxcount: nat
    /** The registrations, and the slot of each. */
    ghost var registered: map<nat, Event>
    ghost var slot: map<nat, nat>

    ghost predicate Valid()
      reads this, socket, event
    {
      socket != event as object && Represents(socket[..], event[..], maxcount, registered, slot)
    }

    /** wpdk_allocate_epoll, for a table of the given size. */
    constructor (size: nat, blank: Event)
      ensures Valid() && fresh(socket) && fresh(event) && socket.Length == size
      ensures registered == map[] && start == 0
    {
      socket := new Option<nat>[size](_ => None);
      event := new Event[size](_ => blank);
      start, maxcount := 0, 0;
      registered, slot := map[], map[];
    }

    /** The first slot below bound that holds x, or bound. */
    method Find(x: Option<nat>, bound: nat) returns (i: nat)
      requires bound <= socket.Length
      ensures i <= bound && (i < bound ==> socket[i] == x)
      ensures forall k :: 0 <= k < i ==> socket[k] != x
    {
      i := 0;
      while i < bound
        invariant i <= bound && forall k :: 0 <= k < i ==> socket[k] != x
      {
        if socket[i] == x {
          return;
        }
        i := i + 1;
      }
    }

    method Insert(v: nat, e: Event) returns (r: Result)
      requires Valid()
      modifies this, socket, event
      ensures Valid() && start == old(start)
      ensures r == if v in old(registered) then Error(EEXIST)
                   else if |old(registered)| == socket.Length then Error(ENOSPC)
                   else Ok
      ensures registered == if r == Ok then old(registered)[v := e] else old(registered)
    {
      ghost var slots, events := socket[..], event[..];
      hide Represents, Distinct, Sockets;
      RepresentsBounds(slots, events, maxcount, registered, slot);
      RepresentsDistinct(slots, events, maxcount, registered, slot);
      var i := Find(Some(v), maxcount);
      RepresentsFound(slots, events, maxcount, registered, slot, v, i);
      if i < maxcount {
        return Error(EEXIST);
      }
      i := Find(None, socket.Length);
      if i >= socket.Length {
        return Error(ENOSPC);
      }
      Fill(i, v, e);
      return Ok;
    }

    /** Register in a free slot. */
    method Fill(i: nat, v: nat, e: Event)
      requires Valid() && i < socket.Length == event.Length && socket[i] == None && v !in registered
      modifies this, socket, event
      ensures Valid() && start == old(start) && registered == old(registered)[v := e]
    {
      hide Represents;
      ghost var slots, events := socket[..], event[..];
      RepresentsInserted(slots, events, maxcount, registered, slot, i, v, e);
      if i >= maxcount {
        maxcount := i + 1;
      }
      socket[i] := Some(v);
      assert socket[..] == slots[i := Some(v)];
      event[i] := e;
      assert event[..] == events[i := e];
      registered, slot := registered[v := e], slot[v := i];
    }

    method Remove(v: nat) returns (r: Result)
      requires Valid()
      modifies this, socket
      ensures Valid() && start == old(start)
      ensures r == if v in old(registered) then Ok else Error(ENOENT)
      ensures registered == old(registered) - {v}
    {
      hide Represents;
      ghost var slots := socket[..];
      RepresentsBounds(slots, event[..], maxcount, registered, slot);
      var i := Find(Some(v), maxcount);
      RepresentsFound(slots, event[..], maxcount, registered, slot, v, i);
      if i >= maxcount {
        return Error(ENOENT);
      }
      RepresentsRemoved(slots, event[..], maxcount, registered, slot, v);
      if i == maxcount - 1 {
        maxcount := maxcount - 1;
      }
      socket[i] := None;
      registered, slot := registered - {v}, slot - {v};
      assert socket[..] == slots[i := None];
      return Ok;
    }

    /** wpdk_epoll_ctl on a socket descriptor (None if it is not one) and an event pointer. */
    method Ctl(op: Op, fd: Option<nat>, e: Option<Event>) returns (r: Result)
      requires Valid()
      modifies this, socket, event
      ensures Valid() && start == old(start)
      ensures r == CtlResult(old(registered), socket.Length, op, fd, e)
      ensures registered == CtlTable(old(registered), socket.Length, op, fd, e)
    {
      hide Represents;
      if fd == None {
        return Error(EBADF);
      }
      match op {
        case Add =>
          if e == None {
            return Error(EINVAL);
          }
          r := Insert(fd.value, e.value);
        case Del =>
          r := Remove(fd.value);
        case Unknown =>
          return Error(EINVAL);
      }
    }

    /** The sets given to select. */
    method Interest() returns (rd: set<nat>, ex: set<nat>)
      requires Valid()
      ensures rd == (set v | v in registered && registered[v].rd)
      ensures ex == (set v | v in registered && registered[v].ex)
    {
      rd, ex := {}, {};
      var i := 0;
      while i < maxcount
        invariant i <= maxcount
        invariant forall v :: v in rd <==> v in slot && slot[v] < i && registered[v].rd
        invariant forall v :: v in ex <==> v in slot && slot[v] < i && registered[v].ex
      {
        if socket[i].Some? {
          if event[i].rd {
            rd := rd + {socket[i].value};
          }
          if event[i].ex {
            ex := ex + {socket[i].value};
          }
        }
        i := i + 1;
      }
    }

    /** Whether there is anything to ask select about. */
    method WorkToDo() returns (work: bool)
      requires Valid()
      ensures work <==> !Idle(registered)
    {
      hide Represents;
      var rd, ex := Interest();
      work := rd != {} || ex != {};
      if work {
        var v :| v in rd || v in ex;
      } else {
        assert forall v :: v in registered && (registered[v].rd || registered[v].ex) ==> v in rd || v in ex;
      }
    }

    /** Report slot i if it is ready. */
    method Visit(i: nat, rd: set<nat>, ex: set<nat>, out: array<Event>, n: nat) returns (m: nat)
      requires i < socket.Length == event.Length && n < out.Length && out != event
      modifies out
      ensures m == n + if Ready(socket[..], i, rd, ex) then 1 else 0
      ensures out[..] ==
        if Ready(socket[..], i, rd, ex) then old(out[..])[n := EventOf(event[..], socket[..], i, rd, ex)]
        else old(out[..])
    {
      m := n;
      if socket[i].Some? {
        var r, x := socket[i].value in rd, socket[i].value in ex;
        if r || x {
          out[n] := Event(r, x, 0, event[i].data);
          m := n + 1;
        }
      }
    }

    /** One of the two loops of epoll_wait: report the ready slots from lo up to hi after the n events
        already there, while fewer than limit. */
    method Collect(lo: nat, hi: nat, rd: set<nat>, ex: set<nat>, out: array<Event>, n: nat, limit: nat)
      returns (m: nat)
      requires hi <= socket.Length == event.Length && n <= limit <= out.Length && out != event
      modifies out
      ensures m == n + Min(limit - n, |ReadySlots(socket[..], lo, hi, rd, ex)|)
      ensures Same(out[..], old(out[..]), n, m)
      ensures Reported(out[..], n, m, ReadySlots(socket[..], lo, hi, rd, ex), event[..], socket[..], rd, ex)
    {
      m := n;
      var i := lo;
      ghost var slots, events := socket[..], event[..];
      ghost var order := ReadySlots(slots, lo, hi, rd, ex);
      ghost var was := out[..];
      while i < hi && m < limit
        invariant lo <= i && (i <= hi || i == lo) && n <= m <= limit
        invariant m - n == |ReadySlots(slots, lo, if i <= hi then i else hi, rd, ex)| <= |order|
        invariant Same(out[..], was, n, m)
        invariant Reported(out[..], n, m, order, events, slots, rd, ex)
        decreases hi - i
      {
        ReadyNext(slots, lo, i, hi, rd, ex);
        hide ReadySlots, Reported, Ready;
        if Ready(slots, i, rd, ex) { ReportedNext(out[..], n, m, order, events, slots, rd, ex); }
        m := Visit(i, rd, ex, out, m);
        i := i + 1;
      }
    }

    /** The two loops, with a starting point inside the table. */
    method Scan(out: array<Event>, from: nat, rd: set<nat>, ex: set<nat>, limit: nat) returns (n: nat)
      requires from <= socket.Length == event.Length && maxcount <= socket.Length && limit <= out.Length && out != event
      modifies out
      ensures n == Min(limit, |Rotation(socket[..], from, maxcount, rd, ex)|) && Same(out[..], old(out[..]), 0, n)
      ensures Reported(out[..], 0, n, Rotation(socket[..], from, maxcount, rd, ex), event[..], socket[..], rd, ex)
    {
      hide ReadySlots, Rotation, Reported, Same;
      ghost var slots, events, out0 := socket[..], event[..], out[..];
      var m := Collect(from, maxcount, rd, ex, out, 0, limit);
      ghost var out1 := out[..];
      assert socket[..] == slots && event[..] == events;
      n := Collect(0, from, rd, ex, out, m, limit);
      assert socket[..] == slots && event[..] == events;
      RotationReported(out1, out[..], m, n, events, slots, from, maxcount, rd, ex, limit);
      SameJoin(out0, out1, out[..], m, n);
    }

    /** What epoll_wait does after select. Each ready socket is counted in rc, so that the limit rc
        never cuts the scan short. From a starting point beyond the table the first loop finds nothing,
        and the second goes on past the last slot if a limit has not stopped it there. */
    method Report(out: array<Event>, maxevents: nat, rd: set<nat>, ex: set<nat>) returns (r: Result, n: nat)
      requires Valid() && out != event && maxevents <= out.Length
      requires rd + ex <= registered.Keys
      modifies this`start, out
      ensures Valid() && n == Min(maxevents, |rd + ex|) && Same(out[..], old(out[..]), 0, n)
      ensures r == if Leaves(old(start), socket.Length, maxevents, rd, ex) then Beyond else Ok
      ensures start == old(start) + (if r == Ok && n < |rd| + |ex| then 1 else 0)
      ensures |Rotation(socket[..], Min(old(start), socket.Length), maxcount, rd, ex)| == |rd + ex|
      ensures Reported(out[..], 0, n, Rotation(socket[..], Min(old(start), socket.Length), maxcount, rd, ex),
                       event[..], socket[..], rd, ex)
    {
      var rc, from := |rd| + |ex|, Min(start, socket.Length);
      ghost var slots, events := socket[..], event[..];
      hide Represents, Rotation, Reported, Same;
      RotationLength(slots, events, maxcount, registered, slot, from, rd, ex);
      UnionSize(rd, ex);
      var limit := Min(maxevents, rc);
      n := Scan(out, from, rd, ex, limit);
      assert socket[..] == slots && event[..] == events;
      if start > socket.Length && n < limit {
        return Beyond, n;
      }
      if rc > n {
        start := start + 1;
      }
      r := Ok;
    }

    /** wpdk_epoll_wait, with the timeout, whether events is null, and the answer of select. */
    method Wait(out: array?<Event>, maxevents: int, timeout: int, answer: Answer) returns (r: Result, n: nat)
      requires Valid() && out != event
      requires out != null ==> maxevents <= out.Length
      requires answer.Selected? ==>
        && answer.rd <= (set v | v in registered && registered[v].rd)
        && answer.ex <= (set v | v in registered && registered[v].ex)
      modifies this`start, out
      ensures Valid() && (out != null ==> Same(out[..], old(out[..]), 0, n))
      ensures timeout != 0 || out == null || maxevents < 1 ==> r == Error(EINVAL) && n == 0 && start == old(start)
      ensures timeout == 0 && out != null && maxevents >= 1 ==>
        if Idle(registered) then r == Ok && n == 0 && start == old(start)
        else if answer.Failed? then r == Error(SelectError) && n == 0 && start == old(start)
        else
          && r == (if Leaves(old(start), socket.Length, maxevents, answer.rd, answer.ex) then Beyond else Ok)
          && n == Min(maxevents, |answer.rd + answer.ex|)
          && start == old(start) + (if r == Ok && n < |answer.rd| + |answer.ex| then 1 else 0)
          && var order := Rotation(socket[..], Min(old(start), socket.Length), maxcount, answer.rd, answer.ex);
          && |order| == |answer.rd + answer.ex|
          && Reported(out[..], 0, n, order, event[..], socket[..], answer.rd, answer.ex)
    {
      r, n := Ok, 0;
      if out != null { SameNow(out[..]); }
      if timeout != 0 || out == null || maxevents < 1 {
        return Error(EINVAL), 0;
      }
      hide Represents, Reported, Rotation, Leaves, Same, Idle;
      var work := WorkToDo();
      if !work {
        return;
      }
      if answer.Failed? {
        return Error(SelectError), 0;
      }
      r, n := Report(out, maxevents, answer.rd, answer.ex);
    }

    /** Any calls of epoll_ctl and epoll_wait on a new table, until one leaves it. */
    method RunAll(out: array<Event>, steps: seq<Step>) returns (done: nat)
      requires Valid() && out != event && start == 0 && Feasible(registered, socket.Length, out.Length, steps)
      modifies this, socket, event, out
      ensures Valid() && done <= |steps|
      ensures start == StartAfter(Rounds(steps[..done]))
      ensures registered == MapAfter(old(registered), socket.Length, steps[..done])
      ensures forall k :: 0 <= k < done ==> !LeavesAt(steps, k, socket.Length)
      ensures done < |steps| ==> LeavesAt(steps, done, socket.Length)
    {
      hide Represents, Reported, Rotation, Same, CtlTable, CtlResult, MapAfter, Rounds, StartAfter, Idle, Leaves;
      NothingRun(registered, socket.Length, steps);
      done := 0;
      ghost var m := registered;
      while done < |steps|
        invariant Valid() && done <= |steps| && start == StartAfter(Rounds(steps[..done]))
        invariant registered == MapAfter(m, socket.Length, steps[..done])
        invariant forall k :: 0 <= k < done ==> !LeavesAt(steps, k, socket.Length)
      {
        StepRun(m, socket.Length, steps, done);
        match steps[done] {
          case Control(op, fd, e) =>
            var _ := Ctl(op, fd, e);
          case Poll(x) =>
            assert Answers(x, registered);
            if Idle(registered) { IdleRound(x, registered, start, socket.Length); }
            var r, _ := Wait(out, x.maxevents, 0, Selected(x.rd, x.ex));
            if r == Beyond {
              return;
            }
        }
        done := done + 1;
      }
    }
  }

  /** The sets that select answers are of sockets it was asked about. */
  ghost predicate Answers(x: Round, m: map<nat, Event>) {
    x.rd <= (set v | v in m && m[v].rd) && x.ex <= (set v | v in m && m[v].ex)
  }

  /** From a starting point beyond the table, a scan leaves it exactly if the events fit and some
      socket was counted twice, so that not even the count of select stops it. */
  predicate Leaves(start: nat, size: nat, maxevents: int, rd: set<nat>, ex: set<nat>) {
    start > size && |rd + ex| < maxevents && rd * ex != {}
  }

  /** The result of epoll_ctl against a finite map. */
  function CtlResult(m: map<nat, Event>, size: nat, op: Op, fd: Option<nat>, e: Option<Event>): Result {
    if fd == None then Error(EBADF)
    else match op
      case Add =>
        if e == None then Error(EINVAL) else if fd.value in m then Error(EEXIST)
        else if |m| == size then Error(ENOSPC) else Ok
      case Del => if fd.value in m then Ok else Error(ENOENT)
      case Unknown => Error(EINVAL)
  }

  function CtlTable(m: map<nat, Event>, size: nat, op: Op, fd: Option<nat>, e: Option<Event>): map<nat, Event> {
    if CtlResult(m, size, op, fd, e) != Ok then m
    else if op == Add then m[fd.value := e.value] else m - {fd.value}
  }

  // ----- runs of calls -----

  /** A call of epoll_ctl, or one of epoll_wait that select answers. */
  datatype Step = Control(op: Op, fd: Option<nat>, e: Option<Event>) | Poll(round: Round)

  /** The registrations after the calls. */
  function MapAfter(m: map<nat, Event>, size: nat, steps: seq<Step>): map<nat, Event> {
    if steps == [] then m
    else
      var before := MapAfter(m, size, steps[..|steps| - 1]);
      match steps[|steps| - 1]
      case Control(op, fd, e) => CtlTable(before, size, op, fd, e)
      case Poll(_) => before
  }

  /** The calls of epoll_wait among them. */
  function Rounds(steps: seq<Step>): seq<Round> {
    if steps == [] then []
    else
      var before := Rounds(steps[..|steps| - 1]);
      match steps[|steps| - 1]
      case Control(_, _, _) => before
      case Poll(x) => before + [x]
  }

  /** Each answer is one that select can give, and the events fit into a buffer of the given length. */
  ghost predicate Feasible(m: map<nat, Event>, size: nat, room: nat, steps: seq<Step>) {
    forall k :: 0 <= k < |steps| && steps[k].Poll? ==>
      Answers(steps[k].round, MapAfter(m, size, steps[..k])) && 1 <= steps[k].round.maxevents <= room
  }

  /** Call k scans past the arrays. */
  predicate LeavesAt(steps: seq<Step>, k: nat, size: nat)
    requires k < |steps|
  {
    && steps[k].Poll?
    && var x := steps[k].round; Leaves(StartAfter(Rounds(steps[..k])), size, x.maxevents, x.rd, x.ex)
  }

  lemma NothingRun(m: map<nat, Event>, size: nat, steps: seq<Step>)
    ensures MapAfter(m, size, steps[..0]) == m && StartAfter(Rounds(steps[..0])) == 0
  {
    assert steps[..0] == [];
  }

  /** What one more call changes. */
  lemma StepRun(m: map<nat, Event>, size: nat, steps: seq<Step>, k: nat)
    requires k < |steps|
    ensures var before, start := MapAfter(m, size, steps[..k]), StartAfter(Rounds(steps[..k]));
      match steps[k]
      case Control(op, fd, e) =>
        && MapAfter(m, size, steps[..k + 1]) == CtlTable(before, size, op, fd, e)
        && StartAfter(Rounds(steps[..k + 1])) == start
      case Poll(x) =>
        && MapAfter(m, size, steps[..k + 1]) == before
        && StartAfter(Rounds(steps[..k + 1])) ==
           start + if Min(x.maxevents, |x.rd + x.ex|) < |x.rd| + |x.ex| then 1 else 0
  {
    assert steps[..k + 1][..k] == steps[..k];
  }

  /** If there is nothing to ask about there is no answer either. */
  lemma IdleRound(x: Round, m: map<nat, Event>, start: nat, size: nat)
    requires Idle(m) && Answers(x, m)
    ensures x.rd == {} && x.ex == {} && !MovesOn(x) && !Leaves(start, size, x.maxevents, x.rd, x.ex)
  {
  }

  lemma {:induction false} Prefix(slots: seq<Option<nat>>, lo: nat, mid: nat, hi: nat, rd: set<nat>, ex: set<nat>)
    requires mid <= hi <= |slots|
    ensures ReadySlots(slots, lo, mid, rd, ex) <= ReadySlots(slots, lo, hi, rd, ex)
    decreases hi
  {
    if mid == hi {
    } else {
      Prefix(slots, lo, mid, hi - 1, rd, ex);
    }
  }

  /** Slot i comes next in the order if it is ready. */
  lemma ReadyNext(slots: seq<Option<nat>>, lo: nat, i: nat, hi: nat, rd: set<nat>, ex: set<nat>)
    requires lo <= i < hi <= |slots|
    ensures var n := |ReadySlots(slots, lo, i, rd, ex)|;
      if Ready(slots, i, rd, ex) then
        && |ReadySlots(slots, lo, i + 1, rd, ex)| == n + 1 <= |ReadySlots(slots, lo, hi, rd, ex)|
        && ReadySlots(slots, lo, hi, rd, ex)[n] == i
      else |ReadySlots(slots, lo, i + 1, rd, ex)| == n <= |ReadySlots(slots, lo, hi, rd, ex)|
  {
    Prefix(slots, lo, i + 1, hi, rd, ex);
  }

  lemma UnionSize(a: set<nat>, b: set<nat>)
    ensures |a + b| + |a * b| == |a| + |b|
    ensures |a + b| < |a| + |b| <==> a * b != {}
  {
    assert a + b == a + (b - a) && b == (b - a) + a * b;
    assert |b| == |b - a| + |a * b|;
  }

  /** The starting point moves on exactly if the events did not fit, or some socket was both readable
      and in error and so was counted twice. */
  lemma MovesOnIff(rd: set<nat>, ex: set<nat>, maxevents: nat)
    ensures Min(maxevents, |rd + ex|) < |rd| + |ex| <==> MovesOn(Round(maxevents, rd, ex))
  {
    UnionSize(rd, ex);
  }

  /** A call of epoll_wait that reached select. */
  datatype Round = Round(maxevents: nat, rd: set<nat>, ex: set<nat>)

  predicate MovesOn(x: Round) { x.maxevents < |x.rd| + |x.ex| || x.rd * x.ex != {} }

  /** The starting point after a run of such calls. */
  function StartAfter(rounds: seq<Round>): nat {
    if rounds == [] then 0
    else
      var x := rounds[|rounds| - 1];
      StartAfter(rounds[..|rounds| - 1]) + if Min(x.maxevents, |x.rd + x.ex|) < |x.rd| + |x.ex| then 1 else 0
  }

  /** The calls that move it on. */
  function Moving(rounds: seq<Round>): set<nat> {
    set k: nat | k < |rounds| && MovesOn(rounds[k])
  }

  lemma MovingNext(rounds: seq<Round>)
    requires rounds != []
    ensures var n := |rounds| - 1;
      n !in Moving(rounds[..n]) &&
      Moving(rounds) == if MovesOn(rounds[n]) then Moving(rounds[..n]) + {n} else Moving(rounds[..n])
  {
    hide MovesOn;
  }

  /** Nothing ever brings it back: it is the number of calls so far that moved it on. */
  lemma {:induction false} StartCounts(rounds: seq<Round>)
    ensures StartAfter(rounds) == |Moving(rounds)|
  {
    if rounds == [] {
    } else {
      var n := |rounds| - 1;
      var x := rounds[n];
      StartCounts(rounds[..n]);
      MovesOnIff(x.rd, x.ex, x.maxevents);
      hide Moving, MovesOn;
      MovingNext(rounds);
    }
  }

  lemma {:induction false} AllMoveOn(rounds: seq<Round>)
    requires forall k :: 0 <= k < |rounds| ==> MovesOn(rounds[k])
    ensures StartAfter(rounds) == |rounds|
  {
    if rounds == [] {
    } else {
      var n := |rounds| - 1;
      AllMoveOn(rounds[..n]);
      MovesOnIff(rounds[n].rd, rounds[n].ex, rounds[n].maxevents);
    }
  }

  /** So it is beyond a table exactly if more calls moved it on than there are slots, and there are
      such calls for every size of table: two ready sockets and room for one. */
  lemma StartEscapes(rounds: seq<Round>, size: nat)
    ensures StartAfter(rounds) > size <==> |Moving(rounds)| > size
    ensures StartAfter(seq(size + 1, _ => Round(1, {1, 2}, {}))) == size + 1
  {
    StartCounts(rounds);
    assert |{1, 2}| == 2;
    AllMoveOn(seq(size + 1, _ => Round(1, {1, 2}, {})));
  }

  /** One socket that is both readable and in error, and room for two events: it is counted twice. */
  const TWICE := Round(2, {1}, {1})

  /** A run that registers that socket and then polls n times. */
  function Polling(n: nat, e: Event): seq<Step> {
    [Control(Add, Some(1), Some(e))] + seq(n, _ => Poll(TWICE))
  }

  lemma {:induction false} PollingRun(n: nat, e: Event, size: nat, k: nat)
    requires size > 0 && 0 < k <= n + 1
    ensures MapAfter(map[], size, Polling(n, e)[..k]) == map[1 := e]
    ensures Rounds(Polling(n, e)[..k]) == seq(k - 1, _ => TWICE)
  {
    var steps := Polling(n, e);
    assert steps[..k][..k - 1] == steps[..k - 1];
    if k == 1 {
      assert steps[..k] == [Control(Add, Some(1), Some(e))] && steps[..0] == [];
    } else {
      PollingRun(n, e, size, k - 1);
      assert steps[..k][k - 1] == Poll(TWICE);
      assert seq(k - 2, _ => TWICE) + [TWICE] == seq(k - 1, _ => TWICE);
    }
  }

  /** In every table such a run leaves the arrays: the starting point passes each slot and then the end. */
  lemma LeavesRun(size: nat, e: Event)
    requires size > 0 && e.rd && e.ex
    ensures var steps := Polling(size + 2, e);
      Feasible(map[], size, 2, steps) && LeavesAt(steps, size + 2, size)
  {
    var steps := Polling(size + 2, e);
    forall k | 0 <= k < |steps| && steps[k].Poll?
      ensures Answers(steps[k].round, MapAfter(map[], size, steps[..k])) && 1 <= steps[k].round.maxevents <= 2
    {
      PollingRun(size + 2, e, size, k);
    }
    PollingRun(size + 2, e, size, size + 2);
    assert 1 in TWICE.rd * TWICE.ex;
    AllMoveOn(seq(size + 1, _ => TWICE));
  }

  lemma {:induction false} MapSize(m: map<nat, Event>, size: nat, steps: seq<Step>)
    requires |m| <= size
    ensures |MapAfter(m, size, steps)| <= size
  {
    if steps == [] {
    } else {
      MapSize(m, size, steps[..|steps| - 1]);
    }
  }

  /** So some run leaves the arrays exactly if the table has any slot. */
  lemma LeavesIff(size: nat)
    ensures size > 0 <==>
      exists steps: seq<Step>, k: nat, room: nat ::
        k < |steps| && Feasible(map[], size, room, steps) && LeavesAt(steps, k, size)
  {
    if size > 0 {
      var e := Event(true, true, 0, 0);
      LeavesRun(size, e);
      assert |Polling(size + 2, e)| == size + 3;
    } else {
      forall steps: seq<Step>, k: nat, room: nat |
        k < |steps| && Feasible(map[], size, room, steps) && LeavesAt(steps, k, size)
        ensures false
      {
        MapSize(map[], 0, steps[..k]);
        assert MapAfter(map[], 0, steps[..k]) == map[];
        IdleRound(steps[k].round, map[], StartAfter(Rounds(steps[..k])), size);
      }
    }
  }

  /** The source's tables have 64 slots where Winsock is left to choose. */
  lemma EscapesFromSixtyFour()
    ensures StartAfter(seq(65, _ => Round(1, {1, 2}, {}))) > 64
  {
    StartEscapes([], 64);
  }
}
