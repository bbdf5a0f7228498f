/** The intrusive tail queues of inc/sys/queue.h.

    A back link is the address of the pointer that points here: either a head's first field or
    an element's next field. In memory that pointer is followed by a second back link (the
    head's last field, the element's prev field), which is what the casts in TAILQ_LAST and
    TAILQ_PREV rely on. */
module TailQueue {

  /** The address of a pointer to an element; Unset is an uninitialised field. */
  datatype Link = Unset | FirstOf(head: Head) | NextOf(elem: Element)

  class Element {
    var next: Element?
    var prev: Link
  }

  /** *link */
  function Target(link: Link): Element?
    requires link != Unset
    reads if link.FirstOf? then {link.head as object} else if link.NextOf? then {link.elem} else {}
  {
    if link.FirstOf? then link.head.first else link.elem.next
  }

  /** The word after *link, that is ((struct head *)link)->tqh_last. */
  function SecondWord(link: Link): Link
    requires link != Unset
    reads if link.FirstOf? then {link.head as object} else if link.NextOf? then {link.elem} else {}
  {
    if link.FirstOf? then link.head.last else link.elem.prev
  }

  ghost predicate Distinct(s: seq<Element>) {
    forall i, j :: 0 <= i < j < |s| ==> s[i] != s[j]
  }

  ghost function Reversed<T>(s: seq<T>): (r: seq<T>)
    ensures |r| == |s| && forall i :: 0 <= i < |s| ==> r[i] == s[|s| - 1 - i]
  {
    if s == [] then [] else Reversed(s[1..]) + [s[0]]
  }

  ghost predicate Apart(s: seq<Element>, t: seq<Element>) {
    forall i, j :: 0 <= i < |s| && 0 <= j < |t| ==> s[i] != t[j]
  }

  ghost function Inserted(s: seq<Element>, k: nat, e: Element): (r: seq<Element>)
    requires k <= |s|
    ensures |r| == |s| + 1
    ensures forall i :: 0 <= i < |r| ==> r[i] == if i < k then s[i] else if i == k then e else s[i - 1]
  {
    s[..k] + [e] + s[k..]
  }

  lemma DistinctInserted(s: seq<Element>, k: nat, e: Element)
    requires Distinct(s) && e !in s && k <= |s|
    ensures Distinct(Inserted(s, k, e))
  {}

  lemma DistinctRemoved(s: seq<Element>, k: nat)
    requires Distinct(s) && k < |s|
    ensures Distinct(Removed(s, k)) && s[k] !in Removed(s, k)
  {}

  ghost function Removed(s: seq<Element>, k: nat): (r: seq<Element>)
    requires k < |s|
    ensures |r| == |s| - 1
    ensures forall i :: 0 <= i < |r| ==> r[i] == if i < k then s[i] else s[i + 1]
  {
    s[..k] + s[k + 1..]
  }

  /** The i-th element, or NULL after the last. */
  ghost function At(s: seq<Element>, i: nat): Element? {
    if i < |s| then s[i] else null
  }

  /** The address of the pointer to the i-th element. */
  ghost function LinkTo(h: Head, s: seq<Element>, i: nat): Link
    requires i <= |s|
  {
    if i == 0 then FirstOf(h) else NextOf(s[i - 1])
  }

  class Head {
    var first: Element?
    var last: Link
    ghost var elems: seq<Element>

    ghost predicate Valid()
      reads this, elems
    {
      Describes(elems)
    }

    /** The links describe exactly the sequence s. */
    ghost predicate Describes(s: seq<Element>)
      reads this, s
    {
      && Distinct(s) && first == At(s, 0) && last == LinkTo(this, s, |s|)
      && (forall i: nat {:trigger s[i].next} :: i < |s| ==> s[i].next == At(s, i + 1))
      && (forall i: nat {:trigger s[i].prev} :: i < |s| ==> s[i].prev == LinkTo(this, s, i))
    }

    /** The links determine the sequence: the ghost field is not a choice. */
    lemma DescribesOne(s: seq<Element>, t: seq<Element>)
      requires Describes(s) && Describes(t)
      ensures s == t
    {
      var k := 0;
      while k < |s|
        invariant k <= |s| && k <= |t| && s[..k] == t[..k] && At(s, k) == At(t, k)
      {
        assert s[k].next == t[k].next;
        k := k + 1;
      }
    }

    /** The links of a queue s with e spliced in before its k-th element. */
    ghost predicate Spliced(s: seq<Element>, k: nat, e: Element)
      requires k <= |s|
      reads this, s, e
    {
      && first == (if k == 0 then e else At(s, 0))
      && last == (if k == |s| then NextOf(e) else LinkTo(this, s, |s|))
      && e.next == At(s, k) && e.prev == LinkTo(this, s, k)
      && (forall i: nat {:trigger s[i].next} :: i < |s| ==> s[i].next == if i + 1 == k then e else At(s, i + 1))
      && (forall i: nat {:trigger s[i].prev} :: i < |s| ==>
          s[i].prev == if i == k then NextOf(e) else LinkTo(this, s, i))
    }

    lemma SplicedIsInserted(s: seq<Element>, k: nat, e: Element)
      requires k <= |s| && Distinct(s) && e !in s && elems == Inserted(s, k, e) && Spliced(s, k, e)
      ensures Valid()
    {
      DistinctInserted(s, k, e);
    }

    /** The links of a queue s around its k-th element. */
    ghost predicate Bypassed(s: seq<Element>, k: nat)
      requires k < |s|
      reads this, s
    {
      && first == (if k == 0 then At(s, 1) else At(s, 0))
      && last == (if k + 1 == |s| then LinkTo(this, s, k) else LinkTo(this, s, |s|))
      && (forall i: nat {:trigger s[i].next} :: i < |s| && i != k ==>
          s[i].next == At(s, if i + 1 == k then i + 2 else i + 1))
      && (forall i: nat {:trigger s[i].prev} :: i < |s| && i != k ==>
          s[i].prev == LinkTo(this, s, if i == k + 1 then k else i))
    }

    lemma BypassedIsRemoved(s: seq<Element>, k: nat)
      requires k < |s| && Distinct(s) && elems == Removed(s, k) && Bypassed(s, k)
      ensures Valid() && s[k] !in elems
    {
      DistinctRemoved(s, k);
    }

    /** TAILQ_INIT */
    method Init()
      modifies this
      ensures Valid() && elems == []
    {
      first := null;
      last := FirstOf(this);
      elems := [];
    }

    method InsertHead(e: Element)
      requires Valid() && e !in elems
      modifies this, elems, e
      ensures Valid() && elems == [e] + old(elems)
    {
      e.next := first;
      if e.next != null {
        first.prev := NextOf(e);
      } else {
        last := NextOf(e);
      }
      first := e;
      e.prev := FirstOf(this);
      elems := [e] + elems;
    }

    method InsertTail(e: Element)
      requires Valid() && e !in elems
      modifies this, elems, e
      ensures Valid() && elems == old(elems) + [e]
    {
      e.next := null;
      e.prev := last;
      match last {
        case FirstOf(h) => h.first := e;
        case NextOf(l) => l.next := e;
      }
      last := NextOf(e);
      elems := elems + [e];
    }

    method InsertAfter(at: Element, e: Element, ghost k: nat)
      requires Valid() && e !in elems && k < |elems| && elems[k] == at
      modifies this, elems, e
      ensures Valid() && elems == Inserted(old(elems), k + 1, e)
    {
      ghost var s := elems;
      e.next := at.next;
      if e.next != null {
        e.next.prev := NextOf(e);
      } else {
        last := NextOf(e);
      }
      at.next := e;
      e.prev := NextOf(at);
      assert Spliced(s, k + 1, e);
      elems := Inserted(s, k + 1, e);
      SplicedIsInserted(s, k + 1, e);
    }

    /** TAILQ_INSERT_BEFORE does not mention the head: it reaches head->first through the link. */
    method InsertBefore(at: Element, e: Element, ghost k: nat)
      requires Valid() && e !in elems && k < |elems| && elems[k] == at
      modifies this, elems, e
      ensures Valid() && elems == Inserted(old(elems), k, e)
    {
      ghost var s := elems;
      e.prev := at.prev;
      e.next := at;
      match at.prev {
        case FirstOf(h) => h.first := e;
        case NextOf(l) => l.next := e;
      }
      at.prev := NextOf(e);
      assert Spliced(s, k, e);
      elems := Inserted(s, k, e);
      SplicedIsInserted(s, k, e);
    }

    method Remove(e: Element, ghost k: nat)
      requires Valid() && k < |elems| && elems[k] == e
      modifies this, elems
      ensures Valid() && elems == Removed(old(elems), k) && e !in elems
    {
      ghost var s := elems;
      if e.next != null {
        e.next.prev := e.prev;
      } else {
        last := e.prev;
      }
      match e.prev {
        case FirstOf(h) => h.first := e.next;
        case NextOf(l) => l.next := e.next;
      }
      assert Bypassed(s, k);
      elems := Removed(s, k);
      BypassedIsRemoved(s, k);
    }

    /** TAILQ_CONCAT: append all of that, which becomes empty. */
    method Concat(that: Head)
      requires Valid() && that.Valid() && that != this
      requires Apart(elems, that.elems)
      modifies this, that, elems, that.elems
      ensures Valid() && elems == old(elems) + old(that.elems)
      ensures that.Valid() && that.elems == []
    {
      if that.first != null {
        match last {
          case FirstOf(h) => h.first := that.first;
          case NextOf(l) => l.next := that.first;
        }
        that.first.prev := last;
        last := that.last;
        elems := elems + that.elems;
        that.Init();
      }
    }

    method Swap(that: Head)
      requires Valid() && that.Valid() && that != this
      requires Apart(elems, that.elems)
      modifies this, that, elems, that.elems
      ensures Valid() && elems == old(that.elems)
      ensures that.Valid() && that.elems == old(elems)
    {
      var swapFirst, swapLast := first, last;
      first := that.first;
      last := that.last;
      that.first := swapFirst;
      that.last := swapLast;
      swapFirst := first;
      if swapFirst != null {
        swapFirst.prev := FirstOf(this);
      } else {
        last := FirstOf(this);
      }
      swapFirst := that.first;
      if swapFirst != null {
        swapFirst.prev := FirstOf(that);
      } else {
        that.last := FirstOf(that);
      }
      elems, that.elems := that.elems, elems;
    }

    /** TAILQ_LAST, by the cast. */
    method Last() returns (e: Element?)
      requires Valid()
      ensures e == if elems == [] then null else elems[|elems| - 1]
    {
      e := Target(SecondWord(last));
    }

    method LastFast() returns (e: Element?)
      requires Valid()
      ensures e == if elems == [] then null else elems[|elems| - 1]
    {
      e := if first == null then null else last.elem;
    }

    /** TAILQ_PREV, by the cast; at the first element it yields NULL. */
    method Prev(at: Element, ghost k: nat) returns (e: Element?)
      requires Valid() && k < |elems| && elems[k] == at
      ensures e == if k == 0 then null else elems[k - 1]
    {
      e := Target(SecondWord(at.prev));
    }

    method PrevFast(at: Element, ghost k: nat) returns (e: Element?)
      requires Valid() && k < |elems| && elems[k] == at
      ensures e == if k == 0 then null else elems[k - 1]
    {
      e := if at.prev == FirstOf(this) then null else at.prev.elem;
    }

    /** TAILQ_FOREACH */
    method Foreach() returns (visited: seq<Element>)
      requires Valid()
      ensures visited == elems
    {
      visited := [];
      var e := first;
      while e != null
        invariant |visited| <= |elems| && visited == elems[..|visited|] && e == At(elems, |visited|)
        decreases |elems| - |visited|
      {
        visited := visited + [e];
        e := e.next;
      }
    }

    /** TAILQ_FOREACH_REVERSE */
    method ForeachReverse() returns (visited: seq<Element>)
      requires Valid()
      ensures visited == Reversed(elems)
    {
      visited := [];
      var e := Last();
      ghost var k: nat := |elems|;
      while e != null
        invariant k <= |elems| && e == if k == 0 then null else elems[k - 1]
        invariant |visited| == |elems| - k
        invariant forall i :: 0 <= i < |visited| ==> visited[i] == elems[|elems| - 1 - i]
        decreases k
      {
        visited := visited + [e];
        k := k - 1;
        e := Prev(e, k);
      }
    }
  }
}
