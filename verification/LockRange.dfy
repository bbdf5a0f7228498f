/** The ranges of advisory file locks in src/fcntl.c, in 64-bit arithmetic that wraps around. */
module LockRange {
  import opened Options

  const INT64_MAX: int := 0x7fff_ffff_ffff_ffff
  const INT64_MIN: int := -INT64_MAX - 1
  const LOCKFILE_MAX: int := (INT64_MAX - 1) / 2
  const LOCKFILE_GUARD: int := INT64_MAX - LOCKFILE_MAX

  type Int64 = x: int | INT64_MIN <= x <= INT64_MAX

  /** Two's complement, for sums and negations that are out by one turn at most. */
  function Wrap(x: int): (r: Int64)
    requires 2 * INT64_MIN <= x <= 2 * INT64_MAX
    ensures r == x || r == x - 2 * (INT64_MAX + 1) || r == x + 2 * (INT64_MAX + 1)
  {
    if x > INT64_MAX then x - 2 * (INT64_MAX + 1) else if x < INT64_MIN then x + 2 * (INT64_MAX + 1) else x
  }

  datatype Range = Range(start: Int64, bytes: Int64)

  datatype Result = Error | Accepted(range: Range)

  /** wpdk_lockfile_get_range; base is the position that whence selects, None if it cannot be found
      or whence is unknown. */
  function RangeOf(base: Option<Int64>, offset: Int64, size: Int64): Result
    requires base.Some? ==> base.value >= 0
  {
    if base == None || base.value >= LOCKFILE_MAX then Error
    else if (offset < 0 && base.value < Wrap(0 - offset)) || offset >= LOCKFILE_MAX then Error
    else
      var posn := Wrap(base.value + offset);
      if size < 0 then
        if posn < Wrap(0 - size) || Wrap(0 - size) > LOCKFILE_MAX then Error
        else Accepted(Range(Wrap(posn + size), Wrap(0 - size)))
      else if size > LOCKFILE_MAX || Wrap(posn + size) > LOCKFILE_MAX then Error
      else Accepted(Range(posn, if size == 0 then Wrap(LOCKFILE_MAX - posn) else size))
  }

  predicate Within(r: Range, x: int) { r.start <= x < r.start + r.bytes }

  predicate Fits(r: Range) { 0 <= r.start && 0 <= r.bytes && r.start + r.bytes <= LOCKFILE_MAX }

  /** The request is for a position and a size whose negations exist, and for a position no further
      than a lock can reach. */
  predicate Sane(base: Int64, offset: Int64, size: Int64) {
    offset != INT64_MIN && size != INT64_MIN && base + offset <= LOCKFILE_MAX
  }

  /** The bytes that POSIX means: size bytes from the position, or those before it if size is
      negative, or all from it on if size is zero. */
  predicate Meant(posn: int, size: int, x: int) {
    if size < 0 then posn + size <= x < posn
    else if size == 0 then posn <= x < LOCKFILE_MAX
    else posn <= x < posn + size
  }

  /** An accepted range fits exactly if the request was sane. */
  lemma FitsIffSane(base: Int64, offset: Int64, size: Int64)
    requires base >= 0 && RangeOf(Some(base), offset, size).Accepted?
    ensures Fits(RangeOf(Some(base), offset, size).range) <==> Sane(base, offset, size)
  {
  }

  /** A position past the limit is accepted with a negative size, and a sum that wraps around with a
      positive one. */
  lemma Misfits()
    ensures RangeOf(Some(LOCKFILE_MAX - 1), 2, -1) == Accepted(Range(LOCKFILE_MAX, 1))
    ensures RangeOf(Some(LOCKFILE_MAX - 1), LOCKFILE_MAX - 1, LOCKFILE_MAX)
      == Accepted(Range(2 * LOCKFILE_MAX - 2, LOCKFILE_MAX))
    ensures !Fits(Range(LOCKFILE_MAX, 1)) && !Fits(Range(2 * LOCKFILE_MAX - 2, LOCKFILE_MAX))
  {
  }

  /** A sane request is accepted exactly if it starts and ends where locks can be, and then the range
      is what was meant. No intermediate sum wraps around. */
  lemma RangeIsMeant(base: Int64, offset: Int64, size: Int64)
    requires base >= 0 && Sane(base, offset, size)
    ensures var posn := base + offset;
      RangeOf(Some(base), offset, size).Accepted? <==>
        && base < LOCKFILE_MAX && offset < LOCKFILE_MAX && 0 <= posn
        && if size < 0 then 0 <= posn + size else posn + size <= LOCKFILE_MAX
    ensures RangeOf(Some(base), offset, size).Accepted? ==>
      var r := RangeOf(Some(base), offset, size).range;
      forall x :: Within(r, x) <==> Meant(base + offset, size, x)
    ensures INT64_MIN <= -offset <= INT64_MAX && INT64_MIN <= -size <= INT64_MAX
    ensures size <= LOCKFILE_MAX && base < LOCKFILE_MAX && 0 <= base + offset ==>
      INT64_MIN <= base + offset + size <= INT64_MAX
  {
  }

  // ----- the range given to Windows -----

  /** The range moved out of the way of the file's own bytes. */
  function Shifted(r: Range): Range
    requires INT64_MIN <= LOCKFILE_MAX + r.start <= INT64_MAX
  {
    Range(LOCKFILE_MAX + r.start, r.bytes)
  }

  ghost predicate Overlap(r: Range, q: Range) {
    exists x :: Within(r, x) && Within(q, x)
  }

  const GUARD := Range(LOCKFILE_GUARD, 1)

  /** The shift is exact: locks conflict in Windows where they overlap in POSIX, and they touch
      neither the bytes of a file below the limit nor the guard Byte, which is the last one. */
  lemma ShiftPreserves(r: Range, q: Range)
    requires Fits(r) && Fits(q)
    ensures Overlap(Shifted(r), Shifted(q)) <==> Overlap(r, q)
    ensures forall x :: Within(Shifted(r), x) ==> LOCKFILE_MAX <= x < INT64_MAX
    ensures Shifted(GUARD) == Range(INT64_MAX, 1) && !Overlap(Shifted(r), Shifted(GUARD))
  {
    if Overlap(r, q) {
      var x :| Within(r, x) && Within(q, x);
      assert Within(Shifted(r), LOCKFILE_MAX + x) && Within(Shifted(q), LOCKFILE_MAX + x);
    }
    if Overlap(Shifted(r), Shifted(q)) {
      var x :| Within(Shifted(r), x) && Within(Shifted(q), x);
      assert Within(r, x - LOCKFILE_MAX) && Within(q, x - LOCKFILE_MAX);
    }
  }

  // ----- the guard -----

  datatype Op = Write | Read | Unlock | Unknown

  datatype Lock = Lock(range: Range, exclusive: bool)

  /** The locks held through one handle, and whether the call succeeded. */
  datatype Outcome = Outcome(held: multiset<Lock>, ok: bool)

  /** UnlockFileEx, which takes an exclusive lock first. */
  function Released(held: multiset<Lock>, range: Range): Outcome {
    if Lock(range, true) in held then Outcome(held - multiset{Lock(range, true)}, true)
    else if Lock(range, false) in held then Outcome(held - multiset{Lock(range, false)}, true)
    else Outcome(held, false)
  }

  /** wpdk_lockfile without nowait; granted is the answer of LockFileEx. */
  function LockOnce(held: multiset<Lock>, op: Op, r: Range, granted: bool): Outcome
    requires INT64_MIN <= LOCKFILE_MAX + r.start <= INT64_MAX
  {
    match op
    case Write => if granted then Outcome(held + multiset{Lock(Shifted(r), true)}, true) else Outcome(held, false)
    case Read => if granted then Outcome(held + multiset{Lock(Shifted(r), false)}, true) else Outcome(held, false)
    case Unlock => Released(held, Shifted(r))
    case Unknown => Outcome(held, false)
  }

  /** wpdk_lockfile with nowait: the same under the guard, except that an unknown operation returns
      at once. */
  function LockGuarded(held: multiset<Lock>, op: Op, r: Range, guardGranted: bool, granted: bool): Outcome
    requires INT64_MIN <= LOCKFILE_MAX + r.start <= INT64_MAX
  {
    var g := LockOnce(held, Write, GUARD, guardGranted);
    if !g.ok || op == Unknown then Outcome(g.held, false)
    else
      var o := LockOnce(g.held, op, r, granted);
      Outcome(LockOnce(o.held, Unlock, GUARD, true).held, o.ok)
  }

  /** Holding the guard makes no difference to an operation on a range that fits. */
  lemma GuardApart(held: multiset<Lock>, op: Op, r: Range, granted: bool)
    requires Fits(r)
    ensures var guard := Lock(Shifted(GUARD), true);
      && LockOnce(held + multiset{guard}, op, r, granted).held == LockOnce(held, op, r, granted).held + multiset{guard}
      && LockOnce(held + multiset{guard}, op, r, granted).ok == LockOnce(held, op, r, granted).ok
  {
    var guard, x, y := Lock(Shifted(GUARD), true), Lock(Shifted(r), true), Lock(Shifted(r), false);
    assert x != guard && y != guard;
    if op == Write {
      assert held + multiset{guard} + multiset{x} == held + multiset{x} + multiset{guard};
    } else if op == Read {
      assert held + multiset{guard} + multiset{y} == held + multiset{y} + multiset{guard};
    } else if op == Unlock && x in held {
      assert held + multiset{guard} - multiset{x} == held - multiset{x} + multiset{guard};
    } else if op == Unlock && y in held {
      assert held + multiset{guard} - multiset{y} == held - multiset{y} + multiset{guard};
    }
  }

  /** The guard is given back, so that an attempt on a range that fits ends with the locks of an
      unguarded one, exactly if the operation is one of the three known or the guard was refused. */
  lemma GuardBalanced(held: multiset<Lock>, op: Op, r: Range, guardGranted: bool, granted: bool)
    requires Fits(r)
    ensures op == Unknown && guardGranted ==>
      LockGuarded(held, op, r, true, granted) == Outcome(held + multiset{Lock(Shifted(GUARD), true)}, false)
    ensures op != Unknown || !guardGranted ==>
      LockGuarded(held, op, r, guardGranted, granted)
      == if guardGranted then LockOnce(held, op, r, granted) else Outcome(held, false)
  {
    if guardGranted && op != Unknown {
      var guard, p := Lock(Shifted(GUARD), true), LockOnce(held, op, r, granted);
      GuardApart(held, op, r, granted);
      assert p.held + multiset{guard} - multiset{guard} == p.held;
    }
  }
}
