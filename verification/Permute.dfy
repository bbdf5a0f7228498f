/** The in-place block exchange behind getopt's argument permutation (src/getopt.c).

    Two adjacent blocks of lengths m and n are exchanged by following the cycles of
    "move forward n places, modulo m + n". There are gcd(m, n) cycles, one per residue class,
    and each is as long as the quotient; the lemmas below are that piece of number theory. */
module Permute {
  import opened Arithmetic

  // ----- greatest common divisors -----

  ghost function Gcd(a: nat, b: nat): (g: nat)
    requires b > 0
    ensures 0 < g <= b
    decreases b
  {
    if a % b == 0 then b else Gcd(b, a % b)
  }

  ghost function Quotient(a: nat, b: nat): (k: nat)
    requires b > 0
    ensures a == b * k + a % b
  {
    a / b
  }

  /** One step back through Euclid's algorithm, on the quotients and the coefficients. */
  lemma EuclidStep(g: int, b: int, k: int, r: int, qb: int, qr: int, x: int, y: int)
    requires b == g * qb && r == g * qr
    ensures g * (qb * k + qr) == b * k + r
    ensures y * (b * k + r) + (x - k * y) * b == x * b + y * r
  {}

  /** Gcd is a common divisor, and a linear combination of its arguments. */
  lemma {:induction false} GcdFacts(a: nat, b: nat) returns (qa: int, qb: int, x: int, y: int)
    requires b > 0
    ensures a == Gcd(a, b) * qa && b == Gcd(a, b) * qb
    ensures x * a + y * b == Gcd(a, b)
    decreases b
  {
    var g, k, r := Gcd(a, b), Quotient(a, b), a % b;
    if r == 0 {
      qa, qb, x, y := k, 1, 0, 1;
    } else {
      assert g == Gcd(b, r);
      var qb', qr, x', y' := GcdFacts(b, r);
      qa, qb, x, y := qb' * k + qr, qb', y', x' - k * y';
      hide *;
      EuclidStep(g, b, k, r, qb', qr, x', y');
    }
  }

  /** Every common divisor divides Gcd(a, b), so it is the greatest one. */
  lemma GcdGreatest(a: nat, b: nat, d: nat, da: int, db: int) returns (q: int)
    requires b > 0 && a == d * da && b == d * db
    ensures Gcd(a, b) == d * q
  {
    var _, _, x, y := GcdFacts(a, b);
    q := x * da + y * db;
    Regroup(x, d, da);
    Regroup(y, d, db);
    Distribute(d, x * da, y * db);
  }

  /** The source's loop: Euclid's algorithm on a nonzero second argument. */
  method ComputeGcd(a0: nat, b0: nat) returns (g: nat)
    requires b0 > 0
    ensures g == Gcd(a0, b0)
  {
    var a, b := a0, b0;
    var c := a % b;
    while c != 0
      invariant b > 0 && c == a % b
      invariant Gcd(a, b) == Gcd(a0, b0)
      decreases c
    {
      a := b;
      b := c;
      c := a % b;
    }
    g := b;
  }

  // ----- the orbits of a translation modulo m + n -----

  /** One step of the source's cursor, on positions relative to the start of the first block. */
  function Next(p: nat, m: nat, n: nat): (q: nat)
    requires p < m + n
    ensures q < m + n
  {
    if p >= m then p - m else p + n
  }

  /** Where the element that ends up at q comes from. */
  function Prev(q: nat, m: nat, n: nat): (p: nat)
    requires q < m + n
    ensures p < m + n && Next(p, m, n) == q
  {
    if q >= n then q - n else q + m
  }

  ghost function Orbit(c: nat, k: nat, m: nat, n: nat): (q: nat)
    requires c < m + n
    ensures q < m + n
  {
    if k == 0 then c else Next(Orbit(c, k - 1, m, n), m, n)
  }

  lemma {:induction false} OrbitForm(c: nat, k: nat, m: nat, n: nat) returns (w: int)
    requires c < m + n
    ensures Orbit(c, k, m, n) == c + k * n - w * (m + n)
  {
    if k == 0 {
      w := 0;
    } else {
      var w' := OrbitForm(c, k - 1, m, n);
      w := if Orbit(c, k - 1, m, n) >= m then w' + 1 else w';
      assert (k - 1) * n == k * n - n;
      assert (w' + 1) * (m + n) == w' * (m + n) + (m + n);
    }
  }

  /** The arithmetic of one pair of blocks: g cycles of length len each.
      u * len + v * n' == 1 says that len and n' = n / g are coprime. */
  datatype Cycles = Cycles(g: nat, len: nat, m': int, n': int, u: int, v: int)

  ghost predicate CyclesOf(z: Cycles, m: nat, n: nat) {
    && z.g > 0 && z.len > 0
    && m == z.g * z.m' && n == z.g * z.n' && m + n == z.g * z.len
    && z.u * z.len + z.v * z.n' == 1
  }

  lemma Coprime(g: nat, m': int, n': int, x: int, y: int)
    requires g > 0 && x * (g * m') + y * (g * n') == g
    ensures x * (m' + n') + (y - x) * n' == 1
  {
    Regroup(x, g, m');
    Regroup(y, g, n');
    Distribute(g, x * m', y * n');
    Cancel(g, x * m' + y * n', 1);
    Distribute(x, m', n');
    Distribute(n', y, x);
  }

  lemma MakeCycles(m: nat, n: nat) returns (z: Cycles)
    requires m > 0 && n > 0
    ensures CyclesOf(z, m, n) && z.g == Gcd(m, n) && z.len == (m + n) / z.g
  {
    var g := Gcd(m, n);
    var m', n', x, y := GcdFacts(m, n);
    Coprime(g, m', n', x, y);
    Distribute(g, m', n');
    PositiveFactor(g, m' + n');
    DivideProduct(g, m' + n', 0);
    z := Cycles(g, m' + n', m', n', x, y - x);
  }

  lemma FullTurn(z: Cycles, w: int, m: nat, n: nat)
    requires CyclesOf(z, m, n)
    ensures z.len * n - w * (m + n) == (z.n' - w) * (m + n)
  {
    assert z.len * n == z.n' * (m + n) by { Regroup(z.len, z.g, z.n'); }
    Distribute(m + n, z.n', w);
  }

  lemma OrbitReturns(z: Cycles, c: nat, m: nat, n: nat)
    requires CyclesOf(z, m, n) && c < m + n
    ensures Orbit(c, z.len, m, n) == c
  {
    var w := OrbitForm(c, z.len, m, n);
    FullTurn(z, w, m, n);
    SameResidue(Orbit(c, z.len, m, n), c, z.n' - w, m + n);
  }

  /** A distance d that two blocks' cycle can close on is a multiple of its length. */
  lemma ClosingDistance(z: Cycles, d: int, w: int, m: nat, n: nat)
    requires CyclesOf(z, m, n) && d * n == w * (m + n)
    ensures d == (d * z.u + z.v * w) * z.len
  {
    Regroup(d, z.g, z.n');
    Regroup(w, z.g, z.len);
    Cancel(z.g, d * z.n', w * z.len);
    Distribute(d, z.u * z.len, z.v * z.n');
    Regroup(d, z.u, z.len);
    Regroup(d, z.v, z.n');
    Regroup(z.v, w, z.len);
    Distribute(z.len, d * z.u, z.v * w);
  }

  lemma NoEarlyReturn(z: Cycles, d: int, w: int, m: nat, n: nat)
    requires CyclesOf(z, m, n) && 0 < d < z.len
    ensures d * n != w * (m + n)
  {
    if d * n == w * (m + n) {
      ClosingDistance(z, d, w, m, n);
      SameResidue(d, 0, d * z.u + z.v * w, z.len);
      assert false;
    }
  }

  lemma EqualGaps(j: int, k: int, n: int, wj: int, wk: int, modulus: int)
    ensures j * n - wj * modulus == k * n - wk * modulus ==> (k - j) * n == (wk - wj) * modulus
  {}

  /** Within one cycle no cell is visited twice. */
  lemma OrbitInjective(z: Cycles, c: nat, j: nat, k: nat, m: nat, n: nat)
    requires CyclesOf(z, m, n) && c < m + n && j < k < z.len
    ensures Orbit(c, j, m, n) != Orbit(c, k, m, n)
  {
    var wj := OrbitForm(c, j, m, n);
    var wk := OrbitForm(c, k, m, n);
    NoEarlyReturn(z, k - j, wk - wj, m, n);
    hide *;
    EqualGaps(j, k, n, wj, wk, m + n);
  }

  lemma ShiftKeepsResidue(c: nat, g: nat, t: int)
    requires g > 0
    ensures (c + g * t) % g == c % g
  {
    var q, r := c / g, c % g;
    assert c == g * q + r;
    Distribute(g, q, t);
    DivideProduct(g, q + t, r);
  }

  lemma OrbitResidue(z: Cycles, c: nat, k: nat, m: nat, n: nat)
    requires CyclesOf(z, m, n) && c < m + n
    ensures Orbit(c, k, m, n) % z.g == c % z.g
  {
    var w := OrbitForm(c, k, m, n);
    Regroup(k, z.g, z.n');
    Regroup(w, z.g, z.len);
    Distribute(z.g, k * z.n', w * z.len);
    ShiftKeepsResidue(c, z.g, k * z.n' - w * z.len);
  }

  /** A multiple of g is a multiple of n, up to the modulus. */
  lemma ReachByN(z: Cycles, t: int, h: int, k: int, m: nat, n: nat)
    requires CyclesOf(z, m, n) && t * z.v == z.len * h + k
    ensures z.g * t == k * n + (t * z.u + h * z.n') * (m + n)
  {
    Bezout(z.g, t, z.u, z.len, z.v, z.n');
    Reduce(z.g, z.len, h, k, z.n');
    Distribute(m + n, t * z.u, h * z.n');
  }

  /** A multiple of g as a sum of multiples of its two cofactors. */
  lemma Bezout(g: int, t: int, u: int, len: int, v: int, n': int)
    requires u * len + v * n' == 1
    ensures g * t == (t * u) * (g * len) + (t * v) * (g * n')
  {
    Distribute(g * t, u * len, v * n');
    FourFactors(g, t, u, len);
    FourFactors(g, t, v, n');
  }

  lemma Reduce(g: int, len: int, h: int, k: int, n': int)
    ensures (len * h + k) * (g * n') == (h * n') * (g * len) + k * (g * n')
  {
    Distribute(g * n', len * h, k);
    FourFactors(len, h, g, n');
  }

  lemma FourFactors(g: int, t: int, u: int, l: int)
    ensures (g * t) * (u * l) == (t * u) * (g * l) == (t * l) * (u * g)
  {}

  /** Every cell of the residue class of c is visited. */
  lemma OrbitSurjective(z: Cycles, c: nat, q: nat, m: nat, n: nat) returns (k: nat)
    requires CyclesOf(z, m, n) && c < m + n && q < m + n
    requires q % z.g == c % z.g
    ensures k < z.len && Orbit(c, k, m, n) == q
  {
    var t, N := q / z.g - c / z.g, m + n;
    assert q - c == z.g * t by { Distribute(z.g, q / z.g, c / z.g); }
    k := t * z.v % z.len;
    var h := t * z.v / z.len;
    ReachByN(z, t, h, k, m, n);
    var s := t * z.u + h * z.n';
    var w := OrbitForm(c, k, m, n);
    assert s * N + w * N == (s + w) * N by { Distribute(N, s, w); }
    SameResidue(q, Orbit(c, k, m, n), s + w, N);
  }

  /** A path of distinct cells, each the successor of the one before and the first of the last,
      made of exactly the cells whose residue is r. */
  ghost predicate IsCycle(path: seq<nat>, m: nat, n: nat, residue: seq<nat>, r: nat) {
    && path != [] && |residue| == m + n
    && (forall k :: 0 <= k < |path| ==> path[k] < m + n && residue[path[k]] == r)
    && (forall k :: 0 < k < |path| ==> path[k] == Next(path[k - 1], m, n))
    && path[0] == Next(path[|path| - 1], m, n)
    && (forall j, k :: 0 <= j < k < |path| ==> path[j] != path[k])
    && (forall q :: 0 <= q < m + n && residue[q] == r ==> q in path)
  }

  /** Cells are classed by their residue modulo gcd(m, n). For each i below the gcd, the cell
      i places into the second block starts a cycle, of the length the source computes, that
      consists of exactly the cells of residue i. */
  lemma CycleStructure(m: nat, n: nat) returns (residue: seq<nat>, paths: seq<seq<nat>>)
    requires m > 0 && n > 0
    ensures |residue| == m + n && |paths| == Gcd(m, n) <= n
    ensures forall q :: 0 <= q < m + n ==> residue[q] == q % Gcd(m, n)
    ensures forall q :: 0 <= q < m + n ==> residue[q] < |paths|
    ensures forall i :: 0 <= i < |paths| ==>
      && |paths[i]| == (m + n) / Gcd(m, n) && paths[i][0] == m + i
      && IsCycle(paths[i], m, n, residue, i)
  {
    var z := MakeCycles(m, n);
    residue := seq(m + n, q requires 0 <= q => q % z.g);
    paths := [];
    while |paths| < z.g
      invariant |paths| <= z.g
      invariant forall i :: 0 <= i < |paths| ==>
        |paths[i]| == z.len && paths[i][0] == m + i && IsCycle(paths[i], m, n, residue, i)
    {
      StartResidue(z, m, n, |paths|);
      var path := OneCycle(z, m + |paths|, m, n, residue);
      paths := paths + [path];
    }
  }

  /** The numbers of cycles and of cells per cycle, as the source computes them. */
  method CycleShape(nnonopts: nat, nopts: nat)
    returns (ncycle: nat, cyclelen: nat, ghost residue: seq<nat>, ghost paths: seq<seq<nat>>)
    requires nnonopts > 0 && nopts > 0
    ensures ncycle == Gcd(nnonopts, nopts)
    ensures |residue| == nnonopts + nopts && |paths| == ncycle <= nopts
    ensures forall q :: 0 <= q < |residue| ==> residue[q] < ncycle
    ensures forall i :: 0 <= i < ncycle ==>
      && |paths[i]| == cyclelen > 0 && paths[i][0] == nnonopts + i
      && IsCycle(paths[i], nnonopts, nopts, residue, i)
  {
    ncycle := ComputeGcd(nnonopts, nopts);
    cyclelen := (nnonopts + nopts) / ncycle;
    residue, paths := CycleStructure(nnonopts, nopts);
  }

  lemma OneCycle(z: Cycles, c: nat, m: nat, n: nat, residue: seq<nat>) returns (path: seq<nat>)
    requires CyclesOf(z, m, n) && c < m + n == |residue|
    requires forall q: nat :: q < m + n ==> residue[q] == q % z.g
    ensures |path| == z.len && path[0] == c && IsCycle(path, m, n, residue, residue[c])
  {
    path := seq(z.len, k requires 0 <= k => Orbit(c, k, m, n));
    OrbitReturns(z, c, m, n);
    forall j: nat, k: nat | j < k < z.len ensures path[j] != path[k] {
      OrbitInjective(z, c, j, k, m, n);
    }
    forall k: nat | k < z.len ensures residue[path[k]] == residue[c] {
      OrbitResidue(z, c, k, m, n);
    }
    forall q: nat | q < m + n && residue[q] == residue[c] ensures q in path {
      var k := OrbitSurjective(z, c, q, m, n);
      assert path[k] == q;
    }
  }

  /** A start cell's residue: the i-th cycle starts i places into the second block. */
  lemma StartResidue(z: Cycles, m: nat, n: nat, i: nat)
    requires CyclesOf(z, m, n) && n > 0 && i < z.g
    ensures i < n && (m + i) % z.g == i
  {
    PositiveFactor(z.g, z.n');
    Distribute(z.g, z.n' - 1, 1);
    DivideProduct(z.g, z.m', i);
  }

  // ----- the in-place exchange -----

  /** What the exchange means: the blocks s[lo..mid] and s[mid..hi] trade places, each in order. */
  ghost function Exchanged<T>(s: seq<T>, lo: nat, mid: nat, hi: nat): seq<T>
    requires lo <= mid <= hi <= |s|
  {
    s[..lo] + s[mid..hi] + s[lo..mid] + s[hi..]
  }

  /** Cells of residue below i hold their predecessor's element; all others are untouched. */
  ghost predicate CyclesDone<T>(t: seq<T>, t0: seq<T>, m: nat, n: nat, residue: seq<nat>, i: nat) {
    && |residue| == |t| == |t0| == m + n
    && forall q :: 0 <= q < |t| ==> t[q] == if residue[q] < i then t0[Prev(q, m, n)] else t0[q]
  }

  lemma AllCyclesDone<T>(t: seq<T>, t0: seq<T>, m: nat, n: nat, residue: seq<nat>, g: nat)
    requires CyclesDone(t, t0, m, n, residue, g)
    requires forall q :: 0 <= q < m + n ==> residue[q] < g
    ensures t == t0[m..] + t0[..m]
  {}

  /** The inner loop after j swaps, against the window t1 it started from: the first j cells
      after the start have their new elements, the later ones and those not on the path their
      old, and the start carries the element displaced last. */
  ghost predicate CycleAt<T>(t: seq<T>, t1: seq<T>, path: seq<nat>, j: nat)
    requires path != [] && forall k :: 0 <= k < |path| ==> path[k] < |t1|
  {
    && |t| == |t1| && j <= |path|
    && t[path[0]] == t1[path[if j < |path| then j else |path| - 1]]
    && (forall k :: 1 <= k <= j && k < |path| ==> t[path[k]] == t1[path[k - 1]])
    && (forall k :: j < k < |path| ==> t[path[k]] == t1[path[k]])
    && (forall q :: 0 <= q < |t| && q !in path ==> t[q] == t1[q])
  }

  /** One swap of the start with the next cell on its cycle. */
  lemma CycleStep<T>(t: seq<T>, t1: seq<T>, path: seq<nat>, j: nat)
    requires path != [] && forall k :: 0 <= k < |path| ==> path[k] < |t1|
    requires forall k, l :: 0 <= k < l < |path| ==> path[k] != path[l]
    requires CycleAt(t, t1, path, j) && j < |path|
    ensures var p, c := path[if j + 1 < |path| then j + 1 else 0], path[0];
      CycleAt(t[p := t[c]][c := t[p]], t1, path, j + 1)
  {
  }

  /** A completed cycle finishes exactly the cells of its residue. */
  lemma CycleComplete<T>(t: seq<T>, t1: seq<T>, t0: seq<T>, m: nat, n: nat, path: seq<nat>,
                         residue: seq<nat>, i: nat)
    requires CyclesDone(t1, t0, m, n, residue, i)
    requires IsCycle(path, m, n, residue, i) && CycleAt(t, t1, path, |path|)
    ensures CyclesDone(t, t0, m, n, residue, i + 1)
  {
    forall q | 0 <= q < m + n && residue[q] == i ensures t[q] == t0[Prev(q, m, n)] {
      var k :| 0 <= k < |path| && path[k] == q;
      var p := path[if k == 0 then |path| - 1 else k - 1];
      assert q == Next(p, m, n) && residue[p] == i;
    }
  }

  /** s is s0 with the cells from lo on overwritten by the window t. */
  ghost predicate Overwritten<T>(s: seq<T>, s0: seq<T>, lo: nat, t: seq<T>) {
    && |s| == |s0| && lo + |t| <= |s|
    && forall k :: 0 <= k < |s| ==> s[k] == if lo <= k < lo + |t| then t[k - lo] else s0[k]
  }

  lemma WindowStart<T>(s0: seq<T>, lo: nat, mid: nat, hi: nat, residue: seq<nat>)
    requires lo <= mid <= hi <= |s0| && |residue| == hi - lo
    ensures Overwritten(s0, s0, lo, s0[lo..hi])
    ensures CyclesDone(s0[lo..hi], s0[lo..hi], mid - lo, hi - mid, residue, 0)
  {}

  lemma SwapInWindow<T>(s: seq<T>, s0: seq<T>, lo: nat, t: seq<T>, p: nat, c: nat)
    requires Overwritten(s, s0, lo, t) && p < |t| && c < |t|
    ensures Overwritten(s[lo + p := s[lo + c]][lo + c := s[lo + p]], s0, lo, t[p := t[c]][c := t[p]])
  {}

  lemma WindowExchanged<T>(s: seq<T>, s0: seq<T>, lo: nat, mid: nat, hi: nat, t: seq<T>)
    requires lo <= mid <= hi <= |s0| && t == s0[mid..hi] + s0[lo..mid] && Overwritten(s, s0, lo, t)
    ensures s == Exchanged(s0, lo, mid, hi)
  {}

  lemma AllSwapsDone<T>(s: seq<T>, s0: seq<T>, lo: nat, mid: nat, hi: nat, t: seq<T>, residue: seq<nat>, g: nat)
    requires lo <= mid <= hi <= |s0| && Overwritten(s, s0, lo, t)
    requires CyclesDone(t, s0[lo..hi], mid - lo, hi - mid, residue, g)
    requires forall q :: 0 <= q < |residue| ==> residue[q] < g
    ensures s == Exchanged(s0, lo, mid, hi)
  {
    var t0, m := s0[lo..hi], mid - lo;
    AllCyclesDone(t, t0, m, hi - mid, residue, g);
    assert t0[m..] == s0[mid..hi] && t0[..m] == s0[lo..mid];
    WindowExchanged(s, s0, lo, mid, hi, t);
  }

  method Swap<T>(a: array<T>, i: nat, j: nat)
    requires i < a.Length && j < a.Length
    modifies a
    ensures var s := old(a[..]); a[..] == s[i := s[j]][j := s[i]]
  {
    var swap := a[i];
    a[i] := a[j];
    a[j] := swap;
  }

  /** One swap, in the window and in the whole. */
  lemma CycleMove<T>(s: seq<T>, s0: seq<T>, lo: nat, t: seq<T>, t1: seq<T>,
                     path: seq<nat>, m: nat, n: nat, residue: seq<nat>, r: nat, j: nat)
    requires |t1| == m + n && IsCycle(path, m, n, residue, r) && j < |path|
    requires CycleAt(t, t1, path, j) && Overwritten(s, s0, lo, t)
    ensures var p, c := path[if j + 1 < |path| then j + 1 else 0], path[0];
      && path[j] < m + n && p == Next(path[j], m, n) && |t| == m + n && p < |t| && c < |t| && lo + |t| <= |s|
      && CycleAt(t[p := t[c]][c := t[p]], t1, path, j + 1)
      && Overwritten(s[lo + p := s[lo + c]][lo + c := s[lo + p]], s0, lo, t[p := t[c]][c := t[p]])
  {
    var p, c := path[if j + 1 < |path| then j + 1 else 0], path[0];
    CycleStep(t, t1, path, j);
    SwapInWindow(s, s0, lo, t, p, c);
  }

  /** One pass of the inner loop: the cursor moves to the next cell, and that is swapped with the
      start. */
  method SwapNext<T>(a: array<T>, lo: nat, mid: nat, cstart: nat, pos: nat, nnonopts: nat, nopts: nat,
                     ghost s0: seq<T>, ghost t: seq<T>, ghost t1: seq<T>,
                     ghost path: seq<nat>, ghost residue: seq<nat>, ghost r: nat, ghost j: nat)
    returns (pos': nat, ghost t': seq<T>)
    requires mid == lo + nnonopts && |t1| == nnonopts + nopts && IsCycle(path, nnonopts, nopts, residue, r)
    requires j < |path| && cstart == lo + path[0] && pos == lo + path[j]
    requires CycleAt(t, t1, path, j) && Overwritten(a[..], s0, lo, t)
    modifies a
    ensures pos' == lo + path[if j + 1 < |path| then j + 1 else 0]
    ensures CycleAt(t', t1, path, j + 1) && Overwritten(a[..], s0, lo, t')
  {
    CycleMove(a[..], s0, lo, t, t1, path, nnonopts, nopts, residue, r, j);
    ghost var p, c := path[if j + 1 < |path| then j + 1 else 0], path[0];
    hide CycleAt, Overwritten, IsCycle;
    if pos >= mid {
      pos' := pos - nnonopts;
    } else {
      pos' := pos + nopts;
    }
    assert pos' == lo + p;
    Swap(a, pos', cstart);
    t' := t[p := t[c]][c := t[p]];
  }

  /** The inner loop of permute_args: cyclelen swaps along one cycle. Cells are counted from lo
      in path; t1 is the window before the first swap. */
  method FollowCycle<T>(a: array<T>, lo: nat, mid: nat, cstart: nat, nnonopts: nat, nopts: nat, cyclelen: nat,
                        ghost s0: seq<T>, ghost t1: seq<T>, ghost path: seq<nat>, ghost residue: seq<nat>, ghost r: nat)
    returns (ghost t: seq<T>)
    requires mid == lo + nnonopts && |t1| == nnonopts + nopts && Overwritten(a[..], s0, lo, t1)
    requires IsCycle(path, nnonopts, nopts, residue, r) && |path| == cyclelen && cstart == lo + path[0]
    modifies a
    ensures |t| == |t1| && CycleAt(t, t1, path, |path|) && Overwritten(a[..], s0, lo, t)
  {
    t := t1;
    var pos := cstart;
    assert CycleAt(t, t1, path, 0);
    hide Overwritten;
    for j := 0 to cyclelen
      invariant pos == lo + path[if j < cyclelen then j else 0]
      invariant CycleAt(t, t1, path, j) && Overwritten(a[..], s0, lo, t)
    {
      pos, t := SwapNext(a, lo, mid, cstart, pos, nnonopts, nopts, s0, t, t1, path, residue, r, j);
    }
  }

  /** One pass of the outer loop: the i-th cycle, starting i places into the second block. */
  method PermuteCycle<T>(a: array<T>, lo: nat, mid: nat, hi: nat, i: nat, cyclelen: nat, ghost s0: seq<T>,
                         ghost t1: seq<T>, ghost t0: seq<T>, ghost path: seq<nat>, ghost residue: seq<nat>)
    returns (ghost t: seq<T>)
    requires lo < mid < hi <= a.Length && |t1| == hi - lo
    requires Overwritten(a[..], s0, lo, t1) && CyclesDone(t1, t0, mid - lo, hi - mid, residue, i)
    requires IsCycle(path, mid - lo, hi - mid, residue, i) && |path| == cyclelen && path[0] == mid - lo + i
    modifies a
    ensures |t| == hi - lo
    ensures Overwritten(a[..], s0, lo, t) && CyclesDone(t, t0, mid - lo, hi - mid, residue, i + 1)
  {
    hide CyclesDone, Overwritten, CycleAt, IsCycle;
    t := FollowCycle(a, lo, mid, mid + i, mid - lo, hi - mid, cyclelen, s0, t1, path, residue, i);
    CycleComplete(t, t1, t0, mid - lo, hi - mid, path, residue, i);
  }

  /** permute_args: exchange a[lo..mid] with a[mid..hi] in place, by gcd cycles of swaps. */
  method PermuteArgs<T>(a: array<T>, lo: nat, mid: nat, hi: nat)
    requires lo < mid < hi <= a.Length
    modifies a
    ensures a[..] == Exchanged(old(a[..]), lo, mid, hi)
  {
    var ncycle, cyclelen, residue, paths := CycleShape(mid - lo, hi - mid);
    ghost var s0, t0, t := a[..], a[lo..hi], a[lo..hi];
    WindowStart(s0, lo, mid, hi, residue);
    hide CyclesDone, Overwritten, IsCycle, Gcd;
    for i := 0 to ncycle
      invariant |t| == hi - lo
      invariant Overwritten(a[..], s0, lo, t) && CyclesDone(t, t0, mid - lo, hi - mid, residue, i)
    {
      t := PermuteCycle(a, lo, mid, hi, i, cyclelen, s0, t, t0, paths[i], residue);
    }
    AllSwapsDone(a[..], s0, lo, mid, hi, t, residue, ncycle);
  }
}
