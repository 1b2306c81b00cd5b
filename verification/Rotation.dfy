/**
  gcd and permute_args of lib/getopt_long.c: two adjacent blocks of an array are
  exchanged in place by following the cycles of a rotation.
 */
module Rotation {
  import opened Arithmetic

  predicate Divides(d: int, x: int)
    requires d > 0
  {
    x % d == 0
  }

  /** g divides both numbers and is an integer combination of them, so it is their
      greatest common divisor. */
  ghost predicate IsGcd(g: int, a: int, b: int, s: int, t: int) {
    g > 0 && Divides(g, a) && Divides(g, b) && g == s * a + t * b
  }

  // ---------------------------------------------------------------------
  // Arithmetic

  lemma DivideMeans(d: int, x: int)
    requires d > 0 && Divides(d, x)
    ensures x == d * (x / d)
  {
  }

  lemma DividesMul(d: int, x: int, q: int)
    requires d > 0 && x == q * d
    ensures Divides(d, x)
  {
    ModIs(x, d, q, 0);
  }

  lemma DividesSum(d: int, x: int, y: int, q: int)
    requires d > 0 && Divides(d, x) && Divides(d, y)
    ensures Divides(d, q * x + y)
  {
    DivideMeans(d, x);
    DivideMeans(d, y);
    assert q * x + y == (q * (x / d) + y / d) * d;
    DividesMul(d, q * x + y, q * (x / d) + y / d);
  }

  lemma GcdIsGreatest(g: int, a: int, b: int, s: int, t: int, d: int)
    requires IsGcd(g, a, b, s, t) && d > 0 && Divides(d, a) && Divides(d, b)
    ensures Divides(d, g) && d <= g
  {
    DividesSum(d, a, 0, s);
    DividesSum(d, b, s * a, t);
    DivideMeans(d, g);
    assert g / d >= 1;
  }

  /** gcd: the loop of Euclid, together with the coefficients that make its result a combination. */
  method Gcd(a0: int, b0: int) returns (g: int, ghost s: int, ghost t: int)
    requires a0 >= 0 && b0 > 0
    ensures IsGcd(g, a0, b0, s, t)
    ensures g <= b0
  {
    hide Divides;
    var a, b := a0, b0;
    ghost var sa, ta := 1, 0;
    s, t := 0, 1;
    var c := a % b;
    while c != 0
      invariant a >= 0 && 0 < b <= b0 && c == a % b
      invariant a == sa * a0 + ta * b0 && b == s * a0 + t * b0
      invariant forall d: int :: d > 0 && Divides(d, a) && Divides(d, b) ==> Divides(d, a0) && Divides(d, b0)
      decreases b
    {
      ghost var q := a / b;
      GcdStep(a, b, c, q);
      Combine(a0, b0, a, b, q, sa, ta, s, t);
      sa, ta, s, t := s, t, sa - q * s, ta - q * t;
      a := b;
      b := c;
      c := a % b;
    }
    DividesMul(b, b, 1);
    DividesMul(b, a, a / b);
    g := b;
  }

  lemma Combine(a0: int, b0: int, a: int, b: int, q: int, sa: int, ta: int, s: int, t: int)
    requires a == sa * a0 + ta * b0 && b == s * a0 + t * b0
    ensures a - q * b == (sa - q * s) * a0 + (ta - q * t) * b0
  {
  }

  lemma GcdStep(a: int, b: int, c: int, q: int)
    requires a == q * b + c
    ensures forall d: int :: d > 0 && Divides(d, b) && Divides(d, c) ==> Divides(d, a) && Divides(d, b)
  {
    forall d: int | d > 0 && Divides(d, b) && Divides(d, c)
      ensures Divides(d, a)
    {
      DividesSum(d, b, c, q);
    }
  }

  // ---------------------------------------------------------------------
  // The cycles of x -> (x + step) mod n

  /** The place after t steps from x. */
  function Orbit(n: int, step: int, x: int, t: int): (r: int)
    requires n > 0
    ensures 0 <= r < n
  {
    (x + t * step) % n
  }

  lemma OrbitNext(n: int, step: int, x: int, t: int)
    requires 0 < step <= n
    ensures var p := Orbit(n, step, x, t);
            Orbit(n, step, x, t + 1) == if p + step < n then p + step else p + step - n
  {
    var p, q := Orbit(n, step, x, t), (x + t * step) / n;
    assert x + (t + 1) * step == q * n + p + step;
    if p + step < n {
      ModIs(x + (t + 1) * step, n, q, p + step);
    } else {
      ModIs(x + (t + 1) * step, n, q + 1, p + step - n);
    }
  }

  /** Blocks of lengths m and step with greatest common divisor g and n = m + step. */
  ghost predicate Blocks(n: int, step: int, g: int, s: int, t: int) {
    0 < step <= n && IsGcd(g, n - step, step, s, t) && g <= step
  }

  lemma BlocksDivide(n: int, step: int, g: int, s: int, t: int)
    requires Blocks(n, step, g, s, t)
    ensures 0 < step <= n && g > 0 && Divides(g, n)
    ensures n == g * (n / g) && step == g * (step / g) && n / g >= 1
    ensures 1 == s * (n / g) + (t - s) * (step / g)
  {
    DividesSum(g, n - step, step, 1);
    DivideMeans(g, n);
    DivideMeans(g, step);
    var len, k := n / g, step / g;
    assert g == s * (g * len - g * k) + t * (g * k);
    assert g * 1 == g * (s * len + (t - s) * k);
    assert len >= k;
    assert k >= 1;
  }

  lemma SameClass(g: int, x: int, h: int)
    requires g > 0
    ensures (x + h * g) % g == x % g
  {
    assert x + h * g == (x / g + h) * g + x % g;
    ModIs(x + h * g, g, x / g + h, x % g);
  }

  lemma Unwind(n: int, step: int, g: int, st: int, len: int, x: int, k: int, q: int)
    requires n == g * len && step == g * st
    ensures x + k * step - q * n == x + (k * st - q * len) * g
  {
  }

  lemma OrbitMeans(n: int, step: int, x: int, t: int) returns (q: int)
    requires n > 0
    ensures Orbit(n, step, x, t) == x + t * step - q * n
  {
    q := (x + t * step) / n;
  }

  /** Steps stay in their residue class modulo g. */
  lemma OrbitClass(n: int, step: int, g: int, s: int, t: int, x: int, k: int)
    requires Blocks(n, step, g, s, t)
    ensures g > 0 && Orbit(n, step, x, k) % g == x % g
  {
    hide Orbit, Blocks;
    BlocksDivide(n, step, g, s, t);
    var q := OrbitMeans(n, step, x, k);
    Unwind(n, step, g, step / g, n / g, x, k, q);
    SameClass(g, x, k * (step / g) - q * (n / g));
  }

  lemma SamePlace(n: int, step: int, x: int, j: int, k: int) returns (q: int)
    requires n > 0 && Orbit(n, step, x, j) == Orbit(n, step, x, k)
    ensures (k - j) * step == q * n
  {
    var u, v := x + k * step, x + j * step;
    q := u / n - v / n;
    assert u == (u / n) * n + u % n;
    assert v == (v / n) * n + v % n;
    assert u - v == q * n;
  }

  lemma Cancel(g: int, x: int, y: int)
    requires g > 0 && g * x == g * y
    ensures x == y
  {
    MulAtLeast(x - y, g);
  }

  /** If len divides d * st and st is prime to len, then len divides d. */
  lemma Coprime(d: int, st: int, q: int, len: int, s: int, u: int)
    requires 1 == s * len + u * st && d * st == q * len
    ensures d == (d * s + u * q) * len
  {
    assert d == d * (s * len + u * st);
    assert d == (d * s) * len + u * (d * st);
  }

  lemma Regroup(d: int, g: int, st: int, q: int, len: int)
    requires g > 0 && d * (g * st) == q * (g * len)
    ensures d * st == q * len
  {
    assert g * (d * st) == g * (q * len);
    Cancel(g, d * st, q * len);
  }

  /** A place is not visited twice within n/g steps. */
  lemma OrbitDistinct(n: int, step: int, g: int, s: int, t: int, x: int, j: int, k: int)
    requires Blocks(n, step, g, s, t) && 0 <= j < k < n / g + j
    ensures Orbit(n, step, x, j) != Orbit(n, step, x, k)
  {
    hide Blocks, Orbit;
    BlocksDivide(n, step, g, s, t);
    if Orbit(n, step, x, j) == Orbit(n, step, x, k) {
      var q := SamePlace(n, step, x, j, k);
      Regroup(k - j, g, step / g, q, n / g);
      Coprime(k - j, step / g, q, n / g, s, t - s);
      MulAtLeast((k - j) * s + (t - s) * q, n / g);
    }
  }

  /** After n/g steps one is back. */
  lemma OrbitReturns(n: int, step: int, g: int, s: int, t: int, x: int)
    requires Blocks(n, step, g, s, t) && 0 <= x < n
    ensures Orbit(n, step, x, n / g) == x == Orbit(n, step, x, 0)
  {
    BlocksDivide(n, step, g, s, t);
    var len, st := n / g, step / g;
    assert len * step == len * (g * st) == st * n;
    ModIs(x + len * step, n, st, x);
    ModIs(x + 0 * step, n, 0, x);
  }

  /** The distance between two places of a residue class is, modulo n, a number of steps. */
  lemma Distance(n: int, step: int, g: int, s: int, t: int, x: int, y: int) returns (e: int, f: int)
    requires Blocks(n, step, g, s, t) && x % g == y % g
    ensures y - x == f * n + e * step
  {
    var m := y / g - x / g;
    assert y - x == g * m;
    assert g == s * n + (t - s) * step;
    e, f := m * (t - s), m * s;
    assert g * m == (s * n + (t - s) * step) * m;
  }

  lemma ReduceSteps(n: int, step: int, len: int, st: int, e: int)
    requires len > 0 && len * step == st * n
    ensures (e % len) * step == e * step - ((e / len) * st) * n
  {
    var q := e / len;
    assert e == q * len + e % len;
    assert (q * len) * step == q * (st * n);
  }

  /** Every place of the residue class is visited within n/g steps. */
  lemma OrbitCovers(n: int, step: int, g: int, s: int, t: int, x: int, y: int) returns (k: int)
    requires Blocks(n, step, g, s, t) && 0 <= y < n && x % g == y % g
    ensures 0 <= k < n / g && Orbit(n, step, x, k) == y
  {
    hide Blocks;
    BlocksDivide(n, step, g, s, t);
    var len, st := n / g, step / g;
    Turn(g, len, st, n, step);
    var e, f := Distance(n, step, g, s, t, x, y);
    k := e % len;
    ReduceSteps(n, step, len, st, e);
    Collect(n, f, (e / len) * st);
    ModIs(x + k * step, n, -f - (e / len) * st, y);
  }

  lemma Turn(g: int, len: int, st: int, n: int, step: int)
    requires n == g * len && step == g * st
    ensures len * step == st * n
  {
  }

  lemma Collect(n: int, f: int, h: int)
    ensures (-f - h) * n == -(f * n) - h * n
  {
  }

  // ---------------------------------------------------------------------
  // Exchanging the blocks

  /** Where the element at offset y of the two blocks has to go. */
  function Target(n: int, step: int, y: int): (r: int)
    ensures 0 <= y < n && 0 < step <= n ==> 0 <= r < n
  {
    if y + step < n then y + step else y + step - n
  }

  function Class(g: int, y: int): (r: int)
    requires g > 0
    ensures 0 <= r < g
  {
    y % g
  }

  /** The geometry of one cycle: blocks from a, of n places, the cycle through offset x. */
  datatype Cycle = Cycle(a: int, n: int, step: int, g: int, x: int) {
    ghost predicate Ok(s: int, t: int) {
      0 <= a && Blocks(n, step, g, s, t) && 0 <= x < n
    }

    predicate Shaped(size: int) {
      0 < g <= n && 0 <= a && a + n <= size && 0 <= x < n
    }

    function Length(): (r: int)
      requires 0 < g
    {
      n / g
    }

    /** The position after t steps along the cycle. */
    function At(t: int): (r: int)
      requires n > 0
      ensures a <= r < a + n
    {
      a + Orbit(n, step, x, t)
    }

    predicate Within(p: int)
      requires g > 0
    {
      a <= p < a + n && Class(g, p - a) == Class(g, x)
    }

    lemma Start(s: int, t: int)
      requires Ok(s, t)
      ensures At(0) == At(Length()) == a + x && 0 < g <= n && Length() >= 1
    {
      BlocksDivide(n, step, g, s, t);
      OrbitReturns(n, step, g, s, t, x);
    }

    lemma Distinct(s: int, t: int, j: int, k: int)
      requires Ok(s, t) && g > 0 && 0 <= j < Length() && 0 <= k < Length() && j != k
      ensures At(j) != At(k)
    {
      if j < k {
        OrbitDistinct(n, step, g, s, t, x, j, k);
      } else {
        OrbitDistinct(n, step, g, s, t, x, k, j);
      }
    }

    lemma Next(s: int, t: int, j: int)
      requires Ok(s, t)
      ensures At(j + 1) == if At(j) + step < a + n then At(j) + step else At(j) + step - n
    {
      OrbitNext(n, step, x, j);
    }

    lemma Stays(s: int, t: int, k: int)
      requires Ok(s, t)
      ensures g > 0 && Within(At(k))
    {
      OrbitClass(n, step, g, s, t, x, k);
    }
  }

  /** The element t - 1 steps along the cycle has moved on by one. */
  ghost predicate Moved<T>(c: Cycle, before: seq<T>, now: seq<T>, t: int)
    requires c.Shaped(|before|) && |before| == |now|
  {
    now[c.At(t)] == before[c.At(t - 1)]
  }

  /** After j swaps: the first j elements of the cycle have moved one step on, the element
      to be moved next waits at the start, the rest is as before. */
  ghost predicate Cycled<T>(c: Cycle, before: seq<T>, now: seq<T>, j: int) {
    c.Shaped(|before|) && |before| == |now| && 0 <= j <= c.Length() &&
    (forall p :: 0 <= p < |now| && !c.Within(p) ==> now[p] == before[p]) &&
    (forall t :: j < t < c.Length() ==> now[c.At(t)] == before[c.At(t)]) &&
    (forall t :: 1 <= t <= j && t < c.Length() ==> Moved(c, before, now, t)) &&
    now[c.a + c.x] == before[c.At(if j < c.Length() then j else c.Length() - 1)]
  }

  function Swapped<T>(s: seq<T>, p: int, q: int): (r: seq<T>)
    requires 0 <= p < |s| && 0 <= q < |s|
  {
    s[p := s[q]][q := s[p]]
  }

  lemma CycleBegins<T>(c: Cycle, before: seq<T>, s: int, t: int)
    requires c.Ok(s, t) && c.a + c.n <= |before|
    ensures Cycled(c, before, before, 0)
  {
    c.Start(s, t);
  }

  /** The swap of one inner iteration. */
  lemma CycleSwaps<T>(c: Cycle, before: seq<T>, now: seq<T>, j: int, s: int, t: int)
    requires Cycled(c, before, now, j) && c.Ok(s, t) && j < c.Length()
    ensures Cycled(c, before, Swapped(now, c.At(j + 1), c.a + c.x), j + 1)
  {
    hide Orbit, Blocks, Cycle.Length, Cycle.Within, Cycle.At;
    c.Start(s, t);
    c.Stays(s, t, 0);
    c.Stays(s, t, j + 1);
    var next := Swapped(now, c.At(j + 1), c.a + c.x);
    if j + 1 < c.Length() {
      forall k | 0 <= k < c.Length()
        ensures k != j + 1 ==> c.At(k) != c.At(j + 1)
        ensures k != 0 ==> c.At(k) != c.At(0)
      {
        if k != j + 1 {
          c.Distinct(s, t, j + 1, k);
        }
        if k != 0 {
          c.Distinct(s, t, 0, k);
        }
      }
      assert Moved(c, before, next, j + 1);
    }
    forall k | 1 <= k <= j && k < c.Length()
      ensures Moved(c, before, next, k)
    {
      assert Moved(c, before, now, k);
      c.Distinct(s, t, 0, k);
    }
  }

  /** The inner loop of permute_args: one cycle, driven from its start. */
  method FollowCycle<T>(argv: array<T>, ghost c: Cycle, cstart: int, b: int, nnonopts: int, nopts: int, cyclelen: int,
                        ghost s: int, ghost t: int)
    requires c.Ok(s, t) && c.a + c.n <= argv.Length && cstart == c.a + c.x && b == c.a + nnonopts
    requires nopts == c.step && nnonopts + nopts == c.n && cyclelen == c.n / c.g
    modifies argv
    ensures Cycled(c, old(argv[..]), argv[..], cyclelen)
  {
    hide Orbit, Blocks, Cycled;
    var pos := cstart;
    c.Start(s, t);
    CycleBegins(c, argv[..], s, t);
    for j := 0 to cyclelen
      invariant pos == c.At(j)
      invariant Cycled(c, old(argv[..]), argv[..], j)
    {
      c.Next(s, t, j);
      if pos >= b {
        pos := pos - nnonopts;
      } else {
        pos := pos + nopts;
      }
      CycleSwaps(c, old(argv[..]), argv[..], j, s, t);
      assert pos == c.At(j + 1);
      ghost var was := argv[..];
      var swap := argv[pos];
      argv[pos] := argv[cstart];
      argv[cstart] := swap;
      assert argv[..] == Swapped(was, pos, cstart);
    }
  }

  /** The first i residue classes have reached their places, the others have not moved. */
  ghost predicate Rotated<T>(a: int, n: int, step: int, g: int, before: seq<T>, now: seq<T>, i: int) {
    0 <= a && 0 < g && 0 < step <= n && a + n <= |before| == |now| &&
    (forall p :: 0 <= p < a || a + n <= p < |now| ==> now[p] == before[p]) &&
    (forall y :: 0 <= y < n ==> Settled(a, n, step, g, before, now, i, y))
  }

  /** The element at offset y has moved if and only if its class is one of the first i. */
  ghost predicate Settled<T>(a: int, n: int, step: int, g: int, before: seq<T>, now: seq<T>, i: int, y: int)
    requires 0 <= a && 0 < g && 0 < step <= n && a + n <= |before| == |now| && 0 <= y < n
  {
    if Class(g, y) < i then now[a + Target(n, step, y)] == before[a + y] else now[a + y] == before[a + y]
  }

  lemma TargetClass(n: int, step: int, g: int, s: int, t: int, y: int)
    requires Blocks(n, step, g, s, t) && 0 <= y < n
    ensures g > 0 && Class(g, Target(n, step, y)) == Class(g, y)
  {
    ModIs(y, n, 0, y);
    OrbitNext(n, step, y, 0);
    OrbitClass(n, step, g, s, t, y, 1);
  }

  /** A followed cycle puts the elements of its class into their places. */
  lemma CycleMoves<T>(c: Cycle, before: seq<T>, now: seq<T>, s: int, t: int, y: int)
    requires c.Ok(s, t) && c.g > 0 && Cycled(c, before, now, c.Length())
    requires 0 <= y < c.n && Class(c.g, y) == Class(c.g, c.x)
    ensures 0 <= c.a + Target(c.n, c.step, y) < |now| && now[c.a + Target(c.n, c.step, y)] == before[c.a + y]
  {
    hide Orbit, Blocks;
    c.Start(s, t);
    var k := OrbitCovers(c.n, c.step, c.g, s, t, c.x, y);
    assert c.At(k) == c.a + y;
    c.Next(s, t, k);
    assert c.At(k + 1) == c.a + Target(c.n, c.step, y);
    if k + 1 < c.Length() {
      assert Moved(c, before, now, k + 1);
    }
  }

  lemma Outside<T>(c: Cycle, before: seq<T>, now: seq<T>, j: int)
    requires Cycled(c, before, now, j)
    ensures c.Shaped(|before|) && |before| == |now|
    ensures forall p :: 0 <= p < |now| && !c.Within(p) ==> now[p] == before[p]
  {
  }

  lemma MovedAt<T>(c: Cycle, start: seq<T>, before: seq<T>, now: seq<T>, s: int, t: int, i: int, y: int)
    requires c.Ok(s, t) && Rotated(c.a, c.n, c.step, c.g, start, before, i)
    requires Cycled(c, before, now, c.Length()) && Class(c.g, c.x) == i && 0 <= y < c.n
    ensures Settled(c.a, c.n, c.step, c.g, start, now, i + 1, y)
  {
    hide Blocks, Orbit, Cycle.Length, Class, Cycled;
    Outside(c, before, now, c.Length());
    assert Settled(c.a, c.n, c.step, c.g, start, before, i, y);
    TargetClass(c.n, c.step, c.g, s, t, y);
    if Class(c.g, y) == i {
      CycleMoves(c, before, now, s, t, y);
    }
  }

  lemma ClassDone<T>(c: Cycle, start: seq<T>, before: seq<T>, now: seq<T>, s: int, t: int, i: int)
    requires c.Ok(s, t) && Rotated(c.a, c.n, c.step, c.g, start, before, i)
    requires Cycled(c, before, now, c.Length()) && Class(c.g, c.x) == i
    ensures Rotated(c.a, c.n, c.step, c.g, start, now, i + 1)
  {
    hide Blocks, Orbit, Cycle.Length, Class, Cycled, Settled;
    Outside(c, before, now, c.Length());
    var next := i + 1;
    forall y | 0 <= y < c.n
      ensures Settled(c.a, c.n, c.step, c.g, start, now, next, y)
    {
      MovedAt(c, start, before, now, s, t, i, y);
    }
  }

  /** When every class is done the blocks are exchanged. */
  lemma AllDone<T>(a: int, n: int, step: int, g: int, before: seq<T>, now: seq<T>)
    requires Rotated(a, n, step, g, before, now, g)
    ensures now == Exchanged(before, a, a + n - step, a + n)
  {
    var b := a + n - step;
    forall p | a <= p < a + n
      ensures now[p] == Exchanged(before, a, b, a + n)[p]
    {
      var y := if p < a + step then p - a + n - step else p - a - step;
      assert Target(n, step, y) == p - a;
      assert Settled(a, n, step, g, before, now, g, y);
    }
  }

  /** The two adjacent blocks a..b and b..c change places and keep their order. */
  function Exchanged<T>(s: seq<T>, a: int, b: int, c: int): (r: seq<T>)
    requires 0 <= a <= b <= c <= |s|
    ensures |r| == |s|
  {
    s[..a] + s[b..c] + s[a..b] + s[c..]
  }

  lemma Residue(n: int, step: int, g: int, s: int, t: int, i: int)
    requires Blocks(n, step, g, s, t) && 0 <= i < g
    ensures Class(g, n - step + i) == i
  {
    DivideMeans(g, n - step);
    ModIs(n - step + i, g, (n - step) / g, i);
  }

  /** permute_args: exchanges argv[a..b] with argv[b..c]. */
  method PermuteArgs<T>(argv: array<T>, panonoptStart: int, panonoptEnd: int, optEnd: int)
    requires 0 <= panonoptStart <= panonoptEnd < optEnd <= argv.Length
    modifies argv
    ensures argv[..] == Exchanged(old(argv[..]), panonoptStart, panonoptEnd, optEnd)
  {
    hide Orbit, Blocks, Cycled, Rotated;
    var nnonopts := panonoptEnd - panonoptStart;
    var nopts := optEnd - panonoptEnd;
    var ncycle, s, t := Gcd(nnonopts, nopts);
    ghost var n := optEnd - panonoptStart;
    StartBlocks(panonoptStart, n, nopts, ncycle, s, t, argv[..]);
    var cyclelen := (optEnd - panonoptStart) / ncycle;
    for i := 0 to ncycle
      invariant Rotated(panonoptStart, n, nopts, ncycle, old(argv[..]), argv[..], i)
    {
      var cstart := panonoptEnd + i;
      ghost var c := Cycle(panonoptStart, n, nopts, ncycle, nnonopts + i);
      ghost var before := argv[..];
      FollowCycle(argv, c, cstart, panonoptEnd, nnonopts, nopts, cyclelen, s, t);
      Residue(n, nopts, ncycle, s, t, i);
      ClassDone(c, old(argv[..]), before, argv[..], s, t, i);
    }
    AllDone(panonoptStart, n, nopts, ncycle, old(argv[..]), argv[..]);
  }

  lemma StartBlocks<T>(a: int, n: int, step: int, g: int, s: int, t: int, argv: seq<T>)
    requires 0 <= a && a + n <= |argv| && 0 < step <= n && IsGcd(g, n - step, step, s, t) && g <= step
    ensures Blocks(n, step, g, s, t) && Rotated(a, n, step, g, argv, argv, 0)
  {
  }
}
