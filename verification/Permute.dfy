/**
 In-place exchange of two adjacent blocks of an argument vector, as done by
 the compatibility version of getopt_long (compat/getopt_long.c).  The exchange
 walks gcd(n, m) cycles; the proof numbers the positions of one cycle by the
 turn at which the walk reaches them, with a Bezout coefficient of the block
 lengths.
 */
module Permute {

  // ----- modular arithmetic ---------------------------------------------------

  lemma {:induction false} MulAtLeast(k: int, l: int)
    requires 1 <= k && 0 <= l
    ensures l <= k * l
    decreases k
  {
    if k > 1 {
      MulAtLeast(k - 1, l);
      assert k * l == (k - 1) * l + l;
    }
  }

  /** A multiple of `l` strictly between `-l` and `l` is zero. */
  lemma MultipleInRange(k: int, l: int)
    requires -l < k * l < l
    ensures k == 0
  {
    assert -k * l == -(k * l);
    if k > 0 {
      MulAtLeast(k, l);
    } else if k < 0 {
      MulAtLeast(-k, l);
    }
  }

  /** Euclidean quotient and remainder are unique. */
  lemma ModUnique(a: int, l: int, q: int, r: int)
    requires 0 < l && 0 <= r < l && a == q * l + r
    ensures a % l == r && a / l == q
  {
    var q', r' := a / l, a % l;
    assert (q' - q) * l == r - r' by {
      assert a == q' * l + r';
      assert (q' - q) * l == q' * l - q * l;
    }
    MultipleInRange(q' - q, l);
  }

  lemma ModShift(a: int, k: int, l: int)
    requires 0 < l
    ensures (a + k * l) % l == a % l
    ensures (a + k * l) / l == a / l + k
  {
    assert a + k * l == (a / l + k) * l + a % l;
    ModUnique(a + k * l, l, a / l + k, a % l);
  }

  // ----- the greatest common divisor ------------------------------------------

  /** `g` divides both numbers and is an integer combination of them; these two
      facts together say that it is their greatest common divisor. */
  ghost predicate IsGcd(g: int, a: int, b: int) {
    && 0 < g
    && a % g == 0
    && b % g == 0
    && exists x, y :: Combines(g, a, b, x, y)
  }

  ghost predicate Combines(g: int, a: int, b: int, x: int, y: int) {
    x * a + y * b == g
  }

  lemma DividesSum(g: int, a: int, b: int, q: int)
    requires 0 < g && a % g == 0 && b % g == 0
    ensures (a + q * b) % g == 0
  {
    var ka, kb := a / g, b / g;
    assert a + q * b == (ka + q * kb) * g by {
      assert a == ka * g && b == kb * g;
      assert q * (kb * g) == (q * kb) * g;
    }
    ModUnique(a + q * b, g, ka + q * kb, 0);
  }

  /** Every common divisor divides the one that is a combination, and so is at most it. */
  lemma GcdIsGreatest(g: int, a: int, b: int, d: int)
    requires IsGcd(g, a, b)
    requires 0 < d && a % d == 0 && b % d == 0
    ensures g % d == 0 && d <= g
  {
    var x, y :| Combines(g, a, b, x, y);
    var ka, kb := a / d, b / d;
    assert g == (x * ka + y * kb) * d by {
      assert x * a == (x * ka) * d;
      assert y * b == (y * kb) * d;
    }
    var k := x * ka + y * kb;
    ModUnique(g, d, k, 0);
    if k <= 0 {
      MulNonPositive(k, d);
    } else {
      MulAtLeast(k, d);
    }
  }

  lemma MulNonPositive(k: int, d: int)
    requires k <= 0 && 0 < d
    ensures k * d <= 0
  {
    if k < 0 {
      MulAtLeast(-k, d);
      assert -k * d == -(k * d);
    }
  }

  /** One step of Euclid's loop keeps the divisors and the combinations. */
  lemma EuclidStep(g: int, a: int, b: int)
    requires 0 < b && IsGcd(g, b, a % b)
    ensures IsGcd(g, a, b)
  {
    var q := a / b;
    DividesSum(g, a % b, b, q);
    var x, y :| Combines(g, b, a % b, x, y);
    EuclidAlgebra(a, b, a % b, q, x, y);
    assert Combines(g, a, b, y, x - y * q);
  }

  lemma EuclidAlgebra(a: int, b: int, r: int, q: int, x: int, y: int)
    requires a == r + q * b
    ensures y * a + (x - y * q) * b == x * b + y * r
  {
    assert y * a == y * r + y * (q * b);
    assert (x - y * q) * b == x * b - (y * q) * b;
    assert y * (q * b) == (y * q) * b;
  }

  lemma GcdWithZero(b: int)
    requires 0 < b
    ensures IsGcd(b, b, 0)
  {
    assert Combines(b, b, 0, 1, 0);
  }

  /** The loop at the top of compat/getopt_long.c. */
  method Gcd(a0: int, b0: int) returns (g: int)
    requires 0 <= a0 && 0 < b0
    ensures IsGcd(g, a0, b0)
  {
    var a, b := a0, b0;
    var c := a % b;
    while c != 0
      invariant 0 < b && 0 <= c < b && c == a % b
      invariant forall d {:trigger IsGcd(d, a0, b0)} :: IsGcd(d, a, b) ==> IsGcd(d, a0, b0)
      decreases c
    {
      forall d | IsGcd(d, b, c) ensures IsGcd(d, a0, b0) {
        EuclidStep(d, a, b);
      }
      a := b;
      b := c;
      c := a % b;
    }
    GcdWithZero(b);
    EuclidStep(b, a, b);
    g := b;
  }

  // ----- one cycle, in units of the greatest common divisor -------------------

  /** Two blocks of `n` and `m` units, with Bezout coefficients of `n` and `n + m`. */
  datatype Blocks = Blocks(n: nat, m: nat, u: int, v: int) {
    ghost predicate Valid() {
      0 < n && 0 < m && u * n + v * (n + m) == 1
    }

    /** The step of the walk. */
    ghost function Next(q: int): int { if q >= n then q - n else q + m }

    /** The turn at which a walk that starts at unit `n` reaches unit `q`. */
    ghost function Turn(q: int): int
      requires Valid()
    {
      TurnOf(u, n, n + m, q)
    }
  }

  ghost function TurnOf(u: int, n: int, l: int, q: int): int
    requires 0 < l
  {
    u * (n - q) % l
  }

  lemma TurnStart(b: Blocks)
    requires b.Valid()
    ensures b.Turn(b.n) == 0
  {
    assert b.u * (b.n - b.n) == 0;
  }

  lemma ModSucc(t: int, k: int, l: int, t': int)
    requires 0 < l && t' == t + 1 + k * l
    ensures t' % l == (t % l + 1) % l
  {
    var r := t % l + 1;
    assert t' == r + (t / l + k) * l by {
      assert t == t / l * l + t % l;
      assert (t / l + k) * l == t / l * l + k * l;
    }
    ModShift(r, t / l + k, l);
  }

  lemma DownAlgebra(u: int, v: int, n: int, l: int, q: int)
    requires u * n + v * l == 1
    ensures u * (n - (q - n)) == u * (n - q) + 1 + -v * l
  {
    assert u * (n - (q - n)) == u * (n - q) + u * n;
  }

  lemma UpAlgebra(u: int, v: int, n: int, l: int, q: int)
    requires u * n + v * l == 1
    ensures u * (n - (q + (l - n))) == u * (n - q) + 1 + (-v - u) * l
  {
    assert u * (n - (q + (l - n))) == u * (n - q) + u * n - u * l;
    assert (-v - u) * l == -v * l - u * l;
  }

  lemma StepDown(u: int, v: int, n: int, l: int, q: int)
    requires 0 < l && u * n + v * l == 1
    ensures TurnOf(u, n, l, q - n) == (TurnOf(u, n, l, q) + 1) % l
  {
    DownAlgebra(u, v, n, l, q);
    ModSucc(u * (n - q), -v, l, u * (n - (q - n)));
  }

  lemma StepUp(u: int, v: int, n: int, l: int, q: int)
    requires 0 < l && u * n + v * l == 1
    ensures TurnOf(u, n, l, q + (l - n)) == (TurnOf(u, n, l, q) + 1) % l
  {
    UpAlgebra(u, v, n, l, q);
    ModSucc(u * (n - q), -v - u, l, u * (n - (q + (l - n))));
  }

  /** Each step of the walk advances the turn by one, modulo the cycle length. */
  lemma TurnNext(b: Blocks, q: int)
    requires b.Valid() && 0 <= q < b.n + b.m
    ensures 0 <= b.Next(q) < b.n + b.m
    ensures b.Turn(b.Next(q)) == (b.Turn(q) + 1) % (b.n + b.m)
  {
    var l := b.n + b.m;
    if q >= b.n {
      StepDown(b.u, b.v, b.n, l, q);
    } else {
      StepUp(b.u, b.v, b.n, l, q);
    }
  }

  /** Two units with the same turn differ by a multiple of `l`, after scaling by `u` ... */
  lemma SameTurn(u: int, n: int, l: int, q: int, p: int) returns (k: int)
    requires 0 < l && TurnOf(u, n, l, q) == TurnOf(u, n, l, p)
    ensures u * (p - q) == k * l
  {
    var tq, tp := u * (n - q), u * (n - p);
    k := tq / l - tp / l;
    assert u * (p - q) == tq - tp;
    assert tq == tq / l * l + tq % l && tp == tp / l * l + tp % l;
    assert k * l == tq / l * l - tp / l * l;
  }

  /** ... and `u` is invertible modulo `l`, so they differ by a multiple of `l`. */
  lemma CancelUnit(u: int, v: int, n: int, l: int, d: int, k: int)
    requires u * n + v * l == 1 && u * d == k * l
    ensures d == (k * n + v * d) * l
  {
    calc {
      d;
      (u * n + v * l) * d;
      (u * n) * d + (v * l) * d;
      { assert (u * n) * d == (u * d) * n; assert (v * l) * d == (v * d) * l; }
      (k * l) * n + (v * d) * l;
      { assert (k * l) * n == (k * n) * l; }
      (k * n) * l + (v * d) * l;
      (k * n + v * d) * l;
    }
  }

  /** No two units of a cycle share a turn. */
  lemma TurnInjective(b: Blocks, q: int, p: int)
    requires b.Valid() && 0 <= q < b.n + b.m && 0 <= p < b.n + b.m
    requires b.Turn(q) == b.Turn(p)
    ensures q == p
  {
    var l := b.n + b.m;
    var k := SameTurn(b.u, b.n, l, q, p);
    CancelUnit(b.u, b.v, b.n, l, p - q, k);
    MultipleInRange(k * b.n + b.v * (p - q), l);
  }

  /** The walk: it visits every unit once and its last step returns to the start. */
  ghost predicate IsWalk(n: int, m: int, w: seq<int>) {
    && |w| == n + m && 0 < |w|
    && w[0] == n
    && (forall t :: 0 <= t < |w| ==> 0 <= w[t] < n + m)
    && (forall t :: 0 <= t < |w| ==> Follows(0, n, m, w, t))
    && (forall s, t :: 0 <= s < t < |w| ==> w[s] != w[t])
    && (forall q :: 0 <= q < n + m ==> q in w)
  }

  /** The position an element moves to when the block of `n` elements from `lo`
      changes places with the `m` elements after it. */
  function Step(lo: int, n: int, m: int, x: int): int {
    if x >= lo + n then x - n else x + m
  }

  /** The first `k + 1` units of the walk, each at the place that is its turn. */
  lemma {:induction false} WalkPrefix(b: Blocks, k: nat) returns (w: seq<int>)
    requires b.Valid() && k < b.n + b.m
    ensures |w| == k + 1 && w[0] == b.n
    ensures forall t :: 0 <= t <= k ==> 0 <= w[t] < b.n + b.m && b.Turn(w[t]) == t
    ensures forall t :: 0 <= t < k ==> w[t + 1] == b.Next(w[t])
  {
    if k == 0 {
      TurnStart(b);
      w := [b.n];
    } else {
      var p := WalkPrefix(b, k - 1);
      TurnNext(b, p[k - 1]);
      SmallMod(k, b.n + b.m);
      w := p + [b.Next(p[k - 1])];
    }
  }

  lemma SmallMod(k: nat, l: nat)
    requires k < l
    ensures k % l == k
  {
    ModUnique(k, l, 0, k);
  }

  lemma WalkExists(b: Blocks) returns (w: seq<int>)
    requires b.Valid()
    ensures IsWalk(b.n, b.m, w)
  {
    var l := b.n + b.m;
    w := WalkPrefix(b, l - 1);
    TurnNext(b, w[l - 1]);
    ModUnique(l, l, 1, 0);
    TurnStart(b);
    TurnInjective(b, b.Next(w[l - 1]), b.n);
    forall t | 0 <= t < l ensures Follows(0, b.n, b.m, w, t) {
    }
    forall q | 0 <= q < l ensures q in w {
      TurnInRange(b, q);
      TurnInjective(b, q, w[b.Turn(q)]);
    }
  }

  lemma TurnInRange(b: Blocks, q: int)
    requires b.Valid()
    ensures 0 <= b.Turn(q) < b.n + b.m
  {
  }

  // ----- the cycles of an exchange --------------------------------------------

  /** A cycle of positions under `Step`, in the order the walk visits them. */
  ghost predicate IsCycle(lo: int, n: int, m: int, p: seq<int>) {
    && 0 < |p|
    && (forall t :: 0 <= t < |p| ==> lo <= p[t] < lo + n + m)
    && (forall t :: 0 <= t < |p| ==> Follows(lo, n, m, p, t))
    && Distinct(p)
  }

  ghost predicate Follows(lo: int, n: int, m: int, p: seq<int>, t: int)
    requires 0 <= t < |p|
  {
    Step(lo, n, m, p[t]) == if t + 1 < |p| then p[t + 1] else p[0]
  }

  ghost predicate Distinct(p: seq<int>) {
    p == [] || (p[0] !in p[1..] && Distinct(p[1..]))
  }

  lemma {:induction false} DistinctPairs(p: seq<int>)
    ensures Distinct(p) <==> forall s, t :: 0 <= s < t < |p| ==> p[s] != p[t]
  {
    if p != [] {
      var q := p[1..];
      DistinctPairs(q);
      if Distinct(p) {
        forall s, t | 0 <= s < t < |p| ensures p[s] != p[t] {
          assert p[t] == q[t - 1];
        }
      } else if p[0] in q {
        var t :| 0 <= t < |q| && q[t] == p[0];
        assert p[t + 1] == p[0];
      } else {
        var s, t :| 0 <= s < t < |q| && q[s] == q[t];
        assert p[s + 1] == p[t + 1];
      }
    }
  }

  /** The cycles `ps` partition the positions of both blocks: position `x` lies
      on cycle `home[x - lo]` and on no other. */
  ghost predicate Partition(lo: int, n: int, m: int, ps: seq<seq<int>>, home: seq<int>) {
    && |home| == n + m
    && (forall i :: 0 <= i < |ps| ==> IsCycle(lo, n, m, ps[i]) && ps[i][0] == lo + n + i)
    && (forall d :: 0 <= d < |home| ==> OnCycle(lo, ps, home, d))
    && (forall i, t :: 0 <= i < |ps| && 0 <= t < |ps[i]| ==> HomeIs(lo, ps, home, i, t))
  }

  ghost predicate HomeIs(lo: int, ps: seq<seq<int>>, home: seq<int>, i: int, t: int)
    requires 0 <= i < |ps| && 0 <= t < |ps[i]|
  {
    0 <= ps[i][t] - lo < |home| && home[ps[i][t] - lo] == i
  }

  ghost predicate OnCycle(lo: int, ps: seq<seq<int>>, home: seq<int>, d: int)
    requires 0 <= d < |home|
  {
    0 <= home[d] < |ps| && lo + d in ps[home[d]]
  }

  /** Unit `q` of cycle `i`, as a position. */
  ghost function At(lo: int, g: int, i: int, q: int): int { lo + (q * g + i) }

  lemma MulBounds(q: int, l: int, g: int)
    requires 0 <= q && 0 < g
    ensures 0 <= q * g
    ensures q < l ==> q * g + g <= l * g
    ensures q >= l ==> q * g >= l * g
  {
    if q > 0 { MulAtLeast(q, g); }
    if q < l {
      MulAtLeast(l - q, g);
      assert (l - q) * g == l * g - q * g;
    } else if q > l {
      MulAtLeast(q - l, g);
      assert (q - l) * g == q * g - l * g;
    }
  }

  lemma AtStep(lo: int, g: int, n: int, m: int, i: int, q: int)
    requires 0 <= i < g && 0 <= n && 0 <= m && 0 <= q < n + m
    ensures lo <= At(lo, g, i, q) < lo + n * g + m * g
    ensures At(lo, g, i, Step(0, n, m, q)) == Step(lo, n * g, m * g, At(lo, g, i, q))
  {
    MulBounds(q, n + m, g);
    MulBounds(q, n, g);
    assert (n + m) * g == n * g + m * g;
    assert (q - n) * g == q * g - n * g;
    assert (q + m) * g == q * g + m * g;
  }

  lemma AtInverse(lo: int, g: int, i: int, q: int)
    requires 0 <= i < g
    ensures (At(lo, g, i, q) - lo) % g == i && (At(lo, g, i, q) - lo) / g == q
  {
    ModUnique(q * g + i, g, q, i);
  }

  lemma PositionSplits(lo: int, g: int, l: int, x: int)
    requires 0 < g && 0 < l && lo <= x < lo + l * g
    ensures 0 <= (x - lo) % g < g && 0 <= (x - lo) / g < l
    ensures At(lo, g, (x - lo) % g, (x - lo) / g) == x
  {
    var d := x - lo;
    var q := d / g;
    assert d == q * g + d % g;
    assert (q + 1) * g == q * g + g;
    if q < 0 {
      MulNonPositive(q + 1, g);
    }
    MulBounds(if q < 0 then 0 else q, l, g);
  }

  /** The walk, spread out with stride `g` and offset `i`, is a cycle of positions. */
  lemma SpreadWalk(lo: int, g: int, n: int, m: int, i: int, w: seq<int>) returns (p: seq<int>)
    requires 0 <= i < g && 0 < n && 0 < m && IsWalk(n, m, w)
    ensures |p| == n + m
    ensures forall t :: 0 <= t < |p| ==> p[t] == At(lo, g, i, w[t])
    ensures IsCycle(lo, n * g, m * g, p) && p[0] == lo + n * g + i
  {
    p := seq(|w|, t requires 0 <= t < |w| => At(lo, g, i, w[t]));
    forall t | 0 <= t < |p| ensures lo <= p[t] < lo + n * g + m * g && Follows(lo, n * g, m * g, p, t) {
      SpreadFollows(lo, g, n, m, i, w, p, t);
    }
    SpreadDistinct(lo, g, i, w, p);
  }

  lemma SpreadFollows(lo: int, g: int, n: int, m: int, i: int, w: seq<int>, p: seq<int>, t: int)
    requires 0 <= i < g && 0 < n && 0 < m && 0 <= t < |w| == |p| && 0 <= w[t] < n + m
    requires Follows(0, n, m, w, t)
    requires p[t] == At(lo, g, i, w[t]) && p[0] == At(lo, g, i, w[0])
    requires t + 1 < |p| ==> p[t + 1] == At(lo, g, i, w[t + 1])
    ensures lo <= p[t] < lo + n * g + m * g && Follows(lo, n * g, m * g, p, t)
  {
    AtStep(lo, g, n, m, i, w[t]);
  }

  lemma {:induction false} SpreadDistinct(lo: int, g: int, i: int, w: seq<int>, p: seq<int>)
    requires 0 <= i < g && |p| == |w|
    requires forall t :: 0 <= t < |p| ==> p[t] == At(lo, g, i, w[t])
    requires forall s, t :: 0 <= s < t < |w| ==> w[s] != w[t]
    ensures Distinct(p)
  {
    forall s, t | 0 <= s < t < |w| ensures p[s] != p[t] {
      AtInverse(lo, g, i, w[s]);
      AtInverse(lo, g, i, w[t]);
    }
    DistinctPairs(p);
  }

  /** The first `k` cycles. */
  lemma {:induction false} SpreadWalks(lo: int, g: int, n: int, m: int, w: seq<int>, k: nat) returns (ps: seq<seq<int>>)
    requires k <= g && 0 < n && 0 < m && IsWalk(n, m, w)
    ensures |ps| == k
    ensures forall i :: 0 <= i < k ==> |ps[i]| == n + m && IsCycle(lo, n * g, m * g, ps[i]) && ps[i][0] == lo + n * g + i
    ensures forall i, t {:trigger ps[i][t]} :: 0 <= i < k && 0 <= t < |ps[i]| ==> ps[i][t] == At(lo, g, i, w[t])
  {
    if k == 0 {
      ps := [];
    } else {
      ps := SpreadWalks(lo, g, n, m, w, k - 1);
      var p := SpreadWalk(lo, g, n, m, k - 1, w);
      ps := ps + [p];
    }
  }

  /** `ps[i][t]` is unit `w[t]` of cycle `i`, and `home` records residues. */
  ghost predicate Spread(lo: int, g: int, l: int, w: seq<int>, ps: seq<seq<int>>, home: seq<int>) {
    && |ps| == g && |w| == l && |home| == l * g
    && (forall i :: 0 <= i < g ==> |ps[i]| == l)
    && (forall i, t {:trigger ps[i][t]} :: 0 <= i < g && 0 <= t < l ==> ps[i][t] == At(lo, g, i, w[t]))
    && (forall d :: 0 <= d < |home| ==> home[d] == d % g)
  }

  lemma SpreadCovers(lo: int, g: int, n: int, m: int, w: seq<int>, ps: seq<seq<int>>, home: seq<int>, d: int)
    requires 0 < g && IsWalk(n, m, w) && Spread(lo, g, n + m, w, ps, home)
    requires 0 <= d < |home|
    ensures 0 <= home[d] < g && lo + d in ps[home[d]]
  {
    PositionSplits(lo, g, n + m, lo + d);
    assert d / g in w;
    var t :| 0 <= t < |w| && w[t] == d / g;
    assert ps[home[d]][t] == lo + d;
  }

  lemma SpreadIsDisjoint(lo: int, g: int, l: int, w: seq<int>, ps: seq<seq<int>>, home: seq<int>, i: int, t: int)
    requires Spread(lo, g, l, w, ps, home) && 0 <= i < g && 0 <= t < l
    requires lo <= ps[i][t] < lo + |home|
    ensures home[ps[i][t] - lo] == i
  {
    AtInverse(lo, g, i, w[t]);
  }

  /** With `g` the greatest common divisor of the block lengths, `g` cycles of
      `(n + m) / g` positions each partition the two blocks. */
  lemma CyclesPartition(lo: int, n: int, m: int, g: int, l: int) returns (ps: seq<seq<int>>, home: seq<int>)
    requires 0 < n && 0 < m && IsGcd(g, n, m) && l == (n + m) / g
    ensures |ps| == g
    ensures forall i :: 0 <= i < |ps| ==> |ps[i]| == l
    ensures Partition(lo, n, m, ps, home)
  {
    var b := UnitBlocks(n, m, g);
    assert l * g == n + m && l == b.n + b.m by {
      assert n + m == (b.n + b.m) * g;
      ModUnique(n + m, g, b.n + b.m, 0);
    }
    ps, home := UnitPartition(lo, n, m, g, b);
  }

  lemma UnitPartition(lo: int, n: int, m: int, g: int, b: Blocks) returns (ps: seq<seq<int>>, home: seq<int>)
    requires 0 < g && b.Valid() && n == b.n * g && m == b.m * g && (b.n + b.m) * g == n + m
    ensures |ps| == g
    ensures forall i :: 0 <= i < |ps| ==> |ps[i]| == b.n + b.m
    ensures Partition(lo, n, m, ps, home)
  {
    var w := WalkExists(b);
    ps := SpreadWalks(lo, g, b.n, b.m, w, g);
    home := Residues(n + m, g);
    PartitionFromSpread(lo, n, m, g, b, w, ps, home);
  }

  ghost function Residues(l: nat, g: int): (home: seq<int>)
    requires 0 < g
    ensures |home| == l
    ensures forall d :: 0 <= d < l ==> home[d] == d % g
  {
    seq(l, d => d % g)
  }

  lemma PartitionFromSpread(lo: int, n: int, m: int, g: int, b: Blocks, w: seq<int>, ps: seq<seq<int>>, home: seq<int>)
    requires 0 < g && |home| == n + m && IsWalk(b.n, b.m, w) && Spread(lo, g, b.n + b.m, w, ps, home)
    requires forall i :: 0 <= i < |ps| ==> IsCycle(lo, n, m, ps[i]) && ps[i][0] == lo + n + i
    ensures Partition(lo, n, m, ps, home)
  {
    forall d | 0 <= d < |home| ensures OnCycle(lo, ps, home, d) {
      SpreadCovers(lo, g, b.n, b.m, w, ps, home, d);
    }
    forall i, t | 0 <= i < |ps| && 0 <= t < |ps[i]| ensures HomeIs(lo, ps, home, i, t) {
      SpreadIsDisjoint(lo, g, b.n + b.m, w, ps, home, i, t);
    }
  }

  /** Block lengths in units of their greatest common divisor are coprime. */
  lemma UnitBlocks(n: int, m: int, g: int) returns (b: Blocks)
    requires 0 < n && 0 < m && IsGcd(g, n, m)
    ensures b.Valid() && n == b.n * g && m == b.m * g
  {
    var x, y :| Combines(g, n, m, x, y);
    var n', m' := n / g, m / g;
    assert n == n' * g && m == m' * g;
    if n' <= 0 { MulNonPositive(n', g); }
    if m' <= 0 { MulNonPositive(m', g); }
    assert (x * n' + y * m') * g == 1 * g by {
      assert x * n == (x * n') * g;
      assert y * m == (y * m') * g;
    }
    CancelFactor(x * n' + y * m', 1, g);
    assert (x - y) * n' + y * (n' + m') == x * n' + y * m';
    b := Blocks(n', m', x - y, y);
  }

  lemma CancelFactor(a: int, c: int, g: int)
    requires 0 < g && a * g == c * g
    ensures a == c
  {
    assert (a - c) * g == 0;
    MultipleInRange(a - c, g);
  }

  // ----- the exchange on the array --------------------------------------------

  /** Cycle `p` after `j` turns: the first `j` positions after the start hold the
      element that was one step behind them, the element in hand sits at the start,
      and every other position is as in `s0`. */
  ghost predicate Walked<T>(p: seq<int>, j: int, s0: seq<T>, s: seq<T>) {
    && |s| == |s0| && 0 <= j < |p|
    && (forall t :: 0 <= t < |p| ==> 0 <= p[t] < |s|)
    && (forall t :: 0 < t < |p| ==> Settled(p, j, s0, s, t))
    && s[p[0]] == s0[p[j]]
    && (forall x :: 0 <= x < |s| && x !in p ==> s[x] == s0[x])
  }

  ghost predicate Settled<T>(p: seq<int>, j: int, s0: seq<T>, s: seq<T>, t: int)
    requires 0 < t < |p| && |s| == |s0| && 0 <= p[t] < |s| && 0 <= p[t - 1] < |s|
  {
    s[p[t]] == if t <= j then s0[p[t - 1]] else s0[p[t]]
  }

  /** Every element on cycle `p` has moved one step, and nothing else has moved. */
  ghost predicate Rotated<T>(lo: int, n: int, m: int, p: seq<int>, s0: seq<T>, s: seq<T>) {
    && |s| == |s0|
    && (forall t :: 0 <= t < |p| ==> Moved(lo, n, m, s0, s, p[t]))
    && (forall x :: 0 <= x < |s| && x !in p ==> s[x] == s0[x])
  }

  ghost predicate Moved<T>(lo: int, n: int, m: int, s0: seq<T>, s: seq<T>, x: int) {
    && 0 <= x < |s0| && 0 <= Step(lo, n, m, x) < |s|
    && s[Step(lo, n, m, x)] == s0[x]
  }

  lemma {:induction false} WalkStep<T>(p: seq<int>, j: int, s0: seq<T>, s: seq<T>, s': seq<T>)
    requires Walked(p, j, s0, s) && j + 1 < |p| && Distinct(p)
    requires s' == s[p[j + 1] := s[p[0]]][p[0] := s[p[j + 1]]]
    ensures Walked(p, j + 1, s0, s')
  {
    DistinctPairs(p);
    assert p[0] in p && p[j + 1] in p;
    var i := j + 1;
    assert Settled(p, j, s0, s, i);
    forall t | 0 < t < |p| ensures Settled(p, i, s0, s', t) {
      assert Settled(p, j, s0, s, t);
    }
  }

  /** A sequence with the elements at `x` and `y` swapped. */
  function SwappedAt<T>(s: seq<T>, x: int, y: int): seq<T>
    requires 0 <= x < |s| && 0 <= y < |s|
  {
    s[x := s[y]][y := s[x]]
  }

  /** One turn of the walk, the last one included, which swaps the start with itself. */
  lemma WalkTurn<T>(lo: int, n: int, m: int, p: seq<int>, j: int, s0: seq<T>, s: seq<T>)
    requires IsCycle(lo, n, m, p) && Walked(p, j, s0, s)
    ensures var pos := Step(lo, n, m, p[j]);
      && pos == (if j + 1 < |p| then p[j + 1] else p[0])
      && 0 <= pos < |s|
      && Walked(p, if j + 1 < |p| then j + 1 else j, s0, SwappedAt(s, pos, p[0]))
  {
    assert Follows(lo, n, m, p, j);
    if j + 1 < |p| {
      WalkStep(p, j, s0, s, SwappedAt(s, p[j + 1], p[0]));
    } else {
      assert SwappedAt(s, p[0], p[0]) == s;
    }
  }

  method SwapElements<T>(a: array<T>, x: int, y: int)
    requires 0 <= x < a.Length && 0 <= y < a.Length
    modifies a
    ensures a[..] == SwappedAt(old(a[..]), x, y)
  {
    var swap := a[x];
    a[x] := a[y];
    a[y] := swap;
  }

  lemma WalkEnds<T>(lo: int, n: int, m: int, p: seq<int>, s0: seq<T>, s: seq<T>)
    requires IsCycle(lo, n, m, p) && Walked(p, |p| - 1, s0, s)
    ensures Rotated(lo, n, m, p, s0, s)
  {
    forall t | 0 <= t < |p|
      ensures Moved(lo, n, m, s0, s, p[t])
    {
      assert Follows(lo, n, m, p, t);
      if t < |p| - 1 {
        assert Settled(p, |p| - 1, s0, s, t + 1);
      }
    }
  }

  /** The inner loop of permute_args. */
  method WalkCycle<T>(a: array<T>, start: int, mid: int, end: int, i: int, cyclelen: int, ghost p: seq<int>)
    requires 0 <= start < mid < end <= a.Length
    requires IsCycle(start, mid - start, end - mid, p) && p[0] == mid + i && |p| == cyclelen
    modifies a
    ensures Walked(p, cyclelen - 1, old(a[..]), a[..])
  {
    var nnonopts, nopts := mid - start, end - mid;
    var cstart := mid + i;
    var pos := cstart;
    ghost var s0 := a[..];
    var j := 0;
    while j < cyclelen
      invariant 0 <= j <= cyclelen
      invariant pos == if j < cyclelen then p[j] else cstart
      invariant Walked(p, if j < cyclelen then j else j - 1, s0, a[..])
    {
      ghost var s := a[..];
      if pos >= mid {
        pos := pos - nnonopts;
      } else {
        pos := pos + nopts;
      }
      WalkTurn(start, nnonopts, nopts, p, j, s0, s);
      SwapElements(a, pos, cstart);
      j := j + 1;
    }
  }

  /** The elements on the first `k` cycles have moved one step, the others have not. */
  ghost predicate Exchanged<T>(lo: int, n: int, m: int, home: seq<int>, k: int, s0: seq<T>, s: seq<T>)
    requires 0 <= lo && 0 < n && 0 < m && |home| == n + m
  {
    && lo + n + m <= |s0| == |s|
    && (forall d :: 0 <= d < |home| ==> ExchangedAt(lo, n, m, home[d] < k, s0, s, lo + d))
    && (forall x :: 0 <= x < lo || lo + n + m <= x < |s| ==> s[x] == s0[x])
  }

  ghost predicate ExchangedAt<T>(lo: int, n: int, m: int, done: bool, s0: seq<T>, s: seq<T>, x: int)
    requires 0 <= lo <= x < lo + n + m <= |s0| == |s| && 0 < n && 0 < m
  {
    if done then s[Step(lo, n, m, x)] == s0[x] else s[x] == s0[x]
  }

  lemma OffCycle(lo: int, n: int, m: int, ps: seq<seq<int>>, home: seq<int>, k: int, x: int)
    requires Partition(lo, n, m, ps, home) && 0 <= k < |ps|
    requires lo <= x < lo + n + m ==> home[x - lo] != k
    ensures x !in ps[k]
  {
    forall t | 0 <= t < |ps[k]| ensures ps[k][t] != x {
      assert HomeIs(lo, ps, home, k, t);
    }
  }

  /** A step stays on its cycle. */
  lemma StepKeepsHome(lo: int, n: int, m: int, ps: seq<seq<int>>, home: seq<int>, d: int)
    requires 0 <= lo && 0 < n && 0 < m && Partition(lo, n, m, ps, home) && 0 <= d < |home|
    ensures 0 <= Step(lo, n, m, lo + d) - lo < |home|
    ensures home[Step(lo, n, m, lo + d) - lo] == home[d]
  {
    assert OnCycle(lo, ps, home, d);
    var p := ps[home[d]];
    var t :| 0 <= t < |p| && p[t] == lo + d;
    assert Follows(lo, n, m, p, t);
    if t < |p| - 1 {
      assert HomeIs(lo, ps, home, home[d], t + 1);
    } else {
      assert HomeIs(lo, ps, home, home[d], 0);
    }
  }

  /** What the rotation of cycle `k` does to the element at offset `d`. */
  lemma OffsetRotated<T>(lo: int, n: int, m: int, ps: seq<seq<int>>, home: seq<int>, k: int, s: seq<T>, s': seq<T>, d: int)
    requires 0 <= lo && 0 < n && 0 < m && 0 <= k < |ps| && Partition(lo, n, m, ps, home)
    requires lo + n + m <= |s| && Rotated(lo, n, m, ps[k], s, s') && 0 <= d < |home|
    ensures home[d] == k ==> s'[Step(lo, n, m, lo + d)] == s[lo + d]
    ensures home[d] != k ==> s'[lo + d] == s[lo + d]
  {
    if home[d] == k {
      assert OnCycle(lo, ps, home, d);
      PositionRotated(lo, n, m, ps[k], s, s', lo + d);
    } else {
      OffCycle(lo, n, m, ps, home, k, lo + d);
      PositionRotated(lo, n, m, ps[k], s, s', lo + d);
    }
  }

  lemma PositionRotated<T>(lo: int, n: int, m: int, p: seq<int>, s: seq<T>, s': seq<T>, x: int)
    requires 0 <= lo <= x < lo + n + m <= |s| && 0 < n && 0 < m && Rotated(lo, n, m, p, s, s')
    ensures x in p ==> s'[Step(lo, n, m, x)] == s[x]
    ensures x !in p ==> s'[x] == s[x]
  {
    if x in p {
      var t :| 0 <= t < |p| && p[t] == x;
      assert Moved(lo, n, m, s, s', p[t]);
    }
  }

  lemma OffsetExchanged<T>(lo: int, n: int, m: int, ps: seq<seq<int>>, home: seq<int>, k: int, s0: seq<T>, s: seq<T>, s': seq<T>, d: int)
    requires 0 <= lo && 0 < n && 0 < m && 0 <= k < |ps| && Partition(lo, n, m, ps, home)
    requires lo + n + m <= |s0| == |s| && Rotated(lo, n, m, ps[k], s, s') && 0 <= d < |home|
    requires ExchangedAt(lo, n, m, home[d] < k, s0, s, lo + d)
    ensures ExchangedAt(lo, n, m, home[d] < k + 1, s0, s', lo + d)
  {
    StepKeepsHome(lo, n, m, ps, home, d);
    OffsetRotated(lo, n, m, ps, home, k, s, s', d);
    OffsetRotated(lo, n, m, ps, home, k, s, s', Step(lo, n, m, lo + d) - lo);
  }

  lemma CycleExchanged<T>(lo: int, n: int, m: int, ps: seq<seq<int>>, home: seq<int>, k: int, s0: seq<T>, s: seq<T>, s': seq<T>)
    requires 0 <= lo && 0 < n && 0 < m && 0 <= k < |ps| && Partition(lo, n, m, ps, home)
    requires Exchanged(lo, n, m, home, k, s0, s)
    requires Rotated(lo, n, m, ps[k], s, s')
    ensures Exchanged(lo, n, m, home, k + 1, s0, s')
  {
    forall d | 0 <= d < |home|
      ensures ExchangedAt(lo, n, m, home[d] < k + 1, s0, s', lo + d)
    {
      OffsetExchanged(lo, n, m, ps, home, k, s0, s, s', d);
    }
    forall x | 0 <= x < lo || lo + n + m <= x < |s| ensures s'[x] == s0[x] {
      OffCycle(lo, n, m, ps, home, k, x);
    }
  }

  /** Exchange of adjacent blocks: order is kept inside each block and everything
      outside the two blocks stays where it is. */
  function Swapped<T>(s: seq<T>, start: int, mid: int, end: int): seq<T>
    requires 0 <= start <= mid <= end <= |s|
  {
    s[..start] + s[mid..end] + s[start..mid] + s[end..]
  }

  lemma SwappedBlocks<T>(p: seq<T>, x: seq<T>, y: seq<T>, q: seq<T>)
    ensures Swapped(p + x + y + q, |p|, |p| + |x|, |p| + |x| + |y|) == p + y + x + q
  {
    var s := p + x + y + q;
    assert s[..|p|] == p;
    assert s[|p|..|p| + |x|] == x;
    assert s[|p| + |x|..|p| + |x| + |y|] == y;
    assert s[|p| + |x| + |y|..] == q;
  }

  lemma ExchangedIsSwapped<T>(lo: int, n: int, m: int, ps: seq<seq<int>>, home: seq<int>, s0: seq<T>, s: seq<T>)
    requires 0 <= lo && 0 < n && 0 < m && Partition(lo, n, m, ps, home)
    requires Exchanged(lo, n, m, home, |ps|, s0, s)
    ensures s == Swapped(s0, lo, lo + n, lo + n + m)
  {
    var r := Swapped(s0, lo, lo + n, lo + n + m);
    forall x | 0 <= x < |s| ensures s[x] == r[x] {
      if lo <= x < lo + m {
        assert OnCycle(lo, ps, home, x - lo + n);
      } else if lo + m <= x < lo + n + m {
        assert OnCycle(lo, ps, home, x - lo - m);
      }
    }
  }

  /** The outer loop of permute_args. */
  method WalkCycles<T>(a: array<T>, start: int, mid: int, end: int, ncycle: int, cyclelen: int,
                       ghost ps: seq<seq<int>>, ghost home: seq<int>)
    requires 0 <= start < mid < end <= a.Length
    requires |ps| == ncycle && forall i :: 0 <= i < |ps| ==> |ps[i]| == cyclelen
    requires Partition(start, mid - start, end - mid, ps, home)
    modifies a
    ensures a[..] == Swapped(old(a[..]), start, mid, end)
  {
    ghost var n, m, s0 := mid - start, end - mid, a[..];
    forall d | 0 <= d < |home| ensures 0 <= home[d] {
      assert OnCycle(start, ps, home, d);
    }
    var i := 0;
    while i < ncycle
      invariant 0 <= i <= ncycle
      invariant Exchanged(start, n, m, home, i, s0, a[..])
    {
      ghost var s := a[..];
      WalkCycle(a, start, mid, end, i, cyclelen, ps[i]);
      WalkEnds(start, n, m, ps[i], s, a[..]);
      CycleExchanged(start, n, m, ps, home, i, s0, s, a[..]);
      i := i + 1;
    }
    ExchangedIsSwapped(start, n, m, ps, home, s0, a[..]);
  }

  /** permute_args of compat/getopt_long.c: the block of skipped arguments from
      `start` to `mid` changes places with the block of options from `mid` to `end`. */
  method PermuteArgs<T>(start: int, mid: int, end: int, a: array<T>)
    requires 0 <= start < mid < end <= a.Length
    modifies a
    ensures a[..] == Swapped(old(a[..]), start, mid, end)
  {
    var ncycle := Gcd(mid - start, end - mid);
    var cyclelen := (end - start) / ncycle;
    ghost var ps, home := CyclesPartition(start, mid - start, end - mid, ncycle, cyclelen);
    WalkCycles(a, start, mid, end, ncycle, cyclelen, ps, home);
  }
}