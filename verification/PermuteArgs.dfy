/** `gcd` and `permute_args` of libcompat/getopt_long.c: two adjacent blocks of an array change places. */
module PermuteArgs {

  // ----- greatest common divisor

  ghost predicate Divides(d: nat, a: nat) {
    d > 0 && exists k: nat :: Multiple(k, d, a)
  }

  ghost predicate Multiple(k: nat, d: nat, a: nat) { a == k * d }

  ghost predicate Combination(u: int, v: int, a: nat, b: nat, g: int) { g == u * a + v * b }

  /** g divides both numbers and is a combination of them, so every common divisor divides g. */
  ghost predicate IsGcd(g: nat, a: nat, b: nat) {
    Divides(g, a) && Divides(g, b) && exists u, v :: Combination(u, v, a, b, g)
  }

  lemma GcdIsGreatest(g: nat, a: nat, b: nat, d: nat)
    requires IsGcd(g, a, b) && Divides(d, a) && Divides(d, b)
    ensures Divides(d, g)
  {
    var u, v :| Combination(u, v, a, b, g);
    var k: nat :| Multiple(k, d, a);
    var m: nat :| Multiple(m, d, b);
    Reassociate(u, k, d);
    Reassociate(v, m, d);
    Sum(u * k, v * m, d);
    if u * k + v * m < 0 {
      Sum(-1 - (u * k + v * m), 1 + (u * k + v * m), d);
      NonNegative(-1 - (u * k + v * m), d);
      Sum(1, u * k + v * m, d);
    }
    assert Multiple(u * k + v * m, d, g);
  }

  method Gcd(a0: nat, b0: nat) returns (g: nat)
    requires b0 > 0
    ensures IsGcd(g, a0, b0)
  {
    var a, b := a0, b0;
    var c := a % b;
    ghost var ua, va, ub, vb := 1, 0, 0, 1;      // a and b as combinations of a0 and b0
    ghost var ka, ma, kb, mb := 1, 0, 0, 1;      // a0 and b0 as combinations of a and b
    while c != 0
      invariant b > 0 && c == a % b
      invariant Combination(ua, va, a0, b0, a) && Combination(ub, vb, a0, b0, b)
      invariant Combination(ka, ma, a, b, a0) && Combination(kb, mb, a, b, b0)
      invariant ka >= 0 && ma >= 0 && kb >= 0 && mb >= 0
      decreases b
    {
      ghost var q := a / b;
      EuclidStep(ua, va, ub, vb, a0, b0, a, b);
      EuclidBack(ka, ma, a, b, a0);
      EuclidBack(kb, mb, a, b, b0);
      ua, va, ub, vb := ub, vb, ua - q * ub, va - q * vb;
      ka, ma, kb, mb := ka * q + ma, ka, kb * q + mb, kb;
      a := b;
      b := c;
      c := a % b;
    }
    LastDivisor(ka, ma, a, b, a0);
    LastDivisor(kb, mb, a, b, b0);
    return b;
  }

  lemma EuclidStep(ua: int, va: int, ub: int, vb: int, a0: nat, b0: nat, a: nat, b: nat)
    requires b > 0 && Combination(ua, va, a0, b0, a) && Combination(ub, vb, a0, b0, b)
    ensures Combination(ua - a / b * ub, va - a / b * vb, a0, b0, a % b)
  {}

  lemma EuclidBack(k: int, m: int, a: nat, b: nat, x: nat)
    requires b > 0 && k >= 0 && m >= 0 && Combination(k, m, a, b, x)
    ensures Combination(k * (a / b) + m, k, b, a % b, x) && k * (a / b) + m >= 0
  {}

  lemma LastDivisor(k: int, m: int, a: nat, b: nat, x: nat)
    requires b > 0 && a % b == 0 && k >= 0 && m >= 0 && Combination(k, m, a, b, x)
    ensures Divides(b, x)
  {
    EuclidBack(k, m, a, b, x);
    assert Multiple(k * (a / b) + m, b, x);
  }

  // ----- one cycle: stepping by q around p + q places, for coprime p and q

  function Next(p: nat, q: nat, x: nat): nat {
    if x >= p then x - p else x + q
  }

  /** The place reached after j steps from place p. */
  function Visit(p: nat, q: nat, j: nat): (x: nat)
    requires p + q > 0
    ensures p < p + q ==> x < p + q
  {
    if j == 0 then p else Next(p, q, Visit(p, q, j - 1))
  }

  lemma Sum(a: int, b: int, c: int)
    ensures (a + b) * c == a * c + b * c
  {}

  lemma Difference(a: int, b: int, c: int)
    ensures (a - b) * c == a * c - b * c
  {}

  lemma Reassociate(a: int, b: int, c: int)
    ensures (a * b) * c == a * (b * c) == (a * c) * b
  {}

  /** A multiple of n that lies strictly between -n and n is 0. */
  lemma OnlyZero(d: int, n: int)
    requires n > 0 && -n < d * n < n
    ensures d == 0
  {}

  lemma NonNegative(d: int, n: int)
    requires d >= 0 && n >= 0
    ensures d * n >= 0
  {}

  /** Each step adds q and wraps around at most once. */
  lemma {:induction false} VisitLinear(p: nat, q: nat, j: nat) returns (k: nat)
    requires p + q > 0
    ensures Visit(p, q, j) + k * (p + q) == p + j * q
  {
    k := 0;
    if j > 0 {
      k := VisitLinear(p, q, j - 1);
      Sum(j - 1, 1, q);
      if Visit(p, q, j - 1) >= p {
        Sum(k, 1, p + q);
        k := k + 1;
      }
    }
  }

  lemma VisitReturns(p: nat, q: nat)
    requires q > 0
    ensures Visit(p, q, p + q) == p
  {
    var n := p + q;
    var k := VisitLinear(p, q, n);
    Difference(q, k, n);
    OnlyZero(q - k, n);
  }

  /** u * p + v * q == 1, so v - u inverts q around p + q places. */
  lemma Inverse(p: nat, q: nat, u: int, v: int)
    requires u * p + v * q == 1
    ensures (v - u) * q == 1 - u * (p + q)
  {}

  lemma InverseCancels(q: int, n: int, u: int, w: int, d: int, k: int)
    requires w * q == 1 - u * n && d * q == k * n
    ensures d == (w * k + u * d) * n
  {}

  lemma InverseReaches(q: int, n: int, u: int, w: int, e: int, i: int, j: int)
    requires w * q == 1 - u * n && e * w == i * n + j
    ensures j * q == e - (e * u + i * q) * n
  {}

  lemma VisitDistinct(p: nat, q: nat, u: int, v: int, s: nat, t: nat)
    requires q > 0 && u * p + v * q == 1 && s < t < p + q
    ensures Visit(p, q, s) != Visit(p, q, t)
  {
    var n, d, w := p + q, t - s, v - u;
    var ks := VisitLinear(p, q, s);
    var kt := VisitLinear(p, q, t);
    if Visit(p, q, s) == Visit(p, q, t) {
      Difference(t, s, q);
      Difference(kt, ks, n);
      Inverse(p, q, u, v);
      InverseCancels(q, n, u, w, d, kt - ks);
      OnlyZero(w * (kt - ks) + u * d, n);
    }
  }

  lemma VisitEverywhere(p: nat, q: nat, u: int, v: int, y: nat) returns (j: nat)
    requires q > 0 && u * p + v * q == 1 && y < p + q
    ensures j < p + q && Visit(p, q, j) == y
  {
    var n, w, e := p + q, v - u, y - p;
    var i;
    i, j := Quotient(e * w, n);
    var k := VisitLinear(p, q, j);
    Inverse(p, q, u, v);
    InverseReaches(q, n, u, w, e, i, j);
    SamePlace(Visit(p, q, j), y, k, e * u + i * q, n);
  }

  lemma Quotient(m: int, n: nat) returns (i: int, j: nat)
    requires n > 0
    ensures m == i * n + j && j < n
  {
    i, j := m / n, m % n;
  }

  lemma SamePlace(x: nat, y: nat, k: int, m: int, n: nat)
    requires x < n && y < n && x + k * n == y - m * n
    ensures x == y
  {
    Difference(-m, k, n);
    OnlyZero(-m - k, n);
  }

  /** g divides both block lengths; u and v witness that the quotients are coprime. */
  lemma Coprime(a: nat, b: nat, g: nat) returns (p: nat, q: nat, u: int, v: int)
    requires IsGcd(g, a, b) && b > 0
    ensures a == p * g && b == q * g && q > 0 && u * p + v * q == 1
  {
    p :| Multiple(p, g, a);
    q :| Multiple(q, g, b);
    u, v :| Combination(u, v, a, b, g);
    CoprimeQuotients(p, q, u, v, g);
  }

  lemma CoprimeQuotients(p: nat, q: nat, u: int, v: int, g: nat)
    requires g > 0 && u * (p * g) + v * (q * g) == g
    ensures u * p + v * q == 1
  {}

  // ----- the two blocks as a grid of p + q rows and g columns; each cycle runs through one column

  datatype Grid = Grid(start: nat, p: nat, q: nat, g: nat, ghost u: int, ghost v: int) {
    ghost predicate Fits(size: nat) {
      q > 0 && g > 0 && u * p + v * q == 1 && start + (p + q) * g <= size
    }

    ghost function Rows(): nat { p + q }

    ghost function Place(x: int, r: nat): int { start + x * g + r }

    ghost function Visited(j: nat): nat
      requires q > 0
    {
      Visit(p, q, j)
    }
  }

  lemma InGrid(G: Grid, x: nat, r: nat)
    requires x < G.Rows() && r < G.g
    ensures G.start <= G.Place(x, r) < G.start + G.Rows() * G.g
  {
    Difference(G.Rows(), x, G.g);
    Sum(G.Rows() - x - 1, 1, G.g);
    NonNegative(G.Rows() - x - 1, G.g);
    NonNegative(x, G.g);
  }

  lemma SameCell(G: Grid, x: int, r: nat, y: int, t: nat)
    requires r < G.g && t < G.g && G.Place(x, r) == G.Place(y, t)
    ensures x == y && r == t
  {
    Difference(x, y, G.g);
    OnlyZero(x - y, G.g);
  }

  /** The element of s in row x and column r. */
  ghost function Elem<T>(G: Grid, s: seq<T>, x: nat, r: nat): T
    requires G.Fits(|s|) && x < G.Rows() && r < G.g
  {
    InGrid(G, x, r);
    s[G.Place(x, r)]
  }

  /** Column r has been rotated: what was in row x is now in the next row of the cycle. */
  ghost predicate Rotated<T>(G: Grid, was: seq<T>, now: seq<T>, r: nat)
    requires G.Fits(|was|) && |was| == |now| && r < G.g
  {
    forall x: nat :: x < G.Rows() && Next(G.p, G.q, x) < G.Rows() ==>
      Elem(G, now, Next(G.p, G.q, x), r) == Elem(G, was, x, r)
  }

  ghost predicate Untouched<T>(G: Grid, was: seq<T>, now: seq<T>, r: nat)
    requires G.Fits(|was|) && |was| == |now| && r < G.g
  {
    forall x: nat :: x < G.Rows() ==> Elem(G, now, x, r) == Elem(G, was, x, r)
  }

  /** j steps into the cycle of column r: the visited places hold their new elements, and the cycle's first
      place holds the element to be put down next. */
  ghost predicate MidCycle<T>(G: Grid, was: seq<T>, now: seq<T>, r: nat, j: nat)
    requires G.Fits(|was|) && |was| == |now| && r < G.g
  {
    && j < G.Rows()
    && Elem(G, now, G.p, r) == Elem(G, was, G.Visited(j), r)
    && (forall s: nat :: s < j ==> Elem(G, now, G.Visited(s + 1), r) == Elem(G, was, G.Visited(s), r))
    && (forall s: nat :: j < s < G.Rows() ==> Elem(G, now, G.Visited(s), r) == Elem(G, was, G.Visited(s), r))
  }

  ghost predicate OutsideUnchanged<T>(G: Grid, was: seq<T>, now: seq<T>)
    requires |was| == |now|
  {
    forall i :: 0 <= i < |was| && !(G.start <= i < G.start + G.Rows() * G.g) ==> now[i] == was[i]
  }

  ghost predicate CyclesDone<T>(G: Grid, was: seq<T>, now: seq<T>, i: nat) {
    && G.Fits(|was|) && |was| == |now| && i <= G.g
    && OutsideUnchanged(G, was, now)
    && (forall r: nat :: r < i ==> Rotated(G, was, now, r))
    && (forall r: nat :: i <= r < G.g ==> Untouched(G, was, now, r))
  }

  ghost predicate InCycle<T>(G: Grid, was: seq<T>, now: seq<T>, i: nat, j: nat) {
    && G.Fits(|was|) && |was| == |now| && i < G.g
    && OutsideUnchanged(G, was, now)
    && (forall r: nat :: r < i ==> Rotated(G, was, now, r))
    && (forall r: nat :: i < r < G.g ==> Untouched(G, was, now, r))
    && MidCycle(G, was, now, i, j)
  }

  lemma EnterCycle<T>(G: Grid, was: seq<T>, now: seq<T>, i: nat)
    requires CyclesDone(G, was, now, i) && i < G.g
    ensures InCycle(G, was, now, i, 0)
  {
    assert Untouched(G, was, now, i);
  }

  /** The effect on the grid of exchanging rows x and y of column r. */
  ghost predicate Swapped<T>(G: Grid, now: seq<T>, next: seq<T>, x: nat, y: nat, r: nat)
    requires G.Fits(|now|) && |next| == |now| && x < G.Rows() && y < G.Rows() && r < G.g
  {
    forall z: nat, t: nat :: z < G.Rows() && t < G.g ==>
      Elem(G, next, z, t) == if t != r then Elem(G, now, z, t)
                             else if z == x then Elem(G, now, y, r)
                             else if z == y then Elem(G, now, x, r)
                             else Elem(G, now, z, r)
  }

  lemma SwapCells<T>(G: Grid, now: seq<T>, next: seq<T>, x: nat, y: nat, r: nat)
    requires G.Fits(|now|) && x < G.Rows() && y < G.Rows() && r < G.g
    requires 0 <= G.Place(x, r) < |now| && 0 <= G.Place(y, r) < |now|
    requires next == now[G.Place(x, r) := now[G.Place(y, r)]][G.Place(y, r) := now[G.Place(x, r)]]
    ensures Swapped(G, now, next, x, y, r)
    ensures OutsideUnchanged(G, now, next)
  {
    InGrid(G, x, r);
    InGrid(G, y, r);
    forall z: nat, t: nat | z < G.Rows() && t < G.g
      ensures Elem(G, next, z, t) == if t != r then Elem(G, now, z, t)
                                     else if z == x then Elem(G, now, y, r)
                                     else if z == y then Elem(G, now, x, r)
                                     else Elem(G, now, z, r)
    {
      InGrid(G, z, t);
      if G.Place(z, t) == G.Place(x, r) { SameCell(G, z, t, x, r); }
      if G.Place(z, t) == G.Place(y, r) { SameCell(G, z, t, y, r); }
    }
  }

  lemma CycleStep<T>(G: Grid, was: seq<T>, now: seq<T>, next: seq<T>, r: nat, j: nat)
    requires G.Fits(|was|) && |was| == |now| == |next| && r < G.g
    requires MidCycle(G, was, now, r, j) && j + 1 < G.Rows()
    requires Swapped(G, now, next, G.Visited(j + 1), G.p, r)
    ensures MidCycle(G, was, next, r, j + 1)
  {
    VisitDistinct(G.p, G.q, G.u, G.v, 0, j + 1);
    forall s: nat | s < j + 1
      ensures Elem(G, next, G.Visited(s + 1), r) == Elem(G, was, G.Visited(s), r)
    {
      if s < j {
        VisitDistinct(G.p, G.q, G.u, G.v, s + 1, j + 1);
        OtherPlace(G, now, next, r, j, s + 1);
      }
    }
    forall s: nat | j + 1 < s < G.Rows()
      ensures Elem(G, next, G.Visited(s), r) == Elem(G, was, G.Visited(s), r)
    {
      VisitDistinct(G.p, G.q, G.u, G.v, j + 1, s);
      OtherPlace(G, now, next, r, j, s);
    }
  }

  lemma OtherPlace<T>(G: Grid, now: seq<T>, next: seq<T>, r: nat, j: nat, s: nat)
    requires G.Fits(|now|) && |next| == |now| && r < G.g && 0 < s < G.Rows()
    requires Swapped(G, now, next, G.Visited(j + 1), G.p, r) && G.Visited(s) != G.Visited(j + 1)
    ensures Elem(G, next, G.Visited(s), r) == Elem(G, now, G.Visited(s), r)
  {
    VisitDistinct(G.p, G.q, G.u, G.v, 0, s);
  }

  lemma InCycleStep<T>(G: Grid, was: seq<T>, now: seq<T>, next: seq<T>, i: nat, j: nat)
    requires InCycle(G, was, now, i, j) && |next| == |now| && j + 1 < G.Rows()
    requires Swapped(G, now, next, G.Visited(j + 1), G.p, i) && OutsideUnchanged(G, now, next)
    ensures InCycle(G, was, next, i, j + 1)
  {
    CycleStep(G, was, now, next, i, j);
    forall r: nat | r < i ensures Rotated(G, was, next, r) {
      assert Rotated(G, was, now, r);
    }
    forall r: nat | i < r < G.g ensures Untouched(G, was, next, r) {
      assert Untouched(G, was, now, r);
    }
  }

  lemma LeaveCycle<T>(G: Grid, was: seq<T>, now: seq<T>, i: nat)
    requires G.Fits(|was|) && InCycle(G, was, now, i, G.Rows() - 1)
    ensures CyclesDone(G, was, now, i + 1)
  {
    forall x: nat | x < G.Rows() && Next(G.p, G.q, x) < G.Rows()
      ensures Elem(G, now, Next(G.p, G.q, x), i) == Elem(G, was, x, i)
    {
      var s := VisitEverywhere(G.p, G.q, G.u, G.v, x);
      assert G.Visited(s + 1) == Next(G.p, G.q, x) && G.Visited(s) == x;
      if s == G.Rows() - 1 { VisitReturns(G.p, G.q); }
    }
  }

  /** Both blocks in exchanged order, each in its own order; the rest unchanged. */
  function Exchanged<T>(s: seq<T>, start: nat, mid: nat, end: nat): (r: seq<T>)
    requires start <= mid <= end <= |s|
    ensures |r| == |s|
  {
    s[..start] + s[mid..end] + s[start..mid] + s[end..]
  }

  /** A row number is below p exactly if the place is below that of row p, column 0. */
  lemma RowOf(G: Grid, x: int, r: nat, p: int)
    requires r < G.g
    ensures x >= p <==> G.Place(x, r) >= G.Place(p, 0)
  {
    Difference(x, p, G.g);
    Difference(p, x, G.g);
    if x >= p {
      NonNegative(x - p, G.g);
    } else {
      Sum(p - x - 1, 1, G.g);
      NonNegative(p - x - 1, G.g);
    }
  }

  /** Taking the next row moves a place by the length of the other block. */
  lemma NextPlace(G: Grid, x: nat, r: nat)
    requires x < G.Rows() && r < G.g
    ensures G.Place(x, r) >= G.Place(G.p, 0) <==> x >= G.p
    ensures G.Place(Next(G.p, G.q, x), r) == if x >= G.p then G.Place(x, r) - G.p * G.g else G.Place(x, r) + G.q * G.g
  {
    RowOf(G, x, r, G.p);
    Difference(x, G.p, G.g);
    Sum(x, G.q, G.g);
  }

  lemma CameFrom<T>(G: Grid, was: seq<T>, now: seq<T>, i: nat, from: nat)
    requires CyclesDone(G, was, now, G.g)
    requires G.start <= from < G.start + G.Rows() * G.g
    requires i == if from >= G.Place(G.p, 0) then from - G.p * G.g else from + G.q * G.g
    ensures from < |was| && i < |was| && now[i] == was[from]
  {
    var x, r := Quotient(from - G.start, G.g);
    RowOf(G, x, r, 0);
    RowOf(G, x, r, G.Rows());
    NextPlace(G, x, r);
    var y := Next(G.p, G.q, x);
    InGrid(G, y, r);
    assert Rotated(G, was, now, r);
    assert Elem(G, now, y, r) == Elem(G, was, x, r);
  }

  lemma AllCyclesDone<T>(G: Grid, was: seq<T>, now: seq<T>, mid: nat, end: nat)
    requires CyclesDone(G, was, now, G.g)
    requires mid == G.start + G.p * G.g && end == mid + G.q * G.g <= |was|
    ensures now == Exchanged(was, G.start, mid, end)
  {
    Sum(G.p, G.q, G.g);
    var to := Exchanged(was, G.start, mid, end);
    forall i | 0 <= i < |was|
      ensures now[i] == to[i]
    {
      if G.start <= i < end {
        CameFrom(G, was, now, i, if i - G.start < G.q * G.g then i + G.p * G.g else i - G.q * G.g);
      }
    }
  }

  /** The swap that ends step j + 1; the last one exchanges the first place of the cycle with itself. */
  lemma SwapStep<T>(G: Grid, was: seq<T>, now: seq<T>, next: seq<T>, i: nat, j: nat)
    requires InCycle(G, was, now, i, j)
    requires 0 <= G.Place(G.Visited(j + 1), i) < |now| && 0 <= G.Place(G.p, i) < |now|
    requires next ==
             now[G.Place(G.Visited(j + 1), i) := now[G.Place(G.p, i)]][G.Place(G.p, i) := now[G.Place(G.Visited(j + 1), i)]]
    ensures InCycle(G, was, next, i, if j + 1 < G.Rows() then j + 1 else j)
  {
    if j + 1 < G.Rows() {
      SwapCells(G, now, next, G.Visited(j + 1), G.p, i);
      InCycleStep(G, was, now, next, i, j);
    } else {
      VisitReturns(G.p, G.q);
      assert next == now;
    }
  }

  /** The body of the outer loop: one cycle, through the places i after the start of a row. */
  method FollowCycle<T>(mid: nat, nnonopts: nat, nopts: nat, cyclelen: nat, i: nat, nargv: array<T>,
          ghost G: Grid, ghost was: seq<T>)
    requires CyclesDone(G, was, nargv[..], i) && i < G.g
    requires nnonopts == G.p * G.g && nopts == G.q * G.g && cyclelen == G.Rows() && mid == G.Place(G.p, 0)
    modifies nargv
    ensures CyclesDone(G, was, nargv[..], i + 1)
  {
    var cstart := mid + i;
    var pos := cstart;
    var j := 0;
    EnterCycle(G, was, nargv[..], i);
    InGrid(G, G.p, i);
    while j < cyclelen
      invariant j <= cyclelen
      invariant pos == G.Place(G.Visited(j), i)
      invariant InCycle(G, was, nargv[..], i, if j < cyclelen then j else j - 1)
    {
      NextPlace(G, G.Visited(j), i);
      if pos >= mid {
        pos := pos - nnonopts;
      } else {
        pos := pos + nopts;
      }
      ghost var now := nargv[..];
      InGrid(G, G.Visited(j + 1), i);
      var swap := nargv[pos];
      nargv[pos] := nargv[cstart];
      nargv[cstart] := swap;
      SwapStep(G, was, now, nargv[..], i, j);
      j := j + 1;
    }
    LeaveCycle(G, was, nargv[..], i);
  }

  /** Exchange the block [start, mid) with the block [mid, end), keeping the order within each. */
  method PermuteArgs<T>(start: nat, mid: nat, end: nat, nargv: array<T>)
    requires start <= mid < end <= nargv.Length
    modifies nargv
    ensures nargv[..] == Exchanged(old(nargv[..]), start, mid, end)
  {
    var nnonopts, nopts := mid - start, end - mid;
    var ncycle := Gcd(nnonopts, nopts);
    var cyclelen := (end - start) / ncycle;
    ghost var p, q, u, v := Coprime(nnonopts, nopts, ncycle);
    ghost var G := Grid(start, p, q, ncycle, u, v);
    ghost var was := nargv[..];
    WholeRows(G, end - start, cyclelen);
    var i := 0;
    while i < ncycle
      invariant i <= ncycle && CyclesDone(G, was, nargv[..], i)
    {
      FollowCycle(mid, nnonopts, nopts, cyclelen, i, nargv, G, was);
      i := i + 1;
    }
    AllCyclesDone(G, was, nargv[..], mid, end);
  }

  lemma WholeRows(G: Grid, length: nat, cyclelen: nat)
    requires G.g > 0 && length == G.p * G.g + G.q * G.g && cyclelen == length / G.g
    ensures cyclelen == G.Rows() && length == G.Rows() * G.g
  {
    Sum(G.p, G.q, G.g);
    var i, j := Quotient(length, G.g);
    Difference(cyclelen, G.Rows(), G.g);
    OnlyZero(cyclelen - G.Rows(), G.g);
  }
}
