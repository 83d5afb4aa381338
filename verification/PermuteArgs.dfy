/** The in-place exchange of two adjacent blocks of argv (getopt_long.c): Euclid's
    algorithm, the cycles it counts, and the loop that follows them. */
module PermuteArgs {

  // ---- division with witnesses -----------------------------------------------

  lemma MulAtLeast(n: int, k: int)
    requires n > 0
    ensures k >= 1 ==> n * k >= n
    ensures k <= 0 ==> n * k <= 0
  {
    assert n * k == n * (k - 1) + n;
  }

  lemma QuotientUnique(n: int, q: int, r: int, q': int, r': int)
    requires 0 <= r < n && 0 <= r' < n
    requires n * q + r == n * q' + r'
    ensures q == q' && r == r'
  {
    assert n * (q - q') == n * q - n * q';
    assert n * (q' - q) == n * q' - n * q;
    MulAtLeast(n, q - q');
    MulAtLeast(n, q' - q);
  }

  lemma DivMod(x: int, n: int, q: int, r: int)
    requires x == n * q + r && 0 <= r < n
    ensures x % n == r && x / n == q
  {
    var q', r' := x / n, x % n;
    assert x == n * q' + r';
    QuotientUnique(n, q, r, q', r');
  }

  lemma Quotient(x: int, n: int) returns (q: int)
    requires n > 0
    ensures x == n * q + x % n && 0 <= x % n < n
    ensures x >= 0 ==> q >= 0
  {
    q := x / n;
  }

  // ---- gcd -------------------------------------------------------------------

  /** The greatest common divisor as Euclid's recursion. */
  function Gcd(a: nat, b: nat): (g: nat)
    requires b > 0
    ensures 0 < g <= b
    decreases b
  {
    if a % b == 0 then b else Gcd(b, a % b)
  }

  lemma {:induction false} GcdDivides(a: nat, b: nat)
    requires b > 0
    ensures a % Gcd(a, b) == 0 && b % Gcd(a, b) == 0
    decreases b
  {
    var q := Quotient(a, b);
    var g := Gcd(a, b);
    if a % b == 0 {
      DivMod(b, g, 1, 0);
    } else {
      GcdDivides(b, a % b);
      var s := Quotient(b, g);
      var t := Quotient(a % b, g);
      Distribute(g, s, q, t);
      DivMod(a, g, s * q + t, 0);
    }
  }

  lemma Distribute(g: int, s: int, q: int, t: int)
    ensures g * (s * q + t) == (g * s) * q + g * t
  {
  }

  /** Bezout: the gcd is an integer combination of its arguments. */
  lemma {:induction false} Bezout(a: nat, b: nat) returns (x: int, y: int)
    requires b > 0
    ensures a * x + b * y == Gcd(a, b)
    decreases b
  {
    if a % b == 0 {
      x, y := 0, 1;
    } else {
      var q := Quotient(a, b);
      var x', y' := Bezout(b, a % b);
      x, y := y', x' - q * y';
      BezoutStep(a, b, q, x', y');
    }
  }

  lemma BezoutStep(a: int, b: int, q: int, x: int, y: int)
    ensures b * x + (a - b * q) * y == a * y + b * (x - q * y)
  {
  }

  lemma GcdGreatest(a: nat, b: nat, d: nat)
    requires b > 0 && d > 0 && a % d == 0 && b % d == 0
    ensures d <= Gcd(a, b)
  {
    var x, y := Bezout(a, b);
    var s := Quotient(a, d);
    var t := Quotient(b, d);
    Distribute(d, s, x, t * y);
    Distribute(d, t, y, 0);
    MulAtLeast(d, s * x + t * y);
  }

  /** gcd(): the loop over remainders computes the greatest common divisor. */
  method ComputeGcd(a0: nat, b0: nat) returns (g: nat)
    requires a0 > 0 && b0 > 0
    ensures g > 0 && a0 % g == 0 && b0 % g == 0
    ensures forall d: nat :: d > 0 && a0 % d == 0 && b0 % d == 0 ==> d <= g
    ensures g == Gcd(a0, b0)
  {
    var a, b := a0, b0;
    var c := a % b;
    while c != 0
      invariant a > 0 && b > 0 && c == a % b
      invariant Gcd(a, b) == Gcd(a0, b0)
      decreases b
    {
      a := b;
      b := c;
      c := a % b;
    }
    g := b;
    GcdDivides(a0, b0);
    forall d: nat | d > 0 && a0 % d == 0 && b0 % d == 0
      ensures d <= g
    {
      GcdGreatest(a0, b0, d);
    }
  }

  // ---- cycles ----------------------------------------------------------------

  /** Position, relative to the first block, written in step `j` of cycle `i`;
      `A` and `B` are the lengths of the first and the second block. */
  ghost function Visit(A: nat, B: nat, i: nat, j: nat): (p: nat)
    requires A > 0 && B > 0
    ensures p < A + B
  {
    (A + i + j * B) % (A + B)
  }

  ghost function CycleLength(A: nat, B: nat): nat
    requires A > 0 && B > 0
  {
    (A + B) / Gcd(A, B)
  }

  /** The multiples behind the cycle structure: both blocks and the whole range
      are multiples of the gcd, and the gcd is a multiple of `B` modulo `A + B`. */
  lemma CycleFacts(A: nat, B: nat) returns (a: nat, b: nat, x: int, u: int)
    requires A > 0 && B > 0
    ensures var g := Gcd(A, B); var L := CycleLength(A, B);
      A == g * a && B == g * b && L == a + b && A + B == g * L
    ensures a >= 1 && b >= 1
    ensures Gcd(A, B) == (A + B) * x + B * u
  {
    var g := Gcd(A, B);
    GcdDivides(A, B);
    a := Quotient(A, g);
    b := Quotient(B, g);
    MulAtLeast(g, a);
    MulAtLeast(g, b);
    assert A + B == g * (a + b);
    DivMod(A + B, g, a + b, 0);
    var y;
    x, y := Bezout(A, B);
    u := y - x;
    assert (A + B) * x + B * (y - x) == A * x + B * y;
  }

  /** One step of the loop moves from a visited position to the next one. */
  lemma VisitStep(A: nat, B: nat, i: nat, j: nat)
    requires A > 0 && B > 0
    ensures var v := Visit(A, B, i, j);
      Visit(A, B, i, j + 1) == if v >= A then v - A else v + B
  {
    var y := A + i + j * B;
    var q := Quotient(y, A + B);
    var v := y % (A + B);
    assert A + i + (j + 1) * B == y + B;
    if v >= A {
      assert (A + B) * (q + 1) == (A + B) * q + (A + B);
      DivMod(y + B, A + B, q + 1, v - A);
    } else {
      DivMod(y + B, A + B, q, v + B);
    }
  }

  lemma VisitStart(A: nat, B: nat, i: nat)
    requires A > 0 && B > 0 && i < B
    ensures Visit(A, B, i, 0) == A + i
  {
    DivMod(A + i, A + B, 0, A + i);
  }

  /** A cycle closes after CycleLength steps. */
  lemma VisitWrap(A: nat, B: nat, i: nat)
    requires A > 0 && B > 0 && i < B
    ensures Visit(A, B, i, CycleLength(A, B)) == A + i
  {
    var a, b, x, u := CycleFacts(A, B);
    var g, L := Gcd(A, B), CycleLength(A, B);
    WrapIdentity(g, L, b);
    DivMod(A + i + L * B, A + B, b, A + i);
  }

  lemma WrapIdentity(g: int, L: int, b: int)
    ensures L * (g * b) == (g * L) * b
  {
  }

  /** Cycle `i` stays within the positions that are `i` modulo the gcd, so
      different cycles never meet. */
  lemma VisitResidue(A: nat, B: nat, i: nat, j: nat)
    requires A > 0 && B > 0 && i < Gcd(A, B)
    ensures Visit(A, B, i, j) % Gcd(A, B) == i
  {
    var a, b, x, u := CycleFacts(A, B);
    var g, L := Gcd(A, B), CycleLength(A, B);
    var q := Quotient(A + i + j * B, A + B);
    ResidueIdentity(g, a, b, i, j, L, q);
    DivMod(Visit(A, B, i, j), g, a + j * b - L * q, i);
  }

  lemma ResidueIdentity(g: int, a: int, b: int, i: int, j: int, L: int, q: int)
    ensures g * a + i + j * (g * b) - (g * L) * q == g * (a + j * b - L * q) + i
  {
    assert j * (g * b) == g * (j * b);
    assert (g * L) * q == g * (L * q);
    assert g * (a + j * b - L * q) == g * a + g * (j * b) - g * (L * q);
  }

  /** Within one round a cycle never visits a position twice. */
  lemma VisitDistinct(A: nat, B: nat, i: nat, j: nat, k: nat)
    requires A > 0 && B > 0 && j < k < CycleLength(A, B)
    ensures Visit(A, B, i, j) != Visit(A, B, i, k)
  {
    var a, b, x, u := CycleFacts(A, B);
    var g, L, N := Gcd(A, B), CycleLength(A, B), A + B;
    if Visit(A, B, i, j) == Visit(A, B, i, k) {
      var q := Quotient(A + i + j * B, N);
      var q' := Quotient(A + i + k * B, N);
      Differences(j, k, B, N, q, q');
      StepsAreMultiple(k - j, B, g, L, q' - q, x, u);
      MulAtLeast(L, (k - j) * x + (q' - q) * u);
    }
  }

  lemma Differences(j: int, k: int, B: int, N: int, q: int, q': int)
    ensures (k - j) * B == k * B - j * B
    ensures N * (q' - q) == N * q' - N * q
  {
  }

  /** If `d` steps of length `B` come to a multiple of the range, `L` divides `d`. */
  lemma StepsAreMultiple(d: int, B: int, g: nat, L: int, m: int, x: int, u: int)
    requires g > 0 && g == (g * L) * x + B * u && d * B == (g * L) * m
    ensures d == L * (d * x + m * u)
  {
    var N := g * L;
    var w := d * x + m * u;
    assert d * g == d * (N * x + B * u);
    assert d * (N * x + B * u) == N * (d * x) + (d * B) * u by { Distribute(d, N, x, B * u); }
    assert (N * m) * u == N * (m * u);
    assert N * w == N * (d * x) + N * (m * u);
    assert N * w == g * (L * w);
    QuotientUnique(g, d, 0, L * w, 0);
  }

  /** Cycle `i` reaches every position that is `i` modulo the gcd: by counting in
      steps of `u`, the inverse that Bezout provides. */
  lemma VisitCovers(A: nat, B: nat, i: nat, p: nat) returns (j: nat)
    requires A > 0 && B > 0 && i < Gcd(A, B) && p < A + B && p % Gcd(A, B) == i
    ensures j < CycleLength(A, B) && Visit(A, B, i, j) == p
  {
    var a, b, x, u := CycleFacts(A, B);
    var g, L := Gcd(A, B), CycleLength(A, B);
    var s := Quotient(p, g);
    var t := s - a;
    var q := Quotient(t * u, L);
    j := t * u % L;
    CoverIdentity(g, L, b, x, u, t, q, j);
    assert g * t == g * s - g * a by { Differences(a, s, g, g, a, s); }
    DivMod(A + i + j * B, A + B, -(t * x + q * b), p);
  }

  lemma CoverIdentity(g: int, L: int, b: int, x: int, u: int, t: int, q: int, j: int)
    requires g == (g * L) * x + (g * b) * u && t * u == L * q + j
    ensures j * (g * b) == (g * L) * -(t * x + q * b) + g * t
  {
    var N, B := g * L, g * b;
    assert j * B == (t * u) * B - (L * q) * B by { assert j == t * u - L * q; }
    assert (L * q) * (g * b) == (g * L) * (q * b);
    assert t * g == t * (N * x + B * u);
    assert t * (N * x + B * u) == N * (t * x) + (t * u) * B by { Distribute(t, N, x, B * u); }
    assert N * -(t * x + q * b) == -(N * (t * x)) - N * (q * b);
  }

  // ---- the exchange ----------------------------------------------------------

  /** The sequence `s` with its blocks [start, mid) and [mid, end) exchanged. */
  function Exchanged<T>(s: seq<T>, start: nat, mid: nat, end: nat): (r: seq<T>)
    requires start <= mid <= end <= |s|
  {
    s[..start] + s[mid..end] + s[start..mid] + s[end..]
  }

  /** What the exchange puts at offset `p` of the range. */
  ghost function Incoming<T>(s: seq<T>, start: nat, A: nat, B: nat, p: nat): T
    requires start + A + B <= |s| && p < A + B
  {
    s[start + if p >= B then p - B else p + A]
  }

  /** The offsets whose residue modulo the gcd is below `i`: what the first `i` cycles cover. */
  ghost function Covered(A: nat, B: nat, i: nat): set<nat>
    requires A > 0 && B > 0
  {
    set p: nat | p < A + B && p % Gcd(A, B) < i
  }

  lemma AllCovered(A: nat, B: nat)
    requires A > 0 && B > 0
    ensures forall p: nat | p < A + B :: p in Covered(A, B, Gcd(A, B))
  {
  }

  /** The offset after the `k`th on a cyclic path. */
  ghost function Follow(path: seq<nat>, k: nat): nat
    requires k < |path|
  {
    path[if k + 1 < |path| then k + 1 else 0]
  }

  /** `path` is a cycle of the exchange: no offset twice, and each offset's
      predecessor is the one it takes its element from. */
  ghost predicate IsCycle(path: seq<nat>, A: nat, B: nat) {
    && |path| >= 1
    && (forall k | 0 <= k < |path| :: path[k] < A + B)
    && (forall k, l | 0 <= k < l < |path| :: path[k] != path[l])
    && (forall k {:trigger Follow(path, k)} | 0 <= k < |path| ::
          Follow(path, k) == if path[k] >= A then path[k] - A else path[k] + B)
  }

  ghost function Path(A: nat, B: nat, i: nat): (path: seq<nat>)
    requires A > 0 && B > 0
    ensures |path| == CycleLength(A, B)
    ensures forall k | 0 <= k < |path| :: path[k] == Visit(A, B, i, k)
  {
    seq(CycleLength(A, B), k requires k >= 0 => Visit(A, B, i, k))
  }

  lemma PathIsCycle(A: nat, B: nat, i: nat)
    requires A > 0 && B > 0 && i < Gcd(A, B)
    ensures var path := Path(A, B, i); IsCycle(path, A, B) && path[0] == A + i
  {
    var path := Path(A, B, i);
    var a, b, x, u := CycleFacts(A, B);
    VisitStart(A, B, i);
    forall k, l | 0 <= k < l < |path| ensures path[k] != path[l] {
      VisitDistinct(A, B, i, k, l);
    }
    forall k | 0 <= k < |path|
      ensures Follow(path, k) == if path[k] >= A then path[k] - A else path[k] + B
    {
      VisitStep(A, B, i, k);
      VisitWrap(A, B, i);
    }
  }

  /** Path `i` adds exactly the offsets with residue `i` to what is covered. */
  lemma PathCovers(A: nat, B: nat, i: nat)
    requires A > 0 && B > 0 && i < Gcd(A, B)
    ensures Covered(A, B, i + 1) == Covered(A, B, i) + set p | p in Path(A, B, i)
    ensures forall p | p in Path(A, B, i) :: p !in Covered(A, B, i)
  {
    var path := Path(A, B, i);
    forall p | p in path ensures p < A + B && p % Gcd(A, B) == i {
      var k :| 0 <= k < |path| && path[k] == p;
      VisitResidue(A, B, i, k);
    }
    forall p: nat | p < A + B && p % Gcd(A, B) == i ensures p in path {
      var k := VisitCovers(A, B, i, p);
      assert path[k] == p;
    }
  }

  /** Cycle `i` as a path: where it starts, how long it is, and what it covers. */
  lemma CyclePath(A: nat, B: nat, i: nat) returns (path: seq<nat>)
    requires A > 0 && B > 0 && i < Gcd(A, B)
    ensures IsCycle(path, A, B) && |path| == CycleLength(A, B) && path[0] == A + i
    ensures Covered(A, B, i + 1) == Covered(A, B, i) + set p | p in path
    ensures forall p | p in path :: p !in Covered(A, B, i)
  {
    path := Path(A, B, i);
    PathIsCycle(A, B, i);
    PathCovers(A, B, i);
  }

  /** Inside the range, the offsets in `done` hold what the exchange brings them and
      the others what they held in `s`; outside the range nothing changed. */
  ghost predicate Placed<T>(s: seq<T>, now: seq<T>, start: nat, A: nat, B: nat, done: set<nat>)
    requires start + A + B <= |s|
  {
    && |now| == |s|
    && (forall p | 0 <= p < |s| && !(start <= p < start + A + B) :: now[p] == s[p])
    && (forall p: nat | p < A + B ::
          now[start + p] == if p in done then Incoming(s, start, A, B, p) else s[start + p])
  }

  lemma NothingCovered<T>(s: seq<T>, start: nat, A: nat, B: nat)
    requires A > 0 && B > 0 && start + A + B <= |s|
    ensures Covered(A, B, 0) == {}
    ensures Placed(s, s, start, A, B, {})
  {
  }

  /** After `j` steps along `path`: the first `j` offsets after its start hold what
      their predecessors held before, and its start carries the element to hand on. */
  ghost predicate Walked<T>(before: seq<T>, now: seq<T>, start: nat, A: nat, B: nat, path: seq<nat>, j: nat)
    requires start + A + B <= |before| && IsCycle(path, A, B) && j <= |path|
  {
    && |now| == |before|
    && (forall p | 0 <= p < |before| && !(start <= p < start + A + B) :: now[p] == before[p])
    && (forall p: nat | p < A + B && p !in path :: now[start + p] == before[start + p])
    && (forall k {:trigger Follow(path, k)} | 0 <= k < j && k + 1 < |path| ::
          now[start + Follow(path, k)] == before[start + path[k]])
    && (forall k | j < k < |path| :: now[start + path[k]] == before[start + path[k]])
    && now[start + path[0]] == before[start + path[if j < |path| then j else |path| - 1]]
  }

  lemma WalkStep<T>(before: seq<T>, now: seq<T>, next: seq<T>, start: nat, A: nat, B: nat, path: seq<nat>, j: nat)
    requires start + A + B <= |before| && IsCycle(path, A, B) && j < |path|
    requires Walked(before, now, start, A, B, path, j)
    requires var c, p := start + path[0], start + Follow(path, j);
      next == now[p := now[c]][c := now[p]]
    ensures Walked(before, next, start, A, B, path, j + 1)
  {
    var c, p := start + path[0], start + Follow(path, j);
    assert Follow(path, j) in path && path[0] in path;
    forall k {:trigger Follow(path, k)} | 0 <= k < j + 1 && k + 1 < |path|
      ensures next[start + Follow(path, k)] == before[start + path[k]]
    {
      assert Follow(path, k) == path[k + 1] != path[0];
    }
    forall k | j + 1 < k < |path| ensures next[start + path[k]] == before[start + path[k]] {
      assert path[k] != path[0] && path[k] != path[j + 1];
    }
  }

  /** A finished cycle has put every offset of its path in place. */
  lemma CycleEnds<T>(s: seq<T>, before: seq<T>, now: seq<T>, start: nat, A: nat, B: nat, path: seq<nat>, done: set<nat>)
    requires start + A + B <= |s| && IsCycle(path, A, B)
    requires Placed(s, before, start, A, B, done)
    requires forall p | p in path :: p !in done
    requires Walked(before, now, start, A, B, path, |path|)
    ensures Placed(s, now, start, A, B, done + set p | p in path)
  {
    forall p: nat | p in path
      ensures now[start + p] == Incoming(s, start, A, B, p)
    {
      var k :| 0 <= k < |path| && path[k] == p;
      var l := if k == 0 then |path| - 1 else k - 1;
      assert Follow(path, l) == p;
      assert path[l] in path;
    }
  }

  lemma AllPlaced<T>(s: seq<T>, now: seq<T>, start: nat, A: nat, B: nat, done: set<nat>)
    requires start + A + B <= |s| && Placed(s, now, start, A, B, done)
    requires forall p: nat | p < A + B :: p in done
    ensures now == Exchanged(s, start, start + A, start + A + B)
  {
    var r := Exchanged(s, start, start + A, start + A + B);
    forall p | 0 <= p < |s|
      ensures now[p] == r[p]
    {
      if start <= p < start + A + B {
        assert now[start + (p - start)] == Incoming(s, start, A, B, p - start);
      }
    }
  }

  /** The inner loop of permute_args(): hands the elements of one cycle on through
      the cycle's start, which serves as the temporary. */
  method FollowCycle<T>(nonoptEnd: nat, nnonopts: nat, nopts: nat, cstart: nat, cyclelen: nat, nargv: array<T>,
                        ghost path: seq<nat>)
    requires nnonopts <= nonoptEnd && nonoptEnd + nopts <= nargv.Length
    requires IsCycle(path, nnonopts, nopts) && cyclelen == |path|
    requires cstart == nonoptEnd - nnonopts + path[0]
    modifies nargv
    ensures Walked(old(nargv[..]), nargv[..], nonoptEnd - nnonopts, nnonopts, nopts, path, |path|)
  {
    ghost var before := nargv[..];
    ghost var start := nonoptEnd - nnonopts;
    var pos := cstart;
    for j := 0 to cyclelen
      invariant pos == start + if j < |path| then path[j] else path[0]
      invariant Walked(before, nargv[..], start, nnonopts, nopts, path, j)
    {
      ghost var now := nargv[..];
      assert Follow(path, j) == if path[j] >= nnonopts then path[j] - nnonopts else path[j] + nopts;
      if pos >= nonoptEnd {
        pos := pos - nnonopts;
      } else {
        pos := pos + nopts;
      }
      var swap := nargv[pos];
      nargv[pos] := nargv[cstart];
      nargv[cstart] := swap;
      WalkStep(before, now, nargv[..], start, nnonopts, nopts, path, j);
    }
  }

  /** permute_args(): follows gcd-many cycles and leaves exactly the two blocks exchanged. */
  method Permute<T>(nonoptStart: nat, nonoptEnd: nat, optEnd: nat, nargv: array<T>)
    requires nonoptStart < nonoptEnd < optEnd <= nargv.Length
    modifies nargv
    ensures nargv[..] == Exchanged(old(nargv[..]), nonoptStart, nonoptEnd, optEnd)
  {
    var nnonopts := nonoptEnd - nonoptStart;
    var nopts := optEnd - nonoptEnd;
    var ncycle := ComputeGcd(nnonopts, nopts);
    var cyclelen := (optEnd - nonoptStart) / ncycle;
    assert cyclelen == CycleLength(nnonopts, nopts);
    ghost var s := nargv[..];
    hide Covered, Placed, Walked, CycleLength, Gcd, Exchanged;
    NothingCovered(s, nonoptStart, nnonopts, nopts);
    ghost var done := {};
    for i := 0 to ncycle
      invariant done == Covered(nnonopts, nopts, i)
      invariant Placed(s, nargv[..], nonoptStart, nnonopts, nopts, done)
    {
      ghost var path := CyclePath(nnonopts, nopts, i);
      ghost var before := nargv[..];
      FollowCycle(nonoptEnd, nnonopts, nopts, nonoptEnd + i, cyclelen, nargv, path);
      CycleEnds(s, before, nargv[..], nonoptStart, nnonopts, nopts, path, done);
      done := done + set p | p in path;
    }
    AllCovered(nnonopts, nopts);
    AllPlaced(s, nargv[..], nonoptStart, nnonopts, nopts, done);
  }
}
