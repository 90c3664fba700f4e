/**
 Gauss-Jordan elimination with partial pivoting, as `ObfuscationMatrix::invert` runs it on the
 flat augmented buffer [A | I].

 The proof carries a matrix G that undoes the row operations done so far.  With the buffer split
 as [L | E], every step keeps E*A == L and G*E == I; columns of G not yet reached are standard
 unit vectors.
 */
module Elimination {
  import opened Prelude
  import opened Matrices

  const PIVOT_THRESHOLD: real := 0.000001

  /** The right half [. | E] of an augmented matrix. */
  function Right(n: nat, m: Matrix): Matrix { (r, c) => m(r, n + c) }

  /** The elimination invariant between the augmented matrix m and the undo matrix g. */
  ghost predicate Tracks(n: nat, a: Matrix, m: Matrix, g: Matrix) {
    && (forall r, c | 0 <= r < n && 0 <= c < n :: Dot(n, Right(n, m), a, r, c) == m(r, c))
    && (forall r, c | 0 <= r < n && 0 <= c < n :: Dot(n, g, Right(n, m), r, c) == Delta(r, c))
  }

  /** The first i columns of m are unit columns. */
  ghost predicate UnitColumns(n: nat, m: Matrix, i: int) {
    forall r, c | 0 <= r < n && 0 <= c < i && c < n :: m(r, c) == Delta(r, c)
  }

  /** Columns of g from i on are standard unit vectors, at most one of them hitting each row. */
  ghost predicate UntouchedColumns(n: nat, g: Matrix, tau: int -> int, i: int) {
    forall x, j | 0 <= x < n && i <= j < n :: g(x, j) == Delta(tau(x), j)
  }

  /** v has a component 1 and a maps it to a vector with every entry within a millionth of 0. */
  ghost predicate NearKernel(n: nat, a: Matrix, v: Matrix) {
    && (exists i :: 0 <= i < n && v(i, 0) == 1.0)
    && (forall r | 0 <= r < n :: -0.000001 < Dot(n, a, v, r, 0) < 0.000001)
  }

  // ---- The three row operations, on matrices ----

  function SwapMatrix(m: Matrix, i: int, p: int): Matrix {
    (r, c) => m(if r == i then p else if r == p then i else r, c)
  }

  function ScaleMatrix(m: Matrix, i: int, f: real): Matrix
    requires f != 0.0
  {
    (r, c) => if r == i then m(i, c) / f else m(r, c)
  }

  function EliminateMatrix(m: Matrix, r0: int, i: int, s: real): Matrix {
    (r, c) => if r == r0 then m(r0, c) - s * m(i, c) else m(r, c)
  }

  /** The undo matrix after each of them: the inverse operation, on columns. */
  function SwapColumns(g: Matrix, i: int, p: int): Matrix {
    (x, j) => g(x, if j == i then p else if j == p then i else j)
  }

  function ScaleColumn(g: Matrix, i: int, f: real): Matrix {
    (x, j) => if j == i then g(x, i) * f else g(x, j)
  }

  function AddColumn(g: Matrix, r0: int, i: int, s: real): Matrix {
    (x, j) => if j == i then g(x, i) + s * g(x, r0) else g(x, j)
  }

  lemma UndoSwap(n: nat, g: Matrix, e: Matrix, g': Matrix, e': Matrix, r: int, c: int, i: int, p: int)
    requires 0 <= i < n && 0 <= p < n && i != p
    requires forall k | 0 <= k < n && k != i && k != p :: g'(r, k) == g(r, k) && e'(k, c) == e(k, c)
    requires g'(r, i) == g(r, p) && g'(r, p) == g(r, i) && e'(i, c) == e(p, c) && e'(p, c) == e(i, c)
    ensures Dot(n, g', e', r, c) == Dot(n, g, e, r, c)
  {
    DotExchange(n, g, e, g', e', r, c, i, p);
  }

  lemma SwapTracks(n: nat, a: Matrix, m: Matrix, g: Matrix, i: int, p: int)
    requires Tracks(n, a, m, g)
    requires 0 <= i < n && 0 <= p < n && i != p
    ensures Tracks(n, a, SwapMatrix(m, i, p), SwapColumns(g, i, p))
  {
    var m', g' := SwapMatrix(m, i, p), SwapColumns(g, i, p);
    forall r, c | 0 <= r < n && 0 <= c < n
      ensures Dot(n, Right(n, m'), a, r, c) == m'(r, c)
      ensures Dot(n, g', Right(n, m'), r, c) == Delta(r, c)
    {
      var q := if r == i then p else if r == p then i else r;
      DotCong(n, Right(n, m'), a, Right(n, m), a, r, q, c, c);
      UndoSwap(n, g, Right(n, m), g', Right(n, m'), r, c, i, p);
    }
  }

  lemma QuotientAsProduct(x: real, f: real)
    requires f != 0.0
    ensures x / f == 1.0 / f * x
  {}

  lemma ScaleCancels(x: real, y: real, f: real, q: real, x': real, y': real)
    requires f * q == 1.0 && x' == x * f && y' == q * y
    ensures x' * y' == x * y
  {
    assert x' * y' == x * y * (f * q);
  }

  lemma UndoScale(n: nat, g: Matrix, e: Matrix, g': Matrix, e': Matrix, r: int, c: int, i: int, f: real, q: real)
    requires 0 <= i < n && f * q == 1.0
    requires forall k | 0 <= k < n && k != i :: g'(r, k) == g(r, k) && e'(k, c) == e(k, c)
    requires g'(r, i) == g(r, i) * f && e'(i, c) == q * e(i, c)
    ensures Dot(n, g', e', r, c) == Dot(n, g, e, r, c)
  {
    ScaleCancels(g(r, i), e(i, c), f, q, g'(r, i), e'(i, c));
    DotSameTerms(n, g, e, g', e', r, c);
  }

  lemma ScaleTracksBy(n: nat, a: Matrix, m: Matrix, m': Matrix, g: Matrix, i: int, f: real, q: real)
    requires Tracks(n, a, m, g)
    requires 0 <= i < n && f * q == 1.0
    requires forall r, c :: m'(r, c) == if r == i then q * m(i, c) else m(r, c)
    ensures Tracks(n, a, m', ScaleColumn(g, i, f))
  {
    var g' := ScaleColumn(g, i, f);
    forall r, c | 0 <= r < n && 0 <= c < n
      ensures Dot(n, Right(n, m'), a, r, c) == m'(r, c)
    {
      if r == i {
        DotRowLinear(n, Right(n, m'), Right(n, m), a, r, q, r, 0.0, r, c);
      } else {
        DotCong(n, Right(n, m'), a, Right(n, m), a, r, r, c, c);
      }
    }
    forall r, c | 0 <= r < n && 0 <= c < n
      ensures Dot(n, g', Right(n, m'), r, c) == Delta(r, c)
    {
      UndoScale(n, g, Right(n, m), g', Right(n, m'), r, c, i, f, q);
    }
  }

  lemma ScaleTracks(n: nat, a: Matrix, m: Matrix, g: Matrix, i: int, f: real)
    requires Tracks(n, a, m, g)
    requires 0 <= i < n && f != 0.0
    ensures Tracks(n, a, ScaleMatrix(m, i, f), ScaleColumn(g, i, f))
  {
    var m' := ScaleMatrix(m, i, f);
    forall r, c ensures m'(r, c) == if r == i then 1.0 / f * m(i, c) else m(r, c) {
      QuotientAsProduct(m(i, c), f);
    }
    ScaleTracksBy(n, a, m, m', g, i, f, 1.0 / f);
  }

  lemma CrossTermsCancel(gi: real, gr: real, ei: real, er: real, s: real, gi': real, er': real)
    requires gi' == gi + s * gr && er' == er - s * ei
    ensures gi' * ei + gr * er' == gi * ei + gr * er
  {}

  /** The column operation on g makes up for the row operation on e. */
  lemma UndoEliminate(n: nat, g: Matrix, e: Matrix, g': Matrix, e': Matrix, r: int, c: int, r0: int, i: int, s: real)
    requires 0 <= i < n && 0 <= r0 < n && i != r0
    requires forall k | 0 <= k < n && k != i :: g'(r, k) == g(r, k)
    requires forall k | 0 <= k < n && k != r0 :: e'(k, c) == e(k, c)
    requires g'(r, i) == g(r, i) + s * g(r, r0) && e'(r0, c) == e(r0, c) - s * e(i, c)
    ensures Dot(n, g', e', r, c) == Dot(n, g, e, r, c)
  {
    CrossTermsCancel(g(r, i), g(r, r0), e(i, c), e(r0, c), s, g'(r, i), e'(r0, c));
    DotExchange(n, g, e, g', e', r, c, i, r0);
  }

  lemma EliminateTracks(n: nat, a: Matrix, m: Matrix, g: Matrix, r0: int, i: int, s: real)
    requires Tracks(n, a, m, g)
    requires 0 <= i < n && 0 <= r0 < n && i != r0
    ensures Tracks(n, a, EliminateMatrix(m, r0, i, s), AddColumn(g, r0, i, s))
  {
    var m', g' := EliminateMatrix(m, r0, i, s), AddColumn(g, r0, i, s);
    forall r, c | 0 <= r < n && 0 <= c < n
      ensures Dot(n, Right(n, m'), a, r, c) == m'(r, c)
    {
      if r == r0 {
        DotRowLinear(n, Right(n, m'), Right(n, m), a, r, 1.0, r0, -s, i, c);
      } else {
        DotCong(n, Right(n, m'), a, Right(n, m), a, r, r, c, c);
      }
    }
    forall r, c | 0 <= r < n && 0 <= c < n
      ensures Dot(n, g', Right(n, m'), r, c) == Delta(r, c)
    {
      UndoEliminate(n, g, Right(n, m), g', Right(n, m'), r, c, r0, i, s);
    }
  }

  /** Elimination run to the end leaves a two-sided inverse in the right half. */
  lemma FullyReduced(n: nat, a: Matrix, m: Matrix, g: Matrix)
    requires Tracks(n, a, m, g)
    requires UnitColumns(n, m, n)
    ensures Inverses(n, a, Right(n, m))
  {
    LeftInverseIsTwoSided(n, a, Right(n, m), g);
  }

  /** The vector that exposes a missing pivot in column i. */
  function KernelVector(m: Matrix, i: int): Matrix {
    (r, c) => if r == i then 1.0 else if 0 <= r < i then -m(r, i) else 0.0
  }

  lemma {:induction false} LeftTimesKernelVector(k: nat, n: nat, m: Matrix, i: int, r: int)
    requires 0 <= i < n && 0 <= r < n && k <= n
    requires UnitColumns(n, m, i)
    ensures Dot(k, m, KernelVector(m, i), r, 0) ==
            (if r < i && r < k then -m(r, i) else 0.0) + (if i < k then m(r, i) else 0.0)
  {
    if k > 0 { LeftTimesKernelVector(k - 1, n, m, i, r); }
  }

  /** A column with no pivot above the threshold: a nearly annihilates an explicit vector. */
  lemma NoPivot(n: nat, a: Matrix, m: Matrix, g: Matrix, tau: int -> int, i: int)
    requires 0 <= i < n
    requires Tracks(n, a, m, g) && UnitColumns(n, m, i) && UntouchedColumns(n, g, tau, i)
    requires forall r | i <= r < n :: Abs(m(r, i)) < PIVOT_THRESHOLD
    ensures NearKernel(n, a, KernelVector(m, i))
    ensures (forall r | i <= r < n :: m(r, i) == 0.0) ==>
              forall r | 0 <= r < n :: Dot(n, a, KernelVector(m, i), r, 0) == 0.0
  {
    var v, e := KernelVector(m, i), Right(n, m);
    assert v(i, 0) == 1.0;
    var w := Mul(n, m, v);
    forall r | 0 <= r < n ensures w(r, 0) == if r < i then 0.0 else m(r, i) {
      LeftTimesKernelVector(n, n, m, i, r);
    }
    forall r | 0 <= r < n
      ensures Dot(n, a, v, r, 0) == if i <= tau(r) < n then m(tau(r), i) else 0.0
    {
      // a*v == (g*e)*(a*v) == g*((e*a)*v) == g*(m*v)
      var av := Mul(n, a, v);
      MulAssoc(n, n, g, e, av, r, 0);
      DotIdentityLeft(n, Mul(n, g, e), av, r, 0);
      forall k | 0 <= k < n ensures Mul(n, e, av)(k, 0) == w(k, 0) {
        MulAssoc(n, n, e, a, v, k, 0);
        DotCong(n, Mul(n, e, a), v, m, v, k, k, 0, 0);
      }
      DotCong(n, g, Mul(n, e, av), g, w, r, r, 0, 0);
      forall k | 0 <= k < n && k != tau(r) ensures g(r, k) == 0.0 || w(k, 0) == 0.0 {}
      if i <= tau(r) < n {
        DotSingle(n, g, w, r, 0, tau(r));
      } else {
        DotZero(n, g, w, r, 0);
      }
    }
  }

  // ---- Diagonal dominance ----

  /** Sum of the absolute values of the first k entries of row r, the diagonal left out. */
  function OffDiagonal(k: nat, a: Matrix, r: int): real {
    if k == 0 then 0.0
    else OffDiagonal(k - 1, a, r) + if k - 1 == r then 0.0 else Abs(a(r, k - 1))
  }

  ghost predicate DominantBy(n: nat, a: Matrix, margin: real) {
    forall r | 0 <= r < n :: OffDiagonal(n, a, r) + margin <= Abs(a(r, r))
  }

  lemma {:induction false} LargestComponent(n: nat, v: Matrix) returns (m: int)
    requires n > 0
    ensures 0 <= m < n && forall k | 0 <= k < n :: Abs(v(k, 0)) <= Abs(v(m, 0))
  {
    m := 0;
    if n > 1 {
      m := LargestComponent(n - 1, v);
      if Abs(v(m, 0)) < Abs(v(n - 1, 0)) { m := n - 1; }
    }
  }

  lemma ContractingProduct(x: real, y: real)
    requires Abs(y) <= 1.0
    ensures Abs(x * y) <= Abs(x)
  {}

  /** Row r times v, without the diagonal term. */
  ghost function OffProduct(k: nat, a: Matrix, v: Matrix, r: int): real {
    if k == 0 then 0.0
    else OffProduct(k - 1, a, v, r) + if k - 1 == r then 0.0 else a(r, k - 1) * v(k - 1, 0)
  }

  lemma {:induction false} OffProductIsRest(k: nat, a: Matrix, v: Matrix, r: int)
    requires 0 <= r
    ensures Dot(k, a, v, r, 0) == OffProduct(k, a, v, r) + if r < k then a(r, r) * v(r, 0) else 0.0
  {
    if k > 0 { OffProductIsRest(k - 1, a, v, r); }
  }

  lemma {:induction false} OffProductBound(k: nat, a: Matrix, v: Matrix, r: int)
    requires forall j | 0 <= j < k :: Abs(v(j, 0)) <= 1.0
    ensures Abs(OffProduct(k, a, v, r)) <= OffDiagonal(k, a, r)
  {
    if k > 0 {
      OffProductBound(k - 1, a, v, r);
      var t := if k - 1 == r then 0.0 else a(r, k - 1) * v(k - 1, 0);
      var u := if k - 1 == r then 0.0 else Abs(a(r, k - 1));
      assert Abs(t) <= u by { ContractingProduct(a(r, k - 1), v(k - 1, 0)); }
      assert OffProduct(k, a, v, r) == OffProduct(k - 1, a, v, r) + t;
    }
  }

  lemma {:induction false} DotScaleRight(n: nat, a: Matrix, v: Matrix, u: Matrix, r: int, s: real)
    requires forall k | 0 <= k < n :: v(k, 0) == s * u(k, 0)
    ensures Dot(n, a, v, r, 0) == s * Dot(n, a, u, r, 0)
  {
    if n > 0 {
      DotScaleRight(n - 1, a, v, u, r, s);
      assert a(r, n - 1) * (s * u(n - 1, 0)) == s * (a(r, n - 1) * u(n - 1, 0));
    }
  }

  /** In a dominant row, a component of 1 that no other exceeds cannot be cancelled. */
  lemma DominantUnitRow(n: nat, a: Matrix, u: Matrix, m: int)
    requires 0 <= m < n && u(m, 0) == 1.0
    requires forall k | 0 <= k < n :: Abs(u(k, 0)) <= 1.0
    requires OffDiagonal(n, a, m) + PIVOT_THRESHOLD <= Abs(a(m, m))
    ensures Abs(Dot(n, a, u, m, 0)) >= PIVOT_THRESHOLD
  {
    OffProductBound(n, a, u, m);
    OffProductIsRest(n, a, u, m);
    assert a(m, m) * u(m, 0) == a(m, m);
  }

  function Shrunk(v: Matrix, s: real): Matrix requires s != 0.0 { (r, c) => v(r, c) / s }

  lemma Normalised(x: real, s: real)
    requires Abs(s) >= 1.0 && Abs(x) <= Abs(s)
    ensures Abs(x / s) <= 1.0 && x == s * (x / s)
  {}

  lemma SelfQuotient(s: real)
    requires s != 0.0
    ensures s / s == 1.0
  {}

  lemma Expanding(s: real, t: real)
    requires Abs(s) >= 1.0
    ensures Abs(s * t) >= Abs(t)
  {}

  /** v is s times u, and u has a component 1 at m that no other exceeds. */
  ghost predicate ScaledUnit(n: nat, v: Matrix, u: Matrix, m: int, s: real) {
    && u(m, 0) == 1.0 && (forall k | 0 <= k < n :: Abs(u(k, 0)) <= 1.0)
    && (forall k | 0 <= k < n :: v(k, 0) == s * u(k, 0))
  }

  /** Divide a vector by its largest component. */
  lemma ShrunkVector(n: nat, v: Matrix, m: int) returns (u: Matrix)
    requires 0 <= m < n && Abs(v(m, 0)) >= 1.0
    requires forall k | 0 <= k < n :: Abs(v(k, 0)) <= Abs(v(m, 0))
    ensures ScaledUnit(n, v, u, m, v(m, 0))
  {
    var s := v(m, 0);
    u := Shrunk(v, s);
    forall k | 0 <= k < n ensures Abs(u(k, 0)) <= 1.0 && v(k, 0) == s * u(k, 0) { Normalised(v(k, 0), s); }
    SelfQuotient(s);
  }

  lemma DominantScaledRow(n: nat, a: Matrix, v: Matrix, u: Matrix, m: int, s: real)
    requires 0 <= m < n && Abs(s) >= 1.0 && ScaledUnit(n, v, u, m, s)
    requires OffDiagonal(n, a, m) + PIVOT_THRESHOLD <= Abs(a(m, m))
    ensures Abs(Dot(n, a, v, m, 0)) >= PIVOT_THRESHOLD
  {
    DominantUnitRow(n, a, u, m);
    DotScaleRight(n, a, v, u, m, s);
    Expanding(s, Dot(n, a, u, m, 0));
  }

  /** The same for a largest component that is at least 1. */
  lemma DominantRow(n: nat, a: Matrix, v: Matrix, m: int)
    requires 0 <= m < n && Abs(v(m, 0)) >= 1.0
    requires forall k | 0 <= k < n :: Abs(v(k, 0)) <= Abs(v(m, 0))
    requires OffDiagonal(n, a, m) + PIVOT_THRESHOLD <= Abs(a(m, m))
    ensures Abs(Dot(n, a, v, m, 0)) >= PIVOT_THRESHOLD
  {
    var u := ShrunkVector(n, v, m);
    DominantScaledRow(n, a, v, u, m, v(m, 0));
  }

  /** Dominance by the pivot threshold rules out every near-kernel vector. */
  lemma DominantHasNoNearKernel(n: nat, a: Matrix, v: Matrix)
    requires DominantBy(n, a, PIVOT_THRESHOLD)
    ensures !NearKernel(n, a, v)
  {
    if NearKernel(n, a, v) {
      var i :| 0 <= i < n && v(i, 0) == 1.0;
      var m := LargestComponent(n, v);
      assert Abs(v(m, 0)) >= Abs(v(i, 0)) == 1.0;
      DominantRow(n, a, v, m);
      assert false;
    }
  }

  // ---- The same operations in place on the flat buffer ----

  lemma RowsOfBuffer(s: seq<real>, s': seq<real>, n: nat, w: nat, i: int, m: Matrix)
    requires |s| == |s'| == n * w && 0 <= i < n
    requires forall j | 0 <= j < |s| :: s'[j] == if i * w <= j < i * w + w then m(i, j - i * w) else s[j]
    requires forall r, c | 0 <= r < n && r != i && 0 <= c < w :: m(r, c) == Cell(s, w, r, c)
    ensures SameUpTo(n, w, View(s', w), m)
  {
    forall r, c | 0 <= r < n && 0 <= c < w ensures View(s', w)(r, c) == m(r, c) {
      IndexInRange(n, w, r, c);
      if r < i { RowsApart(w, r, i); } else if i < r { RowsApart(w, i, r); }
    }
  }

  /** Exchanges the w entries from offset x with the w entries from offset y. */
  method SwapRange(aug: array<real>, x: nat, y: nat, w: nat)
    requires x + w <= aug.Length && y + w <= aug.Length && (x + w <= y || y + w <= x)
    modifies aug
    ensures forall j | x <= j < x + w :: aug[j] == old(aug[j - x + y])
    ensures forall j | y <= j < y + w :: aug[j] == old(aug[j - y + x])
    ensures forall j | 0 <= j < aug.Length && !(x <= j < x + w) && !(y <= j < y + w) :: aug[j] == old(aug[j])
  {
    for col := 0 to w
      invariant forall j | x <= j < x + col :: aug[j] == old(aug[j - x + y])
      invariant forall j | y <= j < y + col :: aug[j] == old(aug[j - y + x])
      invariant forall j | 0 <= j < aug.Length && !(x <= j < x + col) && !(y <= j < y + col) :: aug[j] == old(aug[j])
    {
      var temp := aug[x + col];
      aug[x + col] := aug[y + col];
      aug[y + col] := temp;
    }
  }

  method ScaleRange(aug: array<real>, x: nat, w: nat, factor: real)
    requires x + w <= aug.Length && factor != 0.0
    modifies aug
    ensures forall j | 0 <= j < aug.Length ::
              aug[j] == if x <= j < x + w then old(aug[j]) / factor else old(aug[j])
  {
    for col := 0 to w
      invariant forall j | 0 <= j < aug.Length ::
                  aug[j] == if x <= j < x + col then old(aug[j]) / factor else old(aug[j])
    {
      aug[x + col] := aug[x + col] / factor;
    }
  }

  /** Subtracts `scale` times the w entries from offset y from those at offset x. */
  method SubtractRange(aug: array<real>, x: nat, y: nat, w: nat, scale: real)
    requires x + w <= aug.Length && y + w <= aug.Length && (x + w <= y || y + w <= x)
    modifies aug
    ensures forall j | 0 <= j < aug.Length ::
              aug[j] == if x <= j < x + w then old(aug[j]) - scale * old(aug[j - x + y]) else old(aug[j])
  {
    for col := 0 to w
      invariant forall j | 0 <= j < aug.Length ::
                  aug[j] == if x <= j < x + col then old(aug[j]) - scale * old(aug[j - x + y]) else old(aug[j])
    {
      aug[x + col] := aug[x + col] - scale * aug[y + col];
    }
  }

  /** Two distinct rows of an n by w buffer occupy disjoint ranges inside it. */
  lemma RowRanges(n: nat, w: nat, i: nat, p: nat)
    requires i < n && p < n
    ensures 0 <= i * w && i * w + w <= n * w && 0 <= p * w && p * w + w <= n * w
    ensures i < p ==> i * w + w <= p * w
    ensures p < i ==> p * w + w <= i * w
  {
    RowsApart(w, i, n);
    RowsApart(w, p, n);
    if i < p { RowsApart(w, i, p); } else if p < i { RowsApart(w, p, i); }
  }

  method SwapRows(aug: array<real>, n: nat, w: nat, i: nat, p: nat)
    requires aug.Length == n * w && i < n && p < n && i != p
    modifies aug
    ensures SameUpTo(n, w, View(aug[..], w), SwapMatrix(View(old(aug[..]), w), i, p))
  {
    ghost var was := aug[..];
    RowRanges(n, w, i, p);
    SwapRange(aug, i * w, p * w, w);
    forall r, c | 0 <= r < n && 0 <= c < w
      ensures View(aug[..], w)(r, c) == SwapMatrix(View(was, w), i, p)(r, c)
    {
      RowRanges(n, w, r, i);
      RowRanges(n, w, r, p);
    }
  }

  method ScaleRow(aug: array<real>, n: nat, w: nat, i: nat, factor: real)
    requires aug.Length == n * w && i < n && factor != 0.0
    modifies aug
    ensures SameUpTo(n, w, View(aug[..], w), ScaleMatrix(View(old(aug[..]), w), i, factor))
  {
    ghost var was := aug[..];
    RowRanges(n, w, i, i);
    ScaleRange(aug, i * w, w, factor);
    RowsOfBuffer(was, aug[..], n, w, i, ScaleMatrix(View(was, w), i, factor));
  }

  method EliminateRow(aug: array<real>, n: nat, w: nat, r: nat, i: nat, scale: real)
    requires aug.Length == n * w && i < n && r < n && r != i
    modifies aug
    ensures SameUpTo(n, w, View(aug[..], w), EliminateMatrix(View(old(aug[..]), w), r, i, scale))
  {
    ghost var was := aug[..];
    RowRanges(n, w, r, i);
    SubtractRange(aug, r * w, i * w, w, scale);
    RowsOfBuffer(was, aug[..], n, w, r, EliminateMatrix(View(was, w), r, i, scale));
  }

  // ---- What the loop makes of a matrix ----

  /** The first row from i on, before k, with the largest entry in column i. */
  function BestRow(m: Matrix, i: nat, k: nat): nat
    requires i < k
  {
    if k == i + 1 then i
    else
      var best := BestRow(m, i, k - 1);
      if Abs(m(k - 1, i)) > Abs(m(best, i)) then k - 1 else best
  }

  lemma {:induction false} BestRowCong(m: Matrix, m': Matrix, i: nat, k: nat)
    requires i < k && forall r | i <= r < k :: m'(r, i) == m(r, i)
    ensures i <= BestRow(m, i, k) < k && BestRow(m', i, k) == BestRow(m, i, k)
    ensures forall r | i <= r < k :: Abs(m(r, i)) <= Abs(m(BestRow(m, i, k), i))
  {
    if k > i + 1 { BestRowCong(m, m', i, k - 1); }
  }

  /** Row i leads with 1 and column i is cleared everywhere else. */
  function ClearedMatrix(m: Matrix, i: int): Matrix
    requires m(i, i) != 0.0
  {
    (r, c) => if r == i then m(i, c) / m(i, i) else m(r, c) - m(r, i) * (m(i, c) / m(i, i))
  }

  /** The matrix after the pass for column i, if that finds a pivot. */
  function PassOver(n: nat, m: Matrix, i: nat): Matrix
    requires i < n
  {
    var swapped := SwapMatrix(m, i, BestRow(m, i, n));
    if swapped(i, i) == 0.0 then m else ClearedMatrix(swapped, i)
  }

  /** The matrix after the passes for columns 0 to i - 1. */
  function Passed(n: nat, m: Matrix, i: nat): Matrix
    requires i <= n
  {
    if i == 0 then m else PassOver(n, Passed(n, m, i - 1), i - 1)
  }

  /** Column i holds nothing a millionth or more away from 0 from row i on. */
  ghost predicate NoPivotIn(n: nat, m: Matrix, i: nat) {
    forall r | i <= r < n :: -0.000001 < m(r, i) < 0.000001
  }

  /** The starting matrix [A | I]. */
  function AugmentedEntry(matrix: seq<real>, n: nat, r: int, c: int): real {
    if c < n then Cell(matrix, n, r, c) else if r == c - n then 1.0 else 0.0
  }

  function AugmentedMatrix(matrix: seq<real>, n: nat): Matrix { (r, c) => AugmentedEntry(matrix, n, r, c) }

  /** The partial-pivoting search: the first row from i on with the largest entry in column i. */
  method FindPivot(aug: array<real>, n: nat, w: nat, i: nat) returns (pivot: nat)
    requires aug.Length == n * w && i < n && i < w
    ensures i <= pivot < n && pivot == BestRow(View(aug[..], w), i, n)
    ensures forall r | i <= r < n :: Abs(View(aug[..], w)(r, i)) <= Abs(View(aug[..], w)(pivot, i))
    ensures forall r | i <= r < pivot :: Abs(View(aug[..], w)(r, i)) < Abs(View(aug[..], w)(pivot, i))
  {
    pivot := i;
    for r := i + 1 to n
      invariant i <= pivot < n && pivot < r && pivot == BestRow(View(aug[..], w), i, r)
      invariant forall q | i <= q < r :: Abs(View(aug[..], w)(q, i)) <= Abs(View(aug[..], w)(pivot, i))
      invariant forall q | i <= q < pivot :: Abs(View(aug[..], w)(q, i)) < Abs(View(aug[..], w)(pivot, i))
    {
      IndexInRange(n, w, r, i);
      IndexInRange(n, w, pivot, i);
      if Abs(aug[r * w + i]) > Abs(aug[pivot * w + i]) {
        pivot := r;
      }
    }
  }

  /** Invariants only look at the n by 2n part of a matrix. */
  lemma TracksCong(n: nat, a: Matrix, m: Matrix, m': Matrix, g: Matrix)
    requires Tracks(n, a, m, g) && SameUpTo(n, 2 * n, m', m)
    ensures Tracks(n, a, m', g)
  {
    forall r, c | 0 <= r < n && 0 <= c < n
      ensures Dot(n, Right(n, m'), a, r, c) == m'(r, c)
      ensures Dot(n, g, Right(n, m'), r, c) == Delta(r, c)
    {
      DotCong(n, Right(n, m'), a, Right(n, m), a, r, r, c, c);
      DotCong(n, g, Right(n, m'), g, Right(n, m), r, r, c, c);
    }
  }

  method AugmentRow(aug: array<real>, matrix: seq<real>, n: nat, i: nat)
    requires |matrix| == n * n && aug.Length == n * (2 * n) && i < n
    requires forall j | i * (2 * n) <= j < aug.Length :: 0 <= j ==> aug[j] == 0.0
    modifies aug
    ensures forall j | 0 <= j < aug.Length ::
              aug[j] == if i * (2 * n) <= j < i * (2 * n) + 2 * n then AugmentedEntry(matrix, n, i, j - i * (2 * n))
                        else old(aug[j])
  {
    var w := 2 * n;
    var b := i * w;
    RowsApart(w, i, n);
    assert b >= 0;
    for j := 0 to n
      invariant forall k | 0 <= k < aug.Length ::
                  aug[k] == if b <= k < b + j then Cell(matrix, n, i, k - b) else old(aug[k])
    {
      IndexInRange(n, n, i, j);
      aug[b + j] := matrix[i * n + j];
    }
    aug[b + n + i] := 1.0;
  }

  lemma AugmentedSoFar(matrix: seq<real>, was: seq<real>, now: seq<real>, n: nat, i: nat)
    requires i < n && |was| == |now| == n * (2 * n)
    requires forall r, c | 0 <= r < i && 0 <= c < 2 * n :: View(was, 2 * n)(r, c) == AugmentedEntry(matrix, n, r, c)
    requires forall j | 0 <= j < |now| ::
               now[j] == if i * (2 * n) <= j < i * (2 * n) + 2 * n then AugmentedEntry(matrix, n, i, j - i * (2 * n))
                          else was[j]
    ensures forall r, c | 0 <= r < i + 1 && 0 <= c < 2 * n :: View(now, 2 * n)(r, c) == AugmentedEntry(matrix, n, r, c)
  {
    RowsOfBuffer(was, now, n, 2 * n, i,
                 (r, c) => if r == i then AugmentedEntry(matrix, n, i, c) else Cell(was, 2 * n, r, c));
    forall r, c | 0 <= r < i && 0 <= c < 2 * n ensures View(now, 2 * n)(r, c) == AugmentedEntry(matrix, n, r, c) {
      assert View(was, 2 * n)(r, c) == AugmentedEntry(matrix, n, r, c);
    }
  }

  /** Row i of the start, the rows before it done and the rest still zero. */
  method AugmentNext(aug: array<real>, matrix: seq<real>, n: nat, i: nat)
    requires |matrix| == n * n && aug.Length == n * (2 * n) && i < n
    requires forall r, c | 0 <= r < i && 0 <= c < 2 * n :: View(aug[..], 2 * n)(r, c) == AugmentedEntry(matrix, n, r, c)
    requires forall j | i * (2 * n) <= j < aug.Length :: 0 <= j ==> aug[j] == 0.0
    modifies aug
    ensures forall r, c | 0 <= r < i + 1 && 0 <= c < 2 * n ::
              View(aug[..], 2 * n)(r, c) == AugmentedEntry(matrix, n, r, c)
    ensures forall j | (i + 1) * (2 * n) <= j < aug.Length :: 0 <= j ==> aug[j] == 0.0
  {
    ghost var was := aug[..];
    AugmentRow(aug, matrix, n, i);
    AugmentedSoFar(matrix, was, aug[..], n, i);
    assert (i + 1) * (2 * n) == i * (2 * n) + 2 * n;
  }

  /** [A | I] as the source lays it out. */
  method Augment(matrix: seq<real>, n: nat) returns (aug: array<real>)
    requires |matrix| == n * n
    ensures fresh(aug) && aug.Length == n * (2 * n)
    ensures forall r, c | 0 <= r < n && 0 <= c < 2 * n :: View(aug[..], 2 * n)(r, c) == AugmentedEntry(matrix, n, r, c)
  {
    aug := new real[n * (2 * n)](_ => 0.0);
    for i := 0 to n
      invariant forall r, c | 0 <= r < i && 0 <= c < 2 * n ::
                  View(aug[..], 2 * n)(r, c) == AugmentedEntry(matrix, n, r, c)
      invariant forall j | i * (2 * n) <= j < aug.Length :: 0 <= j ==> aug[j] == 0.0
    {
      AugmentNext(aug, matrix, n, i);
    }
  }

  lemma AugmentedTracks(n: nat, matrix: seq<real>, m: Matrix)
    requires forall r, c | 0 <= r < n && 0 <= c < 2 * n :: m(r, c) == AugmentedEntry(matrix, n, r, c)
    ensures Tracks(n, View(matrix, n), m, Identity())
  {
    var a := View(matrix, n);
    forall r, c | 0 <= r < n && 0 <= c < n
      ensures Dot(n, Right(n, m), a, r, c) == m(r, c)
      ensures Dot(n, Identity(), Right(n, m), r, c) == Delta(r, c)
    {
      forall k | 0 <= k < n ensures Right(n, m)(r, k) == Delta(r, k) {}
      DotIdentityLeft(n, Right(n, m), a, r, c);
      DotIdentityLeft(n, Identity(), Right(n, m), r, c);
    }
  }

  /** Column i is being cleared: rows before r are done, and the pivot row leads with 1. */
  ghost predicate Clearing(n: nat, a: Matrix, m: Matrix, g: Matrix, tau: int -> int, i: int, r: int) {
    && Tracks(n, a, m, g) && UnitColumns(n, m, i) && UntouchedColumns(n, g, tau, i + 1)
    && 0 <= i < n && m(i, i) == 1.0
    && forall q | 0 <= q < r && q < n :: m(q, i) == Delta(q, i)
  }

  lemma ClearRow(n: nat, a: Matrix, m: Matrix, m': Matrix, g: Matrix, tau: int -> int, i: int, r: int)
    requires Clearing(n, a, m, g, tau, i, r) && 0 <= r < n && r != i
    requires SameUpTo(n, 2 * n, m', EliminateMatrix(m, r, i, m(r, i)))
    ensures Clearing(n, a, m', AddColumn(g, r, i, m(r, i)), tau, i, r + 1)
  {
    var s := m(r, i);
    EliminateTracks(n, a, m, g, r, i, s);
    TracksCong(n, a, EliminateMatrix(m, r, i, s), m', AddColumn(g, r, i, s));
    assert s * m(i, i) == s;
    forall q, c | 0 <= q < n && 0 <= c < i ensures m'(q, c) == Delta(q, c) {
      assert m'(q, c) == EliminateMatrix(m, r, i, s)(q, c) && m(i, c) == 0.0;
    }
    forall q | 0 <= q < n ensures m'(q, i) == EliminateMatrix(m, r, i, s)(q, i) {}
  }

  /** Rows before k, other than i, with their multiple of row i subtracted. */
  function EliminatedRows(m: Matrix, i: int, k: int): Matrix {
    (r, c) => if r < k && r != i then m(r, c) - m(r, i) * m(i, c) else m(r, c)
  }

  lemma EliminatedNext(n: nat, was: Matrix, m: Matrix, m': Matrix, i: nat, r: nat)
    requires i < n && r < n && r != i
    requires SameUpTo(n, 2 * n, m, EliminatedRows(was, i, r))
    requires SameUpTo(n, 2 * n, m', EliminateMatrix(m, r, i, m(r, i)))
    ensures SameUpTo(n, 2 * n, m', EliminatedRows(was, i, r + 1))
  {
    forall q, c | 0 <= q < n && 0 <= c < 2 * n ensures m'(q, c) == EliminatedRows(was, i, r + 1)(q, c) {
      assert m'(q, c) == EliminateMatrix(m, r, i, m(r, i))(q, c);
      assert m(q, c) == EliminatedRows(was, i, r)(q, c) && m(i, c) == was(i, c) && m(r, i) == was(r, i);
    }
  }

  /** Row r of that loop. */
  method EliminateOne(aug: array<real>, n: nat, i: nat, r: nat, ghost was: Matrix,
      ghost a: Matrix, ghost g: Matrix, ghost tau: int -> int)
    returns (ghost g': Matrix)
    requires aug.Length == n * (2 * n) && i < n && r < n
    requires Clearing(n, a, View(aug[..], 2 * n), g, tau, i, r)
    requires SameUpTo(n, 2 * n, View(aug[..], 2 * n), EliminatedRows(was, i, r))
    modifies aug
    ensures Clearing(n, a, View(aug[..], 2 * n), g', tau, i, r + 1)
    ensures SameUpTo(n, 2 * n, View(aug[..], 2 * n), EliminatedRows(was, i, r + 1))
  {
    g' := g;
    if r != i {
      IndexInRange(n, 2 * n, r, i);
      var scale := aug[r * (2 * n) + i];
      ghost var m := View(aug[..], 2 * n);
      assert scale == m(r, i);
      EliminateRow(aug, n, 2 * n, r, i, scale);
      ghost var m' := View(aug[..], 2 * n);
      assert SameUpTo(n, 2 * n, m', EliminateMatrix(m, r, i, m(r, i)));
      EliminatedNext(n, was, m, m', i, r);
      ClearRow(n, a, m, m', g, tau, i, r);
      g' := AddColumn(g, r, i, scale);
    }
  }

  /** Clears column i in every row but i, one row at a time. */
  method EliminateColumn(aug: array<real>, n: nat, i: nat, ghost a: Matrix, ghost g: Matrix, ghost tau: int -> int)
    returns (ghost g': Matrix)
    requires aug.Length == n * (2 * n) && i < n
    requires Clearing(n, a, View(aug[..], 2 * n), g, tau, i, 0)
    modifies aug
    ensures Clearing(n, a, View(aug[..], 2 * n), g', tau, i, n)
    ensures SameUpTo(n, 2 * n, View(aug[..], 2 * n), EliminatedRows(View(old(aug[..]), 2 * n), i, n))
  {
    ghost var was := View(aug[..], 2 * n);
    g' := g;
    for r := 0 to n
      invariant Clearing(n, a, View(aug[..], 2 * n), g', tau, i, r)
      invariant SameUpTo(n, 2 * n, View(aug[..], 2 * n), EliminatedRows(was, i, r))
    {
      g' := EliminateOne(aug, n, i, r, was, a, g', tau);
    }
  }

  /** Everything known before column i is processed. */
  ghost predicate Progress(n: nat, a: Matrix, m: Matrix, g: Matrix, tau: int -> int, i: int) {
    Tracks(n, a, m, g) && UnitColumns(n, m, i) && UntouchedColumns(n, g, tau, i)
  }

  lemma SwapProgress(n: nat, a: Matrix, m: Matrix, m': Matrix, g: Matrix, tau: int -> int, i: int, p: int)
    returns (tau': int -> int)
    requires 0 <= i < p < n && Progress(n, a, m, g, tau, i)
    requires SameUpTo(n, 2 * n, m', SwapMatrix(m, i, p))
    ensures Progress(n, a, m', SwapColumns(g, i, p), tau', i)
  {
    SwapTracks(n, a, m, g, i, p);
    TracksCong(n, a, SwapMatrix(m, i, p), m', SwapColumns(g, i, p));
    tau' := x => if tau(x) == i then p else if tau(x) == p then i else tau(x);
  }

  lemma ScaleProgress(n: nat, a: Matrix, m: Matrix, m': Matrix, g: Matrix, tau: int -> int, i: int)
    requires 0 <= i < n && Progress(n, a, m, g, tau, i)
    requires m(i, i) != 0.0
    requires SameUpTo(n, 2 * n, m', ScaleMatrix(m, i, m(i, i)))
    ensures Clearing(n, a, m', ScaleColumn(g, i, m(i, i)), tau, i, 0)
  {
    var f := m(i, i);
    ScaleTracks(n, a, m, g, i, f);
    TracksCong(n, a, ScaleMatrix(m, i, f), m', ScaleColumn(g, i, f));
    SelfQuotient(f);
    assert 0.0 / f == 0.0;
    forall r, c | 0 <= r < n && 0 <= c < i ensures m'(r, c) == Delta(r, c) {
      assert ScaleMatrix(m, i, f)(r, c) == m'(r, c);
    }
    assert ScaleMatrix(m, i, f)(i, i) == m'(i, i);
  }

  /** Brings the pivot row into place. */
  method PlacePivot(aug: array<real>, n: nat, i: nat, pivot: nat, ghost a: Matrix, ghost g: Matrix,
      ghost tau: int -> int)
    returns (ghost g': Matrix, ghost tau': int -> int)
    requires aug.Length == n * (2 * n) && i <= pivot < n
    requires Progress(n, a, View(aug[..], 2 * n), g, tau, i)
    modifies aug
    ensures Progress(n, a, View(aug[..], 2 * n), g', tau', i)
    ensures SameUpTo(n, 2 * n, View(aug[..], 2 * n), SwapMatrix(View(old(aug[..]), 2 * n), i, pivot))
  {
    g', tau' := g, tau;
    if pivot != i {
      ghost var m := View(aug[..], 2 * n);
      SwapRows(aug, n, 2 * n, i, pivot);
      tau' := SwapProgress(n, a, m, View(aug[..], 2 * n), g, tau, i, pivot);
      g' := SwapColumns(g, i, pivot);
    }
  }

  lemma ScaledEliminated(n: nat, m: Matrix, scaled: Matrix, m': Matrix, i: nat)
    requires i < n && m(i, i) != 0.0
    requires SameUpTo(n, 2 * n, scaled, ScaleMatrix(m, i, m(i, i)))
    requires SameUpTo(n, 2 * n, m', EliminatedRows(scaled, i, n))
    ensures SameUpTo(n, 2 * n, m', ClearedMatrix(m, i))
  {
    forall r, c | 0 <= r < n && 0 <= c < 2 * n ensures m'(r, c) == ClearedMatrix(m, i)(r, c) {
      assert m'(r, c) == EliminatedRows(scaled, i, n)(r, c);
      assert scaled(r, c) == ScaleMatrix(m, i, m(i, i))(r, c) && scaled(i, c) == ScaleMatrix(m, i, m(i, i))(i, c);
      assert scaled(r, i) == ScaleMatrix(m, i, m(i, i))(r, i);
    }
  }

  lemma SwapCong(n: nat, m: Matrix, m': Matrix, i: nat, p: nat)
    requires i < n && p < n && SameUpTo(n, 2 * n, m, m')
    ensures SameUpTo(n, 2 * n, SwapMatrix(m, i, p), SwapMatrix(m', i, p))
  {
    forall r, c | 0 <= r < n && 0 <= c < 2 * n ensures SwapMatrix(m, i, p)(r, c) == SwapMatrix(m', i, p)(r, c) {
      var q := if r == i then p else if r == p then i else r;
      assert m(q, c) == m'(q, c);
    }
  }

  lemma ClearedCong(n: nat, m: Matrix, m': Matrix, i: nat)
    requires i < n && SameUpTo(n, 2 * n, m, m') && m(i, i) != 0.0
    ensures m'(i, i) != 0.0 && SameUpTo(n, 2 * n, ClearedMatrix(m, i), ClearedMatrix(m', i))
  {
    assert m(i, i) == m'(i, i);
    forall r, c | 0 <= r < n && 0 <= c < 2 * n ensures ClearedMatrix(m, i)(r, c) == ClearedMatrix(m', i)(r, c) {
      assert m(r, c) == m'(r, c) && m(i, c) == m'(i, c) && m(r, i) == m'(r, i);
    }
  }

  lemma SameTransitive(n: nat, x: Matrix, y: Matrix, z: Matrix)
    requires SameUpTo(n, 2 * n, x, y) && SameUpTo(n, 2 * n, y, z)
    ensures SameUpTo(n, 2 * n, x, z)
  {
    forall r, c | 0 <= r < n && 0 <= c < 2 * n ensures x(r, c) == z(r, c) { assert x(r, c) == y(r, c); }
  }

  /** The whole pass, on matrices that agree where it matters. */
  lemma PassDone(n: nat, b: Matrix, m: Matrix, swapped: Matrix, m': Matrix, i: nat, p: nat)
    requires i < n && SameUpTo(n, 2 * n, m, b) && p == BestRow(m, i, n) && i <= p < n
    requires SameUpTo(n, 2 * n, swapped, SwapMatrix(m, i, p)) && swapped(i, i) != 0.0
    requires SameUpTo(n, 2 * n, m', ClearedMatrix(swapped, i))
    ensures SameUpTo(n, 2 * n, m', PassOver(n, b, i))
  {
    assert p == BestRow(b, i, n) by { BestRowCong(m, b, i, n); }
    var s := SwapMatrix(b, i, p);
    SwapCong(n, m, b, i, p);
    SameTransitive(n, swapped, SwapMatrix(m, i, p), s);
    ClearedCong(n, swapped, s, i);
    SameTransitive(n, m', ClearedMatrix(swapped, i), ClearedMatrix(s, i));
    assert PassOver(n, b, i) == ClearedMatrix(s, i);
  }

  /** Scales the pivot row and clears the rest of its column. */
  method ClearColumn(aug: array<real>, n: nat, i: nat, ghost a: Matrix, ghost g: Matrix, ghost tau: int -> int)
    returns (ghost g': Matrix)
    requires aug.Length == n * (2 * n) && i < n
    requires Progress(n, a, View(aug[..], 2 * n), g, tau, i) && View(aug[..], 2 * n)(i, i) != 0.0
    modifies aug
    ensures Progress(n, a, View(aug[..], 2 * n), g', tau, i + 1)
    ensures SameUpTo(n, 2 * n, View(aug[..], 2 * n), ClearedMatrix(View(old(aug[..]), 2 * n), i))
  {
    ghost var m := View(aug[..], 2 * n);
    IndexInRange(n, 2 * n, i, i);
    var factor := aug[i * (2 * n) + i];
    ScaleRow(aug, n, 2 * n, i, factor);
    ghost var scaled := View(aug[..], 2 * n);
    ScaleProgress(n, a, m, scaled, g, tau, i);
    g' := EliminateColumn(aug, n, i, a, ScaleColumn(g, i, factor), tau);
    ScaledEliminated(n, m, scaled, View(aug[..], 2 * n), i);
  }

  lemma PivotTest(n: nat, b: Matrix, m: Matrix, i: nat, p: nat)
    requires i < n && SameUpTo(n, 2 * n, m, b) && p == BestRow(m, i, n) && i <= p < n
    ensures NoPivotIn(n, b, i) <==> Abs(m(p, i)) < 0.000001
    ensures NoPivotIn(n, b, i) ==> forall r | i <= r < n :: Abs(m(r, i)) < 0.000001
  {
    BestRowCong(m, m, i, n);
    forall r | i <= r < n ensures m(r, i) == b(r, i) {}
  }

  /**
   Column i of a buffer that holds b: pivot, swap, scale, eliminate; or report that no entry of the column is
   large enough.
   */
  method ReduceColumn(aug: array<real>, n: nat, i: nat, ghost b: Matrix, ghost a: Matrix, ghost g: Matrix,
      ghost tau: int -> int)
    returns (ok: bool, ghost g': Matrix, ghost tau': int -> int)
    requires aug.Length == n * (2 * n) && i < n
    requires Progress(n, a, View(aug[..], 2 * n), g, tau, i) && SameUpTo(n, 2 * n, View(aug[..], 2 * n), b)
    modifies aug
    ensures ok <==> !NoPivotIn(n, b, i)
    ensures ok ==> Progress(n, a, View(aug[..], 2 * n), g', tau', i + 1)
    ensures ok ==> SameUpTo(n, 2 * n, View(aug[..], 2 * n), PassOver(n, b, i))
    ensures !ok ==> exists v :: NearKernel(n, a, v)
  {
    g', tau' := g, tau;
    ghost var m := View(aug[..], 2 * n);
    var pivot := FindPivot(aug, n, 2 * n, i);
    IndexInRange(n, 2 * n, pivot, i);
    PivotTest(n, b, m, i, pivot);
    if Abs(aug[pivot * (2 * n) + i]) < PIVOT_THRESHOLD {
      NoPivot(n, a, View(aug[..], 2 * n), g, tau, i);
      return false, g', tau';
    }
    g', tau' := PlacePivot(aug, n, i, pivot, a, g, tau);
    ghost var swapped := View(aug[..], 2 * n);
    assert swapped(i, i) == SwapMatrix(m, i, pivot)(i, i);
    g' := ClearColumn(aug, n, i, a, g', tau');
    PassDone(n, b, m, swapped, View(aug[..], 2 * n), i, pivot);
    ok := true;
  }

  method CopyRow(aug: array<real>, buf: array<real>, n: nat, i: nat)
    requires aug.Length == n * (2 * n) && buf.Length == n * n && i < n && aug != buf
    modifies buf
    ensures forall j | 0 <= j < buf.Length ::
              buf[j] == if i * n <= j < i * n + n then View(aug[..], 2 * n)(i, n + (j - i * n)) else old(buf[j])
  {
    var b := i * n;
    RowsApart(n, i, n);
    assert b >= 0;
    for j := 0 to n
      invariant forall k | 0 <= k < buf.Length ::
                  buf[k] == if b <= k < b + j then View(aug[..], 2 * n)(i, n + (k - b)) else old(buf[k])
    {
      IndexInRange(n, 2 * n, i, n + j);
      buf[b + j] := aug[i * (2 * n) + n + j];
    }
  }

  method RightHalf(aug: array<real>, n: nat) returns (inv: seq<real>)
    requires aug.Length == n * (2 * n)
    ensures |inv| == n * n
    ensures SameUpTo(n, n, View(inv, n), Right(n, View(aug[..], 2 * n)))
  {
    var buf := new real[n * n](_ => 0.0);
    ghost var right := Right(n, View(aug[..], 2 * n));
    for i := 0 to n
      invariant SameUpTo(i, n, View(buf[..], n), right)
    {
      ghost var was := buf[..];
      CopyRow(aug, buf, n, i);
      RowsOfBuffer(was, buf[..], n, n, i, (r, c) => if r == i then right(i, c) else Cell(was, n, r, c));
      forall r, c | 0 <= r < i && 0 <= c < n ensures View(buf[..], n)(r, c) == right(r, c) {
        assert View(was, n)(r, c) == right(r, c);
      }
    }
    inv := buf[..];
  }

  lemma InversesCong(n: nat, a: Matrix, b: Matrix, b': Matrix)
    requires Inverses(n, a, b) && SameUpTo(n, n, b', b)
    ensures Inverses(n, a, b')
  {
    forall r, c | 0 <= r < n && 0 <= c < n
      ensures Mul(n, a, b')(r, c) == Identity()(r, c) && Mul(n, b', a)(r, c) == Identity()(r, c)
    {
      DotCong(n, a, b', a, b, r, r, c, c);
      DotCong(n, b', a, b, a, r, r, c, c);
      assert Mul(n, a, b)(r, c) == Identity()(r, c) && Mul(n, b, a)(r, c) == Identity()(r, c);
    }
  }

  /** All columns in turn, up to the first without a pivot; states[i] is what the buffer holds before column i. */
  method ReduceAll(aug: array<real>, n: nat, ghost states: seq<Matrix>, ghost a: Matrix)
    returns (ok: bool, ghost g: Matrix, ghost stop: nat)
    requires |states| == n + 1 && forall i | 0 <= i < n :: states[i + 1] == PassOver(n, states[i], i)
    requires aug.Length == n * (2 * n) && SameUpTo(n, 2 * n, View(aug[..], 2 * n), states[0])
    requires Tracks(n, a, View(aug[..], 2 * n), Identity())
    modifies aug
    ensures ok ==> Tracks(n, a, View(aug[..], 2 * n), g) && UnitColumns(n, View(aug[..], 2 * n), n)
    ensures ok ==> forall i: nat | i < n :: !NoPivotIn(n, states[i], i)
    ensures !ok ==> stop < n && NoPivotIn(n, states[stop], stop) && exists v :: NearKernel(n, a, v)
  {
    ghost var tau: int -> int := x => x;
    g, stop := Identity(), 0;
    for i := 0 to n
      invariant Progress(n, a, View(aug[..], 2 * n), g, tau, i)
      invariant SameUpTo(n, 2 * n, View(aug[..], 2 * n), states[i])
      invariant forall k: nat | k < i :: !NoPivotIn(n, states[k], k)
    {
      ok, g, tau := ReduceColumn(aug, n, i, states[i], a, g, tau);
      if !ok { return false, g, i; }
    }
    ok := true;
  }

  ghost function States(n: nat, m0: Matrix): (r: seq<Matrix>)
    ensures |r| == n + 1 && r[0] == m0
    ensures forall i | 0 <= i < n :: r[i] == Passed(n, m0, i) && r[i + 1] == PassOver(n, r[i], i)
  {
    seq(n + 1, (i: nat) requires i <= n => Passed(n, m0, i))
  }

  lemma DominantNotRefused(n: nat, a: Matrix)
    requires exists v :: NearKernel(n, a, v)
    ensures !DominantBy(n, a, 0.000001)
  {
    if DominantBy(n, a, 0.000001) {
      var v :| NearKernel(n, a, v);
      DominantHasNoNearKernel(n, a, v);
      assert false;
    }
  }

  /** Some pass finds no entry of at least a millionth. */
  ghost predicate Refused(n: nat, m0: Matrix) {
    exists i: nat | i < n :: NoPivotIn(n, Passed(n, m0, i), i)
  }

  lemma RefusedAt(n: nat, m0: Matrix, i: nat)
    requires i < n && NoPivotIn(n, Passed(n, m0, i), i)
    ensures Refused(n, m0)
  {}

  lemma NotRefused(n: nat, m0: Matrix, states: seq<Matrix>)
    requires |states| == n + 1 && forall i | 0 <= i < n :: states[i] == Passed(n, m0, i)
    requires forall i: nat | i < n :: !NoPivotIn(n, states[i], i)
    ensures !Refused(n, m0)
  {
    forall i: nat | i < n ensures !NoPivotIn(n, Passed(n, m0, i), i) { assert states[i] == Passed(n, m0, i); }
  }

  lemma RefusedOneByOne(matrix: seq<real>)
    requires |matrix| == 1
    ensures Refused(1, AugmentedMatrix(matrix, 1)) <==> -0.000001 < matrix[0] < 0.000001
  {
    var m0 := AugmentedMatrix(matrix, 1);
    assert Passed(1, m0, 0) == m0 && m0(0, 0) == matrix[0];
    assert NoPivotIn(1, m0, 0) <==> -0.000001 < matrix[0] < 0.000001;
    if -0.000001 < matrix[0] < 0.000001 { RefusedAt(1, m0, 0); }
  }

  /**
   The whole inversion.  It refuses exactly when some pass finds no entry of at least a millionth.  A
   result is a two-sided inverse; a refusal comes with a vector with a component 1 that the matrix sends
   within a millionth of 0.  A matrix diagonally dominant by a millionth is never refused.
   */
  method Invert(matrix: seq<real>, n: nat) returns (inv: Option<seq<real>>)
    requires |matrix| == n * n
    ensures inv.None? <==> Refused(n, AugmentedMatrix(matrix, n))
    ensures inv.Some? ==> |inv.value| == n * n && Inverses(n, View(matrix, n), View(inv.value, n))
    ensures inv.None? ==> exists v :: NearKernel(n, View(matrix, n), v)
    ensures DominantBy(n, View(matrix, n), 0.000001) ==> inv.Some?
    ensures n == 1 ==> (inv.Some? <==> matrix[0] >= 0.000001 || matrix[0] <= -0.000001)
  {
    ghost var a, m0 := View(matrix, n), AugmentedMatrix(matrix, n);
    var aug := Augment(matrix, n);
    AugmentedTracks(n, matrix, View(aug[..], 2 * n));
    if n == 1 { RefusedOneByOne(matrix); }
    ghost var states := States(n, m0);
    var ok;
    ghost var g, stop;
    ok, g, stop := ReduceAll(aug, n, states, a);
    if !ok {
      RefusedAt(n, m0, stop);
      DominantNotRefused(n, a);
      return None;
    }
    NotRefused(n, m0, states);
    FullyReduced(n, a, View(aug[..], 2 * n), g);
    var result := RightHalf(aug, n);
    InversesCong(n, a, Right(n, View(aug[..], 2 * n)), View(result, n));
    inv := Some(result);
  }
}
