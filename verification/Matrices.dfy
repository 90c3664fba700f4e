/** Real matrices as index functions, their products, and flat row-major buffers. */
module Matrices {

  type Matrix = (int, int) -> real

  function Abs(x: real): real { if x < 0.0 then -x else x }

  function Delta(r: int, c: int): real { if r == c then 1.0 else 0.0 }

  /** Entry (r, c) of the product of `a` and `b` over an inner dimension of n. */
  function Dot(n: nat, a: Matrix, b: Matrix, r: int, c: int): real {
    if n == 0 then 0.0 else Dot(n - 1, a, b, r, c) + a(r, n - 1) * b(n - 1, c)
  }

  function Mul(n: nat, a: Matrix, b: Matrix): Matrix {
    (r, c) => Dot(n, a, b, r, c)
  }

  function Identity(): Matrix { (r, c) => Delta(r, c) }

  ghost predicate SameUpTo(rows: nat, cols: nat, a: Matrix, b: Matrix) {
    forall r, c | 0 <= r < rows && 0 <= c < cols :: a(r, c) == b(r, c)
  }

  /** `b` is a two-sided inverse of the n by n matrix `a`. */
  ghost predicate Inverses(n: nat, a: Matrix, b: Matrix) {
    && SameUpTo(n, n, Mul(n, a, b), Identity())
    && SameUpTo(n, n, Mul(n, b, a), Identity())
  }

  // ---- Algebra of Dot ----

  /** A dot product only looks at one row on the left and one column on the right. */
  lemma {:induction false} DotCong(n: nat, a: Matrix, b: Matrix, a': Matrix, b': Matrix, r: int, r': int, c: int,
      c': int)
    requires forall k | 0 <= k < n :: a(r, k) == a'(r', k)
    requires forall k | 0 <= k < n :: b(k, c) == b'(k, c')
    ensures Dot(n, a, b, r, c) == Dot(n, a', b', r', c')
  {
    if n > 0 { DotCong(n - 1, a, b, a', b', r, r', c, c'); }
  }

  /** One more term. */
  lemma DotNext(n: nat, a: Matrix, b: Matrix, r: int, c: int, sum: real, x: real, y: real)
    requires sum == Dot(n, a, b, r, c) && x == a(r, n) && y == b(n, c)
    ensures sum + x * y == Dot(n + 1, a, b, r, c)
  {}

  lemma {:induction false} DotZero(n: nat, a: Matrix, b: Matrix, r: int, c: int)
    requires forall k | 0 <= k < n :: a(r, k) == 0.0 || b(k, c) == 0.0
    ensures Dot(n, a, b, r, c) == 0.0
  {
    if n > 0 { DotZero(n - 1, a, b, r, c); }
  }

  /** Only index p contributes. */
  lemma {:induction false} DotSingle(n: nat, a: Matrix, b: Matrix, r: int, c: int, p: int)
    requires 0 <= p < n
    requires forall k | 0 <= k < n && k != p :: a(r, k) == 0.0 || b(k, c) == 0.0
    ensures Dot(n, a, b, r, c) == a(r, p) * b(p, c)
  {
    if p == n - 1 {
      DotZero(n - 1, a, b, r, c);
    } else {
      DotSingle(n - 1, a, b, r, c, p);
    }
  }

  /** A left row that is a linear combination of two rows. */
  lemma {:induction false} DotRowLinear(n: nat, a': Matrix, a: Matrix, b: Matrix, r: int, x: real, p: int, y: real,
      q: int, c: int)
    requires forall k | 0 <= k < n :: a'(r, k) == x * a(p, k) + y * a(q, k)
    ensures Dot(n, a', b, r, c) == x * Dot(n, a, b, p, c) + y * Dot(n, a, b, q, c)
  {
    if n > 0 {
      DotRowLinear(n - 1, a', a, b, r, x, p, y, q, c);
      var k := n - 1;
      assert a'(r, k) * b(k, c) == x * (a(p, k) * b(k, c)) + y * (a(q, k) * b(k, c));
    }
  }

  ghost function Total(n: nat, f: int -> real): real {
    if n == 0 then 0.0 else Total(n - 1, f) + f(n - 1)
  }

  ghost function Terms(a: Matrix, b: Matrix, r: int, c: int): int -> real { k => a(r, k) * b(k, c) }

  lemma {:induction false} DotIsTotal(n: nat, a: Matrix, b: Matrix, r: int, c: int)
    ensures Dot(n, a, b, r, c) == Total(n, Terms(a, b, r, c))
  {
    if n > 0 { DotIsTotal(n - 1, a, b, r, c); }
  }

  /** How a total changes when only the terms at i and p change. */
  lemma {:induction false} TotalTwoTerms(n: nat, f: int -> real, f': int -> real, i: int, p: int)
    requires i != p
    requires forall k | 0 <= k < n && k != i && k != p :: f(k) == f'(k)
    ensures Total(n, f') == Total(n, f) + (if 0 <= i < n then f'(i) - f(i) else 0.0)
            + (if 0 <= p < n then f'(p) - f(p) else 0.0)
  {
    if n > 0 { TotalTwoTerms(n - 1, f, f', i, p); }
  }

  /** Changing the terms at i and p but not their sum changes nothing. */
  lemma DotExchange(n: nat, a: Matrix, b: Matrix, a': Matrix, b': Matrix, r: int, c: int, i: int, p: int)
    requires 0 <= i < n && 0 <= p < n && i != p
    requires forall k | 0 <= k < n && k != i && k != p :: a(r, k) * b(k, c) == a'(r, k) * b'(k, c)
    requires a'(r, i) * b'(i, c) + a'(r, p) * b'(p, c) == a(r, i) * b(i, c) + a(r, p) * b(p, c)
    ensures Dot(n, a', b', r, c) == Dot(n, a, b, r, c)
  {
    DotIsTotal(n, a, b, r, c);
    DotIsTotal(n, a', b', r, c);
    TotalTwoTerms(n, Terms(a, b, r, c), Terms(a', b', r, c), i, p);
  }

  /** Changing no term changes nothing. */
  lemma {:induction false} DotSameTerms(n: nat, a: Matrix, b: Matrix, a': Matrix, b': Matrix, r: int, c: int)
    requires forall k | 0 <= k < n :: a(r, k) * b(k, c) == a'(r, k) * b'(k, c)
    ensures Dot(n, a', b', r, c) == Dot(n, a, b, r, c)
  {
    if n > 0 { DotSameTerms(n - 1, a, b, a', b', r, c); }
  }

  lemma {:induction false} DotExtend(n: nat, m: nat, a: Matrix, b: Matrix, c: Matrix, r: int, q: int)
    ensures Dot(n, a, Mul(m + 1, b, c), r, q) == Dot(n, a, Mul(m, b, c), r, q) + Dot(n, a, b, r, m) * c(m, q)
  {
    if n > 0 {
      DotExtend(n - 1, m, a, b, c, r, q);
      var k := n - 1;
      assert Mul(m + 1, b, c)(k, q) == Mul(m, b, c)(k, q) + b(k, m) * c(m, q);
      assert a(r, k) * Mul(m + 1, b, c)(k, q) == a(r, k) * Mul(m, b, c)(k, q) + a(r, k) * b(k, m) * c(m, q);
    }
  }

  /** Associativity of the matrix product, entry by entry, for any inner dimensions. */
  lemma {:induction false} MulAssoc(n: nat, m: nat, a: Matrix, b: Matrix, c: Matrix, r: int, q: int)
    ensures Dot(m, Mul(n, a, b), c, r, q) == Dot(n, a, Mul(m, b, c), r, q)
  {
    if m == 0 {
      DotZero(n, a, Mul(0, b, c), r, q);
    } else {
      MulAssoc(n, m - 1, a, b, c, r, q);
      DotExtend(n, m - 1, a, b, c, r, q);
    }
  }

  lemma DotIdentityLeft(n: nat, e: Matrix, b: Matrix, r: int, c: int)
    requires 0 <= r < n
    requires forall k | 0 <= k < n :: e(r, k) == Delta(r, k)
    ensures Dot(n, e, b, r, c) == b(r, c)
  {
    DotSingle(n, e, b, r, c, r);
  }

  lemma DotIdentityRight(n: nat, a: Matrix, e: Matrix, r: int, c: int)
    requires 0 <= c < n
    requires forall k | 0 <= k < n :: e(k, c) == Delta(k, c)
    ensures Dot(n, a, e, r, c) == a(r, c)
  {
    DotSingle(n, a, e, r, c, c);
  }

  /** A left inverse of an n by n matrix that itself has a left inverse is two-sided. */
  lemma LeftInverseIsTwoSided(n: nat, a: Matrix, e: Matrix, g: Matrix)
    requires SameUpTo(n, n, Mul(n, e, a), Identity())
    requires SameUpTo(n, n, Mul(n, g, e), Identity())
    ensures Inverses(n, a, e)
  {
    forall r, c | 0 <= r < n && 0 <= c < n
      ensures g(r, c) == a(r, c)
    {
      MulAssoc(n, n, g, e, a, r, c);
      DotIdentityLeft(n, Mul(n, g, e), a, r, c) by {
        forall k | 0 <= k < n ensures Mul(n, g, e)(r, k) == Delta(r, k) { assert Identity()(r, k) == Delta(r, k); }
      }
      DotIdentityRight(n, g, Mul(n, e, a), r, c) by {
        forall k | 0 <= k < n ensures Mul(n, e, a)(k, c) == Delta(k, c) { assert Identity()(k, c) == Delta(k, c); }
      }
    }
    forall r, c | 0 <= r < n && 0 <= c < n
      ensures Mul(n, a, e)(r, c) == Identity()(r, c)
    {
      DotCong(n, a, e, g, e, r, r, c, c);
      assert Mul(n, g, e)(r, c) == Identity()(r, c);
    }
  }

  // ---- Flat row-major buffers ----

  /** Entry (r, c) of a row-major buffer of width w; 0 outside the buffer. */
  function Cell(s: seq<real>, w: int, r: int, c: int): real {
    if 0 <= r && 0 <= c < w && 0 <= r * w + c < |s| then s[r * w + c] else 0.0
  }

  function View(s: seq<real>, w: int): Matrix {
    (r, c) => Cell(s, w, r, c)
  }

  /** The row-major buffer of a rows by cols matrix. */
  function Flat(rows: nat, cols: nat, m: Matrix): seq<real> {
    if cols == 0 then [] else seq(rows * cols, (k: nat) => m(k / cols, k % cols))
  }

  lemma RowsApart(w: nat, r: int, q: int)
    requires r < q
    ensures r * w + w <= q * w
  {
    var d := q - r;
    assert q * w == r * w + d * w;
    assert d * w >= w by { assert (d - 1) * w >= 0; }
  }

  lemma IndexInRange(rows: nat, w: nat, r: int, c: int)
    requires 0 <= r < rows && 0 <= c < w
    ensures 0 <= r * w + c < rows * w
  {
    RowsApart(w, r, rows);
    assert r * w >= 0;
  }

  lemma DivModOfIndex(w: nat, r: int, c: int)
    requires 0 <= c < w && 0 <= r
    ensures r * w + c >= 0
    ensures (r * w + c) / w == r && (r * w + c) % w == c
  {
    var q, m := (r * w + c) / w, (r * w + c) % w;
    assert r * w >= 0;
    assert q * w + m == r * w + c;
    if q < r { RowsApart(w, q, r); } else if r < q { RowsApart(w, r, q); }
  }

  lemma IndexSplit(rows: nat, w: nat, k: int)
    requires 0 <= k < rows * w
    ensures w > 0 && 0 <= k / w < rows && 0 <= k % w < w && k == (k / w) * w + k % w
  {
    assert w == 0 ==> rows * w == 0;
    var q := k / w;
    assert k == q * w + k % w;
    if q >= rows { if q > rows { RowsApart(w, rows, q); } }
    if q < 0 { RowsApart(w, q, 0); }
  }

  lemma FlatCell(rows: nat, cols: nat, m: Matrix, r: int, c: int)
    requires 0 <= r < rows && 0 <= c < cols
    ensures |Flat(rows, cols, m)| == rows * cols
    ensures Cell(Flat(rows, cols, m), cols, r, c) == m(r, c)
  {
    IndexInRange(rows, cols, r, c);
    DivModOfIndex(cols, r, c);
  }

  lemma FlatLength(rows: nat, cols: nat, m: Matrix)
    ensures |Flat(rows, cols, m)| == rows * cols
  {
    if cols == 0 { assert rows * cols == 0; }
  }

  /** A cell is the row-major entry. */
  lemma CellIsEntry(s: seq<real>, rows: nat, w: nat, r: nat, c: nat)
    requires |s| == rows * w && r < rows && c < w
    ensures 0 <= r * w + c < |s| && Cell(s, w, r, c) == s[r * w + c]
  {
    IndexInRange(rows, w, r, c);
  }

  /** A buffer of the right length is determined by its cells. */
  lemma FlatUnique(s: seq<real>, rows: nat, cols: nat, m: Matrix)
    requires |s| == rows * cols
    requires forall r, c | 0 <= r < rows && 0 <= c < cols :: Cell(s, cols, r, c) == m(r, c)
    ensures s == Flat(rows, cols, m)
  {
    FlatLength(rows, cols, m);
    forall k | 0 <= k < |s| ensures s[k] == Flat(rows, cols, m)[k] {
      IndexSplit(rows, cols, k);
      assert Cell(s, cols, k / cols, k % cols) == s[k];
    }
  }

  lemma FlatCong(rows: nat, cols: nat, m: Matrix, m': Matrix)
    requires SameUpTo(rows, cols, m, m')
    ensures Flat(rows, cols, m) == Flat(rows, cols, m')
  {
    FlatLength(rows, cols, m);
    forall r, c | 0 <= r < rows && 0 <= c < cols ensures Cell(Flat(rows, cols, m), cols, r, c) == m'(r, c) {
      FlatCell(rows, cols, m, r, c);
    }
    FlatUnique(Flat(rows, cols, m), rows, cols, m');
  }
}
