/** Tensor obfuscation with a private invertible matrix (omni-net/src/crypto/obfuscator.rs). */
module Obfuscator {
  import opened Prelude
  import opened Matrices
  import opened Elimination

  /** rows by dim buffer `x` times the dim by dim buffer `m`. */
  function Product(x: seq<real>, rows: nat, dim: nat, m: seq<real>): seq<real> {
    Flat(rows, dim, Mul(dim, View(x, dim), View(m, dim)))
  }

  lemma InBuffers(x: seq<real>, dim: nat, m: seq<real>, r: nat, c: nat, k: nat)
    requires k < dim && c < dim && (r + 1) * dim <= |x| && |m| == dim * dim
    ensures 0 <= r * dim + k < |x| && 0 <= k * dim + c < |m|
  {
    assert (r + 1) * dim == r * dim + dim;
    IndexInRange(dim, dim, k, c);
  }

  /** The sum of x[r*dim + k] * m[k*dim + c] over the first n values of k. */
  function InnerProduct(x: seq<real>, dim: nat, m: seq<real>, r: nat, c: nat, n: nat): real
    requires n <= dim && c < dim && (r + 1) * dim <= |x| && |m| == dim * dim
  {
    if n == 0 then 0.0
    else
      InBuffers(x, dim, m, r, c, n - 1);
      InnerProduct(x, dim, m, r, c, n - 1) + x[r * dim + (n - 1)] * m[(n - 1) * dim + c]
  }

  lemma {:induction false} InnerIsDot(x: seq<real>, dim: nat, m: seq<real>, r: nat, c: nat, n: nat)
    requires n <= dim && c < dim && (r + 1) * dim <= |x| && |m| == dim * dim
    ensures InnerProduct(x, dim, m, r, c, n) == Dot(n, View(x, dim), View(m, dim), r, c)
  {
    if n > 0 {
      InBuffers(x, dim, m, r, c, n - 1);
      InnerIsDot(x, dim, m, r, c, n - 1);
    }
  }

  /** out is the row-major product, entry by entry. */
  ghost predicate IsProduct(x: seq<real>, rows: nat, dim: nat, m: seq<real>, out: seq<real>) {
    && |x| == |out| == rows * dim && |m| == dim * dim
    && forall r: nat, c: nat | r < rows && c < dim ::
         && (r + 1) * dim <= |x| && 0 <= r * dim + c < |out|
         && out[r * dim + c] == InnerProduct(x, dim, m, r, c, dim)
  }

  lemma RowInside(rows: nat, dim: nat, r: nat)
    requires r < rows
    ensures (r + 1) * dim <= rows * dim
  {
    RowsApart(dim, r, rows);
    assert (r + 1) * dim == r * dim + dim;
  }

  lemma ProductEntryIs(x: seq<real>, rows: nat, dim: nat, m: seq<real>, r: nat, c: nat)
    requires |x| == rows * dim && |m| == dim * dim && r < rows && c < dim
    ensures var out := Product(x, rows, dim, m);
            && (r + 1) * dim <= |x| && 0 <= r * dim + c < |out|
            && out[r * dim + c] == InnerProduct(x, dim, m, r, c, dim)
  {
    var product := Mul(dim, View(x, dim), View(m, dim));
    RowInside(rows, dim, r);
    FlatCell(rows, dim, product, r, c);
    CellIsEntry(Flat(rows, dim, product), rows, dim, r, c);
    InnerIsDot(x, dim, m, r, c, dim);
  }

  lemma ProductIs(x: seq<real>, rows: nat, dim: nat, m: seq<real>)
    requires |x| == rows * dim && |m| == dim * dim
    ensures IsProduct(x, rows, dim, m, Product(x, rows, dim, m))
  {
    FlatLength(rows, dim, Mul(dim, View(x, dim), View(m, dim)));
    var out := Product(x, rows, dim, m);
    forall r: nat, c: nat | r < rows && c < dim
      ensures (r + 1) * dim <= |x| && 0 <= r * dim + c < |out| && out[r * dim + c] == InnerProduct(x, dim, m, r, c, dim)
    {
      ProductEntryIs(x, rows, dim, m, r, c);
    }
  }

  lemma InnerNext(x: seq<real>, dim: nat, m: seq<real>, r: nat, c: nat, k: nat, u: real, v: real)
    requires k < dim && c < dim && (r + 1) * dim <= |x| && |m| == dim * dim
    requires 0 <= r * dim + k < |x| && 0 <= k * dim + c < |m| && u == x[r * dim + k] && v == m[k * dim + c]
    ensures InnerProduct(x, dim, m, r, c, k + 1) == InnerProduct(x, dim, m, r, c, k) + u * v
  {}

  method RowTimesColumn(x: seq<real>, rows: nat, dim: nat, m: seq<real>, r: nat, col: nat) returns (sum: real)
    requires |x| == rows * dim && |m| == dim * dim && r < rows && col < dim && (r + 1) * dim <= |x|
    ensures sum == InnerProduct(x, dim, m, r, col, dim)
  {
    sum := 0.0;
    var k := 0;
    while k < dim
      invariant k <= dim && sum == InnerProduct(x, dim, m, r, col, k)
    {
      InBuffers(x, dim, m, r, col, k);
      var u, v := x[r * dim + k], m[k * dim + col];
      InnerNext(x, dim, m, r, col, k, u, v);
      sum, k := sum + u * v, k + 1;
    }
  }

  method MultiplyRow(x: seq<real>, rows: nat, dim: nat, m: seq<real>, output: array<real>, r: nat)
    requires |x| == rows * dim && |m| == dim * dim && output.Length == rows * dim && r < rows
    modifies output
    ensures forall j | 0 <= j < output.Length ::
              output[j] == if r * dim <= j < r * dim + dim then Dot(dim, View(x, dim), View(m, dim), r, j - r * dim)
                           else old(output[j])
  {
    RowsApart(dim, r, rows);
    var b := r * dim;
    assert b >= 0;
    for col := 0 to dim
      invariant forall j | 0 <= j < output.Length ::
                  output[j] == if b <= j < b + col then Dot(dim, View(x, dim), View(m, dim), r, j - b)
                               else old(output[j])
    {
      RowInside(rows, dim, r);
      var sum := RowTimesColumn(x, rows, dim, m, r, col);
      InnerIsDot(x, dim, m, r, col, dim);
      output[b + col] := sum;
    }
  }

  method Multiply(x: seq<real>, rows: nat, dim: nat, m: seq<real>) returns (out: seq<real>)
    requires |x| == rows * dim && |m| == dim * dim
    ensures out == Product(x, rows, dim, m)
  {
    ghost var want := Mul(dim, View(x, dim), View(m, dim));
    var output := new real[rows * dim](_ => 0.0);
    for r := 0 to rows
      invariant SameUpTo(r, dim, View(output[..], dim), want)
    {
      RowsApart(dim, r, rows);
      ghost var was := output[..];
      MultiplyRow(x, rows, dim, m, output, r);
      RowsOfBuffer(was, output[..], rows, dim, r, (q, c) => if q == r then want(r, c) else Cell(was, dim, q, c));
      forall q, c | 0 <= q < r && 0 <= c < dim ensures View(output[..], dim)(q, c) == want(q, c) {
        assert View(was, dim)(q, c) == want(q, c);
      }
    }
    out := output[..];
    FlatUnique(out, rows, dim, want) by {
      forall r, c | 0 <= r < rows && 0 <= c < dim ensures Cell(out, dim, r, c) == want(r, c) {
        assert View(output[..], dim)(r, c) == want(r, c);
      }
    }
  }

  datatype ObfuscationMatrix = ObfuscationMatrix(dim: nat, data: seq<real>, inverse: seq<real>) {

    predicate Sized() { |data| == dim * dim && |inverse| == dim * dim }

    ghost predicate Valid() { Sized() && Inverses(dim, View(data, dim), View(inverse, dim)) }

    function Obfuscated(tensor: seq<real>, rows: nat): Result<seq<real>> {
      if |tensor| != rows * dim then Err(ShapeMismatch(rows * dim, |tensor|))
      else Ok(Product(tensor, rows, dim, data))
    }

    function Restored(tensor: seq<real>, rows: nat): Result<seq<real>> {
      if |tensor| != rows * dim then Err(ShapeMismatch(rows * dim, |tensor|))
      else Ok(Product(tensor, rows, dim, inverse))
    }

    method Obfuscate(tensor: seq<real>, rows: nat) returns (r: Result<seq<real>>)
      requires Sized()
      ensures r == Obfuscated(tensor, rows)
      ensures |tensor| != rows * dim <==> r.Err?
      ensures |tensor| != rows * dim ==> r == Err(ShapeMismatch(rows * dim, |tensor|))
      ensures |tensor| == rows * dim ==> IsProduct(tensor, rows, dim, data, r.value)
    {
      if |tensor| != rows * dim { return Err(ShapeMismatch(rows * dim, |tensor|)); }
      var out := Multiply(tensor, rows, dim, data);
      ProductIs(tensor, rows, dim, data);
      r := Ok(out);
    }

    method Restore(tensor: seq<real>, rows: nat) returns (r: Result<seq<real>>)
      requires Sized()
      ensures r == Restored(tensor, rows)
      ensures |tensor| != rows * dim <==> r.Err?
      ensures |tensor| != rows * dim ==> r == Err(ShapeMismatch(rows * dim, |tensor|))
      ensures |tensor| == rows * dim ==> IsProduct(tensor, rows, dim, inverse, r.value)
    {
      if |tensor| != rows * dim { return Err(ShapeMismatch(rows * dim, |tensor|)); }
      var out := Multiply(tensor, rows, dim, inverse);
      ProductIs(tensor, rows, dim, inverse);
      r := Ok(out);
    }
  }

  // ---- The round trip ----

  /** What a worker sends back after mixing the rows of a tensor with `mix`. */
  function RowMixed(mix: Matrix, outRows: nat, rows: nat, dim: nat, tensor: seq<real>): seq<real> {
    Flat(outRows, dim, Mul(rows, mix, View(tensor, dim)))
  }

  /**
   Restoring a worker's row-mixing result recovers the row mix of the original tensor, for every
   mix, every number of rows in and out, and every tensor of matching shape.
   */
  lemma RestoreRecoversRowMix(m: ObfuscationMatrix, mix: Matrix, outRows: nat, rows: nat, tensor: seq<real>)
    requires m.Sized() && SameUpTo(m.dim, m.dim, Mul(m.dim, View(m.data, m.dim), View(m.inverse, m.dim)), Identity())
    requires |tensor| == rows * m.dim
    ensures m.Obfuscated(tensor, rows).Ok?
    ensures m.Restored(RowMixed(mix, outRows, rows, m.dim, m.Obfuscated(tensor, rows).value), outRows)
            == Ok(RowMixed(mix, outRows, rows, m.dim, tensor))
  {
    var dim, x, p, q := m.dim, View(tensor, m.dim), View(m.data, m.dim), View(m.inverse, m.dim);
    var hidden := Product(tensor, rows, dim, m.data);
    var sent := RowMixed(mix, outRows, rows, dim, hidden);
    FlatLength(outRows, dim, Mul(rows, mix, View(hidden, dim)));
    forall r, c | 0 <= r < outRows && 0 <= c < dim
      ensures Mul(dim, View(sent, dim), q)(r, c) == Mul(rows, mix, x)(r, c)
    {
      // (mix*(x*p))*q == mix*((x*p)*q) == mix*(x*(p*q)) == mix*x
      forall k | 0 <= k < dim ensures View(sent, dim)(r, k) == Mul(rows, mix, Mul(dim, x, p))(r, k) {
        FlatCell(outRows, dim, Mul(rows, mix, View(hidden, dim)), r, k);
        forall j | 0 <= j < rows ensures View(hidden, dim)(j, k) == Mul(dim, x, p)(j, k) {
          FlatCell(rows, dim, Mul(dim, x, p), j, k);
        }
        DotCong(rows, mix, View(hidden, dim), mix, Mul(dim, x, p), r, r, k, k);
      }
      DotCong(dim, View(sent, dim), q, Mul(rows, mix, Mul(dim, x, p)), q, r, r, c, c);
      MulAssoc(rows, dim, mix, Mul(dim, x, p), q, r, c);
      forall j | 0 <= j < rows ensures Mul(dim, Mul(dim, x, p), q)(j, c) == x(j, c) {
        MulAssoc(dim, dim, x, p, q, j, c);
        forall k | 0 <= k < dim ensures Mul(dim, p, q)(k, c) == Delta(k, c) {
          assert Identity()(k, c) == Mul(dim, p, q)(k, c);
        }
        DotIdentityRight(dim, x, Mul(dim, p, q), j, c);
      }
      DotCong(rows, mix, Mul(dim, Mul(dim, x, p), q), mix, x, r, r, c, c);
    }
    FlatCong(outRows, dim, Mul(dim, View(sent, dim), q), Mul(rows, mix, x));
  }

  lemma RowMixByIdentity(rows: nat, dim: nat, tensor: seq<real>)
    requires |tensor| == rows * dim
    ensures RowMixed(Identity(), rows, rows, dim, tensor) == tensor
  {
    forall r, c | 0 <= r < rows && 0 <= c < dim
      ensures Cell(tensor, dim, r, c) == Mul(rows, Identity(), View(tensor, dim))(r, c)
    {
      DotIdentityLeft(rows, Identity(), View(tensor, dim), r, c);
    }
    FlatUnique(tensor, rows, dim, Mul(rows, Identity(), View(tensor, dim)));
  }

  ghost predicate RoundTrips(m: ObfuscationMatrix, rows: nat, tensor: seq<real>) {
    && m.Obfuscated(tensor, rows).Ok?
    && m.Restored(m.Obfuscated(tensor, rows).value, rows) == Ok(tensor)
  }

  /** Restore undoes Obfuscate on every tensor exactly when `data * inverse` is the identity. */
  lemma RoundTripIff(m: ObfuscationMatrix)
    requires m.Sized()
    ensures (forall rows: nat, tensor: seq<real> | |tensor| == rows * m.dim :: RoundTrips(m, rows, tensor))
            <==> SameUpTo(m.dim, m.dim, Mul(m.dim, View(m.data, m.dim), View(m.inverse, m.dim)), Identity())
  {
    var dim, p, q := m.dim, View(m.data, m.dim), View(m.inverse, m.dim);
    if SameUpTo(dim, dim, Mul(dim, p, q), Identity()) {
      forall rows: nat, tensor: seq<real> | |tensor| == rows * dim ensures RoundTrips(m, rows, tensor) {
        RestoreRecoversRowMix(m, Identity(), rows, rows, tensor);
        RowMixByIdentity(rows, dim, tensor);
        FlatLength(rows, dim, Mul(dim, View(tensor, dim), p));
        RowMixByIdentity(rows, dim, Product(tensor, rows, dim, m.data));
      }
    }
    if forall rows: nat, tensor: seq<real> | |tensor| == rows * dim :: RoundTrips(m, rows, tensor) {
      var unit := Flat(dim, dim, Identity());
      FlatLength(dim, dim, Identity());
      assert RoundTrips(m, dim, unit);
      var hidden := Product(unit, dim, dim, m.data);
      forall r, c | 0 <= r < dim && 0 <= c < dim ensures Mul(dim, p, q)(r, c) == Identity()(r, c) {
        forall k | 0 <= k < dim ensures View(hidden, dim)(r, k) == p(r, k) {
          FlatCell(dim, dim, Mul(dim, View(unit, dim), p), r, k);
          forall j | 0 <= j < dim ensures View(unit, dim)(r, j) == Delta(r, j) { FlatCell(dim, dim, Identity(), r, j); }
          DotIdentityLeft(dim, View(unit, dim), p, r, k);
        }
        DotCong(dim, View(hidden, dim), q, p, q, r, r, c, c);
        FlatCell(dim, dim, Mul(dim, View(hidden, dim), q), r, c);
        FlatCell(dim, dim, Identity(), r, c);
      }
    }
  }

  // ---- Generation ----

  /** The values of a draw from -5.0..5.0 after rounding. */
  ghost predicate IntegerDraw(x: real) { -5.0 <= x <= 5.0 && x == x.Floor as real }

  /** A matrix of the shape `generate` draws: integers in -5..5, with 15 added on the diagonal. */
  ghost predicate Drawable(n: nat, a: Matrix) {
    forall r, c | 0 <= r < n && 0 <= c < n ::
      IntegerDraw(a(r, c) - 15.0 * Delta(r, c))
  }

  function Drawn(draws: seq<int>, n: nat): Matrix {
    (r, c) => (if 0 <= r * n + c < |draws| then draws[r * n + c] as real else 0.0) + 15.0 * Delta(r, c)
  }

  method DrawRow(data: array<real>, dim: nat, draws: seq<int>, i: nat)
    requires data.Length == dim * dim == |draws| && i < dim
    modifies data
    ensures forall j | 0 <= j < data.Length ::
              data[j] == if i * dim <= j < i * dim + dim then Drawn(draws, dim)(i, j - i * dim) else old(data[j])
  {
    var b := i * dim;
    RowRanges(dim, dim, i, i);
    for j := 0 to dim
      invariant forall k | 0 <= k < data.Length ::
                  data[k] == if b <= k < b + j then draws[k] as real else old(data[k])
    {
      data[b + j] := draws[b + j] as real;
    }
    data[b + i] := data[b + i] + 15.0;
  }

  /** The random matrix with its diagonal offset. */
  method Draw(dim: nat, draws: seq<int>) returns (data: seq<real>)
    requires |draws| == dim * dim
    ensures |data| == dim * dim && data == Flat(dim, dim, Drawn(draws, dim))
    ensures SameUpTo(dim, dim, View(data, dim), Drawn(draws, dim))
  {
    var buf := new real[dim * dim](_ => 0.0);
    for i := 0 to dim
      invariant SameUpTo(i, dim, View(buf[..], dim), Drawn(draws, dim))
    {
      ghost var was := buf[..];
      DrawRow(buf, dim, draws, i);
      RowsOfBuffer(was, buf[..], dim, dim, i,
                   (r, c) => if r == i then Drawn(draws, dim)(i, c) else Cell(was, dim, r, c));
      forall r, c | 0 <= r < i && 0 <= c < dim ensures View(buf[..], dim)(r, c) == Drawn(draws, dim)(r, c) {
        assert View(was, dim)(r, c) == Drawn(draws, dim)(r, c);
      }
    }
    data := buf[..];
    forall r, c | 0 <= r < dim && 0 <= c < dim ensures Cell(data, dim, r, c) == Drawn(draws, dim)(r, c) {
      assert View(data, dim)(r, c) == Drawn(draws, dim)(r, c);
    }
    FlatUnique(data, dim, dim, Drawn(draws, dim));
  }

  lemma DrawnEntries(draws: seq<int>, dim: nat)
    requires |draws| == dim * dim
    ensures |Flat(dim, dim, Drawn(draws, dim))| == dim * dim
    ensures forall i | 0 <= i < dim * dim ::
              Flat(dim, dim, Drawn(draws, dim))[i] == draws[i] as real + if i / dim == i % dim then 15.0 else 0.0
  {
    FlatLength(dim, dim, Drawn(draws, dim));
    forall i | 0 <= i < dim * dim
      ensures Flat(dim, dim, Drawn(draws, dim))[i] == draws[i] as real + if i / dim == i % dim then 15.0 else 0.0
    {
      IndexSplit(dim, dim, i);
    }
  }

  /** For dim <= 2 every drawable matrix is strictly diagonally dominant, by at least 5. */
  lemma DrawableSmallDominant(n: nat, a: Matrix)
    requires n <= 2 && Drawable(n, a)
    ensures DominantBy(n, a, 5.0) && DominantBy(n, a, 0.000001)
  {
    forall r | 0 <= r < n ensures OffDiagonal(n, a, r) + 5.0 <= Abs(a(r, r)) {
      assert IntegerDraw(a(r, r) - 15.0);
      if n == 2 {
        var c := 1 - r;
        assert IntegerDraw(a(r, c) - 15.0 * Delta(r, c));
        assert OffDiagonal(2, a, r) == OffDiagonal(1, a, r) + if r == 1 then 0.0 else Abs(a(r, 1));
        assert OffDiagonal(1, a, r) == OffDiagonal(0, a, r) + if r == 0 then 0.0 else Abs(a(r, 0));
      } else {
        assert OffDiagonal(1, a, r) == OffDiagonal(0, a, r);
      }
    }
  }

  lemma DrawnDominant(draws: seq<int>, dim: nat, a: Matrix)
    requires |draws| == dim * dim && dim <= 2 && forall d | d in draws :: -5 <= d <= 5
    requires SameUpTo(dim, dim, a, Drawn(draws, dim))
    ensures DominantBy(dim, a, 0.000001)
  {
    forall r, c | 0 <= r < dim && 0 <= c < dim ensures IntegerDraw(a(r, c) - 15.0 * Delta(r, c)) {
      IndexInRange(dim, dim, r, c);
      assert draws[r * dim + c] in draws;
      assert a(r, c) == Drawn(draws, dim)(r, c);
    }
    DrawableSmallDominant(dim, a);
  }

  /**
   One attempt of the generation loop, with the rounded random draws as an argument.
   A result is always usable; up to dimension 2 the attempt always succeeds.
   */
  method GenerateAttempt(dim: nat, draws: seq<int>) returns (m: Option<ObfuscationMatrix>)
    requires |draws| == dim * dim && forall d | d in draws :: -5 <= d <= 5
    ensures m.Some? ==> m.value.dim == dim && m.value.Valid() && m.value.data == Flat(dim, dim, Drawn(draws, dim))
    ensures m.Some? ==> forall i | 0 <= i < dim * dim ::
              m.value.data[i] == draws[i] as real + if i / dim == i % dim then 15.0 else 0.0
    ensures m.None? ==> exists v :: NearKernel(dim, View(Flat(dim, dim, Drawn(draws, dim)), dim), v)
    ensures dim <= 2 ==> m.Some?
  {
    var data := Draw(dim, draws);
    var inverse := Invert(data, dim);
    if dim <= 2 { DrawnDominant(draws, dim, View(data, dim)); }
    DrawnEntries(draws, dim);
    m := if inverse.Some? then Some(ObfuscationMatrix(dim, data, inverse.value)) else None;
  }

  /** No matrix product undoes a matrix that kills a non-zero vector. */
  lemma KernelMeansSingular(n: nat, a: Matrix, v: Matrix, i: int, b: Matrix)
    requires 0 <= i < n && v(i, 0) != 0.0
    requires forall r | 0 <= r < n :: Dot(n, a, v, r, 0) == 0.0
    ensures !Inverses(n, a, b)
  {
    if Inverses(n, a, b) {
      MulAssoc(n, n, b, a, v, i, 0);
      forall k | 0 <= k < n ensures Mul(n, b, a)(i, k) == Delta(i, k) { assert Identity()(i, k) == Mul(n, b, a)(i, k); }
      DotIdentityLeft(n, Mul(n, b, a), v, i, 0);
      DotZero(n, b, Mul(n, a, v), i, 0);
      assert false;
    }
  }

  /** 10 on the diagonal and -5 elsewhere in the leading 3 by 3 block, 15 on the rest of the diagonal. */
  function SingularDraw(): Matrix {
    (r, c) => if r == c then (if r < 3 then 10.0 else 15.0) else if r < 3 && c < 3 then -5.0 else 0.0
  }

  function BlockOnes(): Matrix { (r, c) => if r < 3 then 1.0 else 0.0 }

  lemma {:induction false} SingularDrawKills(k: nat, r: int)
    requires k >= 3 && r >= 0
    ensures Dot(k, SingularDraw(), BlockOnes(), r, 0) == 0.0
  {
    var s, v := SingularDraw(), BlockOnes();
    if k == 3 {
      assert Dot(3, s, v, r, 0) == Dot(2, s, v, r, 0) + s(r, 2) * v(2, 0);
      assert Dot(2, s, v, r, 0) == Dot(1, s, v, r, 0) + s(r, 1) * v(1, 0);
      assert Dot(1, s, v, r, 0) == Dot(0, s, v, r, 0) + s(r, 0) * v(0, 0);
    } else {
      SingularDrawKills(k - 1, r);
    }
  }

  /**
   The source comments that the diagonal offset guarantees invertibility.  It does exactly up to
   dimension 2: from dimension 3 on some drawable matrix has no inverse at all.
   */
  lemma OffsetGuaranteesInvertibilityIff(n: nat)
    ensures (forall a: Matrix, v: Matrix | Drawable(n, a) :: !NearKernel(n, a, v)) <==> n <= 2
    ensures n >= 3 ==> Drawable(n, SingularDraw()) && forall b: Matrix :: !Inverses(n, SingularDraw(), b)
  {
    if n <= 2 {
      forall a: Matrix, v: Matrix | Drawable(n, a) ensures !NearKernel(n, a, v) {
        DrawableSmallDominant(n, a);
        DominantHasNoNearKernel(n, a, v);
      }
    } else {
      var s, v := SingularDraw(), BlockOnes();
      forall r, c | 0 <= r < n && 0 <= c < n
        ensures IntegerDraw(s(r, c) - 15.0 * Delta(r, c))
      {
        assert s(r, c) - 15.0 * Delta(r, c) == if r < 3 && c < 3 then -5.0 else 0.0;
      }
      forall r | 0 <= r < n ensures Dot(n, s, v, r, 0) == 0.0 { SingularDrawKills(n, r); }
      assert 0 <= 0 < n && v(0, 0) == 1.0;
      assert Drawable(n, s) && NearKernel(n, s, v);
      forall b: Matrix ensures !Inverses(n, s, b) { KernelMeansSingular(n, s, v, 0, b); }
    }
  }
}
