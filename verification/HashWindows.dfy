/**
 How far apart two byte strings of one length must differ for the hashes to collide: never within six
 consecutive bytes, and some pairs do within seven.
 */
module HashWindows {
  import opened Hashing

  // 2^64 and the prime p = 2^40 + 435 stay literals below: products with them are then linear.

  // ---- Six digits in base p ----

  /** The value of the digits e in base p. */
  function Poly(e: seq<int>): int {
    if e == [] then 0 else Poly(e[..|e| - 1]) * 0x100_0000_01b3 + e[|e| - 1]
  }

  ghost predicate Small(e: seq<int>) { forall i | 0 <= i < |e| :: -510 <= e[i] <= 510 }

  ghost predicate AllZero(e: seq<int>) { forall i | 0 <= i < |e| :: e[i] == 0 }

  predicate Digits(e1: int, e2: int, e3: int, e4: int, e5: int, e6: int) {
    && -510 <= e1 <= 510 && -510 <= e2 <= 510 && -510 <= e3 <= 510
    && -510 <= e4 <= 510 && -510 <= e5 <= 510 && -510 <= e6 <= 510
  }

  /** The value of six digits with the powers of p reduced modulo 2^64. */
  function Reduced(e1: int, e2: int, e3: int, e4: int, e5: int, e6: int): int {
    913917546033277539 * e1 - 6919028725695267695 * e2 + 624165263380053675 * e3 + 956575116354345 * e4
    + 1099511628211 * e5 + e6
  }

  lemma ReduceDigits(e1: int, e2: int, e3: int, e4: int, e5: int, e6: int, k: int) returns (m: int)
    requires ((((e1 * 0x100_0000_01b3 + e2) * 0x100_0000_01b3 + e3) * 0x100_0000_01b3 + e4)
              * 0x100_0000_01b3 + e5) * 0x100_0000_01b3 + e6 == k * 0x1_0000_0000_0000_0000
    ensures Reduced(e1, e2, e3, e4, e5, e6) == m * 0x1_0000_0000_0000_0000
  {
    m := k - (87112286104081500251499816140704456780207 * e1 + 79228162639644551293944856596 * e2
         + 72057594123452416 * e3 + 65536 * e4);
  }

  lemma SmallMultiple(x: int, m: int)
    requires x == m * 0x1_0000_0000_0000_0000 && -0x1_0000_0000_0000_0000 < x < 0x1_0000_0000_0000_0000
    ensures x == 0
  {}

  // Six linear forms with coefficients so small that they stay below 2^64 on small digits, each congruent to a
  // multiple of Reduced modulo 2^64.  Where Reduced is a multiple of 2^64 they therefore vanish, and they are
  // independent.

  function Form1(e1: int, e2: int, e3: int, e4: int, e5: int, e6: int): int {
    1150927258463695 * e1 - 6373219910648459 * e2 + 2407835907481655 * e3 + 7420022407511405 * e4
    + 521531150890079 * e5 - 2434785518635867 * e6
  }

  function Form2(e1: int, e2: int, e3: int, e4: int, e5: int, e6: int): int {
    186509903892582 * e1 + 42483182452482 * e2 + 1170023531474934 * e3 + 14335786797857074 * e4
    - 519009115876090 * e5 + 6236627015456738 * e6
  }

  function Form3(e1: int, e2: int, e3: int, e4: int, e5: int, e6: int): int {
    -4482579670404340 * e1 + 5247281785750212 * e2 + 1973864442898476 * e3 + 1178876700584228 * e4
    + 4977183758088268 * e5 - 5046382459189116 * e6
  }

  function Form4(e1: int, e2: int, e3: int, e4: int, e5: int, e6: int): int {
    -6302646686563376 * e1 + 1535281643037936 * e2 - 5452110822838448 * e3 + 559839306353520 * e4
    - 5164142811992368 * e5 - 4410605614494224 * e6
  }

  function Form5(e1: int, e2: int, e3: int, e4: int, e5: int, e6: int): int {
    -10753435092956894 * e1 - 1503490379027114 * e2 - 2833942984976814 * e3 + 84464088609638 * e4
    + 3509890893664258 * e5 + 8107455562062582 * e6
  }

  function Form6(e1: int, e2: int, e3: int, e4: int, e5: int, e6: int): int {
    10117495039556816 * e1 - 644476066068496 * e2 - 7704392091402160 * e3 + 4253954618046064 * e4
    + 3431600937981904 * e5 - 2518874921680656 * e6
  }

  lemma Form1Vanishes(e1: int, e2: int, e3: int, e4: int, e5: int, e6: int, m: int)
    requires Digits(e1, e2, e3, e4, e5, e6) && Reduced(e1, e2, e3, e4, e5, e6) == m * 0x1_0000_0000_0000_0000
    ensures Form1(e1, e2, e3, e4, e5, e6) == 0
  {
    SmallMultiple(Form1(e1, e2, e3, e4, e5, e6),
                  -2434785518635867 * m - (-120627965424013 * e1 + 913242514615789 * e2 - 82383565275305 * e3
                    - 126258337595 * e4 - 145124526 * e5));
  }

  lemma Form2Vanishes(e1: int, e2: int, e3: int, e4: int, e5: int, e6: int, m: int)
    requires Digits(e1, e2, e3, e4, e5, e6) && Reduced(e1, e2, e3, e4, e5, e6) == m * 0x1_0000_0000_0000_0000
    ensures Form2(e1, e2, e3, e4, e5, e6) == 0
  {
    SmallMultiple(Form2(e1, e2, e3, e4, e5, e6),
                  6236627015456738 * m - (308984763637200 * e1 - 2339242161053887 * e2 + 211022927848476 * e3
                    + 323406785996 * e4 + 371731938 * e5));
  }

  lemma Form3Vanishes(e1: int, e2: int, e3: int, e4: int, e5: int, e6: int, m: int)
    requires Digits(e1, e2, e3, e4, e5, e6) && Reduced(e1, e2, e3, e4, e5, e6) == m * 0x1_0000_0000_0000_0000
    ensures Form3(e1, e2, e3, e4, e5, e6) == 0
  {
    SmallMultiple(Form3(e1, e2, e3, e4, e5, e6),
                  -5046382459189116 * m - (-250015799808299 * e1 + 1892803687006038 * e2 - 170749733620761 * e3
                    - 261685415528 * e4 - 300787834 * e5));
  }

  lemma Form4Vanishes(e1: int, e2: int, e3: int, e4: int, e5: int, e6: int, m: int)
    requires Digits(e1, e2, e3, e4, e5, e6) && Reduced(e1, e2, e3, e4, e5, e6) == m * 0x1_0000_0000_0000_0000
    ensures Form4(e1, e2, e3, e4, e5, e6) == 0
  {
    SmallMultiple(Form4(e1, e2, e3, e4, e5, e6),
                  -4410605614494224 * m - (-218517145552210 * e1 + 1654335682354459 * e2 - 149237545879972 * e3
                    - 228716545425 * e4 - 262892581 * e5));
  }

  lemma Form5Vanishes(e1: int, e2: int, e3: int, e4: int, e5: int, e6: int, m: int)
    requires Digits(e1, e2, e3, e4, e5, e6) && Reduced(e1, e2, e3, e4, e5, e6) == m * 0x1_0000_0000_0000_0000
    ensures Form5(e1, e2, e3, e4, e5, e6) == 0
  {
    SmallMultiple(Form5(e1, e2, e3, e4, e5, e6),
                  8107455562062582 * m - (401672287653962 * e1 - 3040954962136486 * e2 + 274324407386829 * e3
                    + 420420547747 * e4 + 483242009 * e5));
  }

  lemma Form6Vanishes(e1: int, e2: int, e3: int, e4: int, e5: int, e6: int, m: int)
    requires Digits(e1, e2, e3, e4, e5, e6) && Reduced(e1, e2, e3, e4, e5, e6) == m * 0x1_0000_0000_0000_0000
    ensures Form6(e1, e2, e3, e4, e5, e6) == 0
  {
    SmallMultiple(Form6(e1, e2, e3, e4, e5, e6),
                  -2518874921680656 * m - (-124794054603275 * e1 + 944782877124676 * e2 - 85228819927790 * e3
                    - 130618881124 * e4 - 150136645 * e5));
  }

  lemma FormsIndependent(e1: int, e2: int, e3: int, e4: int, e5: int, e6: int)
    requires Form1(e1, e2, e3, e4, e5, e6) == 0
    requires Form2(e1, e2, e3, e4, e5, e6) == 0
    requires Form3(e1, e2, e3, e4, e5, e6) == 0
    requires Form4(e1, e2, e3, e4, e5, e6) == 0
    requires Form5(e1, e2, e3, e4, e5, e6) == 0
    requires Form6(e1, e2, e3, e4, e5, e6) == 0
    ensures e1 == 0 && e2 == 0 && e3 == 0 && e4 == 0 && e5 == 0 && e6 == 0
  {}

  lemma SixDigitsVanish(e1: int, e2: int, e3: int, e4: int, e5: int, e6: int, k: int)
    requires Digits(e1, e2, e3, e4, e5, e6)
    requires ((((e1 * 0x100_0000_01b3 + e2) * 0x100_0000_01b3 + e3) * 0x100_0000_01b3 + e4)
              * 0x100_0000_01b3 + e5) * 0x100_0000_01b3 + e6 == k * 0x1_0000_0000_0000_0000
    ensures e1 == 0 && e2 == 0 && e3 == 0 && e4 == 0 && e5 == 0 && e6 == 0
  {
    var m := ReduceDigits(e1, e2, e3, e4, e5, e6, k);
    Form1Vanishes(e1, e2, e3, e4, e5, e6, m);
    Form2Vanishes(e1, e2, e3, e4, e5, e6, m);
    Form3Vanishes(e1, e2, e3, e4, e5, e6, m);
    Form4Vanishes(e1, e2, e3, e4, e5, e6, m);
    Form5Vanishes(e1, e2, e3, e4, e5, e6, m);
    Form6Vanishes(e1, e2, e3, e4, e5, e6, m);
    FormsIndependent(e1, e2, e3, e4, e5, e6);
  }

  lemma PolyPrefix(e: seq<int>, n: nat)
    requires n < |e|
    ensures Poly(e[..n + 1]) == Poly(e[..n]) * 0x100_0000_01b3 + e[n]
  {
    assert e[..n + 1][..n] == e[..n];
  }

  lemma PolySix(e: seq<int>)
    requires |e| == 6
    ensures Poly(e) == ((((e[0] * 0x100_0000_01b3 + e[1]) * 0x100_0000_01b3 + e[2]) * 0x100_0000_01b3 + e[3])
                        * 0x100_0000_01b3 + e[4]) * 0x100_0000_01b3 + e[5]
  {
    PolyPrefix(e, 5);
    PolyPrefix(e, 4);
    PolyPrefix(e, 3);
    assert Poly(e[..3]) == (e[0] * 0x100_0000_01b3 + e[1]) * 0x100_0000_01b3 + e[2] by {
      assert e[..0] == [];
      PolyPrefix(e, 0);
      PolyPrefix(e, 1);
      PolyPrefix(e, 2);
    }
    assert e[..6] == e;
  }

  /** Up to six digits between -510 and 510 make a multiple of 2^64 only when all are zero. */
  lemma {:induction false} SmallDigitsVanish(e: seq<int>, k: int)
    requires |e| <= 6 && Small(e) && Poly(e) == k * 0x1_0000_0000_0000_0000
    ensures AllZero(e)
    decreases 6 - |e|
  {
    if |e| == 6 {
      PolySix(e);
      SixDigitsVanish(e[0], e[1], e[2], e[3], e[4], e[5], k);
    } else {
      var more := e + [0];
      assert more[..|e|] == e;
      SmallDigitsVanish(more, k * 0x100_0000_01b3);
      forall i | 0 <= i < |e| ensures e[i] == 0 { assert more[i] == 0; }
    }
  }

  // ---- hash_bytes ----

  lemma AddStepQuotient(h: Word, b: Byte) returns (q: int)
    ensures AddStep(h, b) == h * 0x100_0000_01b3 + b - q * 0x1_0000_0000_0000_0000
  {
    q := (h * 0x100_0000_01b3 + b) / 0x1_0000_0000_0000_0000;
  }

  /** The difference of two words after one step each, up to a multiple of 2^64. */
  lemma AddStepDifference(x: Word, y: Word, a: Byte, b: Byte, d: int, k: int) returns (k': int)
    requires x - y == d - k * 0x1_0000_0000_0000_0000
    ensures AddStep(x, a) - AddStep(y, b) == d * 0x100_0000_01b3 + (a - b) - k' * 0x1_0000_0000_0000_0000
  {
    var qx := AddStepQuotient(x, a);
    var qy := AddStepQuotient(y, b);
    k' := k * 0x100_0000_01b3 + qx - qy;
  }

  function Differences(a: seq<Byte>, b: seq<Byte>): seq<int>
    requires |a| == |b|
  {
    seq(|a|, i requires 0 <= i < |a| => a[i] as int - b[i] as int)
  }

  /** Up to a multiple of 2^64 the hashes differ by the number whose digits are the differences of the bytes. */
  lemma {:induction false} HashDifference(h: Word, a: seq<Byte>, b: seq<Byte>) returns (k: int)
    requires |a| == |b|
    ensures HashFrom(h, a) - HashFrom(h, b) == Poly(Differences(a, b)) - k * 0x1_0000_0000_0000_0000
    decreases |a|
  {
    if a == [] {
      k := 0;
    } else {
      var n := |a| - 1;
      var before := HashDifference(h, a[..n], b[..n]);
      assert Differences(a, b)[..n] == Differences(a[..n], b[..n]);
      k := AddStepDifference(HashFrom(h, a[..n]), HashFrom(h, b[..n]), a[n], b[n],
                             Poly(Differences(a[..n], b[..n])), before);
    }
  }

  /**
   Two byte strings of equal length that differ only inside a window of at most six consecutive bytes
   never have the same `hash_bytes`.
   */
  lemma HashBytesWindow(pre: seq<Byte>, a: seq<Byte>, b: seq<Byte>, post: seq<Byte>)
    requires |a| == |b| <= 6
    requires HashBytes(pre + a + post) == HashBytes(pre + b + post)
    ensures a == b
  {
    HashSuffix(OFFSET, pre + a, post);
    HashSuffix(OFFSET, pre + b, post);
    HashFromInjective(HashBytes(pre + a), HashBytes(pre + b), post);
    HashSuffix(OFFSET, pre, a);
    HashSuffix(OFFSET, pre, b);
    var k := HashDifference(HashBytes(pre), a, b);
    SmallDigitsVanish(Differences(a, b), k);
    forall i | 0 <= i < |a| ensures a[i] == b[i] { assert Differences(a, b)[i] == 0; }
  }

  const LEFT: seq<Byte> := [237, 150, 0, 0, 156, 6, 230]
  const RIGHT: seq<Byte> := [0, 0, 32, 49, 0, 0, 0]

  /** These seven digits make a multiple of 2^64. */
  lemma SevenDigits()
    ensures Poly(Differences(LEFT, RIGHT)) ==
            22700090252974092319453939704729564144891728539762716203 * 0x1_0000_0000_0000_0000
  {
    var e := Differences(LEFT, RIGHT);
    assert e == [237, 150, -32, -49, 156, 6, 230];
    PolySix(e[..6]);
  }

  /** Seven bytes do collide, after any prefix and before any suffix. */
  lemma SevenBytesCollide(pre: seq<Byte>, post: seq<Byte>)
    ensures LEFT != RIGHT && HashBytes(pre + LEFT + post) == HashBytes(pre + RIGHT + post)
  {
    assert LEFT[0] != RIGHT[0];
    var h := HashBytes(pre);
    var k := HashDifference(h, LEFT, RIGHT);
    SevenDigits();
    SmallMultiple(HashFrom(h, LEFT) - HashFrom(h, RIGHT),
                  22700090252974092319453939704729564144891728539762716203 - k);
    HashSuffix(OFFSET, pre, LEFT);
    HashSuffix(OFFSET, pre, RIGHT);
    HashSuffix(OFFSET, pre + LEFT, post);
    HashSuffix(OFFSET, pre + RIGHT, post);
  }

  ghost predicate CollideBytes(pre: seq<Byte>, a: seq<Byte>, b: seq<Byte>, post: seq<Byte>) {
    a != b && HashBytes(pre + a + post) == HashBytes(pre + b + post)
  }

  /** Changing n consecutive bytes always changes `hash_bytes` exactly when n is at most six. */
  lemma HashBytesWindowIff(n: nat)
    ensures (forall pre, a, b, post | |a| == |b| == n :: !CollideBytes(pre, a, b, post)) <==> n <= 6
  {
    if n <= 6 {
      forall pre, a, b, post | |a| == |b| == n ensures !CollideBytes(pre, a, b, post) {
        if HashBytes(pre + a + post) == HashBytes(pre + b + post) { HashBytesWindow(pre, a, b, post); }
      }
    } else {
      var pad: seq<Byte> := seq(n - 7, _ => 0);
      SevenBytesCollide([], pad);
      assert [] + LEFT + pad == [] + (LEFT + pad) + [] && [] + RIGHT + pad == [] + (RIGHT + pad) + [];
      assert (LEFT + pad)[0] != (RIGHT + pad)[0];
      assert CollideBytes([], LEFT + pad, RIGHT + pad, []);
    }
  }

  // ---- hash_ptx ----

  /** One exclusive-or step is multiplication plus an error of at most a byte. */
  lemma XorStepError(h: Word, b: Byte) returns (e: int, q: int)
    ensures -255 <= e <= 255
    ensures XorStep(h, b) == h * 0x100_0000_01b3 + e - q * 0x1_0000_0000_0000_0000
    ensures e == XorStep(h, b) - Scramble(h)
  {
    XorMovesLittle(Scramble(h), b);
    e := XorStep(h, b) - Scramble(h);
    q := h * 0x100_0000_01b3 / 0x1_0000_0000_0000_0000;
  }

  lemma XorStepDifference(x: Word, y: Word, a: Byte, b: Byte, d: int, k: int) returns (e: int, k': int)
    requires x - y == d - k * 0x1_0000_0000_0000_0000
    ensures -510 <= e <= 510
    ensures XorStep(x, a) - XorStep(y, b) == d * 0x100_0000_01b3 + e - k' * 0x1_0000_0000_0000_0000
    ensures x == y && e == 0 ==> a == b
  {
    var ex, qx := XorStepError(x, a);
    var ey, qy := XorStepError(y, b);
    e := ex - ey;
    k' := k * 0x100_0000_01b3 + qx - qy;
    if x == y && e == 0 {
      XorSymmetric(Scramble(x), a);
      XorSymmetric(Scramble(x), b);
      XorCancels(a, b, Scramble(x));
    }
  }

  /** Up to a multiple of 2^64 the hashes differ by a number of small digits, all zero only for equal strings. */
  lemma {:induction false} HashPtxDifference(h: Word, a: seq<Byte>, b: seq<Byte>) returns (e: seq<int>, k: int)
    requires |a| == |b|
    ensures |e| == |a| && Small(e) && (AllZero(e) ==> a == b)
    ensures HashPtxFrom(h, a) - HashPtxFrom(h, b) == Poly(e) - k * 0x1_0000_0000_0000_0000
    decreases |a|
  {
    if a == [] {
      e, k := [], 0;
    } else {
      var n := |a| - 1;
      var e0, k0 := HashPtxDifference(h, a[..n], b[..n]);
      var x, y := HashPtxFrom(h, a[..n]), HashPtxFrom(h, b[..n]);
      var d, k1 := XorStepDifference(x, y, a[n], b[n], Poly(e0), k0);
      e, k := e0 + [d], k1;
      assert e[..n] == e0;
      if AllZero(e) {
        assert AllZero(e0) by { forall i | 0 <= i < n ensures e0[i] == 0 { assert e[i] == 0; } }
        assert e[n] == 0;
        assert a == a[..n] + [a[n]] && b == b[..n] + [b[n]];
      }
    }
  }

  /** The same for `hash_ptx` under one id. */
  lemma HashPtxWindow(id: Word, pre: seq<Byte>, a: seq<Byte>, b: seq<Byte>, post: seq<Byte>)
    requires |a| == |b| <= 6
    requires HashPtx(pre + a + post, id) == HashPtx(pre + b + post, id)
    ensures a == b
  {
    var start := XorStep(OFFSET, id);
    HashPtxSuffix(start, pre + a, post);
    HashPtxSuffix(start, pre + b, post);
    HashPtxFromInjective(HashPtxFrom(start, pre + a), HashPtxFrom(start, pre + b), post);
    HashPtxSuffix(start, pre, a);
    HashPtxSuffix(start, pre, b);
    var e, k := HashPtxDifference(HashPtxFrom(start, pre), a, b);
    SmallDigitsVanish(e, k);
  }

  lemma {:induction false} XorZero(x: nat)
    ensures Xor(x, 0) == x
  {
    if x > 0 { XorZero(x / 2); }
  }

  lemma {:induction false} XorSelf(x: nat)
    ensures Xor(x, x) == 0
  {
    if x > 0 { XorSelf(x / 2); }
  }

  lemma HalfOfShifted(q: nat, l: nat, k: nat)
    requires k > 0
    ensures Pow2(k) * q == 2 * (Pow2(k - 1) * q)
    ensures (Pow2(k) * q + l) / 2 == Pow2(k - 1) * q + l / 2 && (Pow2(k) * q + l) % 2 == l % 2
  {
    assert Pow2(k) * q == 2 * (Pow2(k - 1) * q);
  }

  /** Bits above both low parts stay. */
  lemma {:induction false} XorLow(q: nat, l: nat, b: nat, k: nat)
    requires l < Pow2(k) && b < Pow2(k)
    ensures Pow2(k) * q >= 0 && Xor(Pow2(k) * q + l, b) == Pow2(k) * q + Xor(l, b)
  {
    if k == 0 {
      XorZero(q);
    } else {
      HalfOfShifted(q, l, k);
      XorLow(q, l / 2, b / 2, k - 1);
      XorUnfold(Pow2(k) * q + l, b);
      XorUnfold(l, b);
    }
  }

  lemma XorByteBound(l: Byte, x: Byte)
    ensures Xor(l, x) < 256
  {
    assert Pow2(8) == 256;
    XorBound(l, x, 8);
  }

  /** The byte that takes h to a word with the bits of Scramble(h) above the low byte. */
  lemma StepTo(h: Word, target: Word) returns (b: Byte)
    requires Scramble(h) / 256 == target / 256
    ensures XorStep(h, b) == target
  {
    var q, l, x := target / 256, Scramble(h) % 256, target % 256;
    XorByteBound(l, x);
    b := Xor(l, x);
    assert Pow2(8) == 256;
    XorLow(q, l, b, 8);
    XorSymmetric(l, x);
    XorSymmetric(l, b);
    XorTwice(x, l);
  }

  /** Words that follow each other this way are a run of the hash. */
  lemma {:induction false} BytesAlong(words: seq<Word>) returns (bytes: seq<Byte>)
    requires |words| >= 1 && forall i | 0 <= i && i + 1 < |words| :: Scramble(words[i]) / 256 == words[i + 1] / 256
    ensures |bytes| == |words| - 1 && HashPtxFrom(words[0], bytes) == words[|words| - 1]
    ensures |bytes| > 0 ==> XorStep(words[0], bytes[0]) == words[1]
    decreases |words|
  {
    if |words| == 1 {
      bytes := [];
    } else {
      var n := |words| - 1;
      assert words[n - 1 + 1] == words[n];
      var before := BytesAlong(words[..n]);
      var b := StepTo(words[n - 1], words[n]);
      bytes := before + [b];
      assert bytes[..n - 1] == before;
    }
  }

  // Two runs from 0, which is where hash_ptx starts under the id that cancels the offset basis.
  function LeftRun(): seq<Word> {
    [0x0, 0xee, 0xee00_0001_946a, 0x0328_d400_02af_301e,
     0x0d90_5a04_8fae_c2fa, 0xbb0b_efc0_25f5_4ece, 0xca97_3180_7fd4_e80d, 0x13d1_2a59_36c6_4e17]
  }

  function RightRun(): seq<Word> {
    [0x0, 0x1, 0x0100_0000_011d, 0x0002_d000_0001_e467,
     0x06ab_d700_0337_1b36, 0x8d19_8b05_76a3_3c26, 0x65a3_6048_975f_348f, 0x13d1_2a59_36c6_4e17]
  }

  lemma QuotientIs(x: int, q: int)
    requires 256 * q <= x < 256 * q + 256
    ensures x / 256 == q
  {}

  lemma SameAboveLowByte(h: Word, next: Word, k: int, q: nat)
    requires 256 * q <= h * 0x100_0000_01b3 - k * 0x1_0000_0000_0000_0000 < 256 * q + 256
    requires 256 * q <= next < 256 * q + 256 <= 0x1_0000_0000_0000_0000
    ensures Scramble(h) / 256 == next / 256
  {
    var r: Word := h * 0x100_0000_01b3 - k * 0x1_0000_0000_0000_0000;
    assert Scramble(h) == r by { RemainderIs(h * 0x100_0000_01b3, r, k); }
    QuotientIs(r, q);
    QuotientIs(next, q);
  }

  lemma LeftFollows()
    ensures forall i | 0 <= i && i + 1 < |LeftRun()| :: Scramble(LeftRun()[i]) / 256 == LeftRun()[i + 1] / 256
  {
    var w := LeftRun();
    SameAboveLowByte(w[0], w[1], 0, 0);
    SameAboveLowByte(w[1], w[2], 0, 1022202216852);
    SameAboveLowByte(w[2], w[3], 15597568, 889315928485680);
    SameAboveLowByte(w[3], w[4], 13569884168, 3817890995220162);
    SameAboveLowByte(w[4], w[5], 58256393382, 52648944993695054);
    SameAboveLowByte(w[5], w[6], 803359146339, 57024184160605416);
    SameAboveLowByte(w[6], w[7], 870119997912, 5578004373096014);
    forall i | 0 <= i && i + 1 < |w| ensures Scramble(w[i]) / 256 == w[i + 1] / 256 {
      assert i == 0 || i == 1 || i == 2 || i == 3 || i == 4 || i == 5 || i == 6;
    }
  }

  lemma RightFollows()
    ensures forall i | 0 <= i && i + 1 < |RightRun()| :: Scramble(RightRun()[i]) / 256 == RightRun()[i + 1] / 256
  {
    var w := RightRun();
    SameAboveLowByte(w[0], w[1], 0, 0);
    SameAboveLowByte(w[1], w[2], 0, 4294967297);
    SameAboveLowByte(w[2], w[3], 65536, 3092376453604);
    SameAboveLowByte(w[3], w[4], 47185920, 1877789766792987);
    SameAboveLowByte(w[4], w[5], 28652797966, 39716056599012156);
    SameAboveLowByte(w[5], w[6], 606018930278, 28608606577844020);
    SameAboveLowByte(w[6], w[7], 436532693316, 5578004373096014);
    forall i | 0 <= i && i + 1 < |w| ensures Scramble(w[i]) / 256 == w[i + 1] / 256 {
      assert i == 0 || i == 1 || i == 2 || i == 3 || i == 4 || i == 5 || i == 6;
    }
  }

  lemma CancellingId(h: Word) returns (id: Word)
    ensures XorStep(h, id) == 0
  {
    id := Scramble(h);
    XorSelf(id);
  }

  lemma RunsMeet() returns (a: seq<Byte>, b: seq<Byte>)
    ensures |a| == |b| == 7 && a[0] != b[0] && HashPtxFrom(0, a) == HashPtxFrom(0, b)
  {
    LeftFollows();
    RightFollows();
    a := BytesAlong(LeftRun());
    b := BytesAlong(RightRun());
    assert XorStep(0, a[0]) == 0xee && XorStep(0, b[0]) == 1;
  }

  /** Seven bytes collide under some id, before any suffix. */
  lemma SevenPtxBytesCollide() returns (id: Word, a: seq<Byte>, b: seq<Byte>)
    ensures |a| == |b| == 7 && a[0] != b[0]
    ensures forall post :: HashPtx(a + post, id) == HashPtx(b + post, id)
  {
    id := CancellingId(OFFSET);
    a, b := RunsMeet();
    forall post ensures HashPtx(a + post, id) == HashPtx(b + post, id) {
      HashPtxSuffix(0, a, post);
      HashPtxSuffix(0, b, post);
    }
  }

  ghost predicate CollidePtx(id: Word, pre: seq<Byte>, a: seq<Byte>, b: seq<Byte>, post: seq<Byte>) {
    a != b && HashPtx(pre + a + post, id) == HashPtx(pre + b + post, id)
  }

  lemma LongPtxWindowCollides(n: nat) returns (id: Word, a: seq<Byte>, b: seq<Byte>)
    requires n > 6
    ensures |a| == |b| == n && CollidePtx(id, [], a, b, [])
  {
    var id0, x, y := SevenPtxBytesCollide();
    var pad: seq<Byte> := seq(n - 7, _ => 0);
    id, a, b := id0, x + pad, y + pad;
    assert [] + a + [] == a && [] + b + [] == b;
    assert a[0] != b[0];
  }

  /** Under every id, changing n consecutive bytes always changes `hash_ptx` exactly when n is at most six. */
  lemma HashPtxWindowIff(n: nat)
    ensures (forall id, pre, a, b, post | |a| == |b| == n :: !CollidePtx(id, pre, a, b, post)) <==> n <= 6
  {
    if n <= 6 {
      forall id, pre, a, b, post | |a| == |b| == n ensures !CollidePtx(id, pre, a, b, post) {
        if HashPtx(pre + a + post, id) == HashPtx(pre + b + post, id) { HashPtxWindow(id, pre, a, b, post); }
      }
    } else {
      var id, a, b := LongPtxWindowCollides(n);
    }
  }
}
