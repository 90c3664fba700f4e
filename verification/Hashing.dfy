/**
 The two 64-bit hashes: `hash_bytes` (omni-core/src/mlir/dialect.rs:498-502) and `hash_ptx`
 (omni-core/src/jit.rs:95-102), and inputs on which they cannot collide.
 */
module Hashing {

  type Byte = b: int | 0 <= b < 256
  type Word = w: int | 0 <= w < 0x1_0000_0000_0000_0000

  // 2^64 and the prime 2^40 + 435 stay literals below: products with them are then linear.
  const OFFSET: Word := 0xcbf29ce484222325

  /** Bitwise exclusive or of naturals. */
  function Xor(x: nat, y: nat): nat
    decreases x + y
  {
    if x == 0 && y == 0 then 0 else (x % 2 + y % 2) % 2 + 2 * Xor(x / 2, y / 2)
  }

  function Scramble(h: Word): Word { h * 0x0000_0100_0000_01b3 % 0x1_0000_0000_0000_0000 }

  function AddStep(h: Word, b: Byte): Word { (h * 0x0000_0100_0000_01b3 + b) % 0x1_0000_0000_0000_0000 }

  /** The fold of `hash_bytes` from a given accumulator. */
  function HashFrom(h: Word, bytes: seq<Byte>): Word {
    if bytes == [] then h else AddStep(HashFrom(h, bytes[..|bytes| - 1]), bytes[|bytes| - 1])
  }

  function HashBytes(bytes: seq<Byte>): Word { HashFrom(OFFSET, bytes) }

  // ---- Exclusive or ----

  function Pow2(k: nat): nat { if k == 0 then 1 else 2 * Pow2(k - 1) }

  lemma {:induction false} Pow2Sum(j: nat, k: nat)
    ensures Pow2(j + k) == Pow2(j) * Pow2(k)
  {
    if j > 0 {
      Pow2Sum(j - 1, k);
      assert Pow2(j + k) == 2 * Pow2(j - 1 + k);
    }
  }

  lemma WordBound()
    ensures Pow2(64) == 0x1_0000_0000_0000_0000
  {
    assert Pow2(2) == 4;
    Pow2Sum(2, 2);
    Pow2Sum(4, 4);
    Pow2Sum(8, 8);
    Pow2Sum(16, 16);
    Pow2Sum(32, 32);
  }

  lemma {:induction false} XorBound(x: nat, y: nat, k: nat)
    requires x < Pow2(k) && y < Pow2(k)
    ensures Xor(x, y) < Pow2(k)
  {
    if k > 0 { XorBound(x / 2, y / 2, k - 1); }
  }

  lemma XorIsWord(x: Word, y: Word)
    ensures Xor(x, y) < 0x1_0000_0000_0000_0000
  {
    WordBound();
    XorBound(x, y, 64);
  }

  function XorStep(h: Word, b: Word): Word {
    XorIsWord(Scramble(h), b);
    Xor(Scramble(h), b)
  }

  function HashPtxFrom(h: Word, bytes: seq<Byte>): Word {
    if bytes == [] then h else XorStep(HashPtxFrom(h, bytes[..|bytes| - 1]), bytes[|bytes| - 1])
  }

  function HashPtx(bytes: seq<Byte>, kernelId: Word): Word { HashPtxFrom(XorStep(OFFSET, kernelId), bytes) }

  method ComputeHashPtx(bytes: seq<Byte>, kernelId: Word) returns (hash: Word)
    ensures hash == HashPtx(bytes, kernelId)
  {
    hash := OFFSET;
    hash := XorStep(hash, kernelId);
    for i := 0 to |bytes|
      invariant hash == HashPtxFrom(XorStep(OFFSET, kernelId), bytes[..i])
    {
      assert bytes[..i + 1][..i] == bytes[..i];
      hash := XorStep(hash, bytes[i]);
    }
    assert bytes[..|bytes|] == bytes;
  }

  lemma {:induction false} XorSymmetric(x: nat, y: nat)
    ensures Xor(x, y) == Xor(y, x)
    decreases x + y
  {
    if !(x == 0 && y == 0) { XorSymmetric(x / 2, y / 2); }
  }

  lemma XorUnfold(x: nat, b: nat)
    ensures Xor(x, b) == (x % 2 + b % 2) % 2 + 2 * Xor(x / 2, b / 2)
  {}

  lemma SameBits(x: nat, y: nat, b: nat, u: nat, v: nat)
    requires x < 2 && y < 2 && b < 2 && (x + b) % 2 + 2 * u == (y + b) % 2 + 2 * v
    ensures x == y && u == v
  {}

  lemma {:induction false} XorCancels(x: nat, y: nat, b: nat)
    requires Xor(x, b) == Xor(y, b)
    ensures x == y
    decreases x + y + b
  {
    if x == 0 && y == 0 {
    } else {
      XorUnfold(x, b);
      XorUnfold(y, b);
      SameBits(x % 2, y % 2, b % 2, Xor(x / 2, b / 2), Xor(y / 2, b / 2));
      XorCancels(x / 2, y / 2, b / 2);
    }
  }

  /** Flipping the bits of b moves a number by at most b. */
  lemma {:induction false} XorMovesLittle(x: nat, b: nat)
    ensures x - b <= Xor(x, b) <= x + b
    decreases x + b
  {
    if !(x == 0 && b == 0) { XorMovesLittle(x / 2, b / 2); }
  }

  // ---- Multiplying by the prime ----

  /** The prime is odd, so it has an inverse modulo 2^64 and multiplication loses nothing. */
  lemma ScrambleInjective(x: Word, y: Word)
    requires Scramble(x) == Scramble(y)
    ensures x == y
  {
    var p, w, inv, t := 0x0000_0100_0000_01b3, 0x1_0000_0000_0000_0000, 0xce96_5057_aff6_957b, 887285111055;
    var d := x - y;
    var q := x * 0x0000_0100_0000_01b3 / 0x1_0000_0000_0000_0000 - y * 0x0000_0100_0000_01b3 / 0x1_0000_0000_0000_0000;
    assert d * 0x0000_0100_0000_01b3 == q * 0x1_0000_0000_0000_0000;
    assert p * inv == 1 + t * w;
    assert d == 0x1_0000_0000_0000_0000 * (q * 0xce96_5057_aff6_957b - d * 887285111055);
  }

  lemma ModularCancel(u: int, v: int, b: int)
    requires (u + b) % 0x1_0000_0000_0000_0000 == (v + b) % 0x1_0000_0000_0000_0000
    ensures u % 0x1_0000_0000_0000_0000 == v % 0x1_0000_0000_0000_0000
  {
    var k := (u + b) / 0x1_0000_0000_0000_0000 - (v + b) / 0x1_0000_0000_0000_0000;
    assert u == v + k * 0x1_0000_0000_0000_0000;
  }

  lemma AddStepInjective(x: Word, y: Word, b: Byte)
    requires AddStep(x, b) == AddStep(y, b)
    ensures x == y
  {
    assert Scramble(x) == Scramble(y) by {
      ModularCancel(x * 0x0000_0100_0000_01b3, y * 0x0000_0100_0000_01b3, b);
    }
    ScrambleInjective(x, y);
  }

  lemma XorStepInjective(x: Word, y: Word, b: Word)
    requires XorStep(x, b) == XorStep(y, b)
    ensures x == y
  {
    XorCancels(Scramble(x), Scramble(y), b);
    ScrambleInjective(x, y);
  }

  // ---- hash_bytes ----

  /** From the offset basis, each byte is added to the product with the prime, modulo 2^64. */
  lemma HashBytesStarts(b: Byte)
    ensures HashBytes([]) == 0xcbf2_9ce4_8422_2325
    ensures HashBytes([b]) == (0xcbf2_9ce4_8422_2325 * 0x100_0000_01b3 + b) % 0x1_0000_0000_0000_0000
  {
    assert [b][..0] == [];
  }

  lemma {:induction false} HashSuffix(h: Word, pre: seq<Byte>, post: seq<Byte>)
    ensures HashFrom(h, pre + post) == HashFrom(HashFrom(h, pre), post)
  {
    if post == [] {
      assert pre + post == pre;
    } else {
      var k := |post| - 1;
      assert (pre + post)[..|pre + post| - 1] == pre + post[..k];
      HashSuffix(h, pre, post[..k]);
    }
  }

  lemma {:induction false} HashFromInjective(x: Word, y: Word, bytes: seq<Byte>)
    requires HashFrom(x, bytes) == HashFrom(y, bytes)
    ensures x == y
  {
    if bytes != [] {
      var k := |bytes| - 1;
      AddStepInjective(HashFrom(x, bytes[..k]), HashFrom(y, bytes[..k]), bytes[k]);
      HashFromInjective(x, y, bytes[..k]);
    }
  }

  // ---- hash_ptx ----

  /** The kernel id is mixed into the scrambled offset basis. */
  lemma HashPtxStarts(id: Word)
    ensures HashPtx([], id) == Xor(0xaf63_bd4c_8601_b7df, id)
  {
    assert Scramble(OFFSET) == 0xaf63_bd4c_8601_b7df;
  }

  lemma {:induction false} HashPtxSuffix(h: Word, pre: seq<Byte>, post: seq<Byte>)
    ensures HashPtxFrom(h, pre + post) == HashPtxFrom(HashPtxFrom(h, pre), post)
  {
    if post == [] {
      assert pre + post == pre;
    } else {
      var k := |post| - 1;
      assert (pre + post)[..|pre + post| - 1] == pre + post[..k];
      HashPtxSuffix(h, pre, post[..k]);
    }
  }

  lemma {:induction false} HashPtxFromInjective(x: Word, y: Word, bytes: seq<Byte>)
    requires HashPtxFrom(x, bytes) == HashPtxFrom(y, bytes)
    ensures x == y
  {
    if bytes != [] {
      var k := |bytes| - 1;
      XorStepInjective(HashPtxFrom(x, bytes[..k]), HashPtxFrom(y, bytes[..k]), bytes[k]);
      HashPtxFromInjective(x, y, bytes[..k]);
    }
  }

  /** The same PTX under two kernel ids never collides. */
  lemma HashPtxSeparatesIds(bytes: seq<Byte>, id1: Word, id2: Word)
    requires HashPtx(bytes, id1) == HashPtx(bytes, id2)
    ensures id1 == id2
  {
    HashPtxFromInjective(XorStep(OFFSET, id1), XorStep(OFFSET, id2), bytes);
    XorSymmetric(Scramble(OFFSET), id1);
    XorSymmetric(Scramble(OFFSET), id2);
    XorCancels(id1, id2, Scramble(OFFSET));
  }

  /** The word that Scramble takes to h: multiplication by the inverse of the prime modulo 2^64. */
  function Unscramble(h: Word): Word { h * 0xce96_5057_aff6_957b % 0x1_0000_0000_0000_0000 }

  lemma RemainderIs(z: int, h: Word, k: int)
    requires z == h + k * 0x1_0000_0000_0000_0000
    ensures z % 0x1_0000_0000_0000_0000 == h
  {}

  lemma QuotientOf(z: int) returns (q: int)
    ensures z % 0x1_0000_0000_0000_0000 == z - q * 0x1_0000_0000_0000_0000
  {
    q := z / 0x1_0000_0000_0000_0000;
  }

  lemma ScrambleUnscramble(h: Word)
    ensures Scramble(Unscramble(h)) == h
  {
    var q := QuotientOf(h * 0xce96_5057_aff6_957b);
    RemainderIs(Unscramble(h) * 0x0000_0100_0000_01b3, h, h * 887285111055 - q * 0x0000_0100_0000_01b3);
  }

  lemma SplitBit(v: nat, bit: nat, rest: nat)
    requires v == bit + 2 * rest && bit < 2
    ensures v % 2 == bit && v / 2 == rest
  {}

  lemma XorHalves(x: nat, b: nat)
    ensures Xor(x, b) % 2 == (x % 2 + b % 2) % 2 && Xor(x, b) / 2 == Xor(x / 2, b / 2)
  {
    XorUnfold(x, b);
    SplitBit(Xor(x, b), (x % 2 + b % 2) % 2, Xor(x / 2, b / 2));
  }

  lemma BitTwice(x: nat, b: nat)
    requires x < 2 && b < 2
    ensures ((x + b) % 2 + b) % 2 == x
  {}

  lemma {:induction false} XorTwice(x: nat, b: nat)
    ensures Xor(Xor(x, b), b) == x
    decreases x + b
  {
    if !(x == 0 && b == 0) {
      var y := Xor(x, b);
      XorTwice(x / 2, b / 2);
      XorHalves(x, b);
      XorUnfold(y, b);
      BitTwice(x % 2, b % 2);
    }
  }

  /** Every word is the hash of the given bytes from some start. */
  lemma {:induction false} HashPtxOnto(h: Word, bytes: seq<Byte>) returns (start: Word)
    ensures HashPtxFrom(start, bytes) == h
    decreases |bytes|
  {
    if bytes == [] {
      start := h;
    } else {
      var k := |bytes| - 1;
      XorIsWord(h, bytes[k]);
      start := HashPtxOnto(Unscramble(Xor(h, bytes[k])), bytes[..k]);
      ScrambleUnscramble(Xor(h, bytes[k]));
      XorTwice(h, bytes[k]);
    }
  }

  /** Whatever two texts are and under whatever id the first is hashed, some id gives the second the same hash. */
  lemma CollidingId(p: seq<Byte>, id: Word, q: seq<Byte>) returns (id': Word)
    ensures HashPtx(q, id') == HashPtx(p, id)
  {
    var start := HashPtxOnto(HashPtx(p, id), q);
    XorIsWord(start, Scramble(OFFSET));
    id' := Xor(start, Scramble(OFFSET));
    XorSymmetric(Scramble(OFFSET), id');
    XorTwice(start, Scramble(OFFSET));
  }
}
