/**
 One round of a hash: the hash is rotated by some bits, and a word is mixed in.
 */
module HashMix {
  import opened Arith
  import opened ByteBuffer

  // ---------- exclusive or ----------

  function Xor(a: nat, b: nat): nat {
    if a == 0 && b == 0 then 0 else 2 * Xor(a / 2, b / 2) + (if a % 2 == b % 2 then 0 else 1)
  }

  /** The i-th bit of a number. */
  function Bit(a: nat, i: nat): bool {
    a / Pow2(i) % 2 == 1
  }

  /** A bit of the result is set if just one of the two bits is. */
  lemma {:induction false} XorBit(a: nat, b: nat, i: nat)
    ensures Bit(Xor(a, b), i) <==> (Bit(a, i) != Bit(b, i))
    decreases i
  {
    HalfOfXor(a, b);
    if i > 0 {
      XorBit(a / 2, b / 2, i - 1);
      BitOfHalf(a, i - 1);
      BitOfHalf(b, i - 1);
      BitOfHalf(Xor(a, b), i - 1);
    }
  }

  lemma HalfOfXor(a: nat, b: nat)
    ensures Xor(a, b) / 2 == Xor(a / 2, b / 2) && (Xor(a, b) % 2 == 0 <==> a % 2 == b % 2)
  {
  }

  lemma BitOfHalf(a: nat, i: nat)
    ensures Bit(a, i + 1) <==> Bit(a / 2, i)
  {
    var p := Pow2(i);
    DivMod(a, 2);
    DivMod(a / 2, p);
    assert a == (a / 2 / p * p + a / 2 % p) * 2 + a % 2;
    assert a / 2 / p * p * 2 == a / 2 / p * (2 * p);
    DivUnique(a, 2 * p, a / 2 / p, a / 2 % p * 2 + a % 2);
  }

  lemma {:induction false} XorBound(a: nat, b: nat, n: nat)
    requires a < Pow2(n) && b < Pow2(n)
    ensures Xor(a, b) < Pow2(n)
    decreases n
  {
    if n > 0 {
      XorBound(a / 2, b / 2, n - 1);
    }
  }

  lemma {:induction false} XorZero(a: nat)
    ensures Xor(a, 0) == a && Xor(0, a) == a
  {
    if a > 0 {
      XorZero(a / 2);
    }
  }

  /** Either number can be told from the result and the other one. */
  lemma {:induction false} XorCancel(a: nat, b: nat, c: nat)
    requires Xor(a, c) == Xor(b, c)
    ensures a == b
    decreases a + b + c
  {
    HalfOfXor(a, c);
    HalfOfXor(b, c);
    if a + b + c > 0 {
      XorCancel(a / 2, b / 2, c / 2);
    }
  }

  lemma {:induction false} XorSwap(a: nat, b: nat)
    ensures Xor(a, b) == Xor(b, a)
    decreases a + b
  {
    if a + b > 0 {
      XorSwap(a / 2, b / 2);
    }
  }

  /** Numbers without a bit in common are added. */
  lemma {:induction false} XorApart(a: nat, b: nat, n: nat)
    requires b < Pow2(n)
    ensures Xor(a * Pow2(n), b) == a * Pow2(n) + b
    decreases n
  {
    var p := Pow2(n);
    if n == 0 {
      XorZero(a);
    } else {
      var h := Pow2(n - 1);
      assert a * p == 2 * (a * h);
      XorApart(a, b / 2, n - 1);
      HalfOfXor(a * p, b);
      assert a * p / 2 == a * h && a * p % 2 == 0;
    }
  }

  // ---------- the round ----------

  /** a << n, in 32 bits */
  function Left(a: nat, n: nat): (r: nat)
    ensures r < MAX32
  {
    hide Pow2;
    a * Pow2(n) % MAX32
  }

  /** a >> n */
  function Right(a: nat, n: nat): (r: nat)
    ensures r <= a
  {
    hide Pow2;
    DivMod(a, Pow2(n));
    DivAtMost(a, Pow2(n));
    a / Pow2(n)
  }

  lemma DivAtMost(a: nat, p: nat)
    requires p >= 1
    ensures 0 <= a / p <= a
  {
    DivBound(a, p, 0);
    DivMod(a, p);
    MulMono(1, p, a / p);
  }

  /** (hash << shift) ^ (hash >> (32 - shift)) ^ v, in 32 bits */
  function Mix(hash: nat, shift: nat, v: nat): (r: nat)
    requires hash < MAX32 && v < MAX32 && shift <= 32
    ensures r < MAX32
  {
    hide Left, Right, Xor;
    MixBound(Left(hash, shift), Right(hash, 32 - shift), v);
    Xor(Xor(Left(hash, shift), Right(hash, 32 - shift)), v)
  }

  lemma MixBound(a: nat, b: nat, v: nat)
    requires a < MAX32 && b < MAX32 && v < MAX32
    ensures Xor(Xor(a, b), v) < MAX32
  {
    hide Xor;
    Words32();
    XorBound(a, b, 32);
    XorBound(Xor(a, b), v, 32);
  }

  lemma Words32()
    ensures Pow2(32) == MAX32
  {
    assert Pow2(8) == 256;
    Pow2Sum(8, 8);
    Pow2Sum(16, 16);
  }

  lemma Products(h: nat, l: nat, p: nat, q: nat, w: nat)
    requires l < q && p >= 1 && p * q == w
    ensures (h * q + l) * p == h * w + l * p && 0 <= l * p < w
  {
    assert (h * q + l) * p == h * q * p + l * p;
    assert h * q * p == h * (p * q);
    MulMono(l + 1, q, p);
    assert (l + 1) * p == l * p + p;
    MulMono(0, l, p);
  }

  /** The rotated hash: its low bits move up, its high ones come in below them. */
  lemma Rotated(hash: nat, shift: nat)
    requires hash < MAX32 && 0 < shift < 32
    ensures var p, q := Pow2(shift), Pow2(32 - shift);
            && Left(hash, shift) == hash % q * p && Right(hash, 32 - shift) == hash / q < p && p * q == MAX32
            && hash % q >= 0 && hash == hash / q * q + hash % q
  {
    hide Pow2;
    Words32();
    Pow2Sum(shift, 32 - shift);
    var p, q := Pow2(shift), Pow2(32 - shift);
    var h, l := hash / q, hash % q;
    DivMod(hash, q);
    DivBound(hash, q, p);
    DivAtMost(hash, q);
    Products(h, l, p, q, MAX32);
    DivUnique(hash * p, MAX32, h, l * p);
  }

  /** In numbers: the hash is rotated, and then the word's bits are flipped in it. */
  lemma MixIs(hash: nat, shift: nat, v: nat)
    requires hash < MAX32 && v < MAX32 && 0 < shift < 32
    ensures Mix(hash, shift, 0) == hash * Pow2(shift) % MAX32 + hash / Pow2(32 - shift)
    ensures forall i: nat :: Bit(Mix(hash, shift, v), i) <==> (Bit(Mix(hash, shift, 0), i) != Bit(v, i))
  {
    hide Pow2, Bit, Xor;
    Rotated(hash, shift);
    var q := Pow2(32 - shift);
    XorApart(hash % q, hash / q, shift);
    var r := Xor(Left(hash, shift), Right(hash, 32 - shift));
    XorZero(r);
    forall i: nat
      ensures Bit(Mix(hash, shift, v), i) <==> (Bit(r, i) != Bit(v, i))
    {
      XorBit(r, v, i);
    }
  }

  lemma MixNothing(shift: nat, v: nat)
    requires v < MAX32 && shift <= 32
    ensures Mix(0, shift, v) == v
  {
    hide Xor, Pow2;
    XorZero(0);
    XorZero(v);
  }

  /** A small word is appended to a small hash. */
  lemma MixAppends(hash: nat, shift: nat, v: nat)
    requires 0 < shift < 32 && hash < Pow2(32 - shift) && v < Pow2(shift)
    ensures hash < MAX32 && v < MAX32 && Mix(hash, shift, v) == hash * Pow2(shift) + v
  {
    hide Pow2, Xor;
    Words32();
    Pow2Sum(shift, 32 - shift);
    var p, q := Pow2(shift), Pow2(32 - shift);
    MulMono(1, p, q);
    MulMono(1, q, p);
    Rotated(hash, shift);
    DivUnique(hash, q, 0, hash);
    XorZero(hash * p);
    XorApart(hash, v, shift);
  }

  /** Different hashes stay different when the same word is mixed in. */
  lemma MixKeepsHash(a: nat, b: nat, shift: nat, v: nat)
    requires a < MAX32 && b < MAX32 && v < MAX32 && 0 < shift < 32 && a != b
    ensures Mix(a, shift, v) != Mix(b, shift, v)
  {
    hide Pow2, Xor, Left, Right;
    if Mix(a, shift, v) == Mix(b, shift, v) {
      var p, q := Pow2(shift), Pow2(32 - shift);
      Rotated(a, shift);
      Rotated(b, shift);
      XorCancel(Xor(Left(a, shift), Right(a, 32 - shift)), Xor(Left(b, shift), Right(b, 32 - shift)), v);
      XorApart(a % q, a / q, shift);
      XorApart(b % q, b / q, shift);
      QuotientUnique(a % q, a / q, b % q, b / q, p);
    }
  }

  /** Different words make the same hash different. */
  lemma MixKeepsWord(hash: nat, shift: nat, v: nat, w: nat)
    requires hash < MAX32 && v < MAX32 && w < MAX32 && shift <= 32 && v != w
    ensures Mix(hash, shift, v) != Mix(hash, shift, w)
  {
    hide Xor, Left, Right;
    var r := Xor(Left(hash, shift), Right(hash, 32 - shift));
    XorSwap(r, v);
    XorSwap(r, w);
    if Xor(v, r) == Xor(w, r) {
      XorCancel(v, w, r);
    }
  }
}
