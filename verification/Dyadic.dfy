/** Powers of two and aligned power-of-two blocks, the arithmetic shared by the buddy
    allocator and by the splitting of untyped memory. */
module Dyadic {

  function Pow2(n: nat): (r: nat)
    ensures r > 0
  {
    if n == 0 then 1 else 2 * Pow2(n - 1)
  }

  predicate Aligned(b: nat, o: nat) {
    b % Pow2(o) == 0
  }

  /** Page `p` lies in the block of order `o` that starts at `b`. */
  predicate InBlock(p: nat, b: nat, o: nat) {
    b <= p < b + Pow2(o)
  }

  /** The number of the order-`o` block that holds `p`, by repeated halving. */
  ghost function Index(p: nat, o: nat): nat {
    if o == 0 then p else Index(p, o - 1) / 2
  }

  lemma {:induction false} Pow2Add(a: nat, b: nat)
    ensures Pow2(a + b) == Pow2(a) * Pow2(b)
    decreases a
  {
    if a == 0 {
    } else {
      Pow2Add(a - 1, b);
      assert a + b - 1 == (a - 1) + b;
      assert Pow2(a + b) == 2 * (Pow2(a - 1) * Pow2(b));
    }
  }

  lemma {:induction false} Pow2Monotone(a: nat, b: nat)
    requires a <= b
    ensures Pow2(a) <= Pow2(b)
    ensures a < b ==> Pow2(a) < Pow2(b)
    decreases b - a
  {
    if a < b {
      Pow2Monotone(a, b - 1);
    }
  }

  lemma Pow2Reflects(a: nat, b: nat)
    requires Pow2(a) <= Pow2(b)
    ensures a <= b
  {
    if b < a {
      Pow2Monotone(b, a);
    }
  }

  lemma DivideTwice(p: nat, a: nat)
    requires a > 0
    ensures (p / a) / 2 == p / (2 * a)
  {
    var q := p / (2 * a);
    var r := p % (2 * a);
    assert p == q * (2 * a) + r;
    var s := if r < a then 0 else 1;
    var t := r - s * a;
    assert p == (2 * q + s) * a + t;
    DivideUnique(p, a, 2 * q + s, t);
  }

  lemma DivideUnique(p: nat, a: nat, q: nat, r: nat)
    requires a > 0 && r < a && p == q * a + r
    ensures p / a == q && p % a == r
  {
    var d := p / a;
    assert p == d * a + p % a;
    assert d < q ==> (d + 1) * a <= q * a;
    assert q < d ==> (q + 1) * a <= d * a;
  }

  lemma {:induction false} IndexIsQuotient(p: nat, o: nat)
    ensures Index(p, o) == p / Pow2(o)
  {
    if o != 0 {
      IndexIsQuotient(p, o - 1);
      DivideTwice(p, Pow2(o - 1));
    }
  }

  /** Sharing a block of some order means sharing every larger block. */
  lemma {:induction false} IndexCoarsens(p: nat, q: nat, o: nat, o': nat)
    requires o <= o' && Index(p, o) == Index(q, o)
    ensures Index(p, o') == Index(q, o')
    decreases o' - o
  {
    if o < o' {
      IndexCoarsens(p, q, o, o' - 1);
    }
  }

  lemma InBlockIsIndex(p: nat, b: nat, o: nat)
    requires Aligned(b, o)
    ensures InBlock(p, b, o) <==> Index(p, o) == Index(b, o)
  {
    hide Index;
    IndexIsQuotient(p, o);
    IndexIsQuotient(b, o);
    var m := Pow2(o);
    assert b == (b / m) * m;
    if InBlock(p, b, o) {
      DivideUnique(p, m, b / m, p - b);
    }
    assert p / m == b / m ==> p == b + p % m;
  }

  /** Two aligned blocks that meet are nested. */
  lemma Nested(p: nat, b: nat, o: nat, b': nat, o': nat)
    requires Aligned(b, o) && Aligned(b', o') && o <= o'
    requires InBlock(p, b, o) && InBlock(p, b', o')
    ensures b' <= b && b + Pow2(o) <= b' + Pow2(o')
  {
    var last := b + Pow2(o) - 1;
    InBlockIsIndex(p, b, o);
    InBlockIsIndex(last, b, o);
    InBlockIsIndex(p, b', o');
    IndexCoarsens(p, b, o, o');
    IndexCoarsens(p, last, o, o');
    InBlockIsIndex(b, b', o');
    InBlockIsIndex(last, b', o');
  }

  lemma AlignedMultiple(k: nat, o: nat)
    ensures Aligned(k * Pow2(o), o)
  {
    DivideUnique(k * Pow2(o), Pow2(o), k, 0);
  }

  lemma AlignedFiner(b: nat, o: nat, o': nat)
    requires Aligned(b, o') && o <= o'
    ensures Aligned(b, o)
  {
    Pow2Add(o' - o, o);
    var k := b / Pow2(o');
    assert b == (k * Pow2(o' - o)) * Pow2(o);
    AlignedMultiple(k * Pow2(o' - o), o);
  }

  /** Adding a whole block to an aligned start keeps the alignment. */
  lemma AlignedStep(b: nat, c: nat, o: nat)
    requires Aligned(b, o) && Aligned(c, o)
    ensures Aligned(b + c, o)
    ensures b <= c ==> Aligned(c - b, o)
  {
    var m := Pow2(o);
    var x, y := b / m, c / m;
    assert b == x * m && c == y * m;
    Distribute(x, y, m);
    AlignedMultiple(x + y, o);
    if b <= c {
      AlignedMultiple(y - x, o);
    }
  }

  lemma Distribute(x: nat, y: nat, m: nat)
    requires m > 0
    ensures x * m + y * m == (x + y) * m
    ensures x * m <= y * m ==> x <= y && y * m - x * m == (y - x) * m
  {
    assert y < x ==> (y + 1) * m <= x * m;
  }

  lemma AlignedSelf(o: nat)
    ensures Aligned(Pow2(o), o) && Aligned(0, o)
  {
    AlignedMultiple(1, o);
    AlignedMultiple(0, o);
  }

  lemma Pow2Of64()
    ensures Pow2(64) == 0x1_0000_0000_0000_0000
  {
    assert Pow2(8) == 256;
    hide Pow2;
    Pow2Add(8, 8);
    Pow2Add(16, 16);
    Pow2Add(32, 32);
  }

  /** Position of the highest set bit. */
  function FloorLog2(v: nat): (r: nat)
    requires v > 0
    ensures Pow2(r) <= v < Pow2(r + 1)
  {
    if v == 1 then 0 else 1 + FloorLog2(v / 2)
  }

  function AlignUp(v: nat, bytes: nat): nat
    requires bytes > 0
  {
    (v + bytes - 1) / bytes * bytes
  }

  lemma MultipleAtLeast(k: nat, q: nat, m: nat, a: nat, v: nat)
    requires m > 0 && a == k * m && v <= a && q * m < v + m
    ensures q * m <= a
  {
    assert k < q ==> (k + 1) * m <= q * m;
  }

  lemma AlignUpLeast(v: nat, bytes: nat)
    requires bytes > 0
    ensures v <= AlignUp(v, bytes) < v + bytes && AlignUp(v, bytes) % bytes == 0
    ensures forall a: nat :: a % bytes == 0 && v <= a ==> AlignUp(v, bytes) <= a
  {
    var q := (v + bytes - 1) / bytes;
    assert v + bytes - 1 == q * bytes + (v + bytes - 1) % bytes;
    DivideUnique(q * bytes, bytes, q, 0);
    forall a: nat | a % bytes == 0 && v <= a ensures AlignUp(v, bytes) <= a {
      MultipleAtLeast(a / bytes, q, bytes, a, v);
    }
  }
}
