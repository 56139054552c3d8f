/** 64-bit words as integers: powers of two, and the bit operations that `Uint128` applies to its halves. */
module Words {

  const WORD: int := 0x1_0000_0000_0000_0000
  type uint64 = x: int | 0 <= x < WORD
  const TOP: int := WORD * WORD

  function Pow2(n: nat): (p: nat)
    ensures p >= 1
  {
    if n == 0 then 1 else 2 * Pow2(n - 1)
  }

  lemma {:induction false} PowAdd(m: nat, n: nat)
    ensures Pow2(m + n) == Pow2(m) * Pow2(n)
    decreases m
  {
    if m > 0 {
      PowAdd(m - 1, n);
      assert Pow2(m) * Pow2(n) == 2 * (Pow2(m - 1) * Pow2(n));
    }
  }

  lemma PowDouble(n: nat, p: int)
    requires Pow2(n) == p
    ensures Pow2(2 * n) == p * p
  {
    PowAdd(n, n);
  }

  lemma PowWord()
    ensures Pow2(64) == WORD && Pow2(128) == TOP
  {
    PowDouble(1, 2);
    PowDouble(2, 4);
    PowDouble(4, 16);
    PowDouble(8, 0x100);
    PowDouble(16, 0x1_0000);
    PowDouble(32, 0x1_0000_0000);
    PowDouble(64, WORD);
  }

  // ---------- division ----------

  lemma DivUnique(x: int, p: int, q: int, r: int)
    requires p > 0 && x == q * p + r && 0 <= r < p
    ensures x / p == q && x % p == r
  {
    var d := x / p - q;
    assert d * p == r - x % p by {
      assert x == x / p * p + x % p;
      assert d * p == x / p * p - q * p;
    }
    MultipleBounds(d, p);
  }

  lemma MultipleBounds(d: int, p: int)
    requires p > 0
    ensures d >= 1 ==> d * p >= p
    ensures d <= -1 ==> d * p <= -p
  {
  }

  lemma Distribute(q: int, b: int, r: int, a: int)
    ensures (q * b + r) * a == q * (a * b) + r * a
  {
  }

  lemma RemainderInRemainder(r: nat, s: nat, a: nat, b: nat)
    requires r < b && s < a
    ensures r * a + s < a * b
  {
    assert r * a <= (b - 1) * a;
  }

  lemma DivDiv(x: nat, a: nat, b: nat)
    requires a > 0 && b > 0
    ensures a * b > 0 && x / (a * b) == x / a / b
  {
    var d := x / a;
    var q, r, s := d / b, d % b, x % a;
    assert d == q * b + r && x == d * a + s;
    Distribute(q, b, r, a);
    RemainderInRemainder(r, s, a, b);
    DivUnique(x, a * b, q, r * a + s);
  }

  /** Adding multiples of the modulus changes nothing. */
  lemma ModPlus(x: int, k: int, m: int)
    requires m > 0
    ensures (x + k * m) % m == x % m
  {
    assert x == x / m * m + x % m;
    assert x + k * m == (x / m + k) * m + x % m;
    DivUnique(x + k * m, m, x / m + k, x % m);
  }

  lemma ModSum(x: int, y: int, m: int)
    requires m > 0
    ensures (x % m + y) % m == (x + y) % m
  {
    assert x + y == x % m + y + x / m * m;
    ModPlus(x % m + y, x / m, m);
  }

  lemma ModTimes(x: int, y: int, m: int)
    requires m > 0
    ensures (x % m * y) % m == (x * y) % m
  {
    assert x == x / m * m + x % m;
    assert x * y == x % m * y + x / m * y * m by {
      assert (x / m * m + x % m) * y == x / m * m * y + x % m * y;
      assert x / m * m * y == x / m * y * m;
    }
    ModPlus(x % m * y, x / m * y, m);
  }

  /** Dropping one more bit. */
  lemma DropBit(x: nat, n: nat)
    ensures x / Pow2(n + 1) == x / Pow2(n) / 2
    ensures x / Pow2(n) == 2 * (x / Pow2(n + 1)) + x / Pow2(n) % 2
    ensures x % Pow2(n + 1) == x % Pow2(n) + x / Pow2(n) % 2 * Pow2(n)
  {
    var p := Pow2(n);
    assert Pow2(n + 1) == p * 2;
    DivDiv(x, p, 2);
    var q, d := x / p / 2, x / p % 2;
    assert x == x / p * p + x % p;
    assert x / p * p == q * (p * 2) + d * p by {
      assert x / p == q * 2 + d;
      assert (q * 2 + d) * p == q * 2 * p + d * p;
    }
    DivUnique(x, p * 2, q, d * p + x % p);
  }

  /** `v` without its `n` lowest bits. */
  function Dropped(v: nat, n: nat): nat
  {
    if n == 0 then v else Dropped(v / 2, n - 1)
  }

  lemma {:induction false} DroppedIsDiv(v: nat, n: nat)
    ensures Dropped(v, n) == v / Pow2(n)
    decreases n
  {
    if n > 0 {
      DroppedIsDiv(v / 2, n - 1);
      HalfMod(v, Pow2(n - 1));
    }
  }

  /** `a` times `b`. */
  function Times(a: nat, b: nat): nat
  {
    if a == 0 then 0 else b + Times(a - 1, b)
  }

  lemma {:induction false} TimesIsProduct(a: nat, b: nat)
    ensures Times(a, b) == a * b
    decreases a
  {
    if a > 0 {
      TimesIsProduct(a - 1, b);
    }
  }

  // ---------- bit operations ----------

  function And(a: nat, b: nat): nat
  {
    if a == 0 || b == 0 then 0 else 2 * And(a / 2, b / 2) + a % 2 * (b % 2)
  }

  function Or(a: nat, b: nat): nat
    decreases a + b
  {
    if a == 0 && b == 0 then 0 else 2 * Or(a / 2, b / 2) + if a % 2 == 1 || b % 2 == 1 then 1 else 0
  }

  /** `~a` */
  function Not(a: uint64): uint64
  {
    WORD - 1 - a
  }

  /** `a << n` */
  function Shl(a: uint64, n: nat): uint64
    requires n < 64
  {
    a * Pow2(n) % WORD
  }

  /** `a >> n` */
  function Shr(a: uint64, n: nat): (r: uint64)
    requires n < 64
    ensures r <= a
  {
    DivShrinks(a, Pow2(n));
    a / Pow2(n)
  }

  lemma DivShrinks(a: nat, p: nat)
    requires p >= 1
    ensures 0 <= a / p <= a
  {
    assert a == a / p * p + a % p;
    TimesAtLeastOne(a / p, p);
  }

  lemma TimesAtLeastOne(q: int, p: int)
    requires p >= 1
    ensures q >= 0 ==> q * p >= q
    ensures q < 0 ==> q * p < 0
  {
  }

  lemma {:induction false} AndLowMask(a: nat, n: nat)
    ensures And(a, Pow2(n) - 1) == a % Pow2(n)
    decreases n
  {
    if n > 0 {
      var p := Pow2(n - 1);
      assert (Pow2(n) - 1) / 2 == p - 1 && (Pow2(n) - 1) % 2 == 1;
      AndLowMask(a / 2, n - 1);
      HalfMod(a, p);
      if a == 0 {
        assert 0 % Pow2(n) == 0;
      }
    }
  }

  lemma HalfMod(a: nat, p: nat)
    requires p > 0
    ensures a % (2 * p) == 2 * (a / 2 % p) + a % 2
    ensures a / (2 * p) == a / 2 / p
  {
    var h := a / 2;
    assert h == h / p * p + h % p;
    assert a == h / p * (2 * p) + (2 * (h % p) + a % 2) by {
      assert a == 2 * h + a % 2;
      assert 2 * (h / p * p) == h / p * (2 * p);
    }
    DivUnique(a, 2 * p, h / p, 2 * (h % p) + a % 2);
  }

  lemma {:induction false} AndBit(a: nat, n: nat)
    ensures And(a, Pow2(n)) == a / Pow2(n) % 2 * Pow2(n)
    decreases n
  {
    if a == 0 {
      assert 0 / Pow2(n) == 0;
    } else if n > 0 {
      AndBit(a / 2, n - 1);
      HalfMod(a, Pow2(n - 1));
      assert a / Pow2(n) % 2 * Pow2(n) == 2 * (a / Pow2(n) % 2 * Pow2(n - 1));
    } else {
      assert And(a / 2, 0) == 0;
    }
  }

  /** Masking with all bits of an `m`-bit number from bit `n` on clears the bits below. */
  lemma {:induction false} AndHighMask(a: nat, n: nat, m: nat)
    requires n <= m && a < Pow2(m)
    ensures Pow2(n) <= Pow2(m) && And(a, Pow2(m) - Pow2(n)) == a / Pow2(n) * Pow2(n)
    decreases m
  {
    PowGrows(n, m);
    if n == 0 {
      AndLowMask(a, m);
      DivUnique(a, Pow2(m), 0, a);
    } else if a == 0 {
      assert 0 / Pow2(n) == 0;
    } else {
      var p := Pow2(n - 1);
      AndHighMask(a / 2, n - 1, m - 1);
      AndEvenMask(a, Pow2(m - 1) - p);
      HalfMod(a, p);
      Doubled(a / 2 / p, p);
    }
  }

  lemma Doubled(q: int, p: int)
    ensures q * (2 * p) == 2 * (q * p)
  {
  }

  lemma AndEvenMask(a: nat, mask: nat)
    ensures And(a, 2 * mask) == 2 * And(a / 2, mask)
  {
    assert 2 * mask / 2 == mask && 2 * mask % 2 == 0;
  }

  lemma AndOddMask(a: nat, mask: nat)
    ensures And(a, 2 * mask + 1) == 2 * And(a / 2, mask) + a % 2
  {
    assert (2 * mask + 1) / 2 == mask && (2 * mask + 1) % 2 == 1;
  }

  lemma {:induction false} PowGrows(m: nat, n: nat)
    requires m <= n
    ensures Pow2(m) <= Pow2(n)
    decreases n - m
  {
    if m < n {
      PowGrows(m, n - 1);
    }
  }

  lemma {:induction false} OrZero(a: nat)
    ensures Or(a, 0) == a && Or(0, a) == a
    decreases a
  {
    if a > 0 {
      OrZero(a / 2);
    }
  }

  /** Numbers without common bits: one is a multiple of a power of two, the other is less than it. */
  lemma {:induction false} OrDisjoint(k: nat, b: nat, n: nat)
    requires b < Pow2(n)
    ensures Or(k * Pow2(n), b) == k * Pow2(n) + b && Or(b, k * Pow2(n)) == k * Pow2(n) + b
    decreases n
  {
    if n == 0 {
      OrZero(k);
    } else {
      var p, a := Pow2(n - 1), k * Pow2(n);
      assert a == 2 * (k * p);
      OrDisjoint(k, b / 2, n - 1);
      assert a / 2 == k * p && a % 2 == 0;
    }
  }

  /** Setting a bit. */
  lemma {:induction false} OrBit(a: nat, n: nat)
    ensures Or(a, Pow2(n)) == if a / Pow2(n) % 2 == 1 then a else a + Pow2(n)
    decreases n
  {
    if n == 0 {
      OrZero(a / 2);
    } else {
      OrBit(a / 2, n - 1);
      HalfMod(a, Pow2(n - 1));
    }
  }

  lemma AndNotLowBit(a: nat, m: nat)
    requires m > 0 && a < Pow2(m)
    ensures And(a, Pow2(m) - 2) == a - a % 2
  {
    AndEvenMask(a, Pow2(m - 1) - 1);
    AndLowMask(a / 2, m - 1);
    DivUnique(a / 2, Pow2(m - 1), 0, a / 2);
  }

  /** Clearing a bit: the mask has all bits but bit `n` of an `m`-bit number. */
  lemma {:induction false} AndNotBit(a: nat, n: nat, m: nat)
    requires n < m && a < Pow2(m)
    ensures Pow2(n) < Pow2(m)
    ensures And(a, Pow2(m) - 1 - Pow2(n)) == if a / Pow2(n) % 2 == 1 then a - Pow2(n) else a
    decreases n
  {
    PowGrows(n + 1, m);
    if n == 0 {
      AndNotLowBit(a, m);
    } else {
      AndNotBit(a / 2, n - 1, m - 1);
      AndOddMask(a, Pow2(m - 1) - 1 - Pow2(n - 1));
      HalfMod(a, Pow2(n - 1));
    }
  }
}
