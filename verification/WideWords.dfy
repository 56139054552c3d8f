/** 128-bit numbers as two words: what adding, negating and shifting the halves does to the number. */
module WideWords {
  import opened Words

  function Wide(hi: int, lo: int): int
  {
    hi * WORD + lo
  }

  lemma WideBounds(hi: uint64, lo: uint64)
    ensures 0 <= Wide(hi, lo) < TOP
  {
  }

  lemma WideHalves(hi: uint64, lo: uint64)
    ensures Wide(hi, lo) / WORD == hi && Wide(hi, lo) % WORD == lo
  {
    DivUnique(Wide(hi, lo), WORD, hi, lo);
  }

  /** The carry of an addition shows in the low word of the sum: it is less than the addend. */
  lemma AddHalves(hi: uint64, lo: uint64, hi': uint64, lo': uint64)
    ensures var l := (lo + lo') % WORD;
      var h := (hi + hi') % WORD;
      Wide(if l < lo then (h + 1) % WORD else h, l) == (Wide(hi, lo) + Wide(hi', lo')) % TOP
  {
    var carry := if lo + lo' >= WORD then 1 else 0;
    var h := hi + hi' + carry;
    var over := if h >= WORD then 1 else 0;
    DivUnique(Wide(hi, lo) + Wide(hi', lo'), TOP, over, Wide(h - over * WORD, lo + lo' - carry * WORD));
  }

  lemma NegateHalves(hi: uint64, lo: uint64)
    ensures lo == 0 ==> Wide((0 - hi) % WORD, 0) == (-Wide(hi, lo)) % TOP
    ensures lo != 0 ==> Wide(Not(hi), (0 - lo) % WORD) == (-Wide(hi, lo)) % TOP
  {
    if lo != 0 {
      DivUnique(-Wide(hi, lo), TOP, -1, Wide(Not(hi), WORD - lo));
    } else if hi != 0 {
      DivUnique(-Wide(hi, lo), TOP, -1, Wide(WORD - hi, 0));
    }
  }

  lemma LessHalves(hi: uint64, lo: uint64, hi': uint64, lo': uint64)
    ensures Wide(hi, lo) < Wide(hi', lo') <==> hi < hi' || (hi == hi' && lo < lo')
    ensures Wide(hi, lo) == Wide(hi', lo') <==> hi == hi' && lo == lo'
  {
  }

  // ---------- shifts ----------

  lemma SplitWord(n: nat)
    requires n <= 64
    ensures Pow2(n) * Pow2(64 - n) == WORD
  {
    PowAdd(n, 64 - n);
    PowWord();
  }

  /** A right shift by less than a word: the low bits of the high word move into the low word. */
  lemma ShrHalves(hi: uint64, lo: uint64, n: nat)
    requires 0 < n < 64
    ensures And(hi, Pow2(n) - 1) < WORD
    ensures var low := Or(Shr(lo, n), Shl(And(hi, Pow2(n) - 1), 64 - n));
      low < WORD && Wide(Shr(hi, n), low) == Wide(hi, lo) / Pow2(n)
  {
    var p, p' := Pow2(n), Pow2(64 - n);
    SplitWord(n);
    var m := hi % p;
    AndLowMask(hi, n);
    ModShrinks(hi, p);
    BelowProduct(m, p, p');
    DivUnique(m * p', WORD, 0, m * p');
    DivBelow(lo, p, p');
    OrDisjoint(m, lo / p, 64 - n);
    BelowSum(m, lo / p, p, p');
    ShrSum(hi, lo, p, p');
  }

  lemma ModShrinks(x: nat, p: nat)
    requires p > 0
    ensures x % p <= x && x % p < p
  {
    DivShrinks(x, p);
    assert x == x / p * p + x % p;
    TimesAtLeastOne(x / p, p);
  }

  lemma BelowProduct(m: nat, p: nat, p': nat)
    requires m < p && p' > 0
    ensures 0 <= m * p' <= p * p' - p'
  {
    assert (p - 1 - m) * p' >= 0;
    assert (p - 1 - m) * p' == p * p' - p' - m * p';
  }

  lemma BelowSum(m: nat, k: nat, p: nat, p': nat)
    requires m < p && k < p'
    ensures m * p' + k < p * p'
  {
    BelowProduct(m, p, p');
  }

  lemma DivBelow(x: nat, p: nat, p': nat)
    requires p > 0 && p' > 0 && x < p * p'
    ensures 0 <= x / p < p'
  {
    assert x == x / p * p + x % p;
    DivShrinks(x, p);
    TimesKeepsOrder(p', x / p, p);
  }

  lemma TimesKeepsOrder(a: int, b: int, p: int)
    requires p >= 0
    ensures a <= b ==> a * p <= b * p
  {
    if a <= b {
      assert (b - a) * p >= 0;
      assert (b - a) * p == b * p - a * p;
    }
  }

  lemma ShrSum(hi: nat, lo: nat, p: nat, p': nat)
    requires p > 0 && p * p' == WORD
    ensures Wide(hi / p, hi % p * p' + lo / p) == Wide(hi, lo) / p
  {
    var a, m, b, r := hi / p, hi % p, lo / p, lo % p;
    assert hi == a * p + m && lo == b * p + r;
    assert (a * WORD + (m * p' + b)) * p + r == Wide(hi, lo) by {
      assert a * WORD * p == a * p * WORD;
      assert m * p' * p == m * WORD;
      assert (a * WORD + (m * p' + b)) * p == a * WORD * p + m * p' * p + b * p;
    }
    DivUnique(Wide(hi, lo), p, a * WORD + (m * p' + b), r);
  }

  /** A right shift by at least a word. */
  lemma ShrWord(hi: uint64, lo: uint64, n: nat)
    requires 64 <= n < 128
    ensures Wide(0, Shr(hi, n - 64)) == Wide(hi, lo) / Pow2(n)
  {
    PowWord();
    PowAdd(64, n - 64);
    WideBounds(hi, lo);
    DivDiv(Wide(hi, lo), WORD, Pow2(n - 64));
    WideHalves(hi, lo);
  }

  lemma ShrAll(hi: uint64, lo: uint64, n: nat)
    requires n >= 128
    ensures Wide(hi, lo) / Pow2(n) == 0
  {
    PowWord();
    PowGrows(128, n);
    WideBounds(hi, lo);
    DivUnique(Wide(hi, lo), Pow2(n), 0, Wide(hi, lo));
  }

  /** A left shift by less than a word: the high bits of the low word move into the high word. */
  lemma ShlHalves(hi: uint64, lo: uint64, n: nat)
    requires 0 < n < 64
    ensures 0 < Pow2(64 - n) <= WORD
    ensures var mask := Not(Pow2(64 - n) - 1);
      And(lo, mask) < WORD && Or(Shl(hi, n), Shr(And(lo, mask), 64 - n)) < WORD &&
      Wide(Or(Shl(hi, n), Shr(And(lo, mask), 64 - n)), Shl(lo, n)) == Wide(hi, lo) * Pow2(n) % TOP
  {
    var p, p' := Pow2(n), Pow2(64 - n);
    SplitWord(n);
    HighBits(lo, n);
    DivBelow(lo, p', p);
    ModProduct(hi, p, p');
    OrDisjoint(hi % p', lo / p', n);
    ModShrinks(hi, p');
    BelowSum(hi % p', lo / p', p', p);
    ShlSum(hi, lo, p, p');
  }

  lemma HighBits(lo: uint64, n: nat)
    requires 0 < n < 64
    ensures 0 < Pow2(64 - n) <= WORD
    ensures var mask := Not(Pow2(64 - n) - 1);
      And(lo, mask) < WORD && Shr(And(lo, mask), 64 - n) == lo / Pow2(64 - n)
  {
    var p' := Pow2(64 - n);
    PowWord();
    AndHighMask(lo, 64 - n, 64);
    RoundDown(lo, p');
  }

  lemma RoundDown(x: nat, p: nat)
    requires p > 0
    ensures 0 <= x / p * p <= x && x / p * p / p == x / p
  {
    assert x == x / p * p + x % p;
    DivShrinks(x, p);
    TimesKeepsOrder(0, x / p, p);
    DivUnique(x / p * p, p, x / p, 0);
  }

  lemma ModProduct(x: nat, p: nat, p': nat)
    requires p > 0 && p' > 0
    ensures p * p' > 0 && x * p % (p * p') == x % p' * p && x * p / (p * p') == x / p'
  {
    assert x == x / p' * p' + x % p';
    assert x * p == x / p' * (p * p') + x % p' * p by {
      assert (x / p' * p' + x % p') * p == x / p' * p' * p + x % p' * p;
    }
    BelowProduct(x % p', p', p);
    DivUnique(x * p, p * p', x / p', x % p' * p);
  }

  lemma ShlSum(hi: uint64, lo: uint64, p: nat, p': nat)
    requires p > 0 && p' > 0 && p * p' == WORD
    ensures Wide(hi % p' * p + lo / p', lo * p % WORD) == Wide(hi, lo) * p % TOP
  {
    ModProduct(hi, p, p');
    ModProduct(lo, p, p');
    var a, m, b, r := hi / p', hi % p', lo / p', lo % p';
    assert hi * p == a * WORD + m * p;
    assert lo * p == b * WORD + r * p;
    assert Wide(hi, lo) * p == a * TOP + Wide(m * p + b, r * p) by {
      assert (hi * WORD + lo) * p == hi * p * WORD + lo * p;
    }
    DivBelow(lo, p', p);
    BelowSum(m, b, p', p);
    BelowProduct(r, p', p);
    DivUnique(Wide(hi, lo) * p, TOP, a, Wide(m * p + b, r * p));
  }

  /** A left shift by at least a word. */
  lemma ShlWord(hi: uint64, lo: uint64, n: nat)
    requires 64 <= n < 128
    ensures Wide(Shl(lo, n - 64), 0) == Wide(hi, lo) * Pow2(n) % TOP
  {
    var p := Pow2(n - 64);
    PowWord();
    PowAdd(64, n - 64);
    var c, k := lo * p % WORD, lo * p / WORD;
    ShlWordSum(hi, lo, p, k, c);
    DivUnique(Wide(hi, lo) * (WORD * p), TOP, hi * p + k, c * WORD);
  }

  lemma ShlWordSum(hi: int, lo: int, p: int, k: int, c: int)
    requires lo * p == k * WORD + c
    ensures Wide(hi, lo) * (WORD * p) == (hi * p + k) * TOP + c * WORD
  {
    calc {
      Wide(hi, lo) * (WORD * p);
      (hi * WORD + lo) * p * WORD;
      { assert (hi * WORD + lo) * p == hi * p * WORD + lo * p; }
      (hi * p * WORD + (k * WORD + c)) * WORD;
    }
  }

  lemma ShlAll(v: nat, n: nat)
    requires n >= 128
    ensures v * Pow2(n) % TOP == 0
  {
    PowWord();
    PowAdd(128, n - 128);
    assert v * (TOP * Pow2(n - 128)) == v * Pow2(n - 128) * TOP;
    DivUnique(v * Pow2(n), TOP, v * Pow2(n - 128), 0);
  }

  // ---------- single bits ----------

  /** Bit `n` of a number. */
  function BitOf(v: nat, n: nat): (b: nat)
    ensures b <= 1
  {
    Dropped(v, n) % 2
  }

  lemma BitOfHalves(hi: uint64, lo: uint64, n: nat)
    ensures n < 64 ==> BitOf(Wide(hi, lo), n) == BitOf(lo, n)
    ensures 64 <= n < 128 ==> BitOf(Wide(hi, lo), n) == BitOf(hi, n - 64)
    ensures n >= 128 ==> BitOf(Wide(hi, lo), n) == 0
  {
    DroppedIsDiv(Wide(hi, lo), n);
    if n < 64 {
      DroppedIsDiv(lo, n);
      LowHalfBit(hi, lo, n);
    } else if n < 128 {
      DroppedIsDiv(hi, n - 64);
      ShrWord(hi, lo, n);
    } else {
      ShrAll(hi, lo, n);
    }
  }

  lemma LowHalfBit(hi: uint64, lo: uint64, n: nat)
    requires n < 64
    ensures Wide(hi, lo) / Pow2(n) % 2 == lo / Pow2(n) % 2
  {
    var p, p' := Pow2(n), Pow2(63 - n);
    assert p * (2 * p') == WORD by {
      SplitWord(n);
    }
    var k := hi * p';
    assert Wide(hi, lo) == (k * 2 + lo / p) * p + lo % p by {
      assert hi * (p * (2 * p')) == k * 2 * p;
      assert lo == lo / p * p + lo % p;
    }
    DivUnique(Wide(hi, lo), p, k * 2 + lo / p, lo % p);
    ModPlus(lo / p, k, 2);
  }

  /** A bit test looks at one bit. */
  lemma BitTest(w: uint64, n: nat)
    requires n < 64
    ensures And(w, Pow2(n)) != 0 <==> BitOf(w, n) == 1
  {
    AndBit(w, n);
    DroppedIsDiv(w, n);
  }

  lemma WordBit(n: nat)
    requires n < 64
    ensures 1 <= Pow2(n) < WORD
  {
    PowWord();
    PowGrows(n + 1, 64);
  }

  lemma SetBitFits(w: uint64, n: nat)
    requires n < 64
    ensures Or(w, Pow2(n)) < WORD
  {
    OrBit(w, n);
    DroppedIsDiv(w, n);
    if BitOf(w, n) == 0 {
      var p, p' := Pow2(n), Pow2(63 - n);
      assert p * (2 * p') == WORD by {
        SplitWord(n);
      }
      EvenQuotient(w, p, p');
    }
  }

  lemma EvenQuotient(w: nat, p: nat, p': nat)
    requires p > 0 && p' > 0 && w < p * (2 * p') && w / p % 2 == 0
    ensures w + p < p * (2 * p')
  {
    DivBelow(w, p, 2 * p');
    assert w / p <= 2 * p' - 2;
    TimesKeepsOrder(w / p, 2 * p' - 2, p);
    assert w == w / p * p + w % p;
    assert (2 * p' - 2) * p == p * (2 * p') - 2 * p;
  }

  lemma AndFits(w: uint64, n: nat)
    requires n < 64
    ensures 0 <= WORD - 1 - Pow2(n) && And(w, WORD - 1 - Pow2(n)) < WORD
    ensures And(w, WORD - 1 - Pow2(n)) == if BitOf(w, n) == 1 then w - Pow2(n) else w
  {
    PowWord();
    WordBit(n);
    AndNotBit(w, n, 64);
    DroppedIsDiv(w, n);
  }
}
