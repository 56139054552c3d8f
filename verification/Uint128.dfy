/** `Uint128`: an unsigned number of 128 bits in two 64-bit fields, changed in place. Each operation is stated about
    the number; the operand may be the object itself. */
module Uint128s {
  import opened Words
  import opened WideWords
  import opened Numerals

  class Uint128 {
    var lo: uint64
    var hi: uint64

    function Value(): (v: nat)
      reads this
      ensures v < TOP
    {
      WideBounds(hi, lo);
      Wide(hi, lo)
    }

    constructor (hi: uint64, lo: uint64)
      ensures Value() == Wide(hi, lo)
    {
      this.hi, this.lo := hi, lo;
    }

    constructor Copy(a: Uint128)
      ensures Value() == a.Value()
    {
      hi, lo := a.hi, a.lo;
    }

    method Assign(a: Uint128)
      modifies this
      ensures Value() == old(a.Value())
    {
      lo := a.lo;
      hi := a.hi;
    }

    predicate IsZero()
      reads this
      ensures IsZero() <==> Value() == 0
    {
      !(hi != 0 || lo != 0)
    }

    predicate Less(b: Uint128)
      reads this, b
      ensures Less(b) <==> Value() < b.Value()
    {
      LessHalves(hi, lo, b.hi, b.lo);
      hi < b.hi || (hi == b.hi && lo < b.lo)
    }

    method AddAssign(b: Uint128)
      modifies this
      ensures Value() == (old(Value()) + old(b.Value())) % TOP
    {
      AddHalves(hi, lo, b.hi, b.lo);
      var oldLo := lo;
      lo := (lo + b.lo) % WORD;
      hi := (hi + b.hi) % WORD;
      if lo < oldLo {
        hi := (hi + 1) % WORD;
      }
    }

    method Negated() returns (r: Uint128)
      ensures fresh(r) && r.Value() == (0 - Value()) % TOP
    {
      NegateHalves(hi, lo);
      if lo == 0 {
        r := new Uint128((0 - hi) % WORD, 0);
      } else {
        r := new Uint128(Not(hi), (0 - lo) % WORD);
      }
    }

    method SubAssign(b: Uint128)
      modifies this
      ensures Value() == (old(Value()) - old(b.Value())) % TOP
    {
      ghost var v: int, w: int := Value(), b.Value();
      var n := b.Negated();
      AddAssign(n);
      ModSum(0 - w, v, TOP);
    }

    // ---------- shifts and bits ----------

    method ShrAssign(n: nat)
      modifies this
      ensures Value() == old(Value()) / Pow2(n)
    {
      if n >= 128 {
        ShrAll(hi, lo, n);
        lo, hi := 0, 0;
        return;
      }
      if n >= 64 {
        ShrWord(hi, lo, n);
        lo := Shr(hi, n - 64);
        hi := 0;
        return;
      }
      if n != 0 {
        ShrHalves(hi, lo, n);
        WordBit(n);
        lo := Shr(lo, n);
        var mask := Pow2(n) - 1;
        lo := Or(lo, Shl(And(hi, mask), 64 - n));
        hi := Shr(hi, n);
      }
    }

    method ShlAssign(n: nat)
      modifies this
      ensures Value() == old(Value()) * Pow2(n) % TOP
    {
      if n >= 128 {
        ShlAll(Value(), n);
        lo, hi := 0, 0;
        return;
      }
      if n >= 64 {
        ShlWord(hi, lo, n);
        hi := Shl(lo, n - 64);
        lo := 0;
        return;
      }
      if n != 0 {
        ShlHalves(hi, lo, n);
        hi := Shl(hi, n);
        var mask := Not(Pow2(64 - n) - 1);
        hi := Or(hi, Shr(And(lo, mask), 64 - n));
        lo := Shl(lo, n);
      }
    }

    method Bit(n: nat) returns (b: bool)
      ensures b <==> BitOf(Value(), n) == 1
    {
      BitOfHalves(hi, lo, n);
      if n < 64 {
        BitTest(lo, n);
        return And(lo, Pow2(n)) != 0;
      }
      if n < 128 {
        BitTest(hi, n - 64);
        return And(hi, Pow2(n - 64)) != 0;
      }
      return false;
    }

    method SetBit(n: nat, val: bool)
      modifies this
      ensures n >= 128 ==> Value() == old(Value())
      ensures n < 128 ==> Value() == WithBit(old(Value()), n, val)
    {
      if n >= 128 {
        return;
      }
      if val {
        if n < 64 {
          SetLowBit(hi, lo, n);
          lo := Or(lo, Pow2(n));
        } else {
          SetHighBit(hi, lo, n);
          hi := Or(hi, Pow2(n - 64));
        }
      } else {
        if n < 64 {
          SetLowBit(hi, lo, n);
          lo := And(lo, Not(Pow2(n)));
        } else {
          SetHighBit(hi, lo, n);
          hi := And(hi, Not(Pow2(n - 64)));
        }
      }
    }

    /** `<<= 1`, then `lo |= 1` if `bit` is set. */
    method ShiftIn(bit: bool)
      requires 2 * Value() + 1 < TOP
      modifies this
      ensures Value() == 2 * old(Value()) + (if bit then 1 else 0)
    {
      ghost var v: int := Value();
      ShlAssign(1);
      ShiftedByOne(v, hi, lo);
      if bit {
        lo := Or(lo, 1);
      }
    }

    // ---------- division ----------

    /** The first loop of `div`: takes in leading bits of the dividend until the remainder reaches the divisor.
        The counter may wrap past 0 on the way; the increment after the loop undoes that. */
    method LeadingBits(ds: Uint128, r: Uint128) returns (b: uint32)
      requires r != this && r != ds && r.Value() == 0
      requires 0 < ds.Value() <= Value()
      modifies r
      ensures b < 128 && ds.Value() <= r.Value() < 2 * ds.Value()
      ensures r.Value() == Dropped(Value(), b)
    {
      b := 127;
      ghost var k := 128;
      ghost var n, d := Value(), ds.Value();
      NoBits(n);
      while r.Less(ds)
        invariant b == (if k == 0 then UINT32 - 1 else k - 1)
        invariant Value() == n && ds.Value() == d
        invariant Leading(n, d, k, r.Value())
        decreases k
      {
        NextLeadingBit(n, d, k, r.Value());
        var bit := Bit(b);
        b := Dec(b);
        k := k - 1;
        r.ShiftIn(bit);
      }
      b := (b + 1) % UINT32;
    }

    /** The second loop of `div`. */
    method RemainingBits(ds: Uint128, r: Uint128, q: Uint128, start: uint32)
      requires r != this && r != ds && q != this && q != ds && q != r
      requires start < 128 && q.Value() == 0 && r.Value() == Dropped(Value(), start) && r.Value() < 2 * ds.Value()
      modifies r, q
      ensures q.Value() == Value() / ds.Value() && r.Value() == Value() % ds.Value()
    {
      var b := start;
      ghost var n, d := Value(), ds.Value();
      ghost var qv: nat, rv: nat, part: nat := 0, r.Value(), 0;
      StartDividing(n, d, b, rv);
      while true
        invariant b < 128 && Value() == n && ds.Value() == d
        invariant q.Value() == qv && r.Value() == rv
        invariant Dividing(n, d, b, qv, rv, part)
        decreases b, rv >= d
      {
        if r.Less(ds) {
          var last := b == 0;
          if last {
            EndDividing(n, d, qv, rv, part);
            b := Dec(b);
            break;
          }
          DivideShift(n, d, b, qv, rv, part);
          b := b - 1;
          var bit := Bit(b);
          r.ShiftIn(bit);
          rv, part := 2 * rv + BitOf(n, b), 2 * part;
        } else {
          DivideSubtract(n, d, b, qv, rv, part);
          r.SubAssign(ds);
          q.SetBit(b, true);
          qv, rv, part := qv + Pow2(b), rv - d, part + 1;
        }
      }
    }

    /** Quotient and remainder. The remainder may be the object itself or the divisor. */
    method Div(ds: Uint128, remainder: Uint128) returns (q: Uint128)
      requires ds.Value() != 0
      modifies remainder
      ensures fresh(q)
      ensures q.Value() == old(Value()) / old(ds.Value())
      ensures remainder.Value() == old(Value()) % old(ds.Value())
    {
      var dd := new Uint128.Copy(this);
      ghost var n, d := dd.Value(), ds.Value();
      if dd.Less(ds) {
        DivUnique(n, d, 0, n);
        remainder.Assign(this);
        q := new Uint128(0, 0);
        return;
      }
      var r := new Uint128(0, 0);
      q := new Uint128(0, 0);
      var b := dd.LeadingBits(ds, r);
      dd.RemainingBits(ds, r, q, b);
      remainder.Assign(r);
    }

    method DivAssign(b: Uint128)
      requires b.Value() != 0
      modifies this
      ensures Value() == old(Value()) / old(b.Value())
    {
      var dummy := new Uint128(0, 0);
      var q := Div(b, dummy);
      Assign(q);
    }

    method ModAssign(b: Uint128)
      requires b.Value() != 0
      modifies this
      ensures Value() == old(Value()) % old(b.Value())
    {
      var _ := Div(b, this);
    }

    // ---------- multiplication ----------

    method MulAssign(b: Uint128)
      modifies this
      ensures Value() == old(Value()) * old(b.Value()) % TOP
    {
      if b.IsZero() {
        lo, hi := 0, 0;
        return;
      }
      if b.hi == 0 && b.lo == 1 {
        DivUnique(Value(), TOP, 0, Value());
        return;
      }
      var a := new Uint128.Copy(this);
      var t := new Uint128.Copy(b);
      ghost var v, w := a.Value(), t.Value();
      lo := 0;
      hi := 0;
      MulStart(v, w);
      for i := 0 to 128
        invariant fresh(a) && fresh(t) && a != t
        invariant a.Value() == v && t.Value() == Dropped(w, i)
        invariant Value() == v * (w % Pow2(i)) % TOP
      {
        ghost var before := Value();
        NextBit(w, i);
        LowBit(t.hi, t.lo, w, i);
        if And(t.lo, 1) != 0 {
          AddShifted(a, i);
        }
        t.ShrAssign(1);
        MulStep(v, w, i, before, Value());
      }
      MulEnd(v, w);
    }

    /** `*this += a << n` */
    method AddShifted(a: Uint128, n: nat)
      modifies this
      ensures Value() == (old(Value()) + old(a.Value()) * Pow2(n) % TOP) % TOP
    {
      var s := new Uint128.Copy(a);
      s.ShlAssign(n);
      AddAssign(s);
    }

    // ---------- text ----------

    /** Prints into a buffer of 256 characters, from the back; the digits always fit. */
    method ToString(radix: uint32) returns (s: string)
      ensures s == Printed(Value(), radix)
    {
      if IsZero() {
        return "0";
      }
      if radix < 2 || radix > 37 {
        return "(invalid radix)";
      }
      var sz := new char[256](_ => '\0');
      var ii := new Uint128.Copy(this);
      var i := ii.PrintInto(sz, radix);
      s := sz[i..255];
    }

    /** The loop of `toString`; the number that is printed is used up. */
    method PrintInto(sz: array<char>, radix: uint32) returns (i: nat)
      requires sz.Length == 256 && ValidRadix(radix)
      modifies this, sz
      ensures i <= 255 && sz[i..255] == Digits(old(Value()), radix)
    {
      var r := new Uint128(0, 0);
      var aux := new Uint128(0, radix);
      i := 255;
      ghost var n := Value();
      ghost var left: nat, tail := n, "";
      StartPrinting(n);
      while !IsZero() && i != 0
        invariant fresh(r) && fresh(aux) && r != aux
        invariant i <= 255 && aux.Value() == radix && Value() == left
        invariant sz[i..255] == tail && Printing(n, radix, left, tail) && HasRoom(left, i)
      {
        PrintOneDigit(n, radix, left, tail);
        StillRoom(left, radix, i);
        var c := TakeOffDigit(aux, r);
        i := i - 1;
        sz[i] := c;
        tail := [c] + tail;
        left := left / radix;
      }
    }

    /** The lowest digit in the radix `aux`, which is then divided off. */
    method TakeOffDigit(aux: Uint128, r: Uint128) returns (c: char)
      requires aux != this && r != this && r != aux && ValidRadix(aux.Value()) && Value() > 0
      modifies this, r
      ensures Value() == old(Value()) / aux.Value() && c == DigitChar(old(Value()) % aux.Value())
    {
      ghost var v, a := Value(), aux.Value();
      var q := Div(aux, r);
      Assign(q);
      SmallRemainder(v, a, r.hi, r.lo);
      var d := r.lo % UINT32;
      assert d == v % a;
      c := (d + (if d > 9 then 'A' as int - 10 else '0' as int)) as char;
    }

    /** Sets the number from a text. */
    method Set(sz: string)
      modifies this
      ensures Value() == Parsed(sz)
    {
      hi := 0;
      lo := 0;
      if sz == "" {
        return;
      }
      var radix: uint32, i := 10, 0;
      var minus := false;
      if sz[i] == '-' {
        i := i + 1;
        minus := true;
      }
      if i < |sz| && sz[i] == '0' {
        radix := 8;
        i := i + 1;
        if i < |sz| && sz[i] == 'x' {
          radix := 16;
          i := i + 1;
        }
      }
      assert LayoutOf(sz) == Layout(minus, radix, sz[i..]);
      ReadDigits(sz, i, radix);
      if minus {
        var zero := new Uint128(0, 0);
        zero.SubAssign(this);
        Assign(zero);
      }
    }

    /** The loop of `set`. */
    method ReadDigits(sz: string, start: nat, radix: uint32)
      requires start <= |sz| && Value() == 0
      modifies this
      ensures Value() == Read(0, sz[start..], radix)
    {
      var i := start;
      while i < |sz|
        invariant start <= i <= |sz|
        invariant Read(Value(), sz[i..], radix) == Read(0, sz[start..], radix)
      {
        var n: uint32 := 0;
        var c := sz[i];
        if c >= '0' && c <= '9' {
          if radix == 8 && c >= '9' {
            break;
          }
          n := c as int - '0' as int;
        } else if c >= 'a' && c as int <= 'a' as int + radix - 10 {
          n := c as int - 'a' as int + 10;
        } else if c >= 'A' && c as int <= 'A' as int + radix - 10 {
          n := c as int - 'A' as int + 10;
        } else {
          break;
        }
        assert sz[i..][1..] == sz[i + 1..];
        TakeDigit(n, radix);
        i := i + 1;
      }
    }

    /** `*= radix`, then `+= n` */
    method TakeDigit(n: uint32, radix: uint32)
      modifies this
      ensures Value() == (old(Value()) * radix % TOP + n) % TOP
    {
      var r := new Uint128(0, radix);
      MulAssign(r);
      var d := new Uint128(0, n);
      AddAssign(d);
    }
  }

  /** Printing `n`: `tail` holds its last digits, `left` is the number that the others stand for. */
  ghost predicate Printing(n: nat, radix: nat, left: nat, tail: string)
    requires ValidRadix(radix)
  {
    Digits(left, radix) + tail == Digits(n, radix)
  }

  lemma PrintOneDigit(n: nat, radix: nat, left: nat, tail: string)
    requires ValidRadix(radix) && left > 0 && Printing(n, radix, left, tail)
    ensures Printing(n, radix, left / radix, [DigitChar(left % radix)] + tail)
  {
    Regroup(Digits(left / radix, radix), DigitChar(left % radix), tail);
  }

  lemma Regroup(front: string, c: char, tail: string)
    ensures front + ([c] + tail) == front + [c] + tail
  {
  }

  /** The buffer has room for one digit for each bit that the rest of the number may have. */
  ghost predicate HasRoom(left: nat, i: int)
  {
    127 <= i && left < Pow2(i - 127)
  }

  lemma StartPrinting(n: nat)
    requires n < TOP
    ensures HasRoom(n, 255)
  {
    PowWord();
  }

  lemma StillRoom(left: nat, radix: nat, i: int)
    requires ValidRadix(radix) && left > 0 && HasRoom(left, i)
    ensures HasRoom(left / radix, i - 1)
  {
    FewerBits(left, radix, i - 127);
  }

  lemma SmallRemainder(v: nat, a: nat, hi: uint64, lo: uint64)
    requires ValidRadix(a) && Wide(hi, lo) == v % a
    ensures lo == lo % UINT32 == v % a < 37
  {
    assert 0 <= v % a < a;
  }

  /** A `uint32_t` counting down; it wraps at 0. */
  function Dec(b: uint32): uint32
  {
    (b - 1) % UINT32
  }

  const UINT32: int := 0x1_0000_0000
  type uint32 = x: int | 0 <= x < UINT32

  /** Looking at one bit less of the dividend: the remainder takes in the next bit, and none is lost at the top. */
  lemma TakeInBit(n: nat, k: nat)
    requires n < TOP && k > 0
    ensures Dropped(n, k - 1) == 2 * Dropped(n, k) + BitOf(n, k - 1)
    ensures 2 * Dropped(n, k) + 1 < TOP
  {
    DropBit(n, k - 1);
    DroppedIsDiv(n, k - 1);
    DroppedIsDiv(n, k);
    DivShrinks(n, Pow2(k - 1));
    assert TOP % 2 == 0;
  }

  /** The remainder consists of the bits of `n` from `k` on; at the start it is 0. */
  ghost predicate Leading(n: nat, d: nat, k: nat, r: nat)
  {
    k <= 128 && r == Dropped(n, k) && r < 2 * d && (k == 128 ==> r < d)
  }

  lemma NextLeadingBit(n: nat, d: nat, k: nat, r: nat)
    requires n < TOP && 0 < d <= n && Leading(n, d, k, r) && r < d
    ensures k > 0 && 2 * r + 1 < TOP
    ensures Leading(n, d, k - 1, 2 * r + BitOf(n, k - 1))
  {
    assert Dropped(n, 0) == n;
    TakeInBit(n, k);
  }

  /** The invariant of the division: with the bits of `n` from `k` on taken in, `part` is the quotient so far. */
  ghost predicate Dividing(n: nat, d: nat, k: nat, q: nat, r: nat, part: nat)
  {
    && Dropped(n, k) == Times(part, d) + r && r < 2 * d
    && q == Times(part, Pow2(k))
    && (r >= d ==> part % 2 == 0)
  }

  lemma StartDividing(n: nat, d: nat, k: nat, r: nat)
    requires r == Dropped(n, k) && r < 2 * d
    ensures Dividing(n, d, k, 0, r, 0)
  {
  }

  lemma DivideShift(n: nat, d: nat, k: nat, q: nat, r: nat, part: nat)
    requires n < TOP && k > 0 && Dividing(n, d, k, q, r, part) && r < d
    ensures 2 * r + 1 < TOP
    ensures Dividing(n, d, k - 1, q, 2 * r + BitOf(n, k - 1), 2 * part)
  {
    TakeInBit(n, k);
    Doubles(part, d);
    TimesIsProduct(part, Pow2(k));
    TimesIsProduct(2 * part, Pow2(k - 1));
  }

  lemma Doubles(a: nat, b: nat)
    ensures Times(2 * a, b) == 2 * Times(a, b)
  {
    TimesIsProduct(a, b);
    TimesIsProduct(2 * a, b);
  }

  lemma DivideSubtract(n: nat, d: nat, k: nat, q: nat, r: nat, part: nat)
    requires r < TOP && Dividing(n, d, k, q, r, part) && r >= d
    ensures (r - d) % TOP == r - d && BitOf(q, k) == 0
    ensures Dividing(n, d, k, q + Pow2(k), r - d, part + 1)
  {
    DivUnique(r - d, TOP, 0, r - d);
    TimesIsProduct(part, Pow2(k));
    DivUnique(q, Pow2(k), part, 0);
    DroppedIsDiv(q, k);
  }

  lemma EndDividing(n: nat, d: nat, q: nat, r: nat, part: nat)
    requires Dividing(n, d, 0, q, r, part) && r < d
    ensures q == n / d && r == n % d
  {
    TimesIsProduct(part, Pow2(0));
    TimesIsProduct(part, d);
    DivUnique(n, d, part, r);
  }

  /** What `SetBit` makes of the number `v`. */
  function WithBit(v: nat, n: nat, val: bool): int
  {
    if BitOf(v, n) == (if val then 1 else 0) then v else if val then v + Pow2(n) else v - Pow2(n)
  }

  lemma SetLowBit(hi: uint64, lo: uint64, n: nat)
    requires n < 64
    ensures Pow2(n) < WORD && Or(lo, Pow2(n)) < WORD && And(lo, Not(Pow2(n))) < WORD
    ensures Wide(hi, Or(lo, Pow2(n))) == WithBit(Wide(hi, lo), n, true)
    ensures Wide(hi, And(lo, Not(Pow2(n)))) == WithBit(Wide(hi, lo), n, false)
  {
    BitOfHalves(hi, lo, n);
    WordBit(n);
    OrBit(lo, n);
    DroppedIsDiv(lo, n);
    SetBitFits(lo, n);
    AndFits(lo, n);
  }

  lemma SetHighBit(hi: uint64, lo: uint64, n: nat)
    requires 64 <= n < 128
    ensures Pow2(n - 64) < WORD && Or(hi, Pow2(n - 64)) < WORD && And(hi, Not(Pow2(n - 64))) < WORD
    ensures Wide(Or(hi, Pow2(n - 64)), lo) == WithBit(Wide(hi, lo), n, true)
    ensures Wide(And(hi, Not(Pow2(n - 64))), lo) == WithBit(Wide(hi, lo), n, false)
  {
    var m := n - 64;
    BitOfHalves(hi, lo, n);
    WordBit(m);
    OrBit(hi, m);
    DroppedIsDiv(hi, m);
    SetBitFits(hi, m);
    AndFits(hi, m);
    assert Pow2(n) == Pow2(m) * WORD by {
      PowWord();
      PowAdd(m, 64);
    }
  }

  lemma ShiftedByOne(v: nat, hi: uint64, lo: uint64)
    requires 2 * v + 1 < TOP && Wide(hi, lo) == v * Pow2(1) % TOP
    ensures Wide(hi, lo) == 2 * v && Or(lo, 1) < WORD && Wide(hi, Or(lo, 1)) == 2 * v + 1
  {
    assert Pow2(1) == 2 && Pow2(0) == 1;
    DivUnique(v * 2, TOP, 0, v * 2);
    assert lo % 2 == 0 by {
      assert WORD % 2 == 0;
    }
    OrBit(lo, 0);
  }

  lemma NoBits(n: nat)
    requires n < TOP
    ensures Dropped(n, 128) == 0
  {
    PowWord();
    DroppedIsDiv(n, 128);
    DivUnique(n, TOP, 0, n);
  }

  lemma LowBit(hi: uint64, lo: uint64, w: nat, i: nat)
    requires Wide(hi, lo) == Dropped(w, i)
    ensures And(lo, 1) != 0 <==> BitOf(w, i) == 1
  {
    BitOfHalves(hi, lo, 0);
    BitTest(lo, 0);
  }

  lemma MulStart(v: nat, w: nat)
    ensures v * (w % Pow2(0)) % TOP == 0
  {
    assert w % 1 == 0;
    assert v * 0 == 0;
  }

  /** Adding `v << i` exactly when bit `i` of `w` is set. */
  lemma MulStep(v: nat, w: nat, i: nat, before: nat, after: nat)
    requires before == v * (w % Pow2(i)) % TOP
    requires after == if BitOf(w, i) == 1 then (before + v * Pow2(i) % TOP) % TOP else before
    ensures after == v * (w % Pow2(i + 1)) % TOP
  {
    DropBit(w, i);
    DroppedIsDiv(w, i);
    if BitOf(w, i) == 1 {
      PartialProduct(v, w % Pow2(i), Pow2(i));
    }
  }

  lemma {:induction false} NextBit(w: nat, i: nat)
    ensures Dropped(w, i) / Pow2(1) == Dropped(w, i + 1)
    decreases i
  {
    assert Pow2(1) == 2;
    if i > 0 {
      NextBit(w / 2, i - 1);
    }
  }

  lemma PartialProduct(v: nat, m: nat, p: nat)
    ensures v * (m + p) % TOP == (v * m % TOP + v * p % TOP) % TOP
  {
    assert v * (m + p) == v * m + v * p;
    ModSum(v * p, v * m % TOP, TOP);
    ModSum(v * m, v * p, TOP);
  }

  lemma MulEnd(v: nat, w: nat)
    requires w < TOP
    ensures v * (w % Pow2(128)) % TOP == v * w % TOP
  {
    PowWord();
    DivUnique(w, TOP, 0, w);
  }
}
