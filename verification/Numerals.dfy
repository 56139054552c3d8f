/** The text form of 128-bit numbers: what `Uint128::toString` prints and what `Uint128::set` makes of a text. */
module Numerals {
  import opened Words
  import opened Wrappers

  // ---------- printing ----------

  /** A digit; letters are upper-case. */
  function DigitChar(d: nat): char
    requires d < 37
  {
    if d > 9 then (d + 'A' as int - 10) as char else (d + '0' as int) as char
  }

  predicate ValidRadix(radix: int)
  {
    2 <= radix <= 37
  }

  function Digits(n: nat, radix: nat): (s: string)
    requires ValidRadix(radix)
    ensures s == "" <==> n == 0
  {
    if n == 0 then "" else Digits(n / radix, radix) + [DigitChar(n % radix)]
  }

  function Printed(n: nat, radix: int): string
  {
    if n == 0 then "0" else if !ValidRadix(radix) then "(invalid radix)" else Digits(n, radix)
  }

  // ---------- reading ----------

  /** The digit that a character stands for, if the parser takes it as one. Letters are taken up to the one whose value
      is the radix itself; '8' is taken as an octal digit. */
  function DigitOf(c: char, radix: nat): Option<nat>
  {
    if '0' <= c <= '9' then
      if radix == 8 && c >= '9' then None else Some(c as int - '0' as int)
    else if 'a' <= c && c as int <= 'a' as int + radix - 10 then Some(c as int - 'a' as int + 10)
    else if 'A' <= c && c as int <= 'A' as int + radix - 10 then Some(c as int - 'A' as int + 10)
    else None
  }

  /** The number after reading `s` with `v` read so far: reading stops at the first other character, and the number
      wraps. */
  function Read(v: nat, s: string, radix: nat): (r: nat)
    requires v < TOP
    ensures r < TOP
    decreases |s|
  {
    if s == "" || DigitOf(s[0], radix).None? then v
    else Read((v * radix % TOP + DigitOf(s[0], radix).value) % TOP, s[1..], radix)
  }

  datatype Layout = Layout(minus: bool, radix: nat, digits: string)

  /** A text is an optional '-', an optional prefix, and digits: "0x" is for hexadecimal, "0" for octal. */
  function LayoutOf(sz: string): Layout
  {
    var minus := sz != "" && sz[0] == '-';
    var s := if minus then sz[1..] else sz;
    if s == "" || s[0] != '0' then Layout(minus, 10, s)
    else if |s| > 1 && s[1] == 'x' then Layout(minus, 16, s[2..])
    else Layout(minus, 8, s[1..])
  }

  function Parsed(sz: string): nat
  {
    var l := LayoutOf(sz);
    var v := Read(0, l.digits, l.radix);
    if l.minus then (0 - v) % TOP else v
  }

  // ---------- parsing undoes printing ----------

  ghost predicate AllRead(s: string, radix: nat)
  {
    forall i :: 0 <= i < |s| ==> DigitOf(s[i], radix).Some?
  }

  lemma DigitIsRead(d: nat, radix: nat)
    requires ValidRadix(radix) && d < radix
    ensures DigitOf(DigitChar(d), radix) == Some(d)
  {
  }

  lemma {:induction false} ReadAppend(v: nat, s: string, c: char, radix: nat)
    requires v < TOP && AllRead(s, radix) && DigitOf(c, radix).Some?
    ensures Read(v, s + [c], radix) == (Read(v, s, radix) * radix % TOP + DigitOf(c, radix).value) % TOP
    decreases |s|
  {
    if s == "" {
      assert [c][1..] == "";
      assert "" + [c] == [c];
    } else {
      assert (s + [c])[1..] == s[1..] + [c];
      ReadAppend((v * radix % TOP + DigitOf(s[0], radix).value) % TOP, s[1..], c, radix);
    }
  }

  /** Reading the digits of a number in any valid radix gives the number. */
  lemma SmallMod(x: int)
    requires 0 <= x < TOP
    ensures x % TOP == x
  {
    DivUnique(x, TOP, 0, x);
  }

  lemma {:induction false} DigitsRead(n: nat, radix: nat)
    requires ValidRadix(radix) && n < TOP
    ensures AllRead(Digits(n, radix), radix) && Read(0, Digits(n, radix), radix) == n
    decreases n
  {
    if n > 0 {
      var q, d := n / radix, n % radix;
      Quotient(n, radix);
      DigitsRead(q, radix);
      DigitIsRead(d, radix);
      ReadAppend(0, Digits(q, radix), DigitChar(d), radix);
      SmallMod(q * radix);
      SmallMod(n);
    }
  }

  lemma Quotient(n: nat, radix: nat)
    requires radix >= 2 && n > 0
    ensures n == n / radix * radix + n % radix && n / radix < n && n / radix * radix <= n
    ensures 0 <= n % radix < radix && n / radix <= n / 2
  {
    var q := n / radix;
    assert q * radix >= q * 2 by {
      assert q * (radix - 2) >= 0;
    }
  }

  predicate Plain(c: char)
  {
    c != '0' && c != '-' && c != 'x'
  }

  lemma DigitIsPlain(d: nat)
    requires 0 < d < 37
    ensures Plain(DigitChar(d))
  {
  }

  /** The first digit of a number other than 0 is not '0', so it is not mistaken for a prefix. */
  lemma {:induction false} NoLeadingZero(n: nat, radix: nat)
    requires ValidRadix(radix) && n > 0
    ensures Plain(Digits(n, radix)[0])
    decreases n
  {
    var q, d := n / radix, n % radix;
    Quotient(n, radix);
    if q > 0 {
      NoLeadingZero(q, radix);
      FirstOfSum(Digits(q, radix), DigitChar(d));
    } else {
      DigitIsPlain(d);
      assert Digits(q, radix) == "";
    }
  }

  lemma FirstOfSum(s: string, c: char)
    requires s != ""
    ensures (s + [c])[0] == s[0]
  {
  }

  lemma DecimalRoundTrip(n: nat)
    requires n < TOP
    ensures Parsed(Printed(n, 10)) == n
    ensures Parsed("-" + Printed(n, 10)) == (0 - n) % TOP
  {
    var s := Printed(n, 10);
    assert ("-" + s)[1..] == s;
    if n == 0 {
      assert s[1..] == "";
    } else {
      NoLeadingZero(n, 10);
      DigitsRead(n, 10);
    }
  }

  lemma PrefixedRoundTrip(n: nat)
    requires n < TOP
    ensures Parsed("0x" + Printed(n, 16)) == n
    ensures Parsed("0" + Printed(n, 8)) == n
  {
    var hex, oct := Printed(n, 16), Printed(n, 8);
    assert ("0x" + hex)[2..] == hex && ("0" + oct)[1..] == oct;
    if n == 0 {
      assert DigitOf('0', 16) == Some(0) && DigitOf('0', 8) == Some(0);
      assert hex[1..] == "";
      assert 0 * 16 % TOP == 0 && 0 * 8 % TOP == 0 && 0 % TOP == 0;
      assert Read(0, "", 16) == 0 && Read(0, "", 8) == 0;
    } else {
      NoLeadingZero(n, 8);
      DigitsRead(n, 16);
      DigitsRead(n, 8);
    }
  }

  /** A '-' in front of a text that has none negates it, with or without a prefix. */
  lemma {:induction false} MinusNegates(s: string)
    requires s == "" || s[0] != '-'
    ensures Parsed("-" + s) == (0 - Parsed(s)) % TOP
  {
    assert ("-" + s)[1..] == s;
  }

  // ---------- the digits ----------

  /** The characters printed for the digits 0 to 36. */
  lemma DigitTable(d: nat)
    requires d < 37
    ensures DigitChar(d) == "0123456789ABCDEFGHIJKLMNOPQRSTUVWXYZ["[d]
  {
  }

  /** The characters read as digits below the radix, in lower and in upper case. */
  lemma {:induction false} ReadTable(c: char, radix: nat, d: nat)
    requires radix in {8, 10, 16} && d < radix
    ensures DigitOf(c, radix) == Some(d) <==> c == "0123456789abcdef"[d] || c == "0123456789ABCDEF"[d]
  {
  }

  function LowerChar(c: char): char
  {
    if 'A' <= c <= 'Z' then (c as int + 32) as char else c
  }

  function Lower(s: string): (r: string)
    ensures |r| == |s| && forall i :: 0 <= i < |s| ==> r[i] == LowerChar(s[i])
  {
    if s == "" then "" else [LowerChar(s[0])] + Lower(s[1..])
  }

  /** Upper-case and lower-case letters are read alike. */
  lemma {:induction false} LowerCaseRead(v: nat, s: string, radix: nat)
    requires v < TOP && radix in {8, 10, 16}
    ensures Read(v, Lower(s), radix) == Read(v, s, radix)
    decreases |s|
  {
    if s != "" {
      assert DigitOf(LowerChar(s[0]), radix) == DigitOf(s[0], radix);
      assert Lower(s)[1..] == Lower(s[1..]);
      if DigitOf(s[0], radix).Some? {
        LowerCaseRead((v * radix % TOP + DigitOf(s[0], radix).value) % TOP, s[1..], radix);
      }
    }
  }

  /** So a number printed in hexadecimal can be read back in lower case as well. */
  lemma {:induction false} LowerCaseRoundTrip(n: nat)
    requires n < TOP
    ensures Parsed("0x" + Lower(Printed(n, 16))) == n
  {
    var hex := Printed(n, 16);
    PrefixedRoundTrip(n);
    assert ("0x" + hex)[2..] == hex && ("0x" + Lower(hex))[2..] == Lower(hex);
    LowerCaseRead(0, hex, 16);
  }

  /** A number below 2^128 has at most 128 digits. */
  lemma FewerBits(n: nat, radix: nat, k: nat)
    requires ValidRadix(radix) && 0 < n < Pow2(k)
    ensures k > 0 && n / radix < Pow2(k - 1)
  {
    Quotient(n, radix);
  }

  // ---------- digits beyond the radix ----------

  /** The radixes that `set` reads. */
  predicate ReadRadix(radix: nat)
  {
    radix == 8 || radix == 10 || radix == 16
  }

  /** A character that is taken as a digit although it stands for the radix itself. */
  predicate IsExcess(c: char, radix: nat)
  {
    match radix
    case 8 => c == '8'
    case 10 => c == 'a' || c == 'A'
    case 16 => c == 'g' || c == 'G'
    case _ => false
  }

  lemma ExcessDigits(c: char, radix: nat)
    requires ReadRadix(radix) && DigitOf(c, radix).Some?
    ensures DigitOf(c, radix).value >= radix <==> IsExcess(c, radix)
    ensures IsExcess(c, radix) ==> DigitOf(c, radix).value == radix
  {
  }

  predicate IsProper(c: char, radix: nat)
  {
    DigitOf(c, radix).Some? && DigitOf(c, radix).value < radix
  }

  /** How many characters `s` starts with that are digits below the radix. */
  function ProperRun(s: string, radix: nat): (n: nat)
    ensures n <= |s| && (n < |s| ==> !IsProper(s[n], radix))
  {
    if s == "" || !IsProper(s[0], radix) then 0 else 1 + ProperRun(s[1..], radix)
  }

  /** How many characters of `s` are read. */
  function ReadRun(s: string, radix: nat): (n: nat)
    ensures n <= |s| && forall i :: 0 <= i < n ==> DigitOf(s[i], radix).Some?
  {
    if s == "" || DigitOf(s[0], radix).None? then 0 else 1 + ReadRun(s[1..], radix)
  }

  /** The number that digits stand for, of any size, after `v`. */
  function Number(v: nat, s: string, radix: nat): nat
    requires AllRead(s, radix)
    decreases |s|
  {
    if s == "" then v else Number(v * radix + DigitOf(s[0], radix).value, s[1..], radix)
  }

  function Power(b: nat, n: nat): nat
  {
    if n == 0 then 1 else b * Power(b, n - 1)
  }

  /** The first digit counts for its value times the power of the radix that its place stands for. */
  lemma {:induction false} FirstDigitCounts(v: nat, s: string, radix: nat)
    requires AllRead(s, radix)
    ensures Number(v, s, radix) == v * Power(radix, |s|) + Number(0, s, radix)
    decreases |s|
  {
    if s != "" {
      var d, rest := DigitOf(s[0], radix).value, s[1..];
      FirstDigitCounts(v * radix + d, rest, radix);
      FirstDigitCounts(d, rest, radix);
      Places(v, radix, d, Power(radix, |rest|));
    }
  }

  lemma Places(v: nat, radix: nat, d: nat, p: nat)
    ensures (v * radix + d) * p == v * (radix * p) + d * p
  {
  }

  /** Reading wraps only what the digits stand for. */
  lemma {:induction false} ReadIsNumber(v: nat, s: string, radix: nat)
    ensures Read(v % TOP, s, radix) == Number(v, s[..ReadRun(s, radix)], radix) % TOP
    decreases |s|
  {
    var n := ReadRun(s, radix);
    if n == 0 {
      assert s[..n] == "";
    } else {
      var d := DigitOf(s[0], radix).value;
      assert s[..n][1..] == s[1..][..n - 1];
      WrappedStep(v, radix, d);
      ReadIsNumber(v * radix + d, s[1..], radix);
    }
  }

  lemma WrappedStep(v: nat, radix: nat, d: nat)
    ensures (v % TOP * radix % TOP + d) % TOP == (v * radix + d) % TOP
  {
    ModTimes(v, radix, TOP);
    ModSum(v * radix, d, TOP);
  }

  lemma {:induction false} ProperRunIsRead(s: string, radix: nat)
    ensures ProperRun(s, radix) <= ReadRun(s, radix)
    ensures forall i :: 0 <= i < ProperRun(s, radix) ==> IsProper(s[i], radix)
    ensures ProperRun(s, radix) < ReadRun(s, radix) ==> DigitOf(s[ProperRun(s, radix)], radix).Some?
    ensures ProperRun(s, radix) == ReadRun(s, radix) < |s| ==> DigitOf(s[ReadRun(s, radix)], radix).None?
    decreases |s|
  {
    if s != "" && IsProper(s[0], radix) {
      ProperRunIsRead(s[1..], radix);
    }
  }

  lemma {:induction false} NumberGrows(v: nat, s: string, radix: nat)
    requires radix >= 1 && AllRead(s, radix)
    ensures Number(v, s, radix) >= v
    decreases |s|
  {
    if s != "" {
      var w := v * radix + DigitOf(s[0], radix).value;
      TimesAtLeastOne(v, radix);
      NumberGrows(w, s[1..], radix);
    }
  }

  lemma {:induction false} NumberInParts(v: nat, s: string, k: nat, radix: nat)
    requires AllRead(s, radix) && k <= |s|
    ensures AllRead(s[..k], radix) && AllRead(s[k..], radix)
    ensures Number(v, s, radix) == Number(Number(v, s[..k], radix), s[k..], radix)
    decreases k
  {
    if k == 0 {
      assert s[..k] == "" && s[k..] == s;
    } else {
      assert s[1..][..k - 1] == s[..k][1..] && s[1..][k - 1..] == s[k..];
      NumberInParts(v * radix + DigitOf(s[0], radix).value, s[1..], k - 1, radix);
    }
  }

  /** The value of the proper digits that `s` starts with. */
  ghost function ProperValue(s: string, radix: nat): nat
  {
    ProperRunIsRead(s, radix);
    Number(0, s[..ProperRun(s, radix)], radix)
  }

  /** The value of all characters that are read. */
  ghost function ReadValue(s: string, radix: nat): nat
  {
    Number(0, s[..ReadRun(s, radix)], radix)
  }

  /** The proper digits are followed by a character that is taken as a digit although it is none in this radix. */
  predicate ExcessFollows(s: string, radix: nat)
  {
    var n := ProperRun(s, radix);
    n < |s| && IsExcess(s[n], radix)
  }

  /** More than the proper digits is read exactly when such a character follows them, and then the value is larger. */
  lemma ReadsMoreIffExcess(s: string, radix: nat)
    requires ReadRadix(radix)
    ensures ReadValue(s, radix) == ProperValue(s, radix) <==> !ExcessFollows(s, radix)
    ensures ReadValue(s, radix) >= ProperValue(s, radix)
  {
    var k, n := ProperRun(s, radix), ReadRun(s, radix);
    ProperRunIsRead(s, radix);
    if k < n {
      var r := s[..n];
      assert r[..k] == s[..k] && r[k..][0] == s[k];
      ExcessDigits(s[k], radix);
      NumberInParts(0, r, k, radix);
      var p := ProperValue(s, radix);
      TimesAtLeastOne(p, radix);
      NumberGrows(p * radix + DigitOf(s[k], radix).value, r[k..][1..], radix);
    } else if k < |s| {
      NoneIsNoExcess(s[k], radix);
    }
  }

  lemma NoneIsNoExcess(c: char, radix: nat)
    requires ReadRadix(radix) && DigitOf(c, radix).None?
    ensures !IsExcess(c, radix)
  {
  }

  function Signed(minus: bool, v: int): int
  {
    if minus then -v else v
  }

  /** What `set` makes of any text: the value of all that is read, modulo 2^128. */
  lemma ParsedIsReadValue(sz: string)
    ensures var l := LayoutOf(sz); Parsed(sz) == Signed(l.minus, ReadValue(l.digits, l.radix)) % TOP
  {
    var l := LayoutOf(sz);
    assert 0 % TOP == 0;
    ReadIsNumber(0, l.digits, l.radix);
    NegatedRemainder(ReadValue(l.digits, l.radix));
  }

  lemma NegatedRemainder(v: nat)
    ensures (0 - v % TOP) % TOP == (0 - v) % TOP
  {
    assert 0 - v % TOP == 0 - v + v / TOP * TOP;
    ModPlus(0 - v, v / TOP, TOP);
  }

  /** Exactly when the result is the value of the proper digits modulo 2^128, for every text: when they are not followed
      by a character that only the parser takes as a digit, or when the surplus is a multiple of 2^128. */
  lemma SetReadsProperDigitsIff(sz: string)
    ensures var l := LayoutOf(sz);
      var proper, read := ProperValue(l.digits, l.radix), ReadValue(l.digits, l.radix);
      Parsed(sz) == Signed(l.minus, proper) % TOP <==> !ExcessFollows(l.digits, l.radix) || (read - proper) % TOP == 0
  {
    var l := LayoutOf(sz);
    ParsedIsReadValue(sz);
    ReadsMoreIffExcess(l.digits, l.radix);
    SignedRemainders(l.minus, ReadValue(l.digits, l.radix), ProperValue(l.digits, l.radix));
  }

  lemma SignedRemainders(minus: bool, x: int, y: int)
    ensures Signed(minus, x) % TOP == Signed(minus, y) % TOP <==> (x - y) % TOP == 0
    ensures x == y ==> (x - y) % TOP == 0
  {
    SameRemainder(x, y, TOP);
    NegatedMultiple(x - y);
    SameRemainder(0 - x, 0 - y, TOP);
    assert 0 - x - (0 - y) == y - x;
  }

  lemma NegatedMultiple(x: int)
    ensures x % TOP == 0 <==> (0 - x) % TOP == 0
  {
    SameRemainder(x, 0, TOP);
    SameRemainder(0, x, TOP);
  }

  lemma SameRemainder(x: int, y: int, m: int)
    requires m > 0
    ensures x % m == y % m <==> (x - y) % m == 0
  {
    var k := x / m - y / m;
    assert x - y == k * m + (x % m - y % m);
    if x % m == y % m {
      DivUnique(x - y, m, k, 0);
    } else if x % m > y % m {
      DivUnique(x - y, m, k, x % m - y % m);
    } else {
      assert (k - 1) * m == k * m - m;
      DivUnique(x - y, m, k - 1, x % m - y % m + m);
    }
  }

  /** Without wrapping there is no coincidence: a following character of this kind always changes the value. */
  lemma SetReadsProperDigitsIffSmall(sz: string)
    requires ReadValue(LayoutOf(sz).digits, LayoutOf(sz).radix) < TOP
    ensures var l := LayoutOf(sz);
      Parsed(sz) == Signed(l.minus, ProperValue(l.digits, l.radix)) % TOP <==> !ExcessFollows(l.digits, l.radix)
  {
    var l := LayoutOf(sz);
    var proper, read := ProperValue(l.digits, l.radix), ReadValue(l.digits, l.radix);
    SetReadsProperDigitsIff(sz);
    ReadsMoreIffExcess(l.digits, l.radix);
    DivUnique(read - proper, TOP, 0, read - proper);
  }

  lemma SmallProduct(v: nat, radix: nat, d: nat)
    requires v < 100 && radix <= 16 && d <= 16
    ensures (v * radix % TOP + d) % TOP == v * radix + d
  {
    var x := v * radix;
    assert 0 <= x <= 16 * v by {
      assert v * (16 - radix) >= 0;
    }
    TopValue();
    DivUnique(x, TOP, 0, x);
    DivUnique(x + d, TOP, 0, x + d);
  }

  /** Small numbers do not wrap. */
  lemma {:induction false} ReadSmall(s: string, c: char, radix: nat)
    requires AllRead(s, radix) && DigitOf(c, radix).Some? && Read(0, s, radix) < 100 && radix <= 16
    ensures Read(0, s + [c], radix) == Read(0, s, radix) * radix + DigitOf(c, radix).value
  {
    ReadAppend(0, s, c, radix);
    SmallProduct(Read(0, s, radix), radix, DigitOf(c, radix).value);
  }

  /** 'a' is taken as a decimal digit: "1a" is 20. */
  lemma DecimalExcess()
    ensures Parsed("1a") == 20
  {
    ReadSmall("", '1', 10);
    ReadSmall("1", 'a', 10);
    assert "" + ['1'] == "1" && "1" + ['a'] == "1a";
    assert LayoutOf("1a") == Layout(false, 10, "1a");
  }

  /** '8' is taken as an octal digit. */
  lemma OctalExcess()
    ensures Parsed("08") == 8
  {
    ReadSmall("", '8', 8);
    assert "" + ['8'] == "8" && "08"[1..] == "8";
    assert LayoutOf("08") == Layout(false, 8, "8");
  }

  /** 'g' is taken as a hexadecimal digit. */
  lemma HexadecimalExcess()
    ensures Parsed("0xg") == 16
  {
    ReadSmall("", 'g', 16);
    assert "" + ['g'] == "g" && "0xg"[2..] == "g";
    assert LayoutOf("0xg") == Layout(false, 16, "g");
  }

  lemma {:induction false} DigitsAreProper(n: nat, radix: nat)
    requires ValidRadix(radix)
    ensures forall i :: 0 <= i < |Digits(n, radix)| ==> IsProper(Digits(n, radix)[i], radix)
    decreases n
  {
    if n > 0 {
      Quotient(n, radix);
      DigitsAreProper(n / radix, radix);
      DigitIsRead(n % radix, radix);
    }
  }

  lemma {:induction false} ProperRunOf(s: string, c: char, radix: nat)
    requires (forall i :: 0 <= i < |s| ==> IsProper(s[i], radix)) && !IsProper(c, radix)
    ensures ProperRun(s + [c], radix) == |s|
    decreases |s|
  {
    if s == "" {
      assert "" + [c] == [c];
    } else {
      assert (s + [c])[1..] == s[1..] + [c];
      ProperRunOf(s[1..], c, radix);
    }
  }

  /** A printed number with an 'a' behind it is read as ten times the number and ten, modulo 2^128. */
  lemma PrintedWithExcess(n: nat)
    requires 0 < n < TOP
    ensures var sz := Printed(n, 10) + "a";
      LayoutOf(sz) == Layout(false, 10, sz) && ExcessFollows(sz, 10) && Parsed(sz) == (n * 10 + 10) % TOP
  {
    var digits := Digits(n, 10);
    NoLeadingZero(n, 10);
    assert (digits + ['a'])[0] == digits[0];
    DigitsAreProper(n, 10);
    ProperRunOf(digits, 'a', 10);
    DigitsRead(n, 10);
    ReadAppend(0, digits, 'a', 10);
    ModSum(n * 10, 10, TOP);
  }

  /** The surplus can be a multiple of 2^128: there is a number that, printed with an 'a' behind it, is read as
      itself. */
  lemma WrappedExcess()
    ensures var n := 264664063160729916027069139113597497798;
      ExcessFollows(Printed(n, 10) + "a", 10) && Parsed(Printed(n, 10) + "a") == n
  {
    var n := 264664063160729916027069139113597497798;
    assert n * 10 + 10 == n + 7 * 0x1_0000_0000_0000_0000_0000_0000_0000_0000;
    TopValue();
    PrintedWithExcess(n);
    ModPlus(n, 7, TOP);
    DivUnique(n, TOP, 0, n);
  }

  lemma TopValue()
    ensures TOP == 0x1_0000_0000_0000_0000_0000_0000_0000_0000
  {
  }
}
