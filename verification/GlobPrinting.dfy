/** Pattern text for pattern elements, and the round trip: reading the text gives the elements back. */
module GlobPrinting {
  import opened Globs
  import opened GlobSyntax
  import opened GlobProperties
  import opened Wrappers

  // ---------- numbers ----------

  function Digit(d: nat): char
    requires d < 10
  {
    ('0' as int + d) as char
  }

  function Decimal(n: nat): (s: string)
    ensures s != "" && forall i :: 0 <= i < |s| ==> IsDigit(s[i])
  {
    if n < 10 then [Digit(n)] else Decimal(n / 10) + [Digit(n % 10)]
  }

  lemma {:induction false} DecimalRead(n: nat)
    ensures DigitsValue(Decimal(n)) == n
    decreases n
  {
    var s := Decimal(n);
    if n < 10 {
      assert s[..0] == "" && DigitsValue("") == 0;
    } else {
      DecimalRead(n / 10);
      assert s[..|s| - 1] == Decimal(n / 10);
    }
  }

  /** A bound of a range; -1 stands for none. */
  function BoundText(n: int): (s: string)
    requires n >= -1
    ensures forall i :: 0 <= i < |s| ==> IsDigit(s[i])
  {
    if n == -1 then "" else Decimal(n)
  }

  lemma BoundRead(n: int)
    requires -1 <= n <= LONG_MAX
    ensures Bound(BoundText(n)) == n
  {
    if n >= 0 {
      DecimalRead(n);
    }
  }

  lemma {:induction false} DigitRunOf(digits: string, t: string)
    requires forall i :: 0 <= i < |digits| ==> IsDigit(digits[i])
    requires t != "" && !IsDigit(t[0])
    ensures DigitRun(digits + t) == |digits|
    decreases |digits|
  {
    if digits == "" {
      assert digits + t == t;
    } else {
      assert (digits + t)[1..] == digits[1..] + t;
      DigitRunOf(digits[1..], t);
    }
  }

  lemma Parts(a: string, b: string)
    ensures (a + b)[..|a|] == a && (a + b)[|a|..] == b
  {
  }

  lemma {:induction false} RangeRead(lo: int, up: int, rest: string)
    requires -1 <= lo <= LONG_MAX && -1 <= up <= LONG_MAX && rest != "" && rest[0] == '}'
    ensures NumRangeAt(BoundText(lo) + (".." + (BoundText(up) + rest)), '}') == Some(Range(lo, up, rest))
  {
    var a, b := BoundText(lo), BoundText(up);
    var s2 := b + rest;
    var s1 := ".." + s2;
    DigitRunOf(a, s1);
    Parts(a, s1);
    assert s1[2..] == s2;
    DigitRunOf(b, rest);
    Parts(b, rest);
    BoundRead(lo);
    BoundRead(up);
  }

  // ---------- sets ----------

  /** Each pair as a range. */
  function PairsText(cs: string): string
    requires |cs| % 2 == 0
  {
    if cs == "" then "" else [cs[0], '-', cs[1]] + PairsText(cs[2..])
  }

  /** A '}' cannot end a range, and can begin only the first one. */
  predicate PairsPrintable(cs: string, first: bool)
    requires |cs| % 2 == 0
  {
    cs == "" || ((first || cs[0] != '}') && cs[1] != '}' && PairsPrintable(cs[2..], false))
  }

  lemma {:induction false} SetRead(cs: string, first: bool, rest: string)
    requires |cs| % 2 == 0 && PairsPrintable(cs, first) && (first ==> cs != "")
    ensures SetAt(PairsText(cs) + ("}" + rest), first) == CharSet(cs, rest)
    decreases |cs|
  {
    var tail := "}" + rest;
    if cs == "" {
      assert PairsText(cs) + tail == tail && tail[1..] == rest;
    } else {
      var more := PairsText(cs[2..]) + tail;
      Regroup([cs[0], '-', cs[1]], PairsText(cs[2..]), tail);
      SetRead(cs[2..], false, rest);
      PairRead(cs[0], cs[1], more, first);
      assert [cs[0], cs[1]] + cs[2..] == cs;
    }
  }

  lemma Regroup(a: string, b: string, c: string)
    ensures a + b + c == a + (b + c)
  {
  }

  lemma {:induction false} PairRead(a: char, b: char, more: string, first: bool)
    requires (first || a != '}') && b != '}'
    ensures SetAt([a, '-', b] + more, first) ==
      var c := SetAt(more, false); if c.Unmatched? then Unmatched else CharSet([a, b] + c.chars, c.rest)
  {
    var s := [a, '-', b] + more;
    assert s[3..] == more;
  }

  /** A pair is not mistaken for a numeric range. */
  lemma {:induction false} PairIsNoRange(a: char, b: char, more: string)
    ensures NumRangeAt([a, '-', b] + more, '}').None?
  {
    var s := [a, '-', b] + more;
    assert DigitRun(s) <= 1 by {
      assert s[1] == '-' && !IsDigit(s[1]);
    }
    assert DigitRun(s) == 1 ==> s[1..][0] == '-';
    assert DigitRun(s) == 0 ==> s[0..] == s && s[1] == '-';
  }

  // ---------- elements ----------

  predicate PairsOfSet(cs: string)
  {
    |cs| % 2 == 0 && cs != "" && PairsPrintable(cs, true)
  }

  predicate Printable(e: Elem, dottedpath: bool)
  {
    match e
    case LiteralString(l) => l != ""
    case AnyChar => !dottedpath
    case CommonChar => dottedpath
    case Set(cs) => PairsOfSet(cs) && cs[0] != '^'
    case NegSet(cs) => PairsOfSet(cs)
    case NumRange(lo, up) => -1 <= lo <= LONG_MAX && -1 <= up <= LONG_MAX
    case AnySeq => true
    case CommonSeq => dottedpath
    case End => false
  }

  /** Two literals in a row would be read as one, and a "*" before another one as "**". */
  predicate MayFollow(e: Elem, next: Elem)
  {
    && !(e.LiteralString? && next.LiteralString?)
    && !(e.CommonSeq? && (next.AnySeq? || next.CommonSeq?))
  }

  predicate AllPrintable(es: seq<Elem>, dottedpath: bool)
  {
    es == [] ||
    (Printable(es[0], dottedpath) && (|es| > 1 ==> MayFollow(es[0], es[1])) && AllPrintable(es[1..], dottedpath))
  }

  function Text(e: Elem, dottedpath: bool): (s: string)
    requires Printable(e, dottedpath)
  {
    match e
    case LiteralString(l) => EscapeAll(l)
    case AnyChar => "?"
    case CommonChar => "?"
    case Set(cs) => "{" + PairsText(cs) + "}"
    case NegSet(cs) => "{^" + PairsText(cs) + "}"
    case NumRange(lo, up) => "{" + BoundText(lo) + ".." + BoundText(up) + "}"
    case AnySeq => "**"
    case CommonSeq => "*"
  }

  function PatternText(es: seq<Elem>, dottedpath: bool): string
    requires AllPrintable(es, dottedpath)
  {
    if es == [] then "" else Text(es[0], dottedpath) + PatternText(es[1..], dottedpath)
  }

  /** What may come after the text of `e`. */
  predicate Ends(e: Elem, rest: string)
  {
    rest == "" || ((e.LiteralString? ==> StopsLiteral(rest[0])) && (e.CommonSeq? ==> rest[0] != '*'))
  }

  lemma {:induction false} LiteralRead(l: string, rest: string)
    requires rest == "" || StopsLiteral(rest[0])
    ensures LiteralAt(EscapeAll(l) + rest) == Literal(l, rest)
    decreases |l|
  {
    if l == "" {
      assert EscapeAll(l) + rest == rest;
    } else {
      var more := EscapeAll(l[1..]) + rest;
      Regroup(['\\', l[0]], EscapeAll(l[1..]), rest);
      LiteralRead(l[1..], rest);
      NoRangeBefore(more);
      EscapedStep(l[0], more);
      assert [l[0]] + l[1..] == l;
    }
  }

  lemma NoRangeBefore(s: string)
    requires s == "" || s[0] == '\\' || StopsLiteral(s[0])
    ensures NumRangeAt(s, ']').None?
  {
  }

  lemma {:induction false} LiteralTokenRead(l: string, rest: string, afterLiteral: bool, dottedpath: bool)
    requires l != "" && (rest == "" || StopsLiteral(rest[0]))
    ensures EscapeAll(l) + rest != ""
    ensures TokenAt(EscapeAll(l) + rest, afterLiteral, dottedpath) == Token(LiteralString(l), rest)
  {
    LiteralRead(l, rest);
    assert (EscapeAll(l) + rest)[0] == '\\';
  }

  lemma {:induction false} RangeTokenRead(lo: int, up: int, rest: string, afterLiteral: bool, dottedpath: bool)
    requires -1 <= lo <= LONG_MAX && -1 <= up <= LONG_MAX
    ensures TokenAt("{" + BoundText(lo) + ".." + BoundText(up) + "}" + rest, afterLiteral, dottedpath) ==
      Token(NumRange(lo, up), rest)
  {
    var a, b, tail := BoundText(lo), BoundText(up), "}" + rest;
    var body := a + (".." + (b + tail));
    assert "{" + a + ".." + b + "}" + rest == "{" + body;
    assert ("{" + body)[1..] == body && tail[1..] == rest;
    RangeRead(lo, up, tail);
  }

  lemma {:induction false} BraceToken(body: string, afterLiteral: bool, dottedpath: bool)
    requires NumRangeAt(body, '}').None? && body != ""
    ensures var tk := TokenAt("{" + body, afterLiteral, dottedpath);
      if body[0] == '^' then
        SetAt(body[1..], true).CharSet? ==>
          tk == Token(NegSet(SetAt(body[1..], true).chars), SetAt(body[1..], true).rest)
      else SetAt(body, true).CharSet? ==> tk == Token(Set(SetAt(body, true).chars), SetAt(body, true).rest)
  {
    assert ("{" + body)[1..] == body && ("{" + body)[2..] == body[1..];
  }

  /** The text of a set begins with the first pair. */
  lemma {:induction false} SetText(cs: string, rest: string)
    requires PairsOfSet(cs)
    ensures var body := PairsText(cs) + ("}" + rest);
      body != "" && body[0] == cs[0] && NumRangeAt(body, '}').None?
  {
    Regroup([cs[0], '-', cs[1]], PairsText(cs[2..]), "}" + rest);
    PairIsNoRange(cs[0], cs[1], PairsText(cs[2..]) + ("}" + rest));
  }

  lemma {:induction false} SetTokenRead(cs: string, rest: string, afterLiteral: bool, dottedpath: bool)
    requires PairsOfSet(cs) && cs[0] != '^'
    ensures TokenAt("{" + PairsText(cs) + "}" + rest, afterLiteral, dottedpath) == Token(Set(cs), rest)
  {
    var body := PairsText(cs) + ("}" + rest);
    assert "{" + PairsText(cs) + "}" + rest == "{" + body;
    SetText(cs, rest);
    SetRead(cs, true, rest);
    BraceToken(body, afterLiteral, dottedpath);
  }

  lemma {:induction false} NegSetTokenRead(cs: string, rest: string, afterLiteral: bool, dottedpath: bool)
    requires PairsOfSet(cs)
    ensures TokenAt("{^" + PairsText(cs) + "}" + rest, afterLiteral, dottedpath) == Token(NegSet(cs), rest)
  {
    var body := PairsText(cs) + ("}" + rest);
    RegroupNegated(PairsText(cs), rest);
    CaretIsNoRange(body);
    SetRead(cs, true, rest);
    BraceToken("^" + body, afterLiteral, dottedpath);
  }

  lemma RegroupNegated(pairs: string, rest: string)
    ensures "{^" + pairs + "}" + rest == "{" + ("^" + (pairs + ("}" + rest)))
    ensures ("^" + (pairs + ("}" + rest)))[1..] == pairs + ("}" + rest)
  {
  }

  lemma {:induction false} CaretIsNoRange(body: string)
    ensures NumRangeAt("^" + body, '}').None?
  {
    assert ("^" + body)[0..] == "^" + body;
  }

  lemma {:induction false} ElementRead(e: Elem, rest: string, afterLiteral: bool, dottedpath: bool)
    requires Printable(e, dottedpath) && Ends(e, rest)
    ensures Text(e, dottedpath) + rest != ""
    ensures TokenAt(Text(e, dottedpath) + rest, afterLiteral, dottedpath) == Token(e, rest)
  {
    var s := Text(e, dottedpath) + rest;
    match e
    case LiteralString(l) => LiteralTokenRead(l, rest, afterLiteral, dottedpath);
    case Set(cs) => SetTokenRead(cs, rest, afterLiteral, dottedpath);
    case NegSet(cs) => NegSetTokenRead(cs, rest, afterLiteral, dottedpath);
    case NumRange(lo, up) => RangeTokenRead(lo, up, rest, afterLiteral, dottedpath);
    case AnySeq => assert s[2..] == rest;
    case AnyChar => assert s[1..] == rest;
    case CommonChar => assert s[1..] == rest;
    case CommonSeq => assert s[1..] == rest;
    case End =>
  }

  /** The text of the next element does not run into the text before it. */
  lemma {:induction false} NextStarts(e: Elem, es: seq<Elem>, dottedpath: bool)
    requires AllPrintable(es, dottedpath) && (es != [] ==> MayFollow(e, es[0]))
    ensures Ends(e, PatternText(es, dottedpath))
  {
    if es != [] {
      TextStarts(es[0], dottedpath);
      assert PatternText(es, dottedpath)[0] == Text(es[0], dottedpath)[0];
    }
  }

  lemma {:induction false} TextStarts(e: Elem, dottedpath: bool)
    requires Printable(e, dottedpath)
    ensures Text(e, dottedpath) != ""
    ensures !e.LiteralString? ==> StopsLiteral(Text(e, dottedpath)[0])
    ensures Text(e, dottedpath)[0] == '*' <==> e.AnySeq? || e.CommonSeq?
  {
  }

  /** Reading the text of any printable elements gives the elements. */
  lemma {:induction false} PatternRoundTrip(es: seq<Elem>, afterLiteral: bool, dottedpath: bool)
    requires AllPrintable(es, dottedpath)
    ensures TokensOf(PatternText(es, dottedpath), afterLiteral, dottedpath) == Tokens(es)
    decreases |es|
  {
    if es != [] {
      var e, rest := es[0], PatternText(es[1..], dottedpath);
      NextStarts(e, es[1..], dottedpath);
      ElementRead(e, rest, afterLiteral, dottedpath);
      PatternRoundTrip(es[1..], e.LiteralString?, dottedpath);
      assert [e] + es[1..] == es;
    }
  }
}
