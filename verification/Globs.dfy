/** The language of `PatternMatcher` patterns: pattern elements, what text each of them consumes, and what it means for
    a text to match. Texts are C strings: sequences of characters without NUL. */
module Globs {

  datatype Elem =
    | LiteralString(literal: string)
    | AnyChar
    | CommonChar                      // any character except '.'
    | Set(chars: string)              // pairs of characters, each the two ends of a range
    | NegSet(chars: string)
    | NumRange(lo: int, up: int)      // -1: unset
    | AnySeq                          // "**"
    | CommonSeq                       // "*": any characters except '.'
    | End

  const LONG_MAX: int := 0x7fff_ffff_ffff_ffff

  predicate IsDigit(c: char)
  {
    '0' <= c <= '9'
  }

  ghost predicate AllDigits(s: string)
  {
    forall i :: 0 <= i < |s| ==> IsDigit(s[i])
  }

  function DigitsValue(s: string): (n: int)
    requires forall i :: 0 <= i < |s| ==> IsDigit(s[i])
    ensures n >= 0
  {
    if s == "" then 0
    else
      var d := s[|s| - 1];
      assert IsDigit(d);
      10 * DigitsValue(s[..|s| - 1]) + (d as int - '0' as int)
  }

  /** `atol` of a run of digits; it saturates. */
  function AtoL(s: string): (n: int)
    requires forall i :: 0 <= i < |s| ==> IsDigit(s[i])
    ensures 0 <= n <= LONG_MAX
  {
    var n := DigitsValue(s);
    if n <= LONG_MAX then n else LONG_MAX
  }

  /** The order of C++ `char`, which is signed. */
  function Signed(c: char): int
  {
    if c as int < 128 then c as int else c as int - 256
  }

  ghost predicate InSet(c: char, chars: string)
  {
    exists k :: 0 <= k && 2 * k + 1 < |chars| && Signed(chars[2 * k]) <= Signed(c) <= Signed(chars[2 * k + 1])
  }

  predicate InRange(e: Elem, n: int)
    requires e.NumRange?
  {
    !(e.lo >= 0 && n < e.lo) && !(e.up >= 0 && n > e.up)
  }

  /** Element `e` can consume exactly `t[i..j]`. */
  ghost predicate Consumes(e: Elem, t: string, i: nat, j: nat)
    requires i <= j <= |t|
  {
    match e
    case LiteralString(l) => t[i..j] == l
    case AnyChar => j == i + 1
    case CommonChar => j == i + 1 && t[i] != '.'
    case Set(cs) => j == i + 1 && InSet(t[i], cs)
    case NegSet(cs) => j == i + 1 && !InSet(t[i], cs)
    case NumRange(_, _) =>
      i < j && AllDigits(t[i..j]) && (j < |t| ==> !IsDigit(t[j])) && InRange(e, AtoL(t[i..j]))
    case AnySeq => true
    case CommonSeq => '.' !in t[i..j]
    case End => i == j == |t|
  }

  ghost predicate Consumable(e: Elem, t: string, i: nat, j: nat)
  {
    i <= j <= |t| && Consumes(e, t, i, j)
  }

  ghost predicate Piece(es: seq<Elem>, t: string, cut: seq<nat>, k: nat)
    requires k < |es| && |cut| == |es| + 1
  {
    Consumable(es[k], t, cut[k], cut[k + 1])
  }

  /** `cut` splits `t[i..j]` into one piece for each element. */
  ghost predicate IsCut(es: seq<Elem>, t: string, i: nat, j: nat, cut: seq<nat>)
  {
    && |cut| == |es| + 1 && cut[0] == i && cut[|es|] == j && j <= |t|
    && forall k :: 0 <= k < |es| ==> Piece(es, t, cut, k)
  }

  ghost predicate Span(es: seq<Elem>, t: string, i: nat, j: nat)
  {
    exists cut :: IsCut(es, t, i, j, cut)
  }

  /** The elements match the text: it can be cut into pieces that they consume one by one. */
  ghost predicate Matches(es: seq<Elem>, t: string)
  {
    Span(es, t, 0, |t|)
  }

  // ---------- the same, element by element ----------

  ghost predicate MatchFrom(es: seq<Elem>, k: nat, t: string, i: nat)
    requires k <= |es|
    decreases |es| - k
  {
    if k == |es| then i == |t|
    else exists j: nat :: Consumable(es[k], t, i, j) && MatchFrom(es, k + 1, t, j)
  }

  lemma SpanNil(t: string, i: nat, j: nat)
    ensures Span([], t, i, j) <==> i == j <= |t|
  {
    if i == j <= |t| {
      assert IsCut([], t, i, j, [i]);
    }
  }

  lemma SpanCons(e: Elem, es: seq<Elem>, t: string, i: nat, j: nat)
    ensures Span([e] + es, t, i, j) <==> exists m: nat :: Consumable(e, t, i, m) && Span(es, t, m, j)
  {
    var es' := [e] + es;
    assert es'[1..] == es;
    forall cut | IsCut(es', t, i, j, cut) ensures exists m: nat :: Consumable(e, t, i, m) && Span(es, t, m, j) {
      assert Piece(es', t, cut, 0);
      forall k | 0 <= k < |es| ensures Piece(es, t, cut[1..], k) {
        assert Piece(es', t, cut, k + 1);
      }
      assert IsCut(es, t, cut[1], j, cut[1..]);
    }
    forall m: nat, rest | Consumable(e, t, i, m) && IsCut(es, t, m, j, rest) ensures Span(es', t, i, j) {
      var cut := [i] + rest;
      forall k | 0 <= k < |es'| ensures Piece(es', t, cut, k) {
        assert k > 0 ==> Piece(es, t, rest, k - 1);
      }
      assert IsCut(es', t, i, j, cut);
    }
  }

  lemma {:induction false} SpanConcat(a: seq<Elem>, b: seq<Elem>, t: string, i: nat, j: nat)
    ensures Span(a + b, t, i, j) <==> exists m: nat :: Span(a, t, i, m) && Span(b, t, m, j)
    decreases |a|
  {
    if a == [] {
      assert a + b == b;
      forall m: nat ensures Span(a, t, i, m) <==> i == m <= |t| {
        SpanNil(t, i, m);
      }
      if Span(b, t, i, j) {
        var cut :| IsCut(b, t, i, j, cut);
        CutIsOrdered(b, t, i, j, cut);
      }
    } else {
      assert a == [a[0]] + a[1..] && a + b == [a[0]] + (a[1..] + b);
      SpanCons(a[0], a[1..] + b, t, i, j);
      forall m: nat ensures Span(a, t, i, m) <==> exists l: nat :: Consumable(a[0], t, i, l) && Span(a[1..], t, l, m) {
        SpanCons(a[0], a[1..], t, i, m);
      }
      forall l: nat
        ensures Span(a[1..] + b, t, l, j) <==> exists m: nat :: Span(a[1..], t, l, m) && Span(b, t, m, j)
      {
        SpanConcat(a[1..], b, t, l, j);
      }
    }
  }

  lemma {:induction false} CutIsOrdered(es: seq<Elem>, t: string, i: nat, j: nat, cut: seq<nat>)
    requires IsCut(es, t, i, j, cut)
    ensures i <= j <= |t|
    decreases |es|
  {
    if es != [] {
      assert Piece(es, t, cut, 0);
      forall k | 0 <= k < |es| - 1 ensures Piece(es[1..], t, cut[1..], k) {
        assert Piece(es, t, cut, k + 1);
      }
      CutIsOrdered(es[1..], t, cut[1], j, cut[1..]);
    }
  }

  lemma {:induction false} MatchFromIsSpan(es: seq<Elem>, k: nat, t: string, i: nat)
    requires k <= |es|
    ensures MatchFrom(es, k, t, i) <==> Span(es[k..], t, i, |t|)
    decreases |es| - k
  {
    if k == |es| {
      assert es[k..] == [];
      SpanNil(t, i, |t|);
    } else {
      assert es[k..] == [es[k]] + es[k + 1..];
      SpanCons(es[k], es[k + 1..], t, i, |t|);
      var next := k + 1;
      forall j: nat ensures MatchFrom(es, next, t, j) <==> Span(es[next..], t, j, |t|) {
        MatchFromIsSpan(es, next, t, j);
      }
    }
  }

  lemma MatchesIsMatchFrom(es: seq<Elem>, t: string)
    ensures Matches(es, t) <==> MatchFrom(es, 0, t, 0)
  {
    MatchFromIsSpan(es, 0, t, 0);
    assert es[0..] == es;
  }

  /** When at most one piece can be consumed here, the match goes on after it or fails. */
  lemma OnlyPiece(es: seq<Elem>, k: nat, t: string, i: nat, j: nat)
    requires k < |es| && forall j': nat :: Consumable(es[k], t, i, j') ==> j' == j
    ensures MatchFrom(es, k, t, i) <==> Consumable(es[k], t, i, j) && MatchFrom(es, k + 1, t, j)
  {
  }

  /** A match that ends in a literal, before the end marker, ends with the text of that literal. */
  lemma LastLiteral(es: seq<Elem>, t: string)
    requires |es| >= 2 && es[|es| - 1] == End && es[|es| - 2].LiteralString? && Matches(es, t)
    ensures var l := es[|es| - 2].literal; |l| <= |t| && t[|t| - |l|..] == l
  {
    var cut :| IsCut(es, t, 0, |t|, cut);
    var n := |es|;
    assert Piece(es, t, cut, n - 1) && Piece(es, t, cut, n - 2);
    assert t[cut[n - 2]..cut[n - 1]] == es[n - 2].literal;
  }
}
