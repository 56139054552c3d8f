/** What the documented forms of patterns match, in full-string mode: for each form, exactly which texts. */
module GlobMeanings {
  import opened Globs
  import opened GlobSyntax
  import opened GlobProperties
  import opened GlobPrinting
  import opened Wrappers

  /** The pattern can be read, and the text matches it as a whole. */
  ghost predicate FullMatch(p: string, dottedpath: bool, t: string)
  {
    var ts := TokensOf(p, false, dottedpath);
    ts.Tokens? && Matches(Completed(ts.elems, true), t)
  }

  lemma {:induction false} SpanOne(e: Elem, t: string)
    ensures Span([e], t, 0, |t|) <==> Consumable(e, t, 0, |t|)
  {
    SpanCons(e, [], t, 0, |t|);
    assert [e] + [] == [e];
    forall m: nat ensures Span([], t, m, |t|) <==> m == |t| {
      SpanNil(t, m, |t|);
    }
  }

  /** A pattern of one element matches what the element can consume. */
  lemma {:induction false} OneToken(p: string, dottedpath: bool, e: Elem, t: string)
    requires p != "" && TokenAt(p, false, dottedpath) == Token(e, "")
    ensures FullMatch(p, dottedpath, t) <==> Consumable(e, t, 0, |t|)
  {
    assert TokensOf("", e.LiteralString?, dottedpath) == Tokens([]);
    assert [e] + [] == [e];
    assert TokensOf(p, false, dottedpath) == Tokens([e]);
    CompletedMatches([e], t);
    SpanOne(e, t);
  }

  // ---------- "?", "*" and "**" ----------

  lemma {:induction false} QuestionMark(dottedpath: bool, t: string)
    ensures FullMatch("?", dottedpath, t) <==> |t| == 1 && (dottedpath ==> t != ".")
  {
    assert "?"[1..] == "";
    OneToken("?", dottedpath, if dottedpath then CommonChar else AnyChar, t);
    assert |t| == 1 ==> t == [t[0]];
  }

  lemma {:induction false} Star(dottedpath: bool, t: string)
    ensures FullMatch("*", dottedpath, t) <==> (dottedpath ==> '.' !in t)
  {
    assert "*"[1..] == "";
    OneToken("*", dottedpath, if dottedpath then CommonSeq else AnySeq, t);
    assert t[0..|t|] == t;
  }

  lemma {:induction false} DoubleStar(dottedpath: bool, t: string)
    ensures FullMatch("**", dottedpath, t)
  {
    assert "**"[2..] == "";
    OneToken("**", dottedpath, AnySeq, t);
  }

  // ---------- sets ----------

  /** What a character in the text of a set is there for. */
  datatype Role = Alone | Low | Dash | High

  /** From left to right: a character with a '-' and another one behind it is the low end of a range, and these two are
      its dash and its high end; all others stand alone. */
  function RoleAt(body: string, i: nat): Role
    requires i < |body|
  {
    if i > 0 && RoleAt(body, i - 1) == Low then Dash
    else if i > 0 && RoleAt(body, i - 1) == Dash then High
    else if i + 2 < |body| && body[i + 1] == '-' then Low
    else Alone
  }

  ghost predicate AcceptsAt(body: string, i: nat, c: char)
    requires i < |body|
  {
    match RoleAt(body, i)
    case Alone => c == body[i]
    case Low => i + 2 < |body| && Signed(body[i]) <= Signed(c) <= Signed(body[i + 2])
    case _ => false
  }

  /** The set holds the characters that stand alone and those in its ranges. */
  ghost predicate InSetText(body: string, c: char)
  {
    AcceptsFrom(body, 0, c)
  }

  ghost predicate AcceptsFrom(body: string, i: nat, c: char)
  {
    exists j: nat :: i <= j < |body| && AcceptsAt(body, j, c)
  }

  /** The text between the braces of a set: a '}' can only come first. */
  predicate SetBody(body: string)
  {
    body != "" && '}' !in body[1..]
  }

  /** C characters. */
  ghost predicate Bytes(s: string)
  {
    forall i :: 0 <= i < |s| ==> s[i] as int < 256
  }

  lemma InSetCons(a: char, b: char, cs: string, c: char)
    ensures InSet(c, [a, b] + cs) <==> Signed(a) <= Signed(c) <= Signed(b) || InSet(c, cs)
  {
    var all := [a, b] + cs;
    if Signed(a) <= Signed(c) <= Signed(b) {
      assert all[2 * 0] == a && all[2 * 0 + 1] == b;
    }
    if k :| 0 <= k && 2 * k + 1 < |cs| && Signed(cs[2 * k]) <= Signed(c) <= Signed(cs[2 * k + 1]) {
      assert all[2 * (k + 1)] == cs[2 * k] && all[2 * (k + 1) + 1] == cs[2 * k + 1];
    }
    if k :| 0 <= k && 2 * k + 1 < |all| && Signed(all[2 * k]) <= Signed(c) <= Signed(all[2 * k + 1]) {
      if k > 0 {
        assert all[2 * k] == cs[2 * (k - 1)] && all[2 * k + 1] == cs[2 * (k - 1) + 1];
      }
    }
  }

  /** An item of a set begins at `i`, or the set ends there. */
  ghost predicate ItemBegins(body: string, i: nat)
  {
    i == |body| || (i < |body| && RoleAt(body, i) in {Alone, Low})
  }

  lemma {:induction false} NextItem(body: string, i: nat)
    requires i < |body| && ItemBegins(body, i)
    ensures RoleAt(body, i) == Alone ==> ItemBegins(body, i + 1)
    ensures RoleAt(body, i) == Low ==>
      i + 2 < |body| && RoleAt(body, i + 1) == Dash && RoleAt(body, i + 2) == High && ItemBegins(body, i + 3)
  {
  }

  lemma {:induction false} OneMoreItem(body: string, i: nat, c: char)
    requires i < |body| && ItemBegins(body, i)
    ensures AcceptsFrom(body, i, c) <==>
      AcceptsAt(body, i, c) || AcceptsFrom(body, i + if RoleAt(body, i) == Low then 3 else 1, c)
  {
    NextItem(body, i);
    var next := i + if RoleAt(body, i) == Low then 3 else 1;
    forall j: nat | i < j < next && j < |body| ensures !AcceptsAt(body, j, c) {
      assert j == i + 1 || j == i + 2;
    }
  }

  /** The parser finds these items. */
  lemma {:induction false} ItemsRead(body: string, i: nat, rest: string, c: char)
    requires SetBody(body) && i <= |body| && ItemBegins(body, i) && Bytes(body) && c as int < 256
    ensures var read := SetAt(body[i..] + ("}" + rest), i == 0);
      read.CharSet? && read.rest == rest && (InSet(c, read.chars) <==> AcceptsFrom(body, i, c))
    decreases |body| - i
  {
    var s := body[i..] + ("}" + rest);
    if i == |body| {
      assert s == "}" + rest && s[1..] == rest;
    } else {
      NextItem(body, i);
      OneMoreItem(body, i, c);
      if RoleAt(body, i) == Low {
        assert s[1] == body[i + 1] && s[2] == body[i + 2] == body[1..][i + 1];
        assert s[3..] == body[i + 3..] + ("}" + rest);
        ItemsRead(body, i + 3, rest, c);
        InSetCons(body[i], body[i + 2], SetAt(s[3..], false).chars, c);
      } else {
        AloneIsNoRange(body, i, rest);
        assert s[1..] == body[i + 1..] + ("}" + rest);
        ItemsRead(body, i + 1, rest, c);
        InSetCons(body[i], body[i], SetAt(s[1..], false).chars, c);
      }
      assert i > 0 ==> body[i] == body[1..][i - 1];
    }
  }

  lemma {:induction false} AloneIsNoRange(body: string, i: nat, rest: string)
    requires i < |body| && RoleAt(body, i) == Alone
    ensures var s := body[i..] + ("}" + rest); !(|s| > 2 && s[1] == '-' && s[2] != '}')
  {
    var s := body[i..] + ("}" + rest);
    if i + 1 < |body| {
      assert s[1] == body[i + 1];
    }
  }

  /** "n..m": digits, two dots, digits. */
  ghost predicate RangeText(s: string)
  {
    exists i: nat :: SplitsAsRange(s, i)
  }

  ghost predicate SplitsAsRange(s: string, i: nat)
  {
    i + 2 <= |s| && AllDigits(s[..i]) && s[i] == '.' && s[i + 1] == '.' && AllDigits(s[i + 2..])
  }

  /** In braces, only such texts are numeric ranges. */
  lemma {:induction false} BraceHoldsRange(body: string, rest: string)
    requires SetBody(body) && NumRangeAt(body + ("}" + rest), '}').Some?
    ensures RangeText(body)
  {
    var u := body + ("}" + rest);
    var a := DigitRun(u);
    RangeFillsBraces(body, rest);
    SplitsAt(body, "}" + rest, a, DigitRun(u[a..][2..]));
  }

  lemma {:induction false} SplitsAt(body: string, rest: string, a: nat, b: nat)
    requires a + 2 + b == |body| && TwoDots((body + rest)[a..])
    requires forall i :: 0 <= i < a ==> IsDigit((body + rest)[i])
    requires forall i :: 0 <= i < b ==> IsDigit((body + rest)[a..][2..][i])
    ensures SplitsAsRange(body, a)
  {
    var u, tail := body + rest, body[a + 2..];
    assert forall i :: 0 <= i < a ==> body[i] == u[i];
    assert body[a] == u[a..][0] && body[a + 1] == u[a..][1];
    forall i | 0 <= i < |tail| ensures IsDigit(tail[i]) {
      assert tail[i] == u[a..][2..][i];
    }
  }

  /** The range ends at the brace that closes the text. */
  lemma {:induction false} RangeFillsBraces(body: string, rest: string)
    requires SetBody(body) && NumRangeAt(body + ("}" + rest), '}').Some?
    ensures var u := body + ("}" + rest);
      var a := DigitRun(u);
      a + 2 <= |u| && a + 2 + DigitRun(u[a..][2..]) == |body|
  {
    var u := body + ("}" + rest);
    var r := NumRangeAt(u, '}').value.rest;
    RangeIsPlain(u, '}');
    var n := |u| - |r|;
    assert u[n] == '}';
    forall k | 1 <= k < |body| ensures u[k] != '}' {
      assert u[k] == body[1..][k - 1];
    }
    assert u[|body|] == '}';
  }

  /** A set in braces matches the characters in it. */
  lemma {:induction false} SetMatches(body: string, dottedpath: bool, t: string)
    requires SetBody(body) && Bytes(body) && Bytes(t) && body[0] != '^' && !RangeText(body)
    ensures FullMatch("{" + body + "}", dottedpath, t) <==> |t| == 1 && InSetText(body, t[0])
  {
    var p, inside := "{" + body + "}", body + ("}" + "");
    assert p == "{" + inside && inside[0] == body[0];
    if NumRangeAt(inside, '}').Some? {
      BraceHoldsRange(body, "");
    }
    assert body[0..] == body;
    var c := if t == "" then 'x' else t[0];
    ItemsRead(body, 0, "", c);
    BraceToken(inside, false, dottedpath);
    OneToken(p, dottedpath, Set(SetAt(inside, true).chars), t);
  }

  /** With a '^' first it matches all other characters. */
  lemma {:induction false} NegatedSetMatches(body: string, dottedpath: bool, t: string)
    requires SetBody(body) && Bytes(body) && Bytes(t)
    ensures FullMatch("{^" + body + "}", dottedpath, t) <==> |t| == 1 && !InSetText(body, t[0])
  {
    var p, inside := "{^" + body + "}", body + ("}" + "");
    RegroupNegated(body, "");
    assert p + "" == p;
    CaretIsNoRange(inside);
    assert body[0..] == body;
    var c := if t == "" then 'x' else t[0];
    ItemsRead(body, 0, "", c);
    BraceToken("^" + inside, false, dottedpath);
    OneToken(p, dottedpath, NegSet(SetAt(inside, true).chars), t);
  }

  /** For example, "{xyzc-f}" is the set of x, y, z and c to f. */
  lemma {:induction false} SetExample(dottedpath: bool, c: char)
    requires c as int < 256
    ensures FullMatch("{xyzc-f}", dottedpath, [c]) <==> c in "xyzcdef"
  {
    assert "{" + "xyzc-f" + "}" == "{xyzc-f}";
    ExampleIsSet();
    ExampleItems(c);
    SetMatches("xyzc-f", dottedpath, [c]);
  }

  lemma {:induction false} ExampleIsSet()
    ensures SetBody("xyzc-f") && Bytes("xyzc-f") && !RangeText("xyzc-f")
  {
    var body := "xyzc-f";
    forall i: nat ensures !SplitsAsRange(body, i) {
      assert i + 2 <= |body| ==> body[i] != '.';
    }
  }

  lemma {:induction false} ExampleItems(c: char)
    requires c as int < 256
    ensures InSetText("xyzc-f", c) <==> c in "xyzcdef"
  {
    var body := "xyzc-f";
    assert RoleAt(body, 0) == RoleAt(body, 1) == RoleAt(body, 2) == Alone;
    assert RoleAt(body, 3) == Low && RoleAt(body, 4) == Dash && RoleAt(body, 5) == High;
    if c in "xyzcdef" {
      var j := if c == 'x' then 0 else if c == 'y' then 1 else if c == 'z' then 2 else 3;
      assert AcceptsAt(body, j, c);
    }
  }

  // ---------- numeric ranges ----------

  /** Digits with a value from `x` to `y`; an end that is missing does not bound it. */
  ghost predicate NumberBetween(x: string, y: string, t: string)
    requires AllDigits(x) && AllDigits(y)
  {
    && t != "" && AllDigits(t)
    && (x != "" ==> AtoL(x) <= AtoL(t)) && (y != "" ==> AtoL(t) <= AtoL(y))
  }

  lemma {:induction false} RangeParts(x: string, y: string, closing: char, rest: string)
    requires AllDigits(x) && AllDigits(y) && !IsDigit(closing)
    ensures NumRangeAt(x + (".." + (y + ([closing] + rest))), closing) ==
      Some(Range(Bound(x), Bound(y), [closing] + rest))
  {
    var s2 := y + ([closing] + rest);
    var s1 := ".." + s2;
    DigitRunOf(x, s1);
    Parts(x, s1);
    assert s1[2..] == s2;
    DigitRunOf(y, [closing] + rest);
    Parts(y, [closing] + rest);
  }

  lemma RegroupRange(front: string, x: string, y: string, closing: string)
    ensures front + x + ".." + y + closing == front + (x + (".." + (y + (closing + ""))))
  {
  }

  lemma {:induction false} BraceRangeToken(x: string, y: string, dottedpath: bool)
    requires AllDigits(x) && AllDigits(y)
    ensures TokenAt("{" + (x + (".." + (y + ("}" + "")))), false, dottedpath) == Token(NumRange(Bound(x), Bound(y)), "")
  {
    RangeParts(x, y, '}', "");
    assert "}" + "" == ['}'] + "" == "}";
    InBraces(x + (".." + (y + ("}" + ""))), Bound(x), Bound(y), dottedpath);
  }

  lemma {:induction false} InBraces(inside: string, lo: int, up: int, dottedpath: bool)
    requires NumRangeAt(inside, '}') == Some(Range(lo, up, "}"))
    ensures TokenAt("{" + inside, false, dottedpath) == Token(NumRange(lo, up), "")
  {
    assert ("{" + inside)[1..] == inside && "}"[1..] == "";
  }

  /** "{x..y}" matches the numbers from x to y. */
  lemma {:induction false} RangeMatches(x: string, y: string, dottedpath: bool, t: string)
    requires AllDigits(x) && AllDigits(y)
    ensures FullMatch("{" + x + ".." + y + "}", dottedpath, t) <==> NumberBetween(x, y, t)
  {
    RegroupRange("{", x, y, "}");
    BraceRangeToken(x, y, dottedpath);
    OneToken("{" + x + ".." + y + "}", dottedpath, NumRange(Bound(x), Bound(y)), t);
    assert t[0..|t|] == t;
  }

  /** A text in which nothing is special, in front of brackets. */
  predicate PlainText(l: string)
  {
    forall i :: 0 <= i < |l| ==> !StopsLiteral(l[i]) && l[i] != '\\' && l[i] != '['
  }

  lemma {:induction false} LiteralBeforeRange(l: string, u: string)
    requires PlainText(l) && NumRangeAt(u, ']').Some?
    ensures LiteralAt(l + ("[" + u)) == Literal(l + "[", "[" + u)
    decreases |l|
  {
    if l == "" {
      BracketFirst(u);
      assert l + ("[" + u) == "[" + u && l + "[" == "[";
    } else {
      LiteralBeforeRange(l[1..], u);
      PlainFirst(l, "[" + u, "[");
    }
  }

  lemma {:induction false} BracketFirst(u: string)
    requires NumRangeAt(u, ']').Some?
    ensures LiteralAt("[" + u) == Literal("[", "[" + u)
  {
    assert ("[" + u)[1..] == u;
  }

  lemma {:induction false} PlainFirst(l: string, s: string, read: string)
    requires l != "" && PlainText(l) && LiteralAt(l[1..] + s) == Literal(l[1..] + read, s)
    ensures LiteralAt(l + s) == Literal(l + read, s)
  {
    PlainStep(l[0], l[1..] + s);
    Regrouped(l, s);
    Regrouped(l, read);
  }

  lemma Regrouped(l: string, s: string)
    requires l != ""
    ensures [l[0]] + (l[1..] + s) == l + s
  {
  }

  lemma {:induction false} SpanThree(a: Elem, b: Elem, c: Elem, t: string)
    ensures Span([a, b, c], t, 0, |t|) <==>
      exists i: nat, j: nat :: Consumable(a, t, 0, i) && Consumable(b, t, i, j) && Consumable(c, t, j, |t|)
  {
    assert [a] + [b, c] == [a, b, c] && [b] + [c] == [b, c] && [c] + [] == [c];
    SpanCons(a, [b, c], t, 0, |t|);
    forall i: nat ensures Span([b, c], t, i, |t|) <==>
        exists j: nat :: Consumable(b, t, i, j) && Consumable(c, t, j, |t|)
    {
      SpanCons(b, [c], t, i, |t|);
      forall j: nat ensures Span([c], t, j, |t|) <==> Consumable(c, t, j, |t|) {
        SpanCons(c, [], t, j, |t|);
        forall m: nat ensures Span([], t, m, |t|) <==> m == |t| {
          SpanNil(t, m, |t|);
        }
      }
    }
  }

  lemma {:induction false} BracketElements(l: string, x: string, y: string, dottedpath: bool)
    requires PlainText(l) && AllDigits(x) && AllDigits(y)
    ensures TokensOf(l + "[" + x + ".." + y + "]", false, dottedpath) ==
      Tokens([LiteralString(l + "["), NumRange(Bound(x), Bound(y)), LiteralString("]")])
  {
    var u := x + (".." + (y + ("]" + "")));
    RegroupRange(l + "[", x, y, "]");
    assert l + "[" + u == l + ("[" + u);
    assert "]" + "" == [']'] + "" == "]";
    RangeParts(x, y, ']', "");
    BracketsRead(l, u, Bound(x), Bound(y), dottedpath);
  }

  lemma {:induction false} BracketsRead(l: string, u: string, lo: int, up: int, dottedpath: bool)
    requires PlainText(l) && NumRangeAt(u, ']') == Some(Range(lo, up, "]"))
    ensures TokensOf(l + ("[" + u), false, dottedpath) ==
      Tokens([LiteralString(l + "["), NumRange(lo, up), LiteralString("]")])
  {
    var a, b, c := LiteralString(l + "["), NumRange(lo, up), LiteralString("]");
    LiteralFirst(l, u, dottedpath);
    OneMoreToken(l + ("[" + u), false, dottedpath, a, "[" + u);
    assert TokensOf("[" + u, true, dottedpath) == Tokens([b, c]) by {
      assert ("[" + u)[1..] == u;
      OneMoreToken("[" + u, true, dottedpath, b, "]");
      ClosingBracket(dottedpath);
      assert [b] + [c] == [b, c];
    }
    assert [a] + [b, c] == [a, b, c];
  }

  lemma {:induction false} LiteralFirst(l: string, u: string, dottedpath: bool)
    requires PlainText(l) && NumRangeAt(u, ']').Some?
    ensures TokenAt(l + ("[" + u), false, dottedpath) == Token(LiteralString(l + "["), "[" + u)
  {
    var p := l + ("[" + u);
    LiteralBeforeRange(l, u);
    assert p[0] == if l == "" then '[' else l[0];
  }

  lemma {:induction false} OneMoreToken(s: string, afterLiteral: bool, dottedpath: bool, e: Elem, rest: string)
    requires s != "" && TokenAt(s, afterLiteral, dottedpath) == Token(e, rest)
    ensures TokensOf(s, afterLiteral, dottedpath) == Prepend([e], TokensOf(rest, e.LiteralString?, dottedpath))
  {
  }

  lemma {:induction false} ClosingBracket(dottedpath: bool)
    ensures TokensOf("]", false, dottedpath) == Tokens([LiteralString("]")])
  {
    var p := "]";
    assert p[1..] == "" && LiteralAt("") == Literal("", "");
    assert LiteralAt(p) == Literal("]", "");
    OneMoreToken(p, false, dottedpath, LiteralString("]"), "");
    assert TokensOf("", true, dottedpath) == Tokens([]);
    assert [LiteralString("]")] + [] == [LiteralString("]")];
  }

  /** "node[x..y]" matches "node[n]" for the numbers n from x to y. */
  lemma {:induction false} BracketRangeMatches(l: string, x: string, y: string, dottedpath: bool, t: string)
    requires PlainText(l) && AllDigits(x) && AllDigits(y)
    ensures FullMatch(l + "[" + x + ".." + y + "]", dottedpath, t) <==>
      exists n :: NumberBetween(x, y, n) && t == l + "[" + n + "]"
  {
    var a, b, c := LiteralString(l + "["), NumRange(Bound(x), Bound(y)), LiteralString("]");
    BracketElements(l, x, y, dottedpath);
    CompletedMatches([a, b, c], t);
    SpanThree(a, b, c, t);
    if i: nat, j: nat :| Consumable(a, t, 0, i) && Consumable(b, t, i, j) && Consumable(c, t, j, |t|) {
      assert NumberBetween(x, y, t[i..j]) && t == l + "[" + t[i..j] + "]" by {
        PiecesAreNumber(l, x, y, t, i, j);
      }
    }
    if n :| NumberBetween(x, y, n) && t == l + "[" + n + "]" {
      NumberInPieces(l, x, y, t, n);
      assert Consumable(a, t, 0, |l| + 1) && Consumable(b, t, |l| + 1, |l| + 1 + |n|);
    }
  }

  lemma {:induction false} PiecesAreNumber(l: string, x: string, y: string, t: string, i: nat, j: nat)
    requires AllDigits(x) && AllDigits(y)
    requires Consumable(LiteralString(l + "["), t, 0, i) && Consumable(NumRange(Bound(x), Bound(y)), t, i, j)
    requires Consumable(LiteralString("]"), t, j, |t|)
    ensures NumberBetween(x, y, t[i..j]) && t == l + "[" + t[i..j] + "]"
  {
    assert t == t[0..i] + t[i..j] + t[j..|t|];
  }

  lemma {:induction false} NumberInPieces(l: string, x: string, y: string, t: string, n: string)
    requires AllDigits(x) && AllDigits(y) && NumberBetween(x, y, n) && t == l + "[" + n + "]"
    ensures var i, j := |l| + 1, |l| + 1 + |n|;
      && Consumable(LiteralString(l + "["), t, 0, i) && Consumable(NumRange(Bound(x), Bound(y)), t, i, j)
      && Consumable(LiteralString("]"), t, j, |t|)
  {
    var i, j := |l| + 1, |l| + 1 + |n|;
    assert t[0..i] == l + "[" && t[i..j] == n && t[j..|t|] == "]" && t[j] == ']';
  }
}
