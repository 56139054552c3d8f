/** What `PatternMatcher`'s documentation promises about patterns, and where one promise does not hold. */
module GlobProperties {
  import opened Globs
  import opened GlobSyntax

  // ---------- full-string and substring matching ----------

  lemma SpanEnd(t: string, i: nat, j: nat)
    ensures Span([End], t, i, j) <==> i == j == |t|
  {
    SpanCons(End, [], t, i, j);
    assert [End] + [] == [End];
    SpanNil(t, j, j);
    forall m: nat ensures Span([], t, m, j) <==> m == j <= |t| {
      SpanNil(t, m, j);
    }
    assert i == j == |t| ==> Consumable(End, t, i, i);
  }

  lemma SpanAnySeq(t: string, i: nat, j: nat)
    ensures Span([AnySeq], t, i, j) <==> i <= j <= |t|
  {
    SpanCons(AnySeq, [], t, i, j);
    assert [AnySeq] + [] == [AnySeq];
    forall m: nat ensures Span([], t, m, j) <==> m == j <= |t| {
      SpanNil(t, m, j);
    }
    assert i <= j <= |t| ==> Consumable(AnySeq, t, i, j);
  }

  lemma SpanBounds(es: seq<Elem>, t: string, i: nat, j: nat)
    requires Span(es, t, i, j)
    ensures i <= j <= |t|
  {
    var cut :| IsCut(es, t, i, j, cut);
    CutIsOrdered(es, t, i, j, cut);
  }

  lemma EndMarker(es: seq<Elem>, t: string)
    ensures Matches(es + [End], t) <==> Span(es, t, 0, |t|)
  {
    SpanConcat(es, [End], t, 0, |t|);
    forall m: nat ensures Span([End], t, m, |t|) <==> m == |t| {
      SpanEnd(t, m, |t|);
    }
  }

  /** A "**" at the end lets the match end anywhere. */
  lemma OpenEnd(es: seq<Elem>, t: string, i: nat)
    ensures Span(es + [AnySeq], t, i, |t|) <==> exists j: nat :: Span(es, t, i, j)
  {
    SpanConcat(es, [AnySeq], t, i, |t|);
    forall m: nat | Span(es, t, i, m) ensures Span([AnySeq], t, m, |t|) {
      SpanBounds(es, t, i, m);
      SpanAnySeq(t, m, |t|);
    }
  }

  lemma OpenStart(es: seq<Elem>, t: string, j: nat)
    ensures Span([AnySeq] + es, t, 0, j) <==> exists i: nat :: Span(es, t, i, j)
  {
    SpanConcat([AnySeq], es, t, 0, j);
    forall m: nat | Span(es, t, m, j) ensures Span([AnySeq], t, 0, m) {
      SpanBounds(es, t, m, j);
      SpanAnySeq(t, 0, m);
    }
  }

  /** A "**" that is there already does the same. */
  lemma OpenEndAlready(es: seq<Elem>, t: string, i: nat)
    requires es != [] && es[|es| - 1] == AnySeq
    ensures Span(es, t, i, |t|) <==> exists j: nat :: Span(es, t, i, j)
  {
    var front := es[..|es| - 1];
    assert es == front + [AnySeq];
    OpenEnd(front, t, i);
    forall j: nat | Span(es, t, i, j) ensures exists m: nat :: Span(front, t, i, m) {
      SpanConcat(front, [AnySeq], t, i, j);
    }
  }

  lemma OpenStartAlready(es: seq<Elem>, t: string, j: nat)
    requires es != [] && es[0] == AnySeq
    ensures Span(es, t, 0, j) <==> exists i: nat :: Span(es, t, i, j)
  {
    var rest := es[1..];
    assert es == [AnySeq] + rest;
    OpenStart(rest, t, j);
    forall i: nat | Span(es, t, i, j) ensures exists m: nat :: Span(rest, t, m, j) {
      SpanConcat([AnySeq], rest, t, i, j);
    }
  }

  /** In full-string mode the elements must match the whole text, in substring mode some stretch of it. */
  lemma CompletedMatches(es: seq<Elem>, t: string)
    ensures Matches(Completed(es, true), t) <==> Span(es, t, 0, |t|)
    ensures Matches(Completed(es, false), t) <==> exists i: nat, j: nat :: Span(es, t, i, j)
  {
    EndMarker(es, t);
    var es1 := if es == [] || es[|es| - 1] != AnySeq then es + [AnySeq] else es;
    var es2 := if es1[0] != AnySeq then [AnySeq] + es1 else es1;
    EndMarker(es2, t);
    forall i: nat ensures Span(es1, t, i, |t|) <==> exists j: nat :: Span(es, t, i, j) {
      if es == [] || es[|es| - 1] != AnySeq {
        OpenEnd(es, t, i);
      } else {
        OpenEndAlready(es, t, i);
      }
    }
    if es1[0] != AnySeq {
      OpenStart(es1, t, |t|);
    } else {
      OpenStartAlready(es1, t, |t|);
    }
    assert Matches(es2 + [End], t) <==> exists i: nat :: Span(es1, t, i, |t|);
    forall i: nat, j: nat | Span(es, t, i, j) ensures Span(es1, t, i, |t|) {
    }
  }

  // ---------- a pattern without wildcards ----------

  /** `containsWildcards` */
  predicate ContainsWildcards(p: string)
  {
    '?' in p || '*' in p || '\\' in p || '{' in p || exists i :: 0 <= i < |p| && TwoDots(p[i..])
  }

  lemma NoDotsNoRange(s: string, closing: char)
    requires forall i :: 0 <= i < |s| ==> !(TwoDots(s[i..]))
    ensures NumRangeAt(s, closing).None?
  {
    var a := DigitRun(s);
    assert a < |s| ==> !(TwoDots(s[a..]));
  }

  lemma {:induction false} PlainLiteral(p: string)
    requires !ContainsWildcards(p)
    ensures LiteralAt(p) == Literal(p, "")
    decreases |p|
  {
    if p != "" {
      RestIsPlain(p);
      PlainLiteral(p[1..]);
      assert [p[0]] + p[1..] == p;
    }
  }

  lemma {:induction false} RestIsPlain(p: string)
    requires p != "" && !ContainsWildcards(p)
    ensures !StopsLiteral(p[0]) && p[0] != '\\' && !ContainsWildcards(p[1..]) && NumRangeAt(p[1..], ']').None?
  {
    var rest := p[1..];
    assert p[0] in p;
    forall i | 0 <= i < |rest| ensures !(TwoDots(rest[i..])) {
      assert rest[i..] == p[i + 1..];
    }
    NoDotsNoRange(rest, ']');
    assert forall c :: c in rest ==> c in p;
  }

  lemma SpanLiteral(l: string, t: string, i: nat, j: nat)
    ensures Span([LiteralString(l)], t, i, j) <==> i <= j <= |t| && t[i..j] == l
  {
    SpanCons(LiteralString(l), [], t, i, j);
    assert [LiteralString(l)] + [] == [LiteralString(l)];
    forall m: nat ensures Span([], t, m, j) <==> m == j <= |t| {
      SpanNil(t, m, j);
    }
    assert i <= j <= |t| && t[i..j] == l ==> Consumable(LiteralString(l), t, i, j);
  }

  /** A literal pattern, in full-string mode, matches exactly its own text. */
  lemma OneLiteral(p: string, text: string, line: string, dottedpath: bool)
    requires p != "" && !StopsLiteral(p[0]) && LiteralAt(p) == Literal(text, "")
    ensures TokensOf(p, false, dottedpath) == Tokens([LiteralString(text)])
    ensures Matches(Completed([LiteralString(text)], true), line) <==> line == text
  {
    assert TokenAt(p, false, dottedpath) == Token(LiteralString(text), "");
    assert TokensOf("", true, dottedpath) == Tokens([]);
    assert [LiteralString(text)] + [] == [LiteralString(text)];
    CompletedMatches([LiteralString(text)], line);
    SpanLiteral(text, line, 0, |line|);
    assert line[0..|line|] == line;
  }

  lemma EmptyPattern(line: string, dottedpath: bool)
    ensures TokensOf("", false, dottedpath) == Tokens([])
    ensures Matches(Completed([], true), line) <==> line == ""
  {
    CompletedMatches([], line);
    SpanNil(line, 0, |line|);
  }

  /** Without wildcards, matching a full string is comparing strings. */
  lemma NoWildcardsIsEquality(p: string, line: string, dottedpath: bool)
    requires !ContainsWildcards(p)
    ensures var ts := TokensOf(p, false, dottedpath);
      ts.Tokens? && (Matches(Completed(ts.elems, true), line) <==> line == p)
  {
    if p == "" {
      EmptyPattern(line, dottedpath);
    } else {
      assert p[0] in p;
      PlainLiteral(p);
      OneLiteral(p, p, line, dottedpath);
    }
  }

  // ---------- backslashes ----------

  /** Every character preceded by a backslash. */
  function EscapeAll(t: string): string
  {
    if t == "" then "" else ['\\', t[0]] + EscapeAll(t[1..])
  }

  lemma NoRangeAtBackslash(s: string)
    requires s == "" || s[0] == '\\'
    ensures NumRangeAt(s, ']').None?
  {
  }

  lemma {:induction false} EscapedLiteral(t: string)
    ensures LiteralAt(EscapeAll(t)) == Literal(t, "")
    decreases |t|
  {
    if t != "" {
      var rest := EscapeAll(t[1..]);
      EscapedLiteral(t[1..]);
      NoRangeAtBackslash(rest);
      EscapedStep(t[0], rest);
      assert [t[0]] + t[1..] == t;
    }
  }

  /** A pattern with a backslash before every character matches exactly the text. */
  lemma EscapeAllIsExact(t: string, line: string, dottedpath: bool)
    ensures var ts := TokensOf(EscapeAll(t), false, dottedpath);
      ts.Tokens? && (Matches(Completed(ts.elems, true), line) <==> line == t)
  {
    if t == "" {
      EmptyPattern(line, dottedpath);
    } else {
      EscapedLiteral(t);
      OneLiteral(EscapeAll(t), t, line, dottedpath);
    }
  }

  /** The characters that start something other than a literal. */
  predicate Special(c: char)
  {
    StopsLiteral(c) || c == '[' || c == '\\'
  }

  /** A backslash before each special character, as the documentation suggests. */
  function Escape(t: string): string
  {
    if t == "" then ""
    else (if Special(t[0]) then ['\\', t[0]] else [t[0]]) + Escape(t[1..])
  }

  /** There is a '[' at `i`, followed by "n..m]". */
  ghost predicate RangeAt(t: string, i: nat)
  {
    i < |t| && t[i] == '[' && NumRangeAt(t[i + 1..], ']').Some?
  }

  ghost predicate NoRange(t: string)
  {
    forall i: nat :: i < |t| ==> !RangeAt(t, i)
  }

  lemma RangeInRest(t: string, i: nat)
    requires t != ""
    ensures RangeAt(t[1..], i) <==> RangeAt(t, i + 1)
  {
    assert i < |t| - 1 ==> t[1..][i + 1..] == t[i + 2..];
  }

  lemma ConsSlices(c: char, s: string, n: nat)
    requires n <= |s|
    ensures ([c] + s)[1 + n..] == s[n..] && ([c] + s)[..1 + n] == [c] + s[..n] && ([c] + s)[1..] == s
  {
  }

  lemma {:induction false} EscapeOfDigit(t: string)
    requires t != "" && IsDigit(t[0])
    ensures Escape(t) == [t[0]] + Escape(t[1..])
  {
  }

  lemma {:induction false} EscapeKeepsDigits(t: string)
    ensures DigitRun(Escape(t)) == DigitRun(t)
    ensures Escape(t)[..DigitRun(t)] == t[..DigitRun(t)]
    ensures Escape(t)[DigitRun(t)..] == Escape(t[DigitRun(t)..])
    decreases |t|
  {
    if t != "" && IsDigit(t[0]) {
      EscapeKeepsDigits(t[1..]);
      var c, rest, n := t[0], t[1..], DigitRun(t[1..]);
      assert t == [c] + rest;
      EscapeOfDigit(t);
      ConsSlices(c, rest, n);
      ConsSlices(c, Escape(rest), n);
    }
  }

  lemma EscapeKeepsDots(t: string)
    ensures TwoDots(Escape(t)) <==> TwoDots(t)
    ensures TwoDots(t) ==> Escape(t)[2..] == Escape(t[2..])
  {
    if t != "" && t[0] == '.' {
      var p := Escape(t);
      assert p[1..] == Escape(t[1..]);
      if |t| > 1 && t[1] == '.' {
        assert Escape(t[1..])[1..] == Escape(t[2..]);
        assert t[1..][1..] == t[2..];
      }
    }
  }

  /** Escaping changes nothing about numeric ranges. */
  lemma EscapeKeepsRanges(t: string)
    ensures NumRangeAt(Escape(t), ']').Some? <==> NumRangeAt(t, ']').Some?
    ensures NumRangeAt(t, ']').Some? ==>
      var r, r' := NumRangeAt(t, ']').value, NumRangeAt(Escape(t), ']').value;
      r'.lo == r.lo && r'.up == r.up && r'.rest == Escape(r.rest)
  {
    EscapeKeepsDigits(t);
    var t1 := t[DigitRun(t)..];
    EscapeKeepsDots(t1);
    if TwoDots(t1) {
      EscapeKeepsRangeEnd(t1[2..]);
    }
  }

  lemma EscapeKeepsRangeEnd(t: string)
    ensures DigitRun(Escape(t)) == DigitRun(t)
    ensures Escape(t)[..DigitRun(t)] == t[..DigitRun(t)] && Escape(t)[DigitRun(t)..] == Escape(t[DigitRun(t)..])
    ensures DigitRun(t) < |t| <==> DigitRun(t) < |Escape(t)|
    ensures DigitRun(t) < |t| ==> (Escape(t)[DigitRun(t)] == ']' <==> t[DigitRun(t)] == ']')
  {
    EscapeKeepsDigits(t);
    EscapeKeepsBracket(t[DigitRun(t)..]);
  }

  lemma EscapeKeepsBracket(t: string)
    ensures Escape(t) == "" <==> t == ""
    ensures t != "" ==> (Escape(t)[0] == ']' <==> t[0] == ']')
  {
  }

  lemma TailOfPair(c: char, d: char, s: string)
    ensures ([c, d] + s)[1..] == [d] + s && ([d] + s)[1..] == s
  {
  }

  /** Where the parser stands after an escaped or plain first character. */
  lemma {:induction false} EscapeHead(t: string)
    requires t != ""
    ensures Escape(t) != "" && !StopsLiteral(Escape(t)[0]) && Escape(t)[0] != '['
    ensures Escape(t)[0] == '\\' ==> |Escape(t)| > 1 && Escape(t)[1..] == [t[0]] + Escape(t[1..])
    ensures Escape(t)[0] != '\\' ==> Escape(t) == [t[0]] + Escape(t[1..])
  {
    var rest := Escape(t[1..]);
    if Special(t[0]) {
      assert Escape(t) == ['\\', t[0]] + rest;
      TailOfPair('\\', t[0], rest);
    } else {
      assert Escape(t) == [t[0]] + rest;
    }
  }

  function WithFirst(c: char, l: Literal): Literal
  {
    if l.PastEnd? then PastEnd else Literal([c] + l.text, l.rest)
  }

  lemma {:induction false} PlainStep(c: char, rest: string)
    requires !StopsLiteral(c) && c != '\\' && !(c == '[' && NumRangeAt(rest, ']').Some?)
    ensures LiteralAt([c] + rest) == WithFirst(c, LiteralAt(rest))
  {
    assert ([c] + rest)[1..] == rest;
  }

  lemma {:induction false} EscapedStep(c: char, rest: string)
    ensures LiteralAt(['\\', c] + rest) ==
      if c == '[' && NumRangeAt(rest, ']').Some? then Literal("[", "[" + rest) else WithFirst(c, LiteralAt(rest))
  {
    var s := ['\\', c] + rest;
    TailOfPair('\\', c, rest);
    assert s[0] == '\\' && s[1..][0] == c;
  }

  /** One character of an escaped text: it goes into the literal, which ends there if a range follows a '['. */
  lemma {:induction false} EscapeStep(t: string)
    requires t != ""
    ensures LiteralAt(Escape(t)) ==
      if t[0] == '[' && NumRangeAt(t[1..], ']').Some? then Literal("[", "[" + Escape(t[1..]))
      else WithFirst(t[0], LiteralAt(Escape(t[1..])))
  {
    assert NumRangeAt(Escape(t[1..]), ']').Some? <==> NumRangeAt(t[1..], ']').Some? by {
      EscapeKeepsRanges(t[1..]);
    }
    if Special(t[0]) {
      EscapedStep(t[0], Escape(t[1..]));
    } else {
      PlainStep(t[0], Escape(t[1..]));
    }
  }

  lemma {:induction false} EscapeWithoutRanges(t: string)
    requires NoRange(t)
    ensures LiteralAt(Escape(t)) == Literal(t, "")
    decreases |t|
  {
    if t != "" {
      var rest := t[1..];
      forall i: nat | i < |rest| ensures !RangeAt(rest, i) {
        RangeInRest(t, i);
      }
      EscapeWithoutRanges(rest);
      assert !RangeAt(t, 0);
      EscapeStep(t);
      assert [t[0]] + rest == t;
    }
  }

  /** The first '[' that starts a range ends the literal although it is escaped. */
  lemma {:induction false} EscapeWithRange(t: string, k: nat)
    requires RangeAt(t, k) && forall i: nat :: i < k ==> !RangeAt(t, i)
    ensures LiteralAt(Escape(t)) == Literal(t[..k + 1], "[" + Escape(t[k + 1..]))
    decreases k
  {
    EscapeStep(t);
    if k == 0 {
      assert t[..1] == ['['];
    } else {
      var rest := t[1..];
      RangeInRest(t, k - 1);
      forall i: nat | i < k - 1 ensures !RangeAt(rest, i) {
        RangeInRest(t, i);
      }
      EscapeWithRange(rest, k - 1);
      TailAndPrefix(t, k);
      assert !RangeAt(t, 0);
    }
  }

  lemma TailAndPrefix(t: string, k: nat)
    requires 0 < k < |t|
    ensures t[1..][k..] == t[k + 1..] && [t[0]] + t[1..][..k] == t[..k + 1]
  {
  }

  lemma {:induction false} FirstRange(t: string, n: nat) returns (k: nat)
    requires RangeAt(t, n)
    ensures RangeAt(t, k) && forall i: nat :: i < k ==> !RangeAt(t, i)
    decreases n
  {
    if i: nat :| i < n && RangeAt(t, i) {
      k := FirstRange(t, i);
    } else {
      k := n;
    }
  }

  lemma {:induction false} FirstToken(s: string, afterLiteral: bool, dottedpath: bool, e: Elem, rest: string)
    requires s != "" && TokenAt(s, afterLiteral, dottedpath) == Token(e, rest)
    requires TokensOf(s, afterLiteral, dottedpath).Tokens?
    ensures TokensOf(rest, e.LiteralString?, dottedpath).Tokens?
    ensures TokensOf(s, afterLiteral, dottedpath).elems == [e] + TokensOf(rest, e.LiteralString?, dottedpath).elems
  {
  }

  lemma RangeToken(u: string, dottedpath: bool)
    requires NumRangeAt(u, ']').Some?
    ensures var r := NumRangeAt(u, ']').value; TokenAt("[" + u, true, dottedpath) == Token(NumRange(r.lo, r.up), r.rest)
  {
    assert ("[" + u)[1..] == u;
  }

  lemma BracketToken(s: string, dottedpath: bool)
    requires s != "" && s[0] == ']'
    ensures TokenAt(s, false, dottedpath) == LiteralToken(s)
    ensures LiteralAt(s).Literal? ==> LiteralAt(s).text != "" && LiteralAt(s).text[0] == ']'
  {
  }

  /** The elements that the pattern for such a text starts with. */
  lemma {:induction false} EscapedRangeTokens(t: string, k: nat, dottedpath: bool)
    requires RangeAt(t, k)
    requires LiteralAt(Escape(t)) == Literal(t[..k + 1], "[" + Escape(t[k + 1..]))
    requires TokensOf(Escape(t), false, dottedpath).Tokens?
    ensures var es := TokensOf(Escape(t), false, dottedpath).elems;
      |es| >= 3 && es[0] == LiteralString(t[..k + 1]) && es[1].NumRange? &&
      es[2].LiteralString? && es[2].literal != "" && es[2].literal[0] == ']'
  {
    var u := Escape(t[k + 1..]);
    EscapedLiteralToken(t, dottedpath);
    EscapeKeepsRanges(t[k + 1..]);
    RangeTokens(Escape(t), t[..k + 1], u, dottedpath);
  }

  lemma {:induction false} RangeTokens(s: string, l: string, u: string, dottedpath: bool)
    requires s != "" && TokenAt(s, false, dottedpath) == Token(LiteralString(l), "[" + u)
    requires TokensOf(s, false, dottedpath).Tokens? && NumRangeAt(u, ']').Some?
    ensures var es := TokensOf(s, false, dottedpath).elems;
      |es| >= 3 && es[0] == LiteralString(l) && es[1].NumRange? &&
      es[2].LiteralString? && es[2].literal != "" && es[2].literal[0] == ']'
  {
    FirstToken(s, false, dottedpath, LiteralString(l), "[" + u);
    BracketTokens(u, dottedpath);
  }

  lemma {:induction false} EscapedLiteralToken(t: string, dottedpath: bool)
    requires t != "" && LiteralAt(Escape(t)).Literal?
    ensures var l := LiteralAt(Escape(t));
      Escape(t) != "" && TokenAt(Escape(t), false, dottedpath) == Token(LiteralString(l.text), l.rest)
  {
    EscapeHead(t);
  }

  lemma {:induction false} BracketTokens(u: string, dottedpath: bool)
    requires NumRangeAt(u, ']').Some? && TokensOf("[" + u, true, dottedpath).Tokens?
    ensures var es := TokensOf("[" + u, true, dottedpath).elems;
      |es| >= 2 && es[0].NumRange? && es[1].LiteralString? && es[1].literal != "" && es[1].literal[0] == ']'
  {
    var r := NumRangeAt(u, ']').value;
    RangeToken(u, dottedpath);
    FirstToken("[" + u, true, dottedpath, NumRange(r.lo, r.up), r.rest);
    BracketToken(r.rest, dottedpath);
    var l := LiteralAt(r.rest);
    FirstToken(r.rest, false, dottedpath, LiteralString(l.text), l.rest);
  }

  lemma NumRangeTakesRun(e: Elem, t: string, i: nat, j: nat)
    requires e.NumRange? && Consumable(e, t, i, j)
    ensures j == i + DigitRun(t[i..])
  {
    var u, a := t[i..], DigitRun(t[i..]);
    assert forall m :: 0 <= m < j - i ==> t[i..j][m] == u[m];
    assert j < |t| ==> t[j] == u[j - i];
  }

  /** Where the first pieces end when a text is matched against a literal that long, a range, and a "]...". */
  lemma PieceEnds(es: seq<Elem>, t: string, k: nat, cut: seq<nat>)
    requires k < |t| && |es| >= 3 && es[0] == LiteralString(t[..k + 1]) && es[1].NumRange?
    requires es[2].LiteralString? && es[2].literal != "" && es[2].literal[0] == ']'
    requires IsCut(es, t, 0, |t|, cut)
    ensures var j := k + 1 + DigitRun(t[k + 1..]); j < |t| && t[j] == ']'
  {
    assert Piece(es, t, cut, 0) && Piece(es, t, cut, 1) && Piece(es, t, cut, 2);
    assert |t[0..cut[1]]| == k + 1;
    NumRangeTakesRun(es[1], t, cut[1], cut[2]);
    assert t[cut[2]..cut[3]][0] == ']';
  }

  /** Such a pattern does not even match the text it was made from. */
  lemma RangeNeverMatchesItself(es: seq<Elem>, t: string, k: nat)
    requires RangeAt(t, k)
    requires |es| >= 3 && es[0] == LiteralString(t[..k + 1]) && es[1].NumRange?
    requires es[2].LiteralString? && es[2].literal != "" && es[2].literal[0] == ']'
    ensures !Span(es, t, 0, |t|)
  {
    var u := t[k + 1..];
    assert u[DigitRun(u)] == u[DigitRun(u)..][0] == '.';
    forall cut ensures !IsCut(es, t, 0, |t|, cut) {
      if IsCut(es, t, 0, |t|, cut) {
        PieceEnds(es, t, k, cut);
      }
    }
  }

  lemma EscapedPlainly(t: string, line: string, dottedpath: bool)
    requires NoRange(t)
    ensures var ts := TokensOf(Escape(t), false, dottedpath);
      ts.Tokens? && (Matches(Completed(ts.elems, true), line) <==> line == t)
  {
    if t == "" {
      EmptyPattern(line, dottedpath);
    } else {
      EscapeHead(t);
      EscapeWithoutRanges(t);
      OneLiteral(Escape(t), t, line, dottedpath);
    }
  }

  /** Escaping the special characters of a text gives a pattern for exactly that text if and only if no '[' in it is
      followed by "n..m]": there the backslash does not take away the special meaning of the '['. */
  lemma EscapeIsExactWithoutRanges(t: string, dottedpath: bool)
    ensures var ts := TokensOf(Escape(t), false, dottedpath);
      (ts.Tokens? && forall line :: Matches(Completed(ts.elems, true), line) <==> line == t) <==> NoRange(t)
  {
    var ts := TokensOf(Escape(t), false, dottedpath);
    if NoRange(t) {
      EscapedPlainly(t, "", dottedpath);
      forall line ensures Matches(Completed(ts.elems, true), line) <==> line == t {
        EscapedPlainly(t, line, dottedpath);
      }
    } else if ts.Tokens? {
      NotItsOwnMatch(t, dottedpath);
    }
  }

  /** With such a bracket, the text does not even match its own escaped form. */
  lemma {:induction false} NotItsOwnMatch(t: string, dottedpath: bool)
    requires !NoRange(t) && TokensOf(Escape(t), false, dottedpath).Tokens?
    ensures !Matches(Completed(TokensOf(Escape(t), false, dottedpath).elems, true), t)
  {
    var es := TokensOf(Escape(t), false, dottedpath).elems;
    var n: nat :| RangeAt(t, n);
    var k := FirstRange(t, n);
    EscapeWithRange(t, k);
    EscapedRangeTokens(t, k, dottedpath);
    RangeNeverMatchesItself(es, t, k);
    CompletedMatches(es, t);
  }

  lemma RangeExample()
    ensures NumRangeAt("1..2]", ']').Some? && NumRangeAt("1..2]", ']').value.rest == "]"
  {
    var s := "1..2]";
    assert DigitRun(s) == 1 && s[1..] == "..2]" && "..2]"[2..] == "2]" && DigitRun("2]") == 1 && "2]"[1..] == "]";
  }

  /** A text without special characters needs no escaping. */
  lemma {:induction false} NothingToEscape(t: string)
    requires forall i :: 0 <= i < |t| ==> !Special(t[i])
    ensures Escape(t) == t
    decreases |t|
  {
    if t != "" {
      NothingToEscape(t[1..]);
      assert [t[0]] + t[1..] == t;
    }
  }

  lemma {:induction false} EscapeExample()
    ensures Escape("[1..2]") == "\\[1..2]"
  {
    NothingToEscape("1..2]");
    assert "[1..2]"[1..] == "1..2]";
  }

  // ---------- trailing backslashes ----------

  /** Does the text end in an odd number of backslashes? */
  predicate OddTail(s: string)
  {
    s != "" && s[|s| - 1] == '\\' && !OddTail(s[..|s| - 1])
  }

  lemma {:induction false} OddTailPlain(c: char, s: string)
    requires c != '\\'
    ensures OddTail([c] + s) == OddTail(s)
    decreases |s|
  {
    if s == "" {
      assert [c] + s == [c];
    } else {
      var init := s[..|s| - 1];
      OddTailPlain(c, init);
      assert ([c] + s)[..|s|] == [c] + init;
    }
  }

  lemma {:induction false} OddTailEscaped(d: char, s: string)
    ensures OddTail(['\\', d] + s) == OddTail(s)
    decreases |s|
  {
    if s == "" {
      assert ['\\', d] + s == ['\\', d];
      assert ['\\', d][..1] == ['\\'] && ['\\'][..0] == "";
    } else {
      var init := s[..|s| - 1];
      OddTailEscaped(d, init);
      assert (['\\', d] + s)[..|s| + 1] == ['\\', d] + init;
    }
  }

  lemma {:induction false} LiteralKeepsTail(s: string)
    ensures LiteralAt(s).PastEnd? ==> OddTail(s)
    ensures LiteralAt(s).Literal? ==> OddTail(LiteralAt(s).rest) == OddTail(s)
    decreases |s|
  {
    if s == "" || StopsLiteral(s[0]) {
    } else if s[0] == '\\' && |s| == 1 {
      assert s == ['\\'] && s[..0] == "";
    } else {
      LiteralKeepsTail(if s[0] == '\\' then s[2..] else s[1..]);
      CharacterKeepsTail(s);
    }
  }

  /** One character of a literal, which may be escaped. */
  lemma {:induction false} CharacterKeepsTail(s: string)
    requires s != "" && !(s[0] == '\\' && |s| == 1)
    ensures var s1 := if s[0] == '\\' then s[1..] else s;
      OddTail(s1[1..]) == OddTail(s) && (s1[0] == '[' ==> OddTail(s1) == OddTail(s))
  {
    var s1 := if s[0] == '\\' then s[1..] else s;
    var rest := s1[1..];
    if s[0] == '\\' {
      OddTailEscaped(s1[0], rest);
      assert s == ['\\', s1[0]] + rest;
    } else {
      OddTailPlain(s[0], rest);
      assert s == [s[0]] + rest;
    }
    if s1[0] == '[' {
      OddTailPlain('[', rest);
      assert s1 == ['['] + rest;
    }
  }

  /** A set or a range is closed by a character that is not a backslash. */
  lemma {:induction false} SuffixKeepsTail(s: string, rest: string)
    requires |rest| < |s| && rest == s[|s| - |rest|..] && s[|s| - |rest| - 1] != '\\'
    ensures OddTail(rest) == OddTail(s)
    decreases |rest|
  {
    var c := s[|s| - |rest| - 1];
    if rest != "" {
      var init, init' := s[..|s| - 1], rest[..|rest| - 1];
      assert init' == init[|init| - |init'|..] && init[|init| - |init'| - 1] == c;
      SuffixKeepsTail(init, init');
      assert rest[|rest| - 1] == s[|s| - 1];
    }
  }

  lemma {:induction false} SetIsSuffix(s: string, first: bool)
    requires SetAt(s, first).CharSet?
    ensures var r := SetAt(s, first).rest;
      |r| < |s| && r == s[|s| - |r|..] && s[|s| - |r| - 1] == '}'
    decreases |s|
  {
    if s[0] == '}' && !first {
    } else {
      var rest := if |s| > 2 && s[1] == '-' && s[2] != '}' then s[3..] else s[1..];
      SetIsSuffix(rest, false);
    }
  }

  /** `rest` is what is left of `s` after some digits and dots. */
  ghost predicate IsAfterRange(s: string, rest: string)
  {
    && 0 < |rest| && |rest| + 2 <= |s| && rest == s[|s| - |rest|..]
    && forall i :: 0 <= i < |s| - |rest| ==> IsDigit(s[i]) || s[i] == '.'
  }

  /** What a numeric range consumes: digits and dots. */
  lemma {:induction false} RangeIsPlain(s: string, closing: char)
    requires NumRangeAt(s, closing).Some?
    ensures var r := NumRangeAt(s, closing).value.rest; IsAfterRange(s, r) && r[0] == closing
  {
    var a := DigitRun(s);
    var b := DigitRun(s[a..][2..]);
    assert NumRangeAt(s, closing).value.rest == s[a..][2..][b..];
    RunsArePlain(s, a, b);
  }

  lemma RunsArePlain(s: string, a: nat, b: nat)
    requires a <= |s| && (forall i :: 0 <= i < a ==> IsDigit(s[i])) && TwoDots(s[a..])
    requires b <= |s[a..][2..]| && forall i :: 0 <= i < b ==> IsDigit(s[a..][2..][i])
    ensures s[a..][2..][b..] == s[a + 2 + b..]
    ensures forall i :: 0 <= i < a + 2 + b ==> IsDigit(s[i]) || s[i] == '.'
  {
    assert s[a] == s[a..][0] && s[a + 1] == s[a..][1];
    forall i | a + 2 <= i < a + 2 + b ensures IsDigit(s[i]) {
      assert s[i] == s[a..][2..][i - a - 2];
    }
  }

  lemma TokenKeepsTail(s: string, afterLiteral: bool, dottedpath: bool)
    requires s != ""
    ensures TokenAt(s, afterLiteral, dottedpath).BadBackslash? ==> OddTail(s)
    ensures TokenAt(s, afterLiteral, dottedpath).Token? ==>
      OddTail(TokenAt(s, afterLiteral, dottedpath).rest) == OddTail(s)
  {
    match s[0]
    case '?' => SuffixKeepsTail(s, s[1..]);
    case '*' => StarKeepsTail(s);
    case '[' =>
      LiteralKeepsTail(s);
      if NumRangeAt(s[1..], ']').Some? {
        RangeKeepsTail(s, ']');
      }
    case '{' => BraceKeepsTail(s, afterLiteral, dottedpath);
    case _ => LiteralKeepsTail(s);
  }

  lemma StarKeepsTail(s: string)
    requires s != "" && s[0] == '*'
    ensures OddTail(s[1..]) == OddTail(s) && (|s| > 1 && s[1] == '*' ==> OddTail(s[2..]) == OddTail(s))
  {
    SuffixKeepsTail(s, s[1..]);
    if |s| > 1 && s[1] == '*' {
      SuffixKeepsTail(s, s[2..]);
    }
  }

  lemma BraceKeepsTail(s: string, afterLiteral: bool, dottedpath: bool)
    requires s != "" && s[0] == '{'
    ensures !TokenAt(s, afterLiteral, dottedpath).BadBackslash?
    ensures TokenAt(s, afterLiteral, dottedpath).Token? ==>
      OddTail(TokenAt(s, afterLiteral, dottedpath).rest) == OddTail(s)
  {
    if NumRangeAt(s[1..], '}').Some? {
      BraceRangeKeepsTail(s);
    } else {
      SetKeepsTail(s);
    }
  }

  lemma BraceRangeKeepsTail(s: string)
    requires s != "" && NumRangeAt(s[1..], '}').Some?
    ensures OddTail(NumRangeAt(s[1..], '}').value.rest[1..]) == OddTail(s)
  {
    RangeKeepsTail(s, '}');
    var closed := NumRangeAt(s[1..], '}').value.rest;
    SuffixKeepsTail(closed, closed[1..]);
  }

  lemma {:induction false} RangeKeepsTail(s: string, closing: char)
    requires s != "" && NumRangeAt(s[1..], closing).Some?
    ensures OddTail(NumRangeAt(s[1..], closing).value.rest) == OddTail(s)
  {
    RangeIsPlain(s[1..], closing);
    PlainRunKeepsTail(s, NumRangeAt(s[1..], closing).value.rest);
  }

  lemma {:induction false} PlainRunKeepsTail(s: string, rest: string)
    requires s != "" && IsAfterRange(s[1..], rest)
    ensures OddTail(rest) == OddTail(s)
  {
    assert rest == s[|s| - |rest|..] && s[|s| - |rest| - 1] == s[1..][|s[1..]| - |rest| - 1];
    SuffixKeepsTail(s, rest);
  }

  lemma SetKeepsTail(s: string)
    requires s != "" && s[0] == '{'
    ensures var c := SetAt(if |s| > 1 && s[1] == '^' then s[2..] else s[1..], true);
      c.CharSet? ==> OddTail(c.rest) == OddTail(s)
  {
    var body := if |s| > 1 && s[1] == '^' then s[2..] else s[1..];
    if SetAt(body, true).CharSet? {
      SetIsSuffix(body, true);
      var r := SetAt(body, true).rest;
      assert r == s[|s| - |r|..] && s[|s| - |r| - 1] == body[|body| - |r| - 1];
      SuffixKeepsTail(s, r);
    }
  }

  /** Reading runs past the end only after an odd number of backslashes at the end, and never succeeds with such. */
  lemma {:induction false} OverrunNeedsOddTail(s: string, afterLiteral: bool, dottedpath: bool)
    ensures TokensOf(s, afterLiteral, dottedpath).RunsPastEnd? ==> OddTail(s)
    ensures TokensOf(s, afterLiteral, dottedpath).Tokens? ==> !OddTail(s)
    decreases |s|, !afterLiteral
  {
    if s != "" {
      TokenKeepsTail(s, afterLiteral, dottedpath);
      var tk := TokenAt(s, afterLiteral, dottedpath);
      if tk.Token? {
        OverrunNeedsOddTail(tk.rest, tk.elem.LiteralString?, dottedpath);
      }
    }
  }
}
