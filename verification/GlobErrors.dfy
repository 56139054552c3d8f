/** Which patterns `PatternMatcher` cannot read: those with a brace that nothing closes, and those whose last character
    is a backslash that escapes nothing. */
module GlobErrors {
  import opened Globs
  import opened GlobSyntax
  import opened GlobProperties

  // ---------- braces without an end ----------

  /** Position of the first '}' of `s`, or its length. */
  function BraceEnd(s: string): (n: nat)
    ensures n <= |s| && (forall i :: 0 <= i < n ==> s[i] != '}') && (n < |s| ==> s[n] == '}')
  {
    if s == "" || s[0] == '}' then 0 else 1 + BraceEnd(s[1..])
  }

  /** What stands between a '{' and the place from where its '}' is looked for: a '^' and one more character. */
  function BraceStart(s: string): (n: nat)
    requires s != ""
    ensures 1 <= n <= |s|
  {
    var n := if |s| > 1 && s[1] == '^' then 2 else 1;
    if n == |s| then n else n + 1
  }

  /** There is a '{', itself not escaped, that no '}' closes. A '}' right behind "{" or "{^" does not close it. */
  predicate OpenBrace(s: string)
    decreases |s|
  {
    if s == "" then false
    else if s[0] == '\\' then |s| > 1 && OpenBrace(s[2..])
    else if s[0] == '{' then
      var body := s[BraceStart(s)..];
      var n := BraceEnd(body);
      n == |body| || OpenBrace(body[n + 1..])
    else OpenBrace(s[1..])
  }

  /** A set ends at the first '}' behind its first character. */
  lemma {:induction false} SetEnds(s: string)
    ensures var n := BraceEnd(s); SetAt(s, false) == Unmatched <==> n == |s|
    ensures var n := BraceEnd(s); n < |s| ==> SetAt(s, false).CharSet? && SetAt(s, false).rest == s[n + 1..]
    decreases |s|
  {
    if s != "" && s[0] != '}' {
      var k := PairLength(s);
      SetEnds(s[k..]);
      PairOfSet(s);
      TailOfTail(s, k, BraceEnd(s[k..]));
    }
  }

  /** A range "a-b" or a single character. */
  ghost function PairLength(s: string): nat
  {
    if |s| > 2 && s[1] == '-' && s[2] != '}' then 3 else 1
  }

  lemma {:induction false} PairOfSet(s: string)
    requires s != "" && s[0] != '}'
    ensures var k := PairLength(s);
      && k <= |s| && BraceEnd(s) == k + BraceEnd(s[k..])
      && (SetAt(s, false) == Unmatched <==> SetAt(s[k..], false) == Unmatched)
      && (SetAt(s, false).CharSet? ==> SetAt(s, false).rest == SetAt(s[k..], false).rest)
  {
    if PairLength(s) == 3 {
      assert s[1..][1..] == s[2..] && s[2..][1..] == s[3..];
      assert BraceEnd(s) == 1 + BraceEnd(s[1..]) && BraceEnd(s[1..]) == 1 + BraceEnd(s[2..]);
    }
  }

  lemma {:induction false} TailOfTail(s: string, k: nat, n: nat)
    requires k <= |s| && n <= |s| - k
    ensures |s[k..]| == |s| - k && s[k..][n..] == s[k + n..]
    ensures n < |s| - k ==> s[k..][n + 1..] == s[k + n + 1..]
  {
  }

  /** The same for a whole set: its first character never closes it. */
  lemma {:induction false} FirstSetEnds(s: string)
    requires s != ""
    ensures var n := BraceEnd(s[1..]); SetAt(s, true) == Unmatched <==> n == |s[1..]|
    ensures var n := BraceEnd(s[1..]);
      n < |s[1..]| ==> SetAt(s, true).CharSet? && SetAt(s, true).rest == s[1..][n + 1..]
  {
    if |s| > 2 && s[1] == '-' && s[2] != '}' {
      SetEnds(s[3..]);
      assert s[1..][1..] == s[2..] && s[2..][1..] == s[3..];
      assert BraceEnd(s[1..]) == 1 + BraceEnd(s[2..]) && BraceEnd(s[2..]) == 1 + BraceEnd(s[3..]);
      TailOfTail(s[1..], 2, BraceEnd(s[3..]));
      assert s[1..][2..] == s[3..];
    } else {
      SetEnds(s[1..]);
    }
  }

  /** Characters that mean nothing to the search for open braces. */
  lemma {:induction false} OpenBraceSkips(s: string, n: nat)
    requires n <= |s| && forall i :: 0 <= i < n ==> s[i] != '\\' && s[i] != '{'
    ensures OpenBrace(s) == OpenBrace(s[n..])
    decreases n
  {
    if n == 0 {
      assert s[0..] == s;
    } else {
      OpenBraceSkips(s[1..], n - 1);
      assert s[1..][n - 1..] == s[n..];
    }
  }

  /** A numeric range in brackets leaves the open braces alone. */
  lemma {:induction false} RangeKeepsBraces(s: string)
    requires s != "" && s[0] == '[' && NumRangeAt(s[1..], ']').Some?
    ensures OpenBrace(NumRangeAt(s[1..], ']').value.rest) == OpenBrace(s)
  {
    RangeIsPlain(s[1..], ']');
    AfterRangeKeepsBraces(s, NumRangeAt(s[1..], ']').value.rest);
  }

  lemma {:induction false} AfterRangeKeepsBraces(s: string, rest: string)
    requires s != "" && s[0] == '[' && IsAfterRange(s[1..], rest)
    ensures OpenBrace(rest) == OpenBrace(s)
  {
    OpenBraceSkips(s[1..], |s[1..]| - |rest|);
  }

  lemma {:induction false} BraceEndAt(s: string, n: nat)
    requires n < |s| && s[n] == '}' && forall i :: 0 <= i < n ==> s[i] != '}'
    ensures BraceEnd(s) == n
    decreases n
  {
    if n > 0 {
      BraceEndAt(s[1..], n - 1);
    }
  }

  lemma {:induction false} OpenBraceAt(s: string, n: nat)
    requires |s| > 1 && s[0] == '{' && s[1] != '^' && n < |s[2..]| && BraceEnd(s[2..]) == n
    ensures OpenBrace(s) == OpenBrace(s[2..][n + 1..])
  {
  }

  /** A numeric range in braces ends at the '}' that closes the brace. */
  lemma {:induction false} BraceRangeKeepsBraces(s: string)
    requires s != "" && s[0] == '{' && NumRangeAt(s[1..], '}').Some?
    ensures OpenBrace(NumRangeAt(s[1..], '}').value.rest[1..]) == OpenBrace(s)
  {
    var n := RangeBody(s[1..]);
    assert s[1..][1..] == s[2..] && s[1..][0] == s[1];
    OpenBraceAt(s, n);
  }

  lemma {:induction false} RangeBody(u: string) returns (n: nat)
    requires NumRangeAt(u, '}').Some?
    ensures u != "" && u[0] != '^' && n < |u[1..]| && BraceEnd(u[1..]) == n
    ensures NumRangeAt(u, '}').value.rest[1..] == u[1..][n + 1..]
  {
    var r := NumRangeAt(u, '}').value.rest;
    RangeIsPlain(u, '}');
    n := |u| - |r| - 1;
    RangeClosed(u, r);
  }

  lemma {:induction false} RangeClosed(u: string, r: string)
    requires IsAfterRange(u, r) && r[0] == '}'
    ensures u[0] != '^'
    ensures var n := |u| - |r| - 1; n < |u[1..]| && BraceEnd(u[1..]) == n && r[1..] == u[1..][n + 1..]
  {
    var body, n := u[1..], |u| - |r| - 1;
    assert body[n] == r[0];
    assert forall i :: 0 <= i < n ==> body[i] == u[i + 1];
    BraceEndAt(body, n);
  }

  lemma {:induction false} SetKeepsBraces(s: string)
    requires s != "" && s[0] == '{'
    ensures var c := SetAt(if |s| > 1 && s[1] == '^' then s[2..] else s[1..], true);
      (c.Unmatched? ==> OpenBrace(s)) && (c.CharSet? ==> OpenBrace(c.rest) == OpenBrace(s))
  {
    var body := if |s| > 1 && s[1] == '^' then s[2..] else s[1..];
    if body == "" {
      assert s[BraceStart(s)..] == "";
    } else {
      FirstSetEnds(body);
      assert body[1..] == s[BraceStart(s)..];
    }
  }

  lemma {:induction false} LiteralKeepsBraces(s: string)
    ensures LiteralAt(s).PastEnd? ==> !OpenBrace(s)
    ensures LiteralAt(s).Literal? ==> OpenBrace(LiteralAt(s).rest) == OpenBrace(s)
    decreases |s|
  {
    if s == "" || StopsLiteral(s[0]) {
    } else if s[0] == '\\' && |s| == 1 {
    } else if s[0] == '\\' {
      assert s[1..][1..] == s[2..];
      LiteralKeepsBraces(s[2..]);
    } else {
      LiteralKeepsBraces(s[1..]);
    }
  }

  lemma {:induction false} StarKeepsBraces(s: string)
    requires s != "" && s[0] == '*'
    ensures OpenBrace(s[1..]) == OpenBrace(s) && (|s| > 1 && s[1] == '*' ==> OpenBrace(s[2..]) == OpenBrace(s))
  {
    if |s| > 1 && s[1] == '*' {
      assert s[1..][1..] == s[2..];
    }
  }

  lemma {:induction false} TokenKeepsBraces(s: string, afterLiteral: bool, dottedpath: bool)
    requires s != ""
    ensures var tk := TokenAt(s, afterLiteral, dottedpath);
      && (tk.BadBrace? ==> OpenBrace(s)) && (tk.BadBackslash? ==> !OpenBrace(s))
      && (tk.Token? ==> OpenBrace(tk.rest) == OpenBrace(s))
  {
    match s[0]
    case '?' =>
    case '*' => StarKeepsBraces(s);
    case '[' =>
      LiteralKeepsBraces(s);
      if NumRangeAt(s[1..], ']').Some? {
        RangeKeepsBraces(s);
      }
    case '{' =>
      if NumRangeAt(s[1..], '}').Some? {
        BraceRangeKeepsBraces(s);
      } else {
        SetKeepsBraces(s);
      }
    case _ => LiteralKeepsBraces(s);
  }

  lemma {:induction false} BracesDecide(s: string, afterLiteral: bool, dottedpath: bool)
    ensures TokensOf(s, afterLiteral, dottedpath).UnmatchedBrace? <==> OpenBrace(s)
    decreases |s|, !afterLiteral
  {
    if s != "" {
      TokenKeepsBraces(s, afterLiteral, dottedpath);
      var tk := TokenAt(s, afterLiteral, dottedpath);
      if tk.Token? {
        BracesDecide(tk.rest, tk.elem.LiteralString?, dottedpath);
      }
    }
  }

  /** For every pattern, what reading it comes to: the error about a brace exactly when one is open; else running past
      the end exactly when the pattern ends in an odd number of backslashes; else success. */
  lemma {:induction false} ReadingFailsIff(p: string, dottedpath: bool)
    ensures var ts := TokensOf(p, false, dottedpath);
      && (ts.UnmatchedBrace? <==> OpenBrace(p))
      && (ts.RunsPastEnd? <==> OddTail(p) && !OpenBrace(p))
      && (ts.Tokens? <==> !OddTail(p) && !OpenBrace(p))
  {
    BracesDecide(p, false, dottedpath);
    OverrunNeedsOddTail(p, false, dottedpath);
  }

  /** A lone backslash is read past its end; behind an open brace it is not reached. */
  lemma {:induction false} BackslashExamples(dottedpath: bool)
    ensures TokensOf("\\", false, dottedpath).RunsPastEnd?
    ensures OddTail("{\\") && TokensOf("{\\", false, dottedpath).UnmatchedBrace?
  {
    assert "\\"[..0] == "" && "{\\"[..1] == "{";
    assert !OddTail("{");
    assert "{\\"[2..] == "";
    ReadingFailsIff("\\", dottedpath);
    ReadingFailsIff("{\\", dottedpath);
  }

  /** For example "[1..2]": its escaped form is read, and does not match it. */
  lemma {:induction false} EscapedRangeExample(dottedpath: bool)
    ensures Escape("[1..2]") == "\\[1..2]"
    ensures var ts := TokensOf("\\[1..2]", false, dottedpath);
      ts.Tokens? && !Matches(Completed(ts.elems, true), "[1..2]")
  {
    var t := "[1..2]";
    assert t[1..] == "1..2]";
    RangeExample();
    assert RangeAt(t, 0);
    EscapeExample();
    EscapedRangeIsRead(dottedpath);
    NotItsOwnMatch(t, dottedpath);
  }

  lemma {:induction false} EscapedRangeIsRead(dottedpath: bool)
    ensures TokensOf("\\[1..2]", false, dottedpath).Tokens?
  {
    var s := "\\[1..2]";
    OpenBraceSkips(s[2..], |s| - 2);
    assert s[2..][|s| - 2..] == "";
    ReadingFailsIff(s, dottedpath);
  }
}
