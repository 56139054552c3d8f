/** `PatternMatcher` in case-sensitive mode: reading a pattern and matching texts against it. While a pattern is read,
    the pointer into it is modelled by the text it points to; the empty text is the terminating NUL. */
module PatternMatching {
  import opened Globs
  import opened GlobSyntax
  import opened GlobProperties
  import opened Wrappers

  /** `atol`, up to the first character that is not a digit. */
  function Atol(s: string): int
  {
    AtoL(s[..DigitRun(s)])
  }

  /** The text behind the digits that `start` begins with. */
  method SkipDigits(start: string) returns (s: string)
    ensures s == start[DigitRun(start)..]
  {
    s := start;
    ghost var k := 0;
    while s != "" && IsDigit(s[0])
      invariant k <= |start| && s == start[k..] && k + DigitRun(s) == DigitRun(start)
      decreases |s|
    {
      s := s[1..];
      k := k + 1;
    }
  }

  /** Tries to read "n..m]" or "n..m}" behind the bracket that `str` points to. */
  method ParseNumRange(str: string, closing: char) returns (ok: bool, rest: string, lo: int, up: int)
    requires str != ""
    ensures ok ==> NumRangeAt(str[1..], closing) == Some(Range(lo, up, rest))
    ensures !ok ==> NumRangeAt(str[1..], closing) == None && rest == str
  {
    lo, up := -1, -1;
    var s := str[1..];
    if s != "" && IsDigit(s[0]) {
      lo := Atol(s);
    }
    assert lo == Bound(s[..DigitRun(s)]);
    s := SkipDigits(s);
    if s == "" || s[0] != '.' || |s| == 1 || s[1] != '.' {
      return false, str, lo, up;
    }
    s := s[2..];
    if s != "" && IsDigit(s[0]) {
      up := Atol(s);
    }
    assert up == Bound(s[..DigitRun(s)]);
    s := SkipDigits(s);
    if s == "" || s[0] != closing {
      return false, str, lo, up;
    }
    return true, s, lo, up;
  }

  /** The literal that `start` points to; not `ok` if reading it runs past the end of the pattern. */
  method ParseLiteralString(start: string) returns (ok: bool, literal: string, rest: string)
    ensures ok ==> LiteralAt(start) == Literal(literal, rest)
    ensures !ok ==> LiteralAt(start) == PastEnd
  {
    ok, literal := true, "";
    var s := start;
    while s != "" && !StopsLiteral(s[0])
      invariant LiteralAt(start) == Prefixed(literal, LiteralAt(s))
      decreases |s|
    {
      NextCharacter(literal, s);
      if s[0] == '\\' {
        s := s[1..];
        if s == "" {
          return false, literal, s;
        }
      }
      literal := literal + [s[0]];
      if s[0] == '[' {
        var range, _, _, _ := ParseNumRange(s, ']');
        if range {
          break;
        }
      }
      s := s[1..];
    }
    rest := s;
  }

  /** One round of the loop, after `text` has been read and with `s` left. */
  lemma {:induction false} NextCharacter(text: string, s: string)
    requires s != "" && !StopsLiteral(s[0])
    ensures var all, s1 := Prefixed(text, LiteralAt(s)), if s[0] == '\\' then s[1..] else s;
      if s1 == "" then all == PastEnd
      else if s1[0] == '[' && NumRangeAt(s1[1..], ']').Some? then all == Literal(text + [s1[0]], s1)
      else all == Prefixed(text + [s1[0]], LiteralAt(s1[1..]))
  {
    if s[0] != '\\' || |s| > 1 {
      var s1 := if s[0] == '\\' then s[1..] else s;
      var l := LiteralAt(s1[1..]);
      if l.Literal? {
        assert text + ([s1[0]] + l.text) == text + [s1[0]] + l.text;
      }
    }
  }

  ghost function Prefixed(text: string, l: Literal): Literal
  {
    if l.PastEnd? then PastEnd else Literal(text + l.text, l.rest)
  }

  /** The set that `start` points to, at its '{'; not `ok` if its '}' is missing. */
  method ParseSet(start: string) returns (ok: bool, e: Elem, rest: string)
    requires start != ""
    ensures var negated := |start| > 1 && start[1] == '^';
      var c := SetAt(if negated then start[2..] else start[1..], true);
      if ok then c.CharSet? && rest == c.rest && e == (if negated then NegSet(c.chars) else Set(c.chars))
      else c.Unmatched?
  {
    var s := start[1..];
    var negated := s != "" && s[0] == '^';
    if negated {
      s := s[1..];
    }
    ghost var body := s;
    var first := true;
    var chars := "";
    while s != "" && (s[0] != '}' || first)
      invariant |chars| % 2 == 0
      invariant SetAt(body, true) == PrefixedSet(chars, SetAt(s, first))
      decreases |s|
    {
      if |s| > 2 && s[1] == '-' && s[2] != '}' {
        PrefixedSets(chars, [s[0], s[2]], SetAt(s[3..], false));
        chars, s := chars + [s[0], s[2]], s[3..];
      } else {
        PrefixedSets(chars, [s[0], s[0]], SetAt(s[1..], false));
        chars, s := chars + [s[0], s[0]], s[1..];
      }
      first := false;
    }
    e, rest := if negated then NegSet(chars) else Set(chars), s;
    if s == "" {
      return false, e, rest;
    }
    ok, rest := true, s[1..];
  }

  ghost function PrefixedSet(chars: string, c: CharSet): CharSet
  {
    if c.Unmatched? then Unmatched else CharSet(chars + c.chars, c.rest)
  }

  lemma PrefixedSets(a: string, b: string, c: CharSet)
    ensures PrefixedSet(a, PrefixedSet(b, c)) == PrefixedSet(a + b, c)
  {
    if c.CharSet? {
      assert a + (b + c.chars) == a + b + c.chars;
    }
  }

  lemma PrependTwice(a: seq<Elem>, b: seq<Elem>, ts: Tokens)
    ensures Prepend(a, Prepend(b, ts)) == Prepend(a + b, ts)
  {
    if ts.Tokens? {
      assert a + (b + ts.elems) == a + b + ts.elems;
    }
  }

  datatype Outcome = Done | UnmatchedBraceError | PastEndError

  /** The parser's answer says what the first element of the text is. */
  ghost predicate Reports(tk: Token, outcome: Outcome, e: Elem, rest: string)
  {
    match tk
    case Token(e', rest') => outcome == Done && e == e' && rest == rest'
    case BadBrace => outcome == UnmatchedBraceError
    case BadBackslash => outcome == PastEndError
  }

  method ParseLiteral(s: string) returns (outcome: Outcome, e: Elem, rest: string)
    ensures Reports(LiteralToken(s), outcome, e, rest)
  {
    var ok, text;
    ok, text, rest := ParseLiteralString(s);
    e := LiteralString(text);
    outcome := if ok then Done else PastEndError;
  }

  method ParseBrace(s: string, ghost afterLiteral: bool, ghost dottedpath: bool)
    returns (outcome: Outcome, e: Elem, rest: string)
    requires s != "" && s[0] == '{'
    ensures Reports(TokenAt(s, afterLiteral, dottedpath), outcome, e, rest)
  {
    var ok, lo, up;
    ok, rest, lo, up := ParseNumRange(s, '}');
    if ok {
      return Done, NumRange(lo, up), rest[1..];
    }
    ok, e, rest := ParseSet(s);
    outcome := if ok then Done else UnmatchedBraceError;
  }

  /** With `es` read and `s` left, `all` is what the whole pattern means. */
  ghost predicate Awaits(all: Tokens, es: seq<Elem>, s: string, afterLiteral: bool, dottedpath: bool)
  {
    all == Prepend(es, TokensOf(s, afterLiteral, dottedpath))
  }

  lemma NextToken(all: Tokens, es: seq<Elem>, s: string, afterLiteral: bool, dottedpath: bool,
                  outcome: Outcome, e: Elem, rest: string)
    requires s != "" && Awaits(all, es, s, afterLiteral, dottedpath)
    requires Reports(TokenAt(s, afterLiteral, dottedpath), outcome, e, rest)
    ensures outcome == Done ==> Awaits(all, es + [e], rest, e.LiteralString?, dottedpath)
    ensures outcome == Done ==> |rest| < |s| || (rest == s && !afterLiteral && e.LiteralString?)
    ensures outcome == UnmatchedBraceError ==> all.UnmatchedBrace?
    ensures outcome == PastEndError ==> all.RunsPastEnd?
  {
    if outcome == Done {
      PrependTwice(es, [e], TokensOf(rest, e.LiteralString?, dottedpath));
    }
  }

  method IsInSet(c: char, chars: string) returns (b: bool)
    requires |chars| % 2 == 0
    ensures b <==> InSet(c, chars)
  {
    var i := 0;
    while 2 * i < |chars|
      invariant 2 * i <= |chars|
      invariant forall k :: 0 <= k < i ==> !(Signed(chars[2 * k]) <= Signed(c) <= Signed(chars[2 * k + 1]))
    {
      if Signed(c) >= Signed(chars[2 * i]) && Signed(c) <= Signed(chars[2 * i + 1]) {
        return true;
      }
      i := i + 1;
    }
    return false;
  }

  /** `opp_stringendswith` */
  predicate EndsWith(s: string, ending: string)
  {
    |s| >= |ending| && s[|s| - |ending|..] == ending
  }

  // ---------- what doMatch relies on ----------

  /** `j` is the only place where the piece for `e` can end, and it does if `ok`. */
  ghost predicate OnlyEnd(e: Elem, t: string, i: nat, ok: bool, j: nat)
  {
    (ok <==> Consumable(e, t, i, j)) && forall j': nat :: Consumable(e, t, i, j') ==> j' == j
  }

  lemma RangeEnd(e: Elem, t: string, i: nat)
    requires e.NumRange? && i < |t| && IsDigit(t[i])
    ensures OnlyEnd(e, t, i, InRange(e, Atol(t[i..])), i + DigitRun(t[i..]))
  {
    var j := i + DigitRun(t[i..]);
    assert t[i..j] == t[i..][..DigitRun(t[i..])];
    assert j < |t| ==> t[j] == t[i..][j - i];
    forall j': nat | Consumable(e, t, i, j') ensures j' == j {
      NumRangeTakesRun(e, t, i, j');
    }
  }

  lemma {:induction false} EndIsLast(es: seq<Elem>, t: string, i: nat)
    requires es != [] && es[|es| - 1] == End
    ensures MatchFrom(es, |es| - 1, t, i) <==> i == |t|
  {
    if i == |t| {
      assert Consumable(End, t, i, i) && MatchFrom(es, |es|, t, i);
    }
  }

  /** A pattern that ends in "**": the rest of the text can be anything. */
  lemma AnySeqAtEnd(es: seq<Elem>, t: string, i: nat)
    requires |es| >= 2 && es[|es| - 1] == End && es[|es| - 2] == AnySeq && i <= |t|
    ensures MatchFrom(es, |es| - 2, t, i)
  {
    EndIsLast(es, t, |t|);
    assert Consumable(AnySeq, t, i, |t|) && MatchFrom(es, |es| - 1, t, |t|);
  }

  /** A pattern that ends in "**" and a literal: it is enough that the rest of the text ends in the literal. */
  lemma {:induction false} AnySeqLiteralAtEnd(es: seq<Elem>, t: string, i: nat)
    requires |es| >= 3 && es[|es| - 1] == End && es[|es| - 2].LiteralString? && es[|es| - 3] == AnySeq && i <= |t|
    ensures MatchFrom(es, |es| - 3, t, i) <==> EndsWith(t[i..], es[|es| - 2].literal)
  {
    var k := |es| - 3;
    var lit, last := k + 1, k + 2;
    var l := es[lit].literal;
    EndIsLast(es, t, |t|);
    if EndsWith(t[i..], l) {
      var j := |t| - |l|;
      assert t[j..|t|] == t[i..][|t| - i - |l|..];
      assert Consumable(es[lit], t, j, |t|) && MatchFrom(es, last, t, |t|);
      assert Consumable(AnySeq, t, i, j) && MatchFrom(es, lit, t, j);
    }
    if MatchFrom(es, k, t, i) {
      var j: nat :| Consumable(AnySeq, t, i, j) && MatchFrom(es, lit, t, j);
      var j': nat :| Consumable(es[lit], t, j, j') && MatchFrom(es, last, t, j');
      EndIsLast(es, t, j');
      assert t[j..|t|] == t[i..][|t| - i - |l|..];
    }
  }

  lemma LastTwoAgree(es: seq<Elem>, t: string)
    requires |es| >= 2 && es[|es| - 1] == End && es[|es| - 2].LiteralString? && |es[|es| - 2].literal| >= 2
    ensures var l := es[|es| - 2].literal;
      Matches(es, t) ==> |t| >= 2 && t[|t| - 1] == l[|l| - 1] && t[|t| - 2] == l[|l| - 2]
  {
    if Matches(es, t) {
      LastLiteral(es, t);
      var l := es[|es| - 2].literal;
      assert t[|t| - |l|..][|l| - 1] == t[|t| - 1] && t[|t| - |l|..][|l| - 2] == t[|t| - 2];
    }
  }

  class PatternMatcher {
    var pattern: seq<Elem>

    constructor ()
      ensures pattern == []
    {
      pattern := [];
    }

    predicate EndsInLiteral()
      reads this
    {
      pattern != [] && pattern[|pattern| - 1].LiteralString?
    }

    /** One round of the loop in `setPattern`. */
    method ParseElement(s: string, dottedpath: bool) returns (outcome: Outcome, e: Elem, rest: string)
      requires s != ""
      ensures Reports(TokenAt(s, EndsInLiteral(), dottedpath), outcome, e, rest)
    {
      match s[0] {
        case '?' =>
          return Done, if dottedpath then CommonChar else AnyChar, s[1..];
        case '[' =>
          if EndsInLiteral() {
            var ok, range, lo, up := ParseNumRange(s, ']');
            if ok {
              return Done, NumRange(lo, up), range;
            }
          }
          outcome, e, rest := ParseLiteral(s);
        case '{' =>
          outcome, e, rest := ParseBrace(s, EndsInLiteral(), dottedpath);
        case '*' =>
          if |s| > 1 && s[1] == '*' {
            return Done, AnySeq, s[2..];
          }
          return Done, if dottedpath then CommonSeq else AnySeq, s[1..];
        case _ =>
          outcome, e, rest := ParseLiteral(s);
      }
    }

    /** Reads a pattern; on an error, what was there before is lost and the matcher must not be used. */
    method SetPattern(patt: string, dottedpath: bool, fullstring: bool) returns (outcome: Outcome)
      modifies this
      ensures match TokensOf(patt, false, dottedpath)
        case Tokens(es) => outcome == Done && pattern == Completed(es, fullstring)
        case UnmatchedBrace => outcome == UnmatchedBraceError
        case RunsPastEnd => outcome == PastEndError
      ensures outcome == Done ==> Closed(pattern)
    {
      outcome := ParseElements(patt, dottedpath);
      if outcome == Done {
        Complete(fullstring);
      }
    }

    /** The loop of `setPattern`. */
    method ParseElements(patt: string, dottedpath: bool) returns (outcome: Outcome)
      modifies this
      ensures match TokensOf(patt, false, dottedpath)
        case Tokens(es) => outcome == Done && pattern == es
        case UnmatchedBrace => outcome == UnmatchedBraceError
        case RunsPastEnd => outcome == PastEndError
    {
      pattern := [];
      var s := patt;
      ghost var afterLiteral, all := false, TokensOf(patt, false, dottedpath);
      while s != ""
        invariant afterLiteral == EndsInLiteral()
        invariant Awaits(all, pattern, s, afterLiteral, dottedpath)
        decreases |s|, !afterLiteral
      {
        var e, rest;
        outcome, e, rest := ParseElement(s, dottedpath);
        NextToken(all, pattern, s, afterLiteral, dottedpath, outcome, e, rest);
        if outcome != Done {
          return;
        }
        pattern, s := pattern + [e], rest;
        afterLiteral := e.LiteralString?;
      }
      outcome := Done;
    }

    /** The end of `setPattern`. */
    method Complete(fullstring: bool)
      requires forall k :: 0 <= k < |pattern| ==> FromText(pattern[k])
      modifies this
      ensures pattern == Completed(old(pattern), fullstring) && Closed(pattern)
    {
      ghost var es := pattern;
      if !fullstring {
        if pattern == [] || pattern[|pattern| - 1] != AnySeq {
          pattern := pattern + [AnySeq];
        }
        if pattern[0] != AnySeq {
          pattern := [AnySeq] + pattern;
        }
      }
      pattern := pattern + [End];
      CompletedIsClosed(es, fullstring);
    }

    // ---------- matching ----------

    /** The cases of `doMatch` that consume a piece of fixed extent. */
    method Advance(e: Elem, line: string, s: nat) returns (ok: bool, next: nat)
      requires FromText(e) && !e.AnySeq? && !e.CommonSeq? && s <= |line|
      ensures OnlyEnd(e, line, s, ok, next)
    {
      next := s + 1;
      match e {
        case LiteralString(l) =>
          next := s + |l|;
          ok := next <= |line| && line[s..next] == l;
        case AnyChar =>
          ok := s < |line|;
        case CommonChar =>
          ok := s < |line| && line[s] != '.';
        case Set(chars) =>
          ok := false;
          if s < |line| {
            ok := IsInSet(line[s], chars);
          }
        case NegSet(chars) =>
          ok := false;
          if s < |line| {
            var b := IsInSet(line[s], chars);
            ok := !b;
          }
        case NumRange(lo, up) =>
          if s == |line| || !IsDigit(line[s]) {
            return false, s + DigitRun(line[s..]);
          }
          var num := Atol(line[s..]);
          var rest := SkipDigits(line[s..]);
          ok, next := InRange(e, num), |line| - |rest|;
          RangeEnd(e, line, s);
        case _ =>
          ok := false;
      }
    }

    /** Whether the elements from `k0` on match the text from `s0` on. */
    method DoMatch(line: string, s0: nat, k0: nat) returns (b: bool)
      requires Closed(pattern) && k0 < |pattern| && s0 <= |line|
      ensures b <==> MatchFrom(pattern, k0, line, s0)
      decreases |pattern| - k0, 1
    {
      var s: nat, k: nat := s0, k0;
      while true
        invariant k0 <= k < |pattern| && s <= |line|
        invariant MatchFrom(pattern, k0, line, s0) <==> MatchFrom(pattern, k, line, s)
        decreases |pattern| - k
      {
        var e := pattern[k];
        match e {
          case AnySeq =>
            b := TryAnySeq(line, s, k);
            return;
          case CommonSeq =>
            b := TryCommonSeq(line, s, k);
            return;
          case End =>
            EndIsLast(pattern, line, s);
            return s == |line|;
          case _ =>
            var ok, next := Advance(e, line, s);
            OnlyPiece(pattern, k, line, s, next);
            if !ok {
              return false;
            }
            s := next;
        }
        k := k + 1;
      }
    }

    method TryAnySeq(line: string, s0: nat, k: nat) returns (b: bool)
      requires Closed(pattern) && k < |pattern| - 1 && pattern[k].AnySeq? && s0 <= |line|
      ensures b <==> MatchFrom(pattern, k, line, s0)
      decreases |pattern| - k, 0
    {
      if k == |pattern| - 2 {
        AnySeqAtEnd(pattern, line, s0);
        return true;
      }
      if k == |pattern| - 3 && pattern[k + 1].LiteralString? {
        AnySeqLiteralAtEnd(pattern, line, s0);
        return EndsWith(line[s0..], pattern[k + 1].literal);
      }
      var s: nat, next: nat := s0, k + 1;
      while true
        invariant s0 <= s <= |line|
        invariant forall j: nat :: s0 <= j < s ==> !MatchFrom(pattern, next, line, j)
        decreases |line| - s
      {
        b := DoMatch(line, s, next);
        if b {
          assert Consumable(pattern[k], line, s0, s);
          return true;
        }
        if s == |line| {
          return false;
        }
        s := s + 1;
      }
    }

    method TryCommonSeq(line: string, s0: nat, k: nat) returns (b: bool)
      requires Closed(pattern) && k < |pattern| - 1 && pattern[k].CommonSeq? && s0 <= |line|
      ensures b <==> MatchFrom(pattern, k, line, s0)
      decreases |pattern| - k, 0
    {
      var s: nat, next: nat := s0, k + 1;
      while true
        invariant s0 <= s <= |line| && '.' !in line[s0..s]
        invariant forall j: nat :: s0 <= j < s ==> !MatchFrom(pattern, next, line, j)
        decreases |line| - s
      {
        b := DoMatch(line, s, next);
        if b {
          assert Consumable(pattern[k], line, s0, s);
          return true;
        }
        if s == |line| || line[s] == '.' {
          assert forall j: nat :: s < j <= |line| ==> line[s0..j][s - s0] == '.';
          return false;
        }
        s := s + 1;
      }
    }

    /** Whether the pattern matches the whole text. The last two characters are compared first when the pattern ends
        in a literal that has as many. */
    method Matches(line: string) returns (b: bool)
      requires Closed(pattern)
      ensures b <==> Globs.Matches(pattern, line)
    {
      MatchesIsMatchFrom(pattern, line);
      if |pattern| >= 2 {
        var e := pattern[|pattern| - 2];
        if e.LiteralString? {
          var pattlen, linelen := |e.literal|, |line|;
          if pattlen >= 2 && linelen >= 2 &&
             (line[linelen - 1] != e.literal[pattlen - 1] || line[linelen - 2] != e.literal[pattlen - 2]) {
            LastTwoAgree(pattern, line);
            return false;
          }
        }
      }
      b := DoMatch(line, 0, 0);
    }
  }
}
