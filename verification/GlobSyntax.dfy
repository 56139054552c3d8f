/** How `PatternMatcher::setPattern` reads a pattern. Each function takes the text from the current position on. */
module GlobSyntax {
  import opened Globs
  import opened Wrappers

  // ---------- numeric ranges ----------

  /** Number of digits that `s` starts with. */
  function DigitRun(s: string): (n: nat)
    ensures n <= |s| && (forall i :: 0 <= i < n ==> IsDigit(s[i])) && (n < |s| ==> !IsDigit(s[n]))
  {
    if s != "" && IsDigit(s[0]) then 1 + DigitRun(s[1..]) else 0
  }

  datatype Range = Range(lo: int, up: int, rest: string)

  predicate TwoDots(s: string)
  {
    |s| > 1 && s[0] == '.' && s[1] == '.'
  }

  function Bound(digits: string): int
    requires forall i :: 0 <= i < |digits| ==> IsDigit(digits[i])
  {
    if digits == "" then -1 else AtoL(digits)
  }

  /** "n..m" and a closing character, which is left unread; both numbers are optional. */
  function NumRangeAt(s: string, closing: char): (r: Option<Range>)
    ensures r.Some? ==> |r.value.rest| < |s| && r.value.rest != "" && r.value.rest[0] == closing
  {
    var a := DigitRun(s);
    var s1 := s[a..];
    if !TwoDots(s1) then None
    else
      var s2 := s1[2..];
      var b := DigitRun(s2);
      if s2[b..] == "" || s2[b] != closing then None
      else Some(Range(Bound(s[..a]), Bound(s2[..b]), s2[b..]))
  }

  // ---------- literals ----------

  datatype Literal = Literal(text: string, rest: string) | PastEnd

  predicate StopsLiteral(c: char)
  {
    c == '?' || c == '{' || c == '*'
  }

  /** A literal ends before '?', '{' and '*', and at a '[' that starts a numeric range: that '[' belongs to the
      literal but is not consumed. A backslash makes the next character part of the literal; at the very end of the
      pattern it makes the parser run past the terminating NUL. */
  function LiteralAt(s: string): (l: Literal)
    ensures l.Literal? ==> |l.rest| <= |s|
  {
    if s == "" || StopsLiteral(s[0]) then Literal("", s)
    else if s[0] == '\\' && |s| == 1 then PastEnd
    else
      var s1 := if s[0] == '\\' then s[1..] else s;
      if s1[0] == '[' && NumRangeAt(s1[1..], ']').Some? then Literal([s1[0]], s1)
      else
        var l := LiteralAt(s1[1..]);
        if l.PastEnd? then PastEnd else Literal([s1[0]] + l.text, l.rest)
  }

  // ---------- sets ----------

  datatype CharSet = CharSet(chars: string, rest: string) | Unmatched

  /** The characters of a set up to its '}', as pairs; a '}' that comes first is an ordinary character. */
  function SetAt(s: string, first: bool): (c: CharSet)
    ensures c.CharSet? ==> |c.rest| < |s| && |c.chars| % 2 == 0
  {
    if s == "" then Unmatched
    else if s[0] == '}' && !first then CharSet("", s[1..])
    else
      var pair, rest :=
        if |s| > 2 && s[1] == '-' && s[2] != '}' then [s[0], s[2]] else [s[0], s[0]],
        if |s| > 2 && s[1] == '-' && s[2] != '}' then s[3..] else s[1..];
      var c := SetAt(rest, false);
      if c.Unmatched? then Unmatched else CharSet(pair + c.chars, c.rest)
  }

  // ---------- tokens ----------

  /** Elements come from the pattern text: no end marker, and sets are made of pairs. */
  predicate FromText(e: Elem)
  {
    match e
    case Set(cs) => |cs| % 2 == 0
    case NegSet(cs) => |cs| % 2 == 0
    case End => false
    case _ => true
  }

  datatype Token = Token(elem: Elem, rest: string) | BadBrace | BadBackslash

  function LiteralToken(s: string): Token
  {
    match LiteralAt(s)
    case Literal(text, rest) => Token(LiteralString(text), rest)
    case PastEnd => BadBackslash
  }

  /** The first element of the pattern text `s`. A "[n..m]" is a numeric range only right after a literal. */
  function TokenAt(s: string, afterLiteral: bool, dottedpath: bool): (t: Token)
    requires s != ""
    ensures t.Token? ==> |t.rest| < |s| || (t.rest == s && !afterLiteral && t.elem.LiteralString?)
    ensures t.Token? ==> FromText(t.elem)
  {
    match s[0]
    case '?' => Token(if dottedpath then CommonChar else AnyChar, s[1..])
    case '[' =>
      var r := NumRangeAt(s[1..], ']');
      if !afterLiteral || r.None? then LiteralToken(s)
      else Token(NumRange(r.value.lo, r.value.up), r.value.rest)
    case '{' =>
      var r := NumRangeAt(s[1..], '}');
      if r.Some? then Token(NumRange(r.value.lo, r.value.up), r.value.rest[1..])
      else
        var negated := |s| > 1 && s[1] == '^';
        var c := SetAt(if negated then s[2..] else s[1..], true);
        if c.Unmatched? then BadBrace
        else Token(if negated then NegSet(c.chars) else Set(c.chars), c.rest)
    case '*' =>
      if |s| > 1 && s[1] == '*' then Token(AnySeq, s[2..])
      else Token(if dottedpath then CommonSeq else AnySeq, s[1..])
    case _ => LiteralToken(s)
  }

  datatype Tokens = Tokens(elems: seq<Elem>) | UnmatchedBrace | RunsPastEnd

  /** All elements of a pattern. This ends for every pattern: the one kind of step that consumes nothing yields a
      literal, and is only taken when there is none just before. */
  function TokensOf(s: string, afterLiteral: bool, dottedpath: bool): (ts: Tokens)
    ensures ts.Tokens? ==> forall k :: 0 <= k < |ts.elems| ==> FromText(ts.elems[k])
    decreases |s|, !afterLiteral
  {
    if s == "" then Tokens([])
    else
      match TokenAt(s, afterLiteral, dottedpath)
      case Token(e, rest) => Prepend([e], TokensOf(rest, e.LiteralString?, dottedpath))
      case BadBrace => UnmatchedBrace
      case BadBackslash => RunsPastEnd
  }

  function Prepend(es: seq<Elem>, ts: Tokens): Tokens
  {
    if ts.Tokens? then Tokens(es + ts.elems) else ts
  }

  /** For a substring match, "**" is put at both ends unless it is there already; then comes the end marker. */
  function Completed(es: seq<Elem>, fullstring: bool): seq<Elem>
  {
    if fullstring then es + [End]
    else
      var es1 := if es == [] || es[|es| - 1] != AnySeq then es + [AnySeq] else es;
      (if es1[0] != AnySeq then [AnySeq] + es1 else es1) + [End]
  }

  /** A pattern ready for matching: the end marker closes it and occurs nowhere else. */
  ghost predicate Closed(es: seq<Elem>)
  {
    es != [] && es[|es| - 1] == End && forall k :: 0 <= k < |es| - 1 ==> FromText(es[k])
  }

  lemma CompletedIsClosed(es: seq<Elem>, fullstring: bool)
    requires forall k :: 0 <= k < |es| ==> FromText(es[k])
    ensures Closed(Completed(es, fullstring))
  {
  }
}
