/** The Go branch of lex (audit-dev-guidelines.py, lines 285-376): one left-to-right pass of
  * GO_TOKEN over the text, collecting tokens and blanking comments and strings in place. */
module GoLexer {
  import opened Wrappers
  import opened GoTokens
  import opened Lists

  /** How the word, digit and space classes of the regular expression treat characters beyond ASCII. */
  datatype Classes = Classes(word: char -> bool, digit: char -> bool, space: char -> bool)

  predicate Ascii(c: char) { c < 128 as char }

  predicate IsDecimalDigit(cc: Classes, c: char) {
    if Ascii(c) then '0' <= c <= '9' else cc.digit(c)
  }

  predicate IsWord(cc: Classes, c: char) {
    if Ascii(c) then IsNameStart(c) || '0' <= c <= '9' else cc.word(c)
  }

  predicate IsSpace(cc: Classes, c: char) {
    if Ascii(c) then c == ' ' || 9 as char <= c <= 13 as char || 28 as char <= c <= 31 as char else cc.space(c)
  }

  datatype MatchKind = Comment | Space | Kept(kind: Kind)

  /** A match of GO_TOKEN: its alternative and where it ends. */
  datatype Match = Match(kind: MatchKind, end: nat)

  // ---- the alternatives, in the order the expression tries them ------------

  /** The end of the line that i stands on. */
  function LineEnd(s: string, i: nat): (e: nat)
    requires i <= |s|
    ensures i <= e <= |s| && '\n' !in s[i..e] && (e < |s| ==> s[e] == '\n')
    decreases |s| - i
  {
    if i < |s| && s[i] != '\n' then LineEnd(s, i + 1) else i
  }

  /** The end of the first two-character string xy at or after i. */
  function FirstPair(s: string, x: char, y: char, i: nat): (r: Option<nat>)
    requires i <= |s|
    ensures r.Some? ==> i + 2 <= r.value <= |s|
    decreases |s| - i
  {
    if i + 1 >= |s| then None
    else if s[i] == x && s[i + 1] == y then Some(i + 2)
    else FirstPair(s, x, y, i + 1)
  }

  /** The end of the first q at or after i. */
  function FirstChar(s: string, q: char, i: nat): (r: Option<nat>)
    requires i <= |s|
    ensures r.Some? ==> i < r.value <= |s|
    decreases |s| - i
  {
    if i == |s| then None else if s[i] == q then Some(i + 1) else FirstChar(s, q, i + 1)
  }

  /** Quoted text from i on, to its closing quote q: a backslash takes the next character with it,
    * unless that is the end of the line. */
  function Quoted(s: string, q: char, i: nat): (r: Option<nat>)
    requires i <= |s|
    ensures r.Some? ==> i < r.value <= |s|
    decreases |s| - i
  {
    if i == |s| then None
    else if s[i] == q then Some(i + 1)
    else if s[i] != '\\' then Quoted(s, q, i + 1)
    else if i + 1 < |s| && s[i + 1] != '\n' then Quoted(s, q, i + 2)
    else None
  }

  /** The end of the longest run of characters satisfying p. */
  function Run(s: string, p: char -> bool, i: nat): (e: nat)
    requires i <= |s|
    ensures i <= e <= |s|
    decreases |s| - i
  {
    if i < |s| && p(s[i]) then Run(s, p, i + 1) else i
  }

  function CommentEnd(s: string, i: nat): (r: Option<nat>)
    requires i < |s|
    ensures r.Some? ==> i < r.value <= |s|
  {
    if i + 1 < |s| && s[i] == '/' && s[i + 1] == '/' then Some(LineEnd(s, i + 2))
    else if i + 1 < |s| && s[i] == '/' && s[i + 1] == '*' then FirstPair(s, '*', '/', i + 2)
    else None
  }

  function StringEnd(s: string, i: nat): (r: Option<nat>)
    requires i < |s|
    ensures r.Some? ==> i < r.value <= |s|
  {
    if s[i] == '`' then FirstChar(s, '`', i + 1)
    else if s[i] == '"' || s[i] == '\'' then Quoted(s, s[i], i + 1)
    else None
  }

  predicate TwoCharOperator(a: char, b: char) {
    || (b == '=' && (a == ':' || a == '=' || a == '!' || a == '<' || a == '>'))
    || (a == '&' && b == '&') || (a == '|' && b == '|')
    || (a == '<' && b == '-') || (a == '+' && b == '+') || (a == '-' && b == '-')
  }

  /** The match of GO_TOKEN at i. Every character starts one: it is a space or it is not. */
  function MatchAt(cc: Classes, s: string, i: nat): (m: Match)
    requires i < |s|
    ensures i < m.end <= |s|
  {
    if CommentEnd(s, i).Some? then Match(Comment, CommentEnd(s, i).value)
    else if StringEnd(s, i).Some? then Match(Kept(Text), StringEnd(s, i).value)
    else if IsNameStart(s[i]) then Match(Kept(Name), Run(s, c => IsWord(cc, c), i + 1))
    else if IsDecimalDigit(cc, s[i]) then Match(Kept(Number), Run(s, c => IsWord(cc, c) || c == '.', i + 1))
    else if IsSpace(cc, s[i]) then Match(Space, Run(s, c => IsSpace(cc, c), i + 1))
    else if i + 1 < |s| && TwoCharOperator(s[i], s[i + 1]) then Match(Kept(Operator), i + 2)
    else Match(Kept(Operator), i + 1)
  }

  // ---- what the scans mean as expressions ------------------------------------

  /** s[i..j] is a run of escaped pairs and plain characters. */
  ghost predicate Units(s: string, q: char, i: nat, j: nat)
    requires j <= |s|
    decreases j - i
  {
    || i == j
    || (i + 2 <= j && s[i] == '\\' && s[i + 1] != '\n' && Units(s, q, i + 2, j))
    || (i + 1 <= j && s[i] != '\\' && s[i] != q && Units(s, q, i + 1, j))
  }

  /** The expression for quoted text can match from i in one way at most, so backtracking makes no
    * difference: the scan finds that way, or there is none. */
  lemma {:induction false} QuotedIff(s: string, q: char, i: nat, e: nat)
    requires i < e <= |s| && q != '\\'
    ensures Quoted(s, q, i) == Some(e) <==> Units(s, q, i, e - 1) && s[e - 1] == q
    decreases e - i
  {
    if s[i] == q {
    } else if s[i] != '\\' {
      if i + 1 < e { QuotedIff(s, q, i + 1, e); }
    } else if i + 2 < e && s[i + 1] != '\n' {
      QuotedIff(s, q, i + 2, e);
    }
  }

  /** The lazy pattern of block comments ends at the first closing pair. */
  lemma {:induction false} FirstPairIff(s: string, x: char, y: char, i: nat, e: nat)
    requires i <= |s|
    ensures FirstPair(s, x, y, i) == Some(e) <==>
      && i + 2 <= e <= |s| && s[e - 2] == x && s[e - 1] == y
      && forall k :: i <= k < e - 2 ==> !(s[k] == x && s[k + 1] == y)
    decreases |s| - i
  {
    if i + 1 < |s| && !(s[i] == x && s[i + 1] == y) { FirstPairIff(s, x, y, i + 1, e); }
  }

  /** A greedy class run is the longest one. */
  lemma {:induction false} RunIff(s: string, p: char -> bool, i: nat, e: nat)
    requires i <= |s|
    ensures Run(s, p, i) == e <==>
      && i <= e <= |s| && (forall k :: i <= k < e ==> p(s[k])) && (e < |s| ==> !p(s[e]))
    decreases |s| - i
  {
    if i < |s| && p(s[i]) { RunIff(s, p, i + 1, e); }
  }

  // ---- the tiling ----------------------------------------------------------

  /** The position i begins a match of the left-to-right scan. */
  ghost predicate Boundary(cc: Classes, s: string, from: nat, i: nat)
    requires from <= |s|
    decreases |s| - from
  {
    i == from || (from < |s| && Boundary(cc, s, MatchAt(cc, s, from).end, i))
  }

  /** Where the match that covers position p begins: the matches leave no gap. */
  ghost function Cover(cc: Classes, s: string, from: nat, p: nat): (b: nat)
    requires from <= p < |s|
    ensures from <= b <= p && Boundary(cc, s, from, b) && p < MatchAt(cc, s, b).end
    decreases |s| - from
  {
    var e := MatchAt(cc, s, from).end;
    if p < e then from else Cover(cc, s, e, p)
  }

  lemma {:induction false} BoundaryBefore(cc: Classes, s: string, from: nat, i: nat)
    requires from <= |s| && Boundary(cc, s, from, i)
    ensures from <= i <= |s|
    decreases |s| - from
  {
    if i != from {
      BoundaryBefore(cc, s, MatchAt(cc, s, from).end, i);
    }
  }

  /** Only one match covers a position. */
  lemma {:induction false} CoverUnique(cc: Classes, s: string, from: nat, p: nat, b: nat)
    requires from <= p < |s| && Boundary(cc, s, from, b) && b <= p < MatchAt(cc, s, b).end
    ensures b == Cover(cc, s, from, p)
    decreases |s| - from
  {
    var e := MatchAt(cc, s, from).end;
    if b != from {
      BoundaryBefore(cc, s, e, b);
      CoverUnique(cc, s, e, p, b);
    }
  }

  /** The kind of the match that covers p in a scan of the whole text. */
  ghost function KindAt(cc: Classes, s: string, p: nat): MatchKind
    requires p < |s|
  {
    MatchAt(cc, s, Cover(cc, s, 0, p)).kind
  }

  lemma {:induction false} BoundaryStep(cc: Classes, s: string, from: nat, i: nat)
    requires from <= |s| && Boundary(cc, s, from, i) && i < |s|
    ensures Boundary(cc, s, from, MatchAt(cc, s, i).end)
    decreases |s| - from
  {
    if i != from {
      BoundaryStep(cc, s, MatchAt(cc, s, from).end, i);
    } else {
      assert Boundary(cc, s, MatchAt(cc, s, from).end, MatchAt(cc, s, from).end);
    }
  }

  // ---- lines ---------------------------------------------------------------

  /** The number of newlines. */
  function Newlines(s: string): nat {
    if s == "" then 0 else Newlines(s[..|s| - 1]) + (if s[|s| - 1] == '\n' then 1 else 0)
  }

  lemma {:induction false} NewlinesConcat(a: string, b: string)
    ensures Newlines(a + b) == Newlines(a) + Newlines(b)
    decreases |b|
  {
    if b == "" {
      assert a + b == a;
    } else {
      assert (a + b)[..|a + b| - 1] == a + b[..|b| - 1];
      NewlinesConcat(a, b[..|b| - 1]);
    }
  }

  /** Equal newline positions give equal counts. */
  lemma {:induction false} NewlinesSame(a: string, b: string)
    requires |a| == |b| && forall i :: 0 <= i < |a| ==> (a[i] == '\n' <==> b[i] == '\n')
    ensures Newlines(a) == Newlines(b)
    decreases |a|
  {
    if a != "" {
      NewlinesSame(a[..|a| - 1], b[..|b| - 1]);
    }
  }

  // ---- the scan ------------------------------------------------------------

  function Blank(c: char): char { if c == '\n' then c else ' ' }

  /** out is s up to n, with the positions of the chosen kinds blanked. */
  ghost predicate BlankedUpTo(cc: Classes, s: string, out: seq<char>, n: nat, strings: bool) {
    && |out| == |s|
    && forall p :: 0 <= p < |s| ==>
         out[p] == if p < n && Blanks(KindAt(cc, s, p), strings) then Blank(s[p]) else s[p]
  }

  /** t is the token the match beginning at its start makes. */
  ghost predicate TokenFrom(cc: Classes, s: string, t: Token) {
    && t.start < |s| && Boundary(cc, s, 0, t.start)
    && MatchAt(cc, s, t.start) == Match(Kept(t.kind), t.end)
    && t.value == s[t.start..t.end]
    && t.line == 1 + Newlines(s[..t.start])
  }

  /** tokens are, in order, the tokens of all matches that begin before n. */
  ghost predicate TokensUpTo(cc: Classes, s: string, tokens: seq<Token>, n: nat) {
    && (forall k :: 0 <= k < |tokens| ==> tokens[k].start < n && TokenFrom(cc, s, tokens[k]))
    && (forall j, k :: 0 <= j < k < |tokens| ==> tokens[j].start < tokens[k].start)
    && (forall b: nat :: b < n && b < |s| && Boundary(cc, s, 0, b) && MatchAt(cc, s, b).kind.Kept? ==>
         exists k :: 0 <= k < |tokens| && tokens[k].start == b)
  }

  /** A boundary strictly inside a match there is not. */
  lemma NoBoundaryInside(cc: Classes, s: string, i: nat, b: nat)
    requires i < |s| && Boundary(cc, s, 0, i) && b < |s| && Boundary(cc, s, 0, b)
    requires i <= b < MatchAt(cc, s, i).end
    ensures b == i
  {
    CoverUnique(cc, s, 0, b, i);
    CoverUnique(cc, s, 0, b, b);
  }

  lemma MatchCovers(cc: Classes, s: string, i: nat)
    requires i < |s| && Boundary(cc, s, 0, i)
    ensures forall p :: i <= p < MatchAt(cc, s, i).end ==> KindAt(cc, s, p) == MatchAt(cc, s, i).kind
  {
    forall p: nat | i <= p < MatchAt(cc, s, i).end ensures KindAt(cc, s, p) == MatchAt(cc, s, i).kind {
      CoverUnique(cc, s, 0, p, i);
    }
  }

  lemma LinesAdd(s: string, i: nat, e: nat)
    requires i <= e <= |s|
    ensures Newlines(s[..e]) == Newlines(s[..i]) + Newlines(s[i..e])
  {
    assert s[..e] == s[..i] + s[i..e];
    NewlinesConcat(s[..i], s[i..e]);
  }

  lemma TokenAdded(cc: Classes, s: string, tokens: seq<Token>, i: nat, t: Token)
    requires i < |s| && Boundary(cc, s, 0, i) && TokensUpTo(cc, s, tokens, i)
    requires t.start == i && TokenFrom(cc, s, t)
    ensures TokensUpTo(cc, s, tokens + [t], t.end)
  {
    var more := tokens + [t];
    forall b: nat | b < t.end && Boundary(cc, s, 0, b) && MatchAt(cc, s, b).kind.Kept?
      ensures exists k :: 0 <= k < |more| && more[k].start == b
    {
      if b < i {
        var k :| 0 <= k < |tokens| && tokens[k].start == b;
        assert more[k].start == b;
      } else {
        NoBoundaryInside(cc, s, i, b);
        assert more[|tokens|].start == i;
      }
    }
  }

  lemma TokenSkipped(cc: Classes, s: string, tokens: seq<Token>, i: nat)
    requires i < |s| && Boundary(cc, s, 0, i) && TokensUpTo(cc, s, tokens, i)
    requires !MatchAt(cc, s, i).kind.Kept?
    ensures TokensUpTo(cc, s, tokens, MatchAt(cc, s, i).end)
  {
    forall b: nat | b < MatchAt(cc, s, i).end && Boundary(cc, s, 0, b) && MatchAt(cc, s, b).kind.Kept?
      ensures exists k :: 0 <= k < |tokens| && tokens[k].start == b
    {
      if b >= i { NoBoundaryInside(cc, s, i, b); }
    }
  }

  /** Overwriting a slice with its text blanked. */
  method BlankSlice(a: array<char>, value: string, start: nat)
    requires start + |value| <= a.Length
    modifies a
    ensures forall p :: 0 <= p < a.Length ==>
      a[p] == if start <= p < start + |value| then Blank(value[p - start]) else old(a[p])
  {
    for k := 0 to |value|
      invariant forall p :: 0 <= p < a.Length ==>
        a[p] == if start <= p < start + k then Blank(value[p - start]) else old(a[p])
    {
      a[start + k] := Blank(value[k]);
    }
  }

  /** Whether clean (or, with strings, mask) is blanked under a match of this kind. */
  predicate Blanks(k: MatchKind, strings: bool) { k == Comment || (strings && k == Kept(Text)) }

  /** Blank the match at i if its kind calls for it. */
  method BlankMatch(cc: Classes, s: string, a: array<char>, i: nat, strings: bool)
    requires i < |s| && Boundary(cc, s, 0, i) && BlankedUpTo(cc, s, a[..], i, strings)
    modifies a
    ensures BlankedUpTo(cc, s, a[..], MatchAt(cc, s, i).end, strings)
  {
    var m := MatchAt(cc, s, i);
    MatchCovers(cc, s, i);
    if Blanks(m.kind, strings) {
      assert forall p :: i <= p < |s| ==> a[..][p] == s[p];
      BlankSlice(a, s[i..m.end], i);
    }
  }

  /** One scanned file. */
  class Source {
    const text: string
    var tokens: seq<Token>
    var clean: string
    var mask: string

    constructor (text: string)
      ensures this.text == text && tokens == [] && clean == "" && mask == ""
    {
      this.text := text;
      tokens, clean, mask := [], "", "";
    }

    /** Collect the match at i, which stands on the given line. */
    method Collect(cc: Classes, i: nat, line: nat)
      requires i < |text| && Boundary(cc, text, 0, i) && TokensUpTo(cc, text, tokens, i)
      requires line == 1 + Newlines(text[..i])
      modifies this`tokens
      ensures TokensUpTo(cc, text, tokens, MatchAt(cc, text, i).end)
    {
      var m := MatchAt(cc, text, i);
      if m.kind.Kept? {
        var t := Token(text[i..m.end], i, m.end, line, m.kind.kind);
        TokenAdded(cc, text, tokens, i, t);
        tokens := tokens + [t];
      } else {
        TokenSkipped(cc, text, tokens, i);
      }
    }

    /** What holds between two matches of the scan. */
    ghost predicate AtMatch(cc: Classes, i: nat, line: nat, cleaned: seq<char>, masked: seq<char>)
      reads this
    {
      && i <= |text| && Boundary(cc, text, 0, i)
      && line == 1 + Newlines(text[..i])
      && TokensUpTo(cc, text, tokens, i)
      && BlankedUpTo(cc, text, cleaned, i, false)
      && BlankedUpTo(cc, text, masked, i, true)
    }

    method ScanMatch(cc: Classes, i: nat, line: nat, cleaned: array<char>, masked: array<char>)
      returns (next: nat, nextLine: nat)
      requires i < |text| && AtMatch(cc, i, line, cleaned[..], masked[..]) && cleaned != masked
      modifies this`tokens, cleaned, masked
      ensures next > i && AtMatch(cc, next, nextLine, cleaned[..], masked[..])
    {
      BlankMatch(cc, text, masked, i, true);
      BlankMatch(cc, text, cleaned, i, false);
      Collect(cc, i, line);
      next := MatchAt(cc, text, i).end;
      LinesAdd(text, i, next);
      BoundaryStep(cc, text, 0, i);
      nextLine := line + Newlines(text[i..next]);
    }

    method Lex(cc: Classes)
      requires tokens == []
      modifies this
      ensures TokensUpTo(cc, text, tokens, |text|)
      ensures BlankedUpTo(cc, text, clean, |text|, false)
      ensures BlankedUpTo(cc, text, mask, |text|, true)
    {
      var cleaned := new char[|text|](p requires 0 <= p < |text| => text[p]);
      var masked := new char[|text|](p requires 0 <= p < |text| => text[p]);
      var i, line := 0, 1;
      while i < |text|
        invariant AtMatch(cc, i, line, cleaned[..], masked[..])
      {
        i, line := ScanMatch(cc, i, line, cleaned, masked);
      }
      clean, mask := cleaned[..], masked[..];
    }
  }

  // ---- what the scan guarantees --------------------------------------------

  /** The tokens satisfy what function extraction relies on. */
  lemma TokensWellLexed(cc: Classes, s: string, tokens: seq<Token>)
    requires TokensUpTo(cc, s, tokens, |s|)
    ensures WellLexed(tokens)
  {
    forall k | 0 <= k < |tokens| ensures WellLexedToken(tokens[k]) {
      var t := tokens[k];
      assert TokenFrom(cc, s, t);
      assert t.value[0] == s[t.start];
    }
  }

  function Starts(tokens: seq<Token>): (ns: seq<nat>)
    ensures |ns| == |tokens| && forall k :: 0 <= k < |tokens| ==> ns[k] == tokens[k].start
  {
    seq(|tokens|, k requires 0 <= k < |tokens| => tokens[k].start)
  }

  lemma StartsAreMatches(cc: Classes, s: string, tokens: seq<Token>, b: nat)
    requires TokensUpTo(cc, s, tokens, |s|)
    ensures b in Starts(tokens) <==> b < |s| && Boundary(cc, s, 0, b) && MatchAt(cc, s, b).kind.Kept?
  {
    if b in Starts(tokens) {
      var k :| 0 <= k < |tokens| && tokens[k].start == b;
      assert TokenFrom(cc, s, tokens[k]);
    }
    if b < |s| && Boundary(cc, s, 0, b) && MatchAt(cc, s, b).kind.Kept? {
      var k :| 0 <= k < |tokens| && tokens[k].start == b;
      assert Starts(tokens)[k] == b;
    }
  }

  /** The text determines its tokens. */
  lemma TokensUnique(cc: Classes, s: string, tokens: seq<Token>, tokens': seq<Token>)
    requires TokensUpTo(cc, s, tokens, |s|) && TokensUpTo(cc, s, tokens', |s|)
    ensures tokens == tokens'
  {
    var ns, ns' := Starts(tokens), Starts(tokens');
    forall b: nat ensures b in ns <==> b in ns' {
      StartsAreMatches(cc, s, tokens, b);
      StartsAreMatches(cc, s, tokens', b);
    }
    AscendingUnique(ns, ns');
    forall k | 0 <= k < |tokens| ensures tokens[k] == tokens'[k] {
      assert ns[k] == ns'[k];
      assert TokenFrom(cc, s, tokens[k]) && TokenFrom(cc, s, tokens'[k]);
    }
  }

  /** Blanking keeps the length, every newline where it was, and everything outside the blanked
    * spans; so a match offset in the blanked text counts the source lines. */
  lemma BlankingKeepsLines(cc: Classes, s: string, out: string, strings: bool, p: nat)
    requires BlankedUpTo(cc, s, out, |s|, strings) && p <= |s|
    ensures |out| == |s|
    ensures forall q :: 0 <= q < |s| ==> (out[q] == '\n' <==> s[q] == '\n')
    ensures Newlines(out[..p]) == Newlines(s[..p])
  {
    NewlinesSame(out[..p], s[..p]);
  }

  lemma RunSatisfies(s: string, p: char -> bool, i: nat)
    requires i <= |s|
    ensures forall q :: i <= q < Run(s, p, i) ==> p(s[q])
  {
    RunIff(s, p, i, Run(s, p, i));
  }

  predicate IsDelimiter(c: char) {
    c == '(' || c == ')' || c == '[' || c == ']' || c == '{' || c == '}'
  }

  /** A delimiter outside comments and strings is a token of its own. */
  lemma DelimiterStandsAlone(cc: Classes, s: string, b: nat, p: nat)
    requires b <= p < |s| && IsDelimiter(s[p]) && p < MatchAt(cc, s, b).end
    requires MatchAt(cc, s, b).kind != Comment && MatchAt(cc, s, b).kind != Kept(Text)
    ensures b == p && MatchAt(cc, s, p) == Match(Kept(Operator), p + 1)
  {
    RunSatisfies(s, c => IsWord(cc, c), b + 1);
    RunSatisfies(s, c => IsWord(cc, c) || c == '.', b + 1);
    RunSatisfies(s, c => IsSpace(cc, c), b + 1);
  }

  lemma DelimiterMatch(cc: Classes, s: string, p: nat)
    requires p < |s| && IsDelimiter(s[p])
    ensures MatchAt(cc, s, p) == Match(Kept(Operator), p + 1)
  {
  }

  lemma DelimiterKind(cc: Classes, s: string, p: nat)
    requires p < |s| && IsDelimiter(s[p]) && Boundary(cc, s, 0, p)
    ensures KindAt(cc, s, p) == Kept(Operator)
  {
    DelimiterMatch(cc, s, p);
    CoverUnique(cc, s, 0, p, p);
  }

  lemma DelimiterValue(cc: Classes, s: string, t: Token)
    requires TokenFrom(cc, s, t) && IsDelimiter(s[t.start])
    ensures t.value == [s[t.start]]
  {
    DelimiterMatch(cc, s, t.start);
    assert s[t.start..t.start + 1] == [s[t.start]];
  }

  /** A token beginning with a delimiter survives masking. */
  lemma DelimiterTokenSurvives(cc: Classes, s: string, t: Token, mask: string)
    requires TokenFrom(cc, s, t) && BlankedUpTo(cc, s, mask, |s|, true) && IsDelimiter(s[t.start])
    ensures mask[t.start] == s[t.start] && t.value == [s[t.start]]
  {
    DelimiterKind(cc, s, t.start);
    DelimiterValue(cc, s, t);
  }

  lemma SurvivorIsToken(cc: Classes, s: string, mask: string, p: nat)
    requires BlankedUpTo(cc, s, mask, |s|, true) && p < |s| && IsDelimiter(mask[p])
    ensures Boundary(cc, s, 0, p) && MatchAt(cc, s, p).kind == Kept(Operator) && IsDelimiter(s[p])
  {
    DelimiterStandsAlone(cc, s, Cover(cc, s, 0, p), p);
  }

  /** Braces in comments and strings never reach the delimiter stack: the delimiter tokens are
    * exactly the delimiter characters that survive masking. */
  lemma DelimiterTokensAreMasked(cc: Classes, s: string, tokens: seq<Token>, mask: string, p: nat)
    requires TokensUpTo(cc, s, tokens, |s|) && BlankedUpTo(cc, s, mask, |s|, true) && p < |s|
    ensures IsDelimiter(mask[p]) <==>
      exists k :: 0 <= k < |tokens| && tokens[k].start == p && IsDelimiter(s[p]) && tokens[k].value == [s[p]]
  {
    if IsDelimiter(mask[p]) {
      SurvivorIsToken(cc, s, mask, p);
    }
    if k :| 0 <= k < |tokens| && tokens[k].start == p && IsDelimiter(s[p]) {
      assert TokenFrom(cc, s, tokens[k]);
      DelimiterTokenSurvives(cc, s, tokens[k], mask);
    }
  }
}
