/** What the lexer matches at a position, character by character: GO_TOKEN (audit-dev-guidelines.py,
  * lines 295-300) with every character class and operator written out. */
module GoMatches {
  import opened Wrappers
  import opened GoTokens
  import opened GoLexer

  // ---- comments --------------------------------------------------------------

  /** s[i..e] is two slashes and the rest of their line. */
  ghost predicate LineComment(s: string, i: nat, e: nat) {
    && i + 2 <= e <= |s| && s[i] == '/' && s[i + 1] == '/'
    && (forall k :: i + 2 <= k < e ==> s[k] != '\n') && (e < |s| ==> s[e] == '\n')
  }

  /** s[i..e] runs from a slash and a star to the first star and slash after them. */
  ghost predicate BlockComment(s: string, i: nat, e: nat) {
    && i + 4 <= e <= |s| && s[i] == '/' && s[i + 1] == '*' && s[e - 2] == '*' && s[e - 1] == '/'
    && forall k :: i + 2 <= k < e - 2 ==> !(s[k] == '*' && s[k + 1] == '/')
  }

  lemma LineEndIff(s: string, i: nat, e: nat)
    requires i <= |s|
    ensures LineEnd(s, i) == e <==>
      i <= e <= |s| && (forall k :: i <= k < e ==> s[k] != '\n') && (e < |s| ==> s[e] == '\n')
  {
    var l := LineEnd(s, i);
    assert forall k :: i <= k < l ==> s[k] in s[i..l] by {
      forall k | i <= k < l ensures s[k] in s[i..l] { assert s[i..l][k - i] == s[k]; }
    }
  }

  /** A match is a comment exactly when it is one of the two forms, and both come before the slash
    * as an operator. */
  lemma CommentIff(cc: Classes, s: string, i: nat, e: nat)
    requires i < |s|
    ensures MatchAt(cc, s, i) == Match(Comment, e) <==> LineComment(s, i, e) || BlockComment(s, i, e)
  {
    if i + 2 <= |s| {
      LineEndIff(s, i + 2, e);
      FirstPairIff(s, '*', '/', i + 2, e);
    }
  }

  // ---- strings ---------------------------------------------------------------

  /** s[i..e] is raw text: from a backquote to the next one. */
  ghost predicate RawText(s: string, i: nat, e: nat) {
    && i + 2 <= e <= |s| && s[i] == '`' && s[e - 1] == '`'
    && forall k :: i < k < e - 1 ==> s[k] != '`'
  }

  /** s[i..e] is text between double quotes or between single quotes, in which a backslash escapes
    * the character after it. */
  ghost predicate QuotedText(s: string, i: nat, e: nat) {
    && i + 2 <= e <= |s| && (s[i] == '"' || s[i] == '\'')
    && s[e - 1] == s[i] && Units(s, s[i], i + 1, e - 1)
  }

  lemma {:induction false} FirstCharIff(s: string, q: char, i: nat, e: nat)
    requires i <= |s|
    ensures FirstChar(s, q, i) == Some(e) <==>
      i < e <= |s| && s[e - 1] == q && forall k :: i <= k < e - 1 ==> s[k] != q
    decreases |s| - i
  {
    if i < |s| && s[i] != q { FirstCharIff(s, q, i + 1, e); }
  }

  lemma StringEndIff(s: string, i: nat, e: nat)
    requires i < |s|
    ensures StringEnd(s, i) == Some(e) <==> RawText(s, i, e) || QuotedText(s, i, e)
  {
    FirstCharIff(s, '`', i + 1, e);
    if i + 1 < e <= |s| && (s[i] == '"' || s[i] == '\'') { QuotedIff(s, s[i], i + 1, e); }
  }

  /** A match is a string exactly when it is raw text, or text between double or single quotes. */
  lemma TextIff(cc: Classes, s: string, i: nat, e: nat)
    requires i < |s|
    ensures MatchAt(cc, s, i) == Match(Kept(Text), e) <==> RawText(s, i, e) || QuotedText(s, i, e)
  {
    StringEndIff(s, i, e);
  }

  // ---- names, numbers and space ----------------------------------------------

  /** An ASCII letter, digit or underscore, or what the word class has beyond ASCII. */
  ghost predicate WordChar(cc: Classes, c: char) {
    if c as int < 0x80 then 'a' <= c <= 'z' || 'A' <= c <= 'Z' || '0' <= c <= '9' || c == '_' else cc.word(c)
  }

  ghost predicate DigitChar(cc: Classes, c: char) {
    if c as int < 0x80 then '0' <= c <= '9' else cc.digit(c)
  }

  /** Tab, newline, vertical tab, form feed, carriage return, the four separators, blank. */
  ghost predicate SpaceChar(cc: Classes, c: char) {
    if c as int < 0x80 then c as int in {9, 10, 11, 12, 13, 28, 29, 30, 31, 32} else cc.space(c)
  }

  /** s[i..e] is a name: an ASCII letter or underscore, and all the word characters after it. */
  ghost predicate NameText(cc: Classes, s: string, i: nat, e: nat) {
    && i < e <= |s| && ('a' <= s[i] <= 'z' || 'A' <= s[i] <= 'Z' || s[i] == '_')
    && (forall k :: i < k < e ==> WordChar(cc, s[k])) && (e < |s| ==> !WordChar(cc, s[e]))
  }

  /** s[i..e] is a number: a digit, and all the word characters and dots after it. */
  ghost predicate NumberText(cc: Classes, s: string, i: nat, e: nat) {
    && i < e <= |s| && DigitChar(cc, s[i])
    && (forall k :: i < k < e ==> WordChar(cc, s[k]) || s[k] == '.')
    && (e < |s| ==> !WordChar(cc, s[e]) && s[e] != '.')
  }

  /** s[i..e] is a longest run of space. */
  ghost predicate SpaceText(cc: Classes, s: string, i: nat, e: nat) {
    && i < e <= |s| && !DigitChar(cc, s[i])
    && (forall k :: i <= k < e ==> SpaceChar(cc, s[k])) && (e < |s| ==> !SpaceChar(cc, s[e]))
  }

  lemma ClassesAre(cc: Classes, c: char)
    ensures IsWord(cc, c) <==> WordChar(cc, c)
    ensures IsDecimalDigit(cc, c) <==> DigitChar(cc, c)
    ensures IsSpace(cc, c) <==> SpaceChar(cc, c)
  {
  }

  lemma NameIff(cc: Classes, s: string, i: nat, e: nat)
    requires i < |s|
    ensures MatchAt(cc, s, i) == Match(Kept(Name), e) <==> NameText(cc, s, i, e)
  {
    forall k | 0 <= k < |s| ensures IsWord(cc, s[k]) <==> WordChar(cc, s[k]) { ClassesAre(cc, s[k]); }
    RunIff(s, c => IsWord(cc, c), i + 1, e);
  }

  lemma NumberIff(cc: Classes, s: string, i: nat, e: nat)
    requires i < |s|
    ensures MatchAt(cc, s, i) == Match(Kept(Number), e) <==> NumberText(cc, s, i, e)
  {
    forall k | 0 <= k < |s| ensures IsWord(cc, s[k]) <==> WordChar(cc, s[k]) { ClassesAre(cc, s[k]); }
    ClassesAre(cc, s[i]);
    RunIff(s, c => IsWord(cc, c) || c == '.', i + 1, e);
  }

  lemma SpaceIff(cc: Classes, s: string, i: nat, e: nat)
    requires i < |s|
    ensures MatchAt(cc, s, i) == Match(Space, e) <==> SpaceText(cc, s, i, e)
  {
    forall k | 0 <= k < |s| ensures IsSpace(cc, s[k]) <==> SpaceChar(cc, s[k]) { ClassesAre(cc, s[k]); }
    ClassesAre(cc, s[i]);
    RunIff(s, c => IsSpace(cc, c), i + 1, e);
  }

  // ---- operators -------------------------------------------------------------

  /** The ten operators of two characters. */
  ghost predicate LongOperator(op: string) {
    || op == ":=" || op == "==" || op == "!=" || op == "<=" || op == ">="
    || op == "&&" || op == "||" || op == "<-" || op == "++" || op == "--"
  }

  lemma LongOperatorIs(a: char, b: char)
    ensures TwoCharOperator(a, b) <==> LongOperator([a, b])
  {
    var op := [a, b];
    assert op[0] == a && op[1] == b;
    forall p: string | |p| == 2 ensures op == p <==> a == p[0] && b == p[1] {
      assert p == [p[0], p[1]];
    }
  }

  /** Whatever is none of these is an operator: two characters if they are one of the ten, else a
    * single one. A quote without its partner is of this kind, and so is a slash before anything but
    * a slash or a closed block comment. */
  lemma OperatorIff(cc: Classes, s: string, i: nat, e: nat)
    requires i < |s|
    ensures MatchAt(cc, s, i) == Match(Kept(Operator), e) <==>
      && (forall k: nat :: !LineComment(s, i, k) && !BlockComment(s, i, k) && !RawText(s, i, k) && !QuotedText(s, i, k))
      && (forall k: nat :: !NameText(cc, s, i, k) && !NumberText(cc, s, i, k) && !SpaceText(cc, s, i, k))
      && e == if i + 1 < |s| && LongOperator([s[i], s[i + 1]]) then i + 2 else i + 1
  {
    var m := MatchAt(cc, s, i);
    forall k: nat
      ensures m == Match(Comment, k) <==> LineComment(s, i, k) || BlockComment(s, i, k)
      ensures m == Match(Kept(Text), k) <==> RawText(s, i, k) || QuotedText(s, i, k)
      ensures m == Match(Kept(Name), k) <==> NameText(cc, s, i, k)
      ensures m == Match(Kept(Number), k) <==> NumberText(cc, s, i, k)
      ensures m == Match(Space, k) <==> SpaceText(cc, s, i, k)
    {
      CommentIff(cc, s, i, k);
      TextIff(cc, s, i, k);
      NameIff(cc, s, i, k);
      NumberIff(cc, s, i, k);
      SpaceIff(cc, s, i, k);
    }
    if i + 1 < |s| { LongOperatorIs(s[i], s[i + 1]); }
  }

  // ---- what is blanked -------------------------------------------------------

  /** In the clean text a comment is blank but for its newlines, and in the mask a string too;
    * everything else stands as it was. */
  lemma BlankedIs(cc: Classes, s: string, clean: string, mask: string, b: nat, p: nat)
    requires BlankedUpTo(cc, s, clean, |s|, false) && BlankedUpTo(cc, s, mask, |s|, true)
    requires b <= p < |s| && Boundary(cc, s, 0, b) && p < MatchAt(cc, s, b).end
    ensures var blank, k := if s[p] == '\n' then '\n' else ' ', MatchAt(cc, s, b).kind;
      && clean[p] == (if k == Comment then blank else s[p])
      && mask[p] == (if k == Comment || k == Kept(Text) then blank else s[p])
  {
    CoverUnique(cc, s, 0, p, b);
  }

  /** A token is numbered by its line: one more than the newlines before it. */
  lemma {:induction false} NewlinesCount(s: string)
    ensures Newlines(s) == |set p | 0 <= p < |s| && s[p] == '\n'|
    decreases |s|
  {
    var at := set p | 0 <= p < |s| && s[p] == '\n';
    if s != "" {
      var n := |s| - 1;
      var init := s[..n];
      var before := set p | 0 <= p < |init| && init[p] == '\n';
      NewlinesCount(init);
      assert at == before + (if s[n] == '\n' then {n} else {});
    } else {
      assert at == {};
    }
  }
}
