/** The canonical form of a Go function body (audit-dev-guidelines.py, lines 732-747):
  * bare lowercase identifiers become id0, id1, ... in order of first occurrence. */
module GoNormalize {
  import opened GoTokens
  import opened FirstOccurrence
  import Strings

  /** A name that is neither a keyword nor exported. */
  predicate BareName(t: Token)
    requires WellLexedToken(t)
  {
    t.kind == Name && t.value !in GO_KEYWORDS && !IsUpper(t.value[0])
  }

  /** Neither a selector nor a call target. */
  predicate Unattached(body: seq<Token>, p: nat)
    requires p < |body|
  {
    && (p == 0 || body[p - 1].value != ".")
    && (p + 1 == |body| || body[p + 1].value != "(")
  }

  /** Bare identifiers only. */
  predicate Renameable(body: seq<Token>, p: nat)
    requires WellLexed(body) && p < |body|
  {
    BareName(body[p]) && Unattached(body, p)
  }

  ghost function Marks(body: seq<Token>): (m: seq<bool>)
    requires WellLexed(body)
    ensures |m| == |body|
    ensures forall p :: 0 <= p < |body| ==> (m[p] <==> Renameable(body, p))
  {
    seq(|body|, p requires 0 <= p < |body| => Renameable(body, p))
  }

  ghost function Canonical(body: seq<Token>): (r: seq<string>)
    requires WellLexed(body)
    ensures |r| == |body|
  {
    Renamed(Values(body), Marks(body))
  }

  /** bindings is the dictionary the renaming loop holds after position n. */
  ghost predicate Bound(bindings: map<string, string>, vs: seq<string>, marks: seq<bool>, n: nat)
    requires |marks| == |vs| && n <= |vs|
  {
    var names := FirstSeen(vs, marks, n);
    && |bindings| == |names|
    && (forall x :: x in bindings <==> x in names)
    && forall x :: x in names ==> bindings[x] == IdName(IndexOf(names, x))
  }

  /** A renameable name keeps its id, or gets the next one at its first occurrence. */
  method SetDefault(bindings: map<string, string>, x: string, ghost vs: seq<string>, ghost marks: seq<bool>,
                    ghost n: nat)
    returns (bound: map<string, string>, id: string)
    requires |marks| == |vs| && n < |vs| && marks[n] && vs[n] == x
    requires Bound(bindings, vs, marks, n)
    ensures Bound(bound, vs, marks, n + 1)
    ensures id == RenamedAt(vs, marks, n)
  {
    ghost var names := FirstSeen(vs, marks, n);
    if x in bindings {
      bound := bindings;
    } else {
      IndexAppended(names, x);
      bound := bindings[x := IdName(|bindings|)];
    }
    assert x in FirstSeen(vs, marks, n + 1);
    id := bound[x];
  }

  lemma UnmarkedStep(bindings: map<string, string>, vs: seq<string>, marks: seq<bool>, n: nat)
    requires |marks| == |vs| && n < |vs| && !marks[n]
    requires Bound(bindings, vs, marks, n)
    ensures Bound(bindings, vs, marks, n + 1)
    ensures RenamedAt(vs, marks, n) == vs[n]
  {
  }

  /** One position of the renaming loop. */
  method NormalizeAt(body: seq<Token>, pos: nat, bindings: map<string, string>)
    returns (bound: map<string, string>, id: string)
    requires WellLexed(body) && pos < |body|
    requires Bound(bindings, Values(body), Marks(body), pos)
    ensures Bound(bound, Values(body), Marks(body), pos + 1)
    ensures id == Canonical(body)[pos]
  {
    if Renameable(body, pos) {
      bound, id := SetDefault(bindings, body[pos].value, Values(body), Marks(body), pos);
    } else {
      UnmarkedStep(bindings, Values(body), Marks(body), pos);
      bound, id := bindings, body[pos].value;
    }
  }

  /** The renaming loop: one pass and a dictionary, no look-back. */
  method Normalize(body: seq<Token>) returns (values: seq<string>, normalized: seq<string>)
    requires WellLexed(body)
    ensures values == Values(body)
    ensures normalized == Canonical(body)
  {
    values, normalized := [], [];
    var bindings: map<string, string> := map[];
    ghost var vals, whole := Values(body), Canonical(body);
    var pos := 0;
    while pos < |body|
      invariant pos <= |body| && values == vals[..pos] && normalized == whole[..pos]
      invariant Bound(bindings, Values(body), Marks(body), pos)
    {
      var bound, id := NormalizeAt(body, pos, bindings);
      TakeNext(vals, pos);
      TakeNext(whole, pos);
      values, normalized := values + [body[pos].value], normalized + [id];
      bindings, pos := bound, pos + 1;
    }
  }

  lemma TakeNext<T>(s: seq<T>, n: nat)
    requires n < |s|
    ensures s[..n] + [s[n]] == s[..n + 1]
  {
  }

  // ---- alpha-equivalence ------------------------------------------------

  /** The same tokens, up to a one-to-one renaming of bare identifiers. */
  ghost predicate AlphaEquivalent(a: seq<Token>, b: seq<Token>)
    requires WellLexed(a) && WellLexed(b)
  {
    && |a| == |b|
    && Marks(a) == Marks(b)
    && exists f :: RenamedBy(Values(a), Values(b), Marks(a), f)
  }

  /** A dot or an opening parenthesis in the canonical form was one in the body. */
  lemma PunctuationKept(body: seq<Token>, p: nat, mark: string)
    requires WellLexed(body) && p < |body| && (mark == "." || mark == "(")
    ensures Canonical(body)[p] == mark <==> body[p].value == mark
  {
    assert Canonical(body)[p] == RenamedAt(Values(body), Marks(body), p);
    assert mark[0] != 'i' && !IsNameStart(mark[0]);
  }

  /** Selectors, call targets, exported names, keywords and everything that is not a name come
    * through as they are; every other name becomes a generated id. */
  lemma WhatIsKept(body: seq<Token>, p: nat)
    requires WellLexed(body) && p < |body|
    ensures var t := body[p];
      if t.kind != Name || t.value in GO_KEYWORDS || IsUpper(t.value[0])
         || (p > 0 && body[p - 1].value == ".") || (p + 1 < |body| && body[p + 1].value == "(")
      then Canonical(body)[p] == t.value
      else exists k: nat :: k < |body| && Canonical(body)[p] == IdName(k)
  {
    var vs, marks := Values(body), Marks(body);
    assert Canonical(body)[p] == RenamedAt(vs, marks, p);
    if marks[p] {
      assert vs[p] in FirstSeen(vs, marks, p + 1);
      SeenBound(vs, marks, p + 1);
    }
  }

  lemma KeywordsAre(x: string)
    ensures x in GO_KEYWORDS <==>
      x in {"break", "case", "chan", "const", "continue", "default", "defer", "else", "fallthrough",
            "for", "func", "go", "goto", "if", "import", "interface", "map", "package", "range",
            "return", "select", "struct", "switch", "type", "var", "true", "false", "nil"}
  {
  }

  /** A token that the code leaves alone: no name, a keyword or predeclared constant, exported, a
    * selector, or what is called or converted to. */
  ghost predicate LeftAlone(body: seq<Token>, p: nat)
    requires p < |body| && body[p].value != ""
  {
    || body[p].kind != Name
    || body[p].value in {
         "break", "case", "chan", "const", "continue", "default", "defer", "else", "fallthrough",
         "for", "func", "go", "goto", "if", "import", "interface", "map", "package", "range",
         "return", "select", "struct", "switch", "type", "var", "true", "false", "nil"}
    || 'A' <= body[p].value[0] <= 'Z'
    || (p > 0 && body[p - 1].value == ".")
    || (p + 1 < |body| && body[p + 1].value == "(")
  }

  /** The same with nothing named: what is left alone stands as it was, and every other token is id
    * followed by a numeral below the length. */
  lemma KeptOrNumbered(body: seq<Token>, p: nat)
    requires WellLexed(body) && p < |body|
    ensures if LeftAlone(body, p) then Canonical(body)[p] == body[p].value
            else exists k: nat :: k < |body| && Canonical(body)[p] == "id" + Strings.Decimal(k)
  {
    WhatIsKept(body, p);
    KeywordsAre(body[p].value);
    if !LeftAlone(body, p) {
      var k: nat :| k < |body| && Canonical(body)[p] == IdName(k);
      assert IdName(k) == "id" + Strings.Decimal(k);
    }
  }

  lemma PunctuationShared(a: seq<Token>, b: seq<Token>, p: nat, mark: string)
    requires WellLexed(a) && WellLexed(b) && Canonical(a) == Canonical(b)
    requires p < |a| == |b| && (mark == "." || mark == "(")
    ensures a[p].value == mark <==> b[p].value == mark
  {
    PunctuationKept(a, p, mark);
    PunctuationKept(b, p, mark);
  }

  lemma GeneratedIsBare(t: Token, k: nat)
    requires WellLexedToken(t) && t.value == IdName(k)
    ensures BareName(t)
  {
    assert t.value[0] == 'i' && t.value[1] == 'd';
  }

  lemma SameAttachment(a: seq<Token>, b: seq<Token>, p: nat)
    requires WellLexed(a) && WellLexed(b) && Canonical(a) == Canonical(b)
    requires p < |a| == |b|
    ensures Unattached(a, p) <==> Unattached(b, p)
  {
    if p > 0 { PunctuationShared(a, b, p - 1, "."); }
    if p + 1 < |a| { PunctuationShared(a, b, p + 1, "("); }
  }

  /** What stands opposite a generated id is a bare name. */
  lemma OppositeGenerated(a: seq<Token>, b: seq<Token>, p: nat)
    requires WellLexed(a) && WellLexed(b) && Canonical(a) == Canonical(b)
    requires p < |a| == |b| && Marks(b)[p]
    ensures BareName(a[p])
  {
    var va, ma := Values(a), Marks(a);
    var vb, mb := Values(b), Marks(b);
    assert RenamedAt(va, ma, p) == RenamedAt(vb, mb, p) by {
      assert Canonical(a)[p] == Canonical(b)[p];
    }
    assert vb[p] in FirstSeen(vb, mb, p + 1);
    if !ma[p] {
      GeneratedIsBare(a[p], IndexOf(FirstSeen(vb, mb, p + 1), vb[p]));
    }
  }

  /** A generated id never meets a literal idN of the other body: a literal idN is left
    * alone only because of its neighbours, and neighbours are kept. */
  lemma NoCollision(a: seq<Token>, b: seq<Token>, p: nat)
    requires WellLexed(a) && WellLexed(b) && Canonical(a) == Canonical(b)
    requires p < |a| == |b| && Renameable(b, p)
    ensures Renameable(a, p)
  {
    SameAttachment(a, b, p);
    OppositeGenerated(a, b, p);
  }

  lemma SameMarks(a: seq<Token>, b: seq<Token>)
    requires WellLexed(a) && WellLexed(b) && Canonical(a) == Canonical(b)
    ensures |a| == |b| && Marks(a) == Marks(b)
  {
    assert |a| == |Canonical(a)| == |Canonical(b)| == |b|;
    forall p | 0 <= p < |a| ensures Marks(a)[p] <==> Marks(b)[p] {
      if Renameable(b, p) { NoCollision(a, b, p); }
      if Renameable(a, p) { NoCollision(b, a, p); }
    }
  }

  /** Two bodies have the same canonical form exactly when they are alpha-equivalent. */
  lemma CanonicalIffAlpha(a: seq<Token>, b: seq<Token>)
    requires WellLexed(a) && WellLexed(b)
    ensures Canonical(a) == Canonical(b) <==> AlphaEquivalent(a, b)
  {
    if AlphaEquivalent(a, b) {
      var f :| RenamedBy(Values(a), Values(b), Marks(a), f);
      RenamingGivesSame(Values(a), Values(b), Marks(a), f);
    }
    if Canonical(a) == Canonical(b) {
      SameMarks(a, b);
      var f := SameGivesRenaming(Values(a), Values(b), Marks(a));
    }
  }
}
