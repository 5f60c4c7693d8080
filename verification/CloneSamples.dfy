/** Three Go files in which the related lists of the clone report are not symmetric: each declares
  * one helper that sums a name with itself over thirty lines. */
module CloneSamples {
  import opened GoTokens
  import opened FirstOccurrence
  import opened GoNormalize
  import opened Delimiters
  import opened GoDeclarations
  import opened GoFunctions
  import opened Lists
  import opened CloneReport
  import opened Audit

  // ---- the files -------------------------------------------------------------

  type Letter = c: char | IsLower(c) witness 'x'

  /** The k-th token of the text
    *   func f() int {
    *   return x +
    *   x +
    *   ...
    *   x
    *   }
    * with thirty x. */
  function SampleToken(f: Letter, x: Letter, k: nat): Token {
    if k == 0 then Token("func", 0, 4, 1, Name)
    else if k == 1 then Token([f], 5, 6, 1, Name)
    else if k == 2 then Token("(", 6, 7, 1, Operator)
    else if k == 3 then Token(")", 7, 8, 1, Operator)
    else if k == 4 then Token("int", 9, 12, 1, Name)
    else if k == 5 then Token("{", 13, 14, 1, Operator)
    else if k == 6 then Token("return", 15, 21, 2, Name)
    else if k == 66 then Token("}", 140, 141, 32, Operator)
    else
      var start, line := 2 * k + 8, 2 + (k - 7) / 2;
      if k % 2 == 1 then Token([x], start, start + 1, line, Name) else Token("+", start, start + 1, line, Operator)
  }

  function SampleTokens(f: Letter, x: Letter): (ts: seq<Token>)
    ensures |ts| == 67 && forall k :: 0 <= k < 67 ==> ts[k] == SampleToken(f, x, k)
  {
    seq(67, k requires 0 <= k < 67 => SampleToken(f, x, k))
  }

  function SampleFile(path: string, f: Letter, x: Letter): SourceFile {
    SourceFile(path, ".go", false, SampleTokens(f, x))
  }

  const SAMPLE_HEADER := Header(false, 1, 2, 5, 66)

  const SAMPLE_DECL := Declaration(0, SAMPLE_HEADER)

  /** A helper, a copy of it, and a renaming of both. */
  function SampleFiles(): (files: seq<SourceFile>) {
    [SampleFile("a.go", 'f', 'x'), SampleFile("b.go", 'g', 'x'), SampleFile("c.go", 'h', 'y')]
  }

  lemma SampleLexed(f: Letter, x: Letter)
    ensures WellLexed(SampleTokens(f, x))
  {
    forall k | 0 <= k < 67 ensures WellLexedToken(SampleToken(f, x, k)) {}
  }

  // ---- their declarations ----------------------------------------------------

  ghost function CloserOf(bs: seq<Bracket>, o: nat): (c: nat)
    requires exists c: nat :: IsPair(bs, o, c)
    ensures IsPair(bs, o, c)
  {
    var c: nat :| IsPair(bs, o, c); c
  }

  /** Any tokens record some pairs. */
  lemma RecordedExists(ts: seq<Token>) returns (pairs: map<nat, nat>)
    ensures Recorded(ts, pairs)
  {
    var bs := Brackets(ts);
    pairs := map o: nat | o < |bs| && (exists c: nat :: IsPair(bs, o, c)) :: CloserOf(bs, o);
    forall o: nat, c: nat | IsPair(bs, o, c) ensures o in pairs && pairs[o] == c {
      PopsUnique(bs, o, c, o, CloserOf(bs, o));
    }
  }

  lemma SampleBrackets(f: Letter, x: Letter, k: nat)
    requires k < 67
    ensures var b := Brackets(SampleTokens(f, x))[k];
      b == if k == 2 then Open(Round) else if k == 3 then Close(Round)
           else if k == 5 then Open(Curly) else if k == 66 then Close(Curly) else Plain
  {
  }

  lemma {:induction false} PlainNests(bs: seq<Bracket>, lo: nat, hi: nat)
    requires lo <= hi <= |bs| && forall k :: lo <= k < hi ==> bs[k].Plain?
    ensures Nested(bs, lo, hi)
    decreases hi
  {
    if lo < hi { PlainNests(bs, lo, hi - 1); }
  }

  lemma SamplePairs(f: Letter, x: Letter, pairs: map<nat, nat>)
    requires Recorded(SampleTokens(f, x), pairs)
    ensures 2 in pairs && pairs[2] == 3 && 5 in pairs && pairs[5] == 66
  {
    var bs := Brackets(SampleTokens(f, x));
    forall k: nat | k < 67 ensures bs[k] ==
      if k == 2 then Open(Round) else if k == 3 then Close(Round)
      else if k == 5 then Open(Curly) else if k == 66 then Close(Curly) else Plain
    {
      SampleBrackets(f, x, k);
    }
    PlainNests(bs, 3, 3);
    PlainNests(bs, 6, 66);
    assert IsPair(bs, 2, 3) && IsPair(bs, 5, 66);
  }

  lemma SampleDeclares(f: Letter, x: Letter, pairs: map<nat, nat>)
    requires Recorded(SampleTokens(f, x), pairs)
    ensures Declares(SampleTokens(f, x), pairs, 0, SAMPLE_HEADER)
  {
    var ts := SampleTokens(f, x);
    SamplePairs(f, x, pairs);
    assert [f] != "(";
    assert Heads(ts, pairs, 0, false, 1, 2);
    assert Item(ts, pairs, 4, 5) && Items(ts, pairs, 5, 5);
    assert Items(ts, pairs, 4, 5);
    assert Tails(ts, pairs, 2, 5, 66);
  }

  lemma OneFunc(f: Letter, x: Letter, k: nat)
    requires Is(SampleTokens(f, x), k, "func")
    ensures k == 0
  {
  }

  // ---- their fingerprints ----------------------------------------------------

  /** The fingerprint of the helper of a file, when functions of 60 tokens count as substantial. */
  ghost function SamplePrint(path: string, f: Letter, x: Letter): Function {
    SampleLexed(f, x);
    FunctionAt(SampleFile(path, f, x), 60, 0, SAMPLE_HEADER)
  }

  ghost function Samples(): seq<Function> {
    [SamplePrint("a.go", 'f', 'x'), SamplePrint("b.go", 'g', 'x'), SamplePrint("c.go", 'h', 'y')]
  }

  function SampleBody(f: Letter, x: Letter): (body: seq<Token>)
    ensures |body| == 60 && forall k :: 0 <= k < 60 ==> body[k] == SampleToken(f, x, k + 6)
  {
    SampleTokens(f, x)[6..66]
  }

  lemma {:induction false} FewerLines(lines: set<nat>, more: set<nat>)
    requires lines <= more
    ensures |lines| <= |more|
    decreases |more|
  {
    if lines != {} {
      var n :| n in lines;
      FewerLines(lines - {n}, more - {n});
    }
  }

  lemma LineOf(f: Letter, x: Letter, n: nat)
    requires n < 30
    ensures n + 2 in Lines(SampleBody(f, x))
  {
    var body, k := SampleBody(f, x), if n == 0 then 0 else 2 * n + 1;
    assert body[k].line == n + 2;
  }

  lemma SixLines(lines: set<nat>)
    requires 2 in lines && 3 in lines && 4 in lines && 5 in lines && 6 in lines && 7 in lines
    ensures |lines| >= 6
  {
    FewerLines({2, 3, 4, 5, 6, 7}, lines);
  }

  lemma SampleLines(f: Letter, x: Letter)
    ensures |Lines(SampleBody(f, x))| >= 6
  {
    LineOf(f, x, 0);
    LineOf(f, x, 1);
    LineOf(f, x, 2);
    LineOf(f, x, 3);
    LineOf(f, x, 4);
    LineOf(f, x, 5);
    SixLines(Lines(SampleBody(f, x)));
  }

  /** Sixty tokens on thirty lines are enough. */
  lemma SampleSubstantial(path: string, f: Letter, x: Letter)
    ensures SamplePrint(path, f, x).substantial
  {
    SampleLexed(f, x);
    SampleLines(f, x);
    assert BodyTokens(SampleTokens(f, x), SAMPLE_HEADER) == SampleBody(f, x);
  }

  lemma SampleFields(path: string, f: Letter, x: Letter)
    ensures WellLexed(SampleBody(f, x))
    ensures var p := SamplePrint(path, f, x);
      && p.path == path && p.suffix == ".go" && p.name == [f] && p.line == 1
      && p.exact == Values(SampleBody(f, x)) && p.normalized == Canonical(SampleBody(f, x))
  {
    SampleLexed(f, x);
  }

  lemma KeywordsAreLonger(c: char)
    ensures [c] !in GO_KEYWORDS
  {
  }

  lemma SampleMarks(f: Letter, x: Letter, p: nat)
    requires p < 60 && WellLexed(SampleBody(f, x))
    ensures Marks(SampleBody(f, x))[p] <==> p % 2 == 1
  {
    var body := SampleBody(f, x);
    KeywordsAreLonger(x);
    assert body[p] == SampleToken(f, x, p + 6);
    assert p > 0 ==> body[p - 1] == SampleToken(f, x, p + 5);
    assert p < 59 ==> body[p + 1] == SampleToken(f, x, p + 7);
    assert "return" in GO_KEYWORDS;
  }

  /** Whatever it is called and whatever it sums, a helper is alpha-equivalent to another. */
  lemma SamplesAlpha(f: Letter, x: Letter, g: Letter, y: Letter)
    requires WellLexed(SampleBody(f, x)) && WellLexed(SampleBody(g, y))
    ensures AlphaEquivalent(SampleBody(f, x), SampleBody(g, y))
  {
    var a, b := SampleBody(f, x), SampleBody(g, y);
    forall p | 0 <= p < 60 ensures Marks(a)[p] == Marks(b)[p] == (p % 2 == 1) {
      SampleMarks(f, x, p);
      SampleMarks(g, y, p);
    }
    assert RenamedBy(Values(a), Values(b), Marks(a), map[[x] := [y]]);
  }

  // ---- the witness -----------------------------------------------------------

  lemma SampleFingerprint(path: string, f: Letter, x: Letter, pairs: map<nat, nat>)
    requires Recorded(SampleTokens(f, x), pairs)
    ensures WellLexed(SampleTokens(f, x))
    ensures FingerprintOf(SampleFile(path, f, x), 60, pairs, SAMPLE_DECL, SamplePrint(path, f, x))
  {
    SampleLexed(f, x);
    SampleDeclares(f, x, pairs);
  }

  lemma SampleAlone(f: Letter, x: Letter, pairs: map<nat, nat>, k: nat, h: Header)
    requires Recorded(SampleTokens(f, x), pairs) && Declares(SampleTokens(f, x), pairs, k, h)
    ensures k == 0 && h == SAMPLE_HEADER
  {
    SampleDeclares(f, x, pairs);
    OneFunc(f, x, k);
    DeclaresUnique(SampleTokens(f, x), pairs, 0, h, SAMPLE_HEADER);
  }

  lemma FunctionsOfThree(a: Scan, b: Scan, c: Scan, p: Function, q: Function, r: Function)
    requires a.functions == [p] && b.functions == [q] && c.functions == [r]
    ensures AllFunctions([a, b, c]) == [p, q, r]
  {
    assert [a, b, c][..2] == [a, b] && [a, b][..1] == [a] && [a][..0] == [];
    assert AllFunctions([a]) == a.functions;
    assert AllFunctions([a, b]) == AllFunctions([a]) + b.functions;
  }

  /** What scanning the three files can yield. */
  ghost predicate ScannedThree(files: seq<SourceFile>, scans: seq<Scan>, fs: seq<Function>) {
    AllLexed(files) && |scans| == |files| == 3 && AllScanned(files, 60, scans) && AllFunctions(scans) == fs
  }

  ghost predicate ScansAs(file: SourceFile, scan: Scan, f: Function) {
    LexedFile(file) && Scanned(file, 60, scan) && scan.functions == [f]
  }

  lemma OneDeclaration(file: SourceFile, pairs: map<nat, nat>, d: Declaration, f: Function)
    requires WellLexed(file.tokens) && Recorded(file.tokens, pairs) && IsScannedGo(file)
    requires FingerprintOf(file, 60, pairs, d, f) && d.index < |file.tokens|
    requires forall k: nat, h :: Declares(file.tokens, pairs, k, h) ==> Declaration(k, h) == d
    ensures ScansAs(file, Scan(pairs, [d], [f]), f)
  {
    assert Fingerprints(file, 60, pairs, |file.tokens|, [d], [f]);
  }

  /** Scanning the file finds the helper and nothing else. */
  lemma SampleScanned(path: string, f: Letter, x: Letter) returns (scan: Scan)
    ensures ScansAs(SampleFile(path, f, x), scan, SamplePrint(path, f, x))
  {
    var pairs := RecordedExists(SampleTokens(f, x));
    SampleFingerprint(path, f, x, pairs);
    forall k: nat, h | Declares(SampleTokens(f, x), pairs, k, h) ensures Declaration(k, h) == SAMPLE_DECL {
      SampleAlone(f, x, pairs, k, h);
    }
    scan := Scan(pairs, [SAMPLE_DECL], [SamplePrint(path, f, x)]);
    OneDeclaration(SampleFile(path, f, x), pairs, SAMPLE_DECL, SamplePrint(path, f, x));
  }

  lemma ThreeScans(x: SourceFile, y: SourceFile, z: SourceFile, a: Scan, b: Scan, c: Scan,
                   p: Function, q: Function, r: Function)
    requires ScansAs(x, a, p) && ScansAs(y, b, q) && ScansAs(z, c, r)
    ensures ScannedThree([x, y, z], [a, b, c], [p, q, r])
  {
    FunctionsOfThree(a, b, c, p, q, r);
  }

  /** The fingerprints are what scanning the three files gathers. */
  lemma SamplesAreScanned() returns (scans: seq<Scan>)
    ensures ScannedThree(SampleFiles(), scans, Samples())
  {
    var a := SampleScanned("a.go", 'f', 'x');
    var b := SampleScanned("b.go", 'g', 'x');
    var c := SampleScanned("c.go", 'h', 'y');
    scans := [a, b, c];
    ThreeScans(SampleFile("a.go", 'f', 'x'), SampleFile("b.go", 'g', 'x'), SampleFile("c.go", 'h', 'y'), a, b, c,
               SamplePrint("a.go", 'f', 'x'), SamplePrint("b.go", 'g', 'x'), SamplePrint("c.go", 'h', 'y'));
  }

  lemma SamplesAreClones(path: string, f: Letter, x: Letter, path': string, g: Letter, y: Letter)
    ensures var p, q := SamplePrint(path, f, x), SamplePrint(path', g, y);
      Alike(p, q) && (p.exact == q.exact <==> x == y)
  {
    SampleSubstantial(path, f, x);
    SampleSubstantial(path', g, y);
    SampleFields(path, f, x);
    SampleFields(path', g, y);
    var a, b := SampleBody(f, x), SampleBody(g, y);
    SamplesAlpha(f, x, g, y);
    CanonicalIffAlpha(a, b);
    assert Values(a)[1] == [x] && Values(b)[1] == [y];
    assert [x] == [y] <==> x == y by { assert [x][0] == x && [y][0] == y; }
    assert x == y ==> Values(a) == Values(b);
  }

  ghost predicate Alike(p: Function, q: Function) {
    p.substantial && q.substantial && p.suffix == q.suffix && p.normalized == q.normalized
  }

  /** Three clones, of which the first two are copies of one another and the third of neither. */
  lemma CopiesAndRenaming(fs: seq<Function>, p: Function, q: Function, r: Function)
    requires fs == [p, q, r] && Alike(p, q) && Alike(p, r) && p.exact == q.exact && p.exact != r.exact
    ensures forall j: nat :: Duplicates(fs, 0, j) <==> j == 1
    ensures forall j: nat :: Clones(fs, 2, j) <==> j < 2
    ensures forall j: nat :: !Duplicates(fs, 2, j)
  {
  }

  lemma ListsOneCopy(fs: seq<Function>, i: nat, found: Finding, n: nat)
    requires n < |fs| && IsCloneFinding(fs, i, found) && forall j: nat :: Duplicates(fs, i, j) <==> j == n
    ensures found.related == [LocationOf(fs[n])]
  {
    assert Duplicates(fs, i, n);
    var js :| ReportsAgainst(fs, i, found, js);
    AscendingUnique(js, [n]);
  }

  lemma ListsTwoClones(fs: seq<Function>, i: nat, found: Finding)
    requires |fs| >= 2 && IsCloneFinding(fs, i, found)
    requires forall j: nat :: Clones(fs, i, j) <==> j < 2
    requires forall j: nat :: !Duplicates(fs, i, j)
    ensures found.related == [LocationOf(fs[0]), LocationOf(fs[1])]
  {
    var js :| ReportsAgainst(fs, i, found, js);
    AscendingUnique(js, [0, 1]);
  }

  lemma SampleLocation(path: string, f: Letter, x: Letter)
    ensures LocationOf(SamplePrint(path, f, x)) == Location(path, 1, [f])
  {
    SampleFields(path, f, x);
  }

  /** The renaming lists the helper and its copy, and the helper its copy alone. */
  lemma SamplesNotSymmetric(fi: Finding, fc: Finding)
    requires IsCloneFinding(Samples(), 0, fi) && IsCloneFinding(Samples(), 2, fc)
    ensures fi.related == [Location("b.go", 1, "g")]
    ensures fc.related == [Location("a.go", 1, "f"), Location("b.go", 1, "g")]
  {
    SamplesAreClones("a.go", 'f', 'x', "b.go", 'g', 'x');
    SamplesAreClones("a.go", 'f', 'x', "c.go", 'h', 'y');
    CopiesAndRenaming(Samples(), SamplePrint("a.go", 'f', 'x'), SamplePrint("b.go", 'g', 'x'),
                      SamplePrint("c.go", 'h', 'y'));
    ListsOneCopy(Samples(), 0, fi, 1);
    ListsTwoClones(Samples(), 2, fc);
    SampleLocation("a.go", 'f', 'x');
    SampleLocation("b.go", 'g', 'x');
  }
}
