/** The cross-file part of the audit (audit-dev-guidelines.py, lines 766-802 and 951-997):
  * references accumulated over all files, private helpers nobody else names, and clones. */
module Audit {
  import opened GoTokens
  import opened GoDeclarations
  import opened GoNormalize
  import opened GoFunctions
  import opened CloneReport

  /** All the name tokens of the files with a given suffix. */
  ghost function TotalBag(files: seq<SourceFile>, suffix: string): multiset<string> {
    if files == [] then multiset{}
    else
      var last := files[|files| - 1];
      TotalBag(files[..|files| - 1], suffix) +
      (if last.suffix == suffix then NameBag(last.tokens) else multiset{})
  }

  /** The references of a suffix; none where the dictionary has no entry yet. */
  function Refs(references: map<string, multiset<string>>, suffix: string): multiset<string> {
    if suffix in references then references[suffix] else multiset{}
  }

  ghost predicate AllLexed(files: seq<SourceFile>) {
    forall k :: 0 <= k < |files| ==> LexedFile(files[k])
  }

  /** The references are counted over all the files. */
  ghost predicate Totals(files: seq<SourceFile>, references: map<string, multiset<string>>) {
    forall s :: Refs(references, s) == TotalBag(files, s)
  }

  method AddReferences(files: seq<SourceFile>, n: nat, references: map<string, multiset<string>>)
    returns (updated: map<string, multiset<string>>)
    requires n < |files| && Totals(files[..n], references)
    ensures Totals(files[..n + 1], updated)
  {
    var bag := CountNames(files[n].tokens);
    updated := references[files[n].suffix := Refs(references, files[n].suffix) + bag];
    assert files[..n + 1][..n] == files[..n];
    forall s ensures Refs(updated, s) == TotalBag(files[..n + 1], s) {
      assert Refs(references, s) == TotalBag(files[..n], s);
    }
  }

  /** What scanning one file yields. */
  datatype Scan = Scan(pairs: map<nat, nat>, decls: seq<Declaration>, functions: seq<Function>)

  /** A non-test Go file yields the fingerprints of exactly its declarations; any other, none. */
  ghost predicate Scanned(file: SourceFile, minTokens: int, scan: Scan)
    requires LexedFile(file)
  {
    if !IsScannedGo(file) then scan.functions == []
    else
      && Recorded(file.tokens, scan.pairs)
      && Fingerprints(file, minTokens, scan.pairs, |file.tokens|, scan.decls, scan.functions)
  }

  ghost function AllFunctions(scans: seq<Scan>): seq<Function> {
    if scans == [] then [] else AllFunctions(scans[..|scans| - 1]) + scans[|scans| - 1].functions
  }

  /** scans are what scanning the first files yields. */
  ghost predicate AllScanned(files: seq<SourceFile>, minTokens: int, scans: seq<Scan>)
    requires AllLexed(files)
  {
    |scans| <= |files| && forall k :: 0 <= k < |scans| ==> Scanned(files[k], minTokens, scans[k])
  }

  lemma OneMoreScan(files: seq<SourceFile>, minTokens: int, scans: seq<Scan>, scan: Scan)
    requires AllLexed(files) && AllScanned(files, minTokens, scans) && |scans| < |files|
    requires Scanned(files[|scans|], minTokens, scan)
    ensures AllScanned(files, minTokens, scans + [scan])
  {
    var all := scans + [scan];
    forall k | 0 <= k < |all| ensures Scanned(files[k], minTokens, all[k]) {
      if k < |scans| {
        assert all[k] == scans[k];
      } else {
        assert all[k] == scan;
      }
    }
  }

  lemma OneMoreFunctions(scans: seq<Scan>, scan: Scan)
    ensures AllFunctions(scans + [scan]) == AllFunctions(scans) + scan.functions
  {
    assert (scans + [scan])[..|scans|] == scans;
  }

  method ScanFile(file: SourceFile, minTokens: int) returns (functions: seq<Function>, ghost scan: Scan)
    requires LexedFile(file)
    ensures Scanned(file, minTokens, scan) && functions == scan.functions
  {
    var more, pairs, decls := GoFunctionsOf(file, minTokens);
    functions, scan := more, Scan(pairs, decls, more);
  }

  /** The file loop: every declaration of every non-test Go file is fingerprinted once, and the
    * references of each suffix are counted over all its files, tests included. */
  method ScanFiles(files: seq<SourceFile>, minTokens: int)
    returns (functions: seq<Function>, references: map<string, multiset<string>>, ghost scans: seq<Scan>)
    requires AllLexed(files)
    ensures Totals(files, references)
    ensures |scans| == |files| && AllScanned(files, minTokens, scans)
    ensures functions == AllFunctions(scans)
  {
    functions, references, scans := [], map[], [];
    for k := 0 to |files|
      invariant Totals(files[..k], references)
      invariant |scans| == k && AllScanned(files, minTokens, scans)
      invariant functions == AllFunctions(scans)
    {
      references := AddReferences(files, k, references);
      var more;
      ghost var scan;
      more, scan := ScanFile(files[k], minTokens);
      OneMoreScan(files, minTokens, scans, scan);
      OneMoreFunctions(scans, scan);
      functions, scans := functions + more, scans + [scan];
    }
    assert files[..|files|] == files;
  }

  // ---- private helpers nobody else names ----------------------------------

  /** The counting test of structural_findings. */
  predicate CountsUnused(f: Function, references: map<string, multiset<string>>) {
    f.isPrivate && Refs(references, f.suffix)[f.name] <= f.identifiers[f.name]
  }

  function UnusedFinding(f: Function): Finding {
    Finding(UnusedPrivateHelper, f.path, f.line, [], Shown(f.name))
  }

  /** One finding for each helper that passes the test, in order. */
  function UnusedFindings(fs: seq<Function>, references: map<string, multiset<string>>): seq<Finding> {
    if fs == [] then []
    else
      var last := fs[|fs| - 1];
      UnusedFindings(fs[..|fs| - 1], references) +
      (if CountsUnused(last, references) then [UnusedFinding(last)] else [])
  }

  method ReportUnused(fs: seq<Function>, references: map<string, multiset<string>>) returns (found: seq<Finding>)
    ensures found == UnusedFindings(fs, references)
  {
    found := [];
    for i := 0 to |fs|
      invariant found == UnusedFindings(fs[..i], references)
    {
      assert fs[..i + 1][..i] == fs[..i];
      if CountsUnused(fs[i], references) {
        found := found + [UnusedFinding(fs[i])];
      }
    }
    assert fs[..|fs|] == fs;
  }

  lemma {:induction false} UnusedFindingsAre(fs: seq<Function>, references: map<string, multiset<string>>,
                                             found: Finding)
    ensures found in UnusedFindings(fs, references) <==>
      exists i :: 0 <= i < |fs| && CountsUnused(fs[i], references) && found == UnusedFinding(fs[i])
    decreases |fs|
  {
    if fs != [] {
      var init := fs[..|fs| - 1];
      UnusedFindingsAre(init, references, found);
      assert forall i :: 0 <= i < |init| ==> init[i] == fs[i];
    }
  }

  /** structural_findings: unused helpers first, then the clone groups. */
  method StructuralFindings(fs: seq<Function>, references: map<string, multiset<string>>)
    returns (found: seq<Finding>, ghost cloned: seq<nat>)
    ensures var unused := UnusedFindings(fs, references);
      unused <= found && IsCloneReport(fs, found[|unused|..]) && Reports(fs, cloned, found[|unused|..])
    ensures Once(cloned) && forall i: nat :: i in cloned <==> HasClone(fs, i)
  {
    var helpers := ReportUnused(fs, references);
    var clones;
    clones, cloned := ReportClones(fs);
    found := helpers + clones;
    assert found[|helpers|..] == clones;
  }

  // ---- what the counting test means ---------------------------------------

  /** The token at p of file j is the name x. */
  ghost predicate Named(files: seq<SourceFile>, suffix: string, j: nat, p: nat, x: string) {
    j < |files| && files[j].suffix == suffix && Occurs(files[j].tokens, p, x)
  }

  lemma {:induction false} TotalConcat(a: seq<SourceFile>, b: seq<SourceFile>, suffix: string)
    ensures TotalBag(a + b, suffix) == TotalBag(a, suffix) + TotalBag(b, suffix)
    decreases |b|
  {
    if b == [] {
      assert a + b == a;
    } else {
      assert (a + b)[..|a + b| - 1] == a + b[..|b| - 1];
      TotalConcat(a, b[..|b| - 1], suffix);
    }
  }

  lemma {:induction false} NowhereNamed(files: seq<SourceFile>, suffix: string, x: string)
    ensures TotalBag(files, suffix)[x] == 0 <==> forall j: nat, p: nat :: !Named(files, suffix, j, p, x)
    decreases |files|
  {
    if files != [] {
      var init, n := files[..|files| - 1], |files| - 1;
      NowhereNamed(init, suffix, x);
      NoOccurrence(files[n].tokens, x);
      assert forall j: nat, p: nat :: j < n ==> (Named(init, suffix, j, p, x) <==> Named(files, suffix, j, p, x));
      assert forall p: nat :: files[n].suffix == suffix ==>
        (Occurs(files[n].tokens, p, x) <==> Named(files, suffix, n, p, x));
    }
  }

  lemma CutInThree<T>(s: seq<T>, lo: nat, hi: nat)
    requires lo <= hi <= |s|
    ensures s == (s[..lo] + s[lo..hi]) + s[hi..]
  {
  }

  lemma SplitFile(ts: seq<Token>, lo: nat, hi: nat)
    requires lo <= hi <= |ts|
    ensures NameBag(ts) == NameBag(ts[..lo]) + NameBag(ts[lo..hi]) + NameBag(ts[hi..])
  {
    var a, b, c := ts[..lo], ts[lo..hi], ts[hi..];
    CutInThree(ts, lo, hi);
    NameBagConcat(a + b, c);
    NameBagConcat(a, b);
  }

  lemma TotalOfOne(file: SourceFile)
    ensures TotalBag([file], file.suffix) == NameBag(file.tokens)
  {
    assert [file][..0] == [];
  }

  lemma CutAround<T>(s: seq<T>, k: nat)
    requires k < |s|
    ensures s == s[..k] + s[k..] && s[k..] == [s[k]] + s[k + 1..]
  {
  }

  lemma SplitTotal(files: seq<SourceFile>, k: nat)
    requires k < |files|
    ensures var suffix := files[k].suffix;
      TotalBag(files, suffix) ==
      TotalBag(files[..k], suffix) + NameBag(files[k].tokens) + TotalBag(files[k + 1..], suffix)
  {
    var suffix, before, one, after := files[k].suffix, files[..k], [files[k]], files[k + 1..];
    CutAround(files, k);
    TotalConcat(before, one + after, suffix);
    TotalConcat(one, after, suffix);
    TotalOfOne(files[k]);
  }

  /** x stands in the file nowhere outside [lo, hi). */
  lemma OutsideCount(ts: seq<Token>, lo: nat, hi: nat, x: string)
    requires lo <= hi <= |ts|
    ensures NameBag(ts[..lo])[x] + NameBag(ts[hi..])[x] == 0 <==>
      forall p: nat :: Occurs(ts, p, x) ==> lo <= p < hi
  {
    NoOccurrence(ts[..lo], x);
    NoOccurrence(ts[hi..], x);
    forall p: nat | p < lo ensures Occurs(ts, p, x) <==> Occurs(ts[..lo], p, x) {}
    forall q: nat | q < |ts| - hi ensures Occurs(ts[hi..], q, x) <==> Occurs(ts, q + hi, x) {}
    forall p: nat | hi <= p ensures Occurs(ts, p, x) <==> Occurs(ts[hi..], p - hi, x) {}
  }

  /** x stands in no other file of the suffix. */
  lemma ElsewhereCount(files: seq<SourceFile>, k: nat, suffix: string, x: string)
    requires k < |files|
    ensures TotalBag(files[..k], suffix)[x] + TotalBag(files[k + 1..], suffix)[x] == 0 <==>
      forall j: nat, p: nat :: Named(files, suffix, j, p, x) ==> j == k
  {
    var before, after := files[..k], files[k + 1..];
    NowhereNamed(before, suffix, x);
    NowhereNamed(after, suffix, x);
    forall j: nat, p: nat | j < k ensures Named(files, suffix, j, p, x) <==> Named(before, suffix, j, p, x) {}
    forall i: nat, p: nat | i < |after|
      ensures Named(after, suffix, i, p, x) <==> Named(files, suffix, i + k + 1, p, x) {}
    forall j: nat, p: nat | j > k ensures Named(files, suffix, j, p, x) <==> Named(after, suffix, j - k - 1, p, x) {}
  }

  /** The counts agree exactly when the name stands nowhere outside the span. */
  lemma CountIffInside(files: seq<SourceFile>, k: nat, lo: nat, hi: nat, x: string)
    requires k < |files| && lo <= hi <= |files[k].tokens|
    ensures TotalBag(files, files[k].suffix)[x] <= NameBag(files[k].tokens[lo..hi])[x] <==>
      forall j: nat, p: nat :: Named(files, files[k].suffix, j, p, x) ==> j == k && lo <= p < hi
  {
    var suffix, ts := files[k].suffix, files[k].tokens;
    SplitTotal(files, k);
    SplitFile(ts, lo, hi);
    OutsideCount(ts, lo, hi, x);
    ElsewhereCount(files, k, suffix, x);
    forall p: nat ensures Occurs(ts, p, x) <==> Named(files, suffix, k, p, x) {}
  }

  /** Where a fingerprint came from: which file, and which declaration of it. */
  datatype Origin = Origin(file: nat, decl: Declaration)

  ghost predicate Placed(files: seq<SourceFile>, o: Origin) {
    && o.file < |files| && WellLexed(files[o.file].tokens)
    && InFile(files[o.file].tokens, o.decl.index, o.decl.header)
  }

  ghost predicate ComesFrom(files: seq<SourceFile>, minTokens: int, o: Origin, f: Function) {
    Placed(files, o) && f == FunctionAt(files[o.file], minTokens, o.decl.index, o.decl.header)
  }

  lemma {:induction false} FunctionOrigin(files: seq<SourceFile>, minTokens: int, scans: seq<Scan>, i: nat)
    returns (o: Origin)
    requires AllLexed(files) && AllScanned(files, minTokens, scans)
    requires i < |AllFunctions(scans)|
    ensures ComesFrom(files, minTokens, o, AllFunctions(scans)[i])
    ensures o.file < |scans| && files[o.file].suffix == ".go"
    ensures Declares(files[o.file].tokens, scans[o.file].pairs, o.decl.index, o.decl.header)
    decreases |scans|
  {
    var n := |scans| - 1;
    var before := AllFunctions(scans[..n]);
    if i < |before| {
      o := FunctionOrigin(files, minTokens, scans[..n], i);
    } else {
      var d := scans[n].decls[i - |before|];
      assert FingerprintOf(files[n], minTokens, scans[n].pairs, d, scans[n].functions[i - |before|]);
      o := Origin(n, d);
    }
  }

  lemma CountsUnusedIff(files: seq<SourceFile>, k: nat, lo: nat, hi: nat, f: Function,
                        references: map<string, multiset<string>>)
    requires k < |files| && lo <= hi <= |files[k].tokens|
    requires f.suffix == files[k].suffix && f.identifiers == NameBag(files[k].tokens[lo..hi])
    requires Totals(files, references)
    ensures CountsUnused(f, references) <==>
      f.isPrivate && forall j: nat, p: nat :: Named(files, f.suffix, j, p, f.name) ==> j == k && lo <= p < hi
  {
    CountIffInside(files, k, lo, hi, f.name);
  }

  /** A private Go helper is reported unused exactly when every token that names it, in every
    * scanned file of its suffix, lies between its own func and its own closing brace. */
  lemma UnusedIffNamedOnlyInside(files: seq<SourceFile>, minTokens: int, o: Origin, f: Function,
                                 references: map<string, multiset<string>>)
    requires ComesFrom(files, minTokens, o, f)
    requires Totals(files, references)
    ensures CountsUnused(f, references) <==>
      && f.isPrivate
      && forall j: nat, p: nat :: Named(files, f.suffix, j, p, f.name) ==>
           j == o.file && o.decl.index <= p < o.decl.header.end + 1
  {
    FingerprintNames(files, minTokens, o, f);
    CountsUnusedIff(files, o.file, o.decl.index, o.decl.header.end + 1, f, references);
  }

  lemma FingerprintNames(files: seq<SourceFile>, minTokens: int, o: Origin, f: Function)
    requires ComesFrom(files, minTokens, o, f)
    ensures f.suffix == files[o.file].suffix
    ensures o.decl.index <= o.decl.header.end < |files[o.file].tokens|
    ensures f.identifiers == NameBag(files[o.file].tokens[o.decl.index..o.decl.header.end + 1])
  {
  }

  // ---- what the clone report means ----------------------------------------

  ghost function BodyOf(files: seq<SourceFile>, o: Origin): (body: seq<Token>)
    requires Placed(files, o)
    ensures WellLexed(body)
  {
    BodyTokens(files[o.file].tokens, o.decl.header)
  }

  lemma FingerprintBody(files: seq<SourceFile>, minTokens: int, o: Origin, f: Function)
    requires ComesFrom(files, minTokens, o, f)
    ensures f.exact == Values(BodyOf(files, o)) && f.normalized == Canonical(BodyOf(files, o))
    ensures f.suffix == files[o.file].suffix
  {
  }

  /** Two Go functions are clones exactly when they are different, substantial, and their bodies
    * are alpha-equivalent; duplicates exactly when the bodies also agree token for token. */
  lemma ClonesAreAlphaEquivalent(files: seq<SourceFile>, minTokens: int, fs: seq<Function>,
                                 i: nat, oi: Origin, j: nat, oj: Origin)
    requires i < |fs| && j < |fs| && fs[i].suffix == fs[j].suffix
    requires ComesFrom(files, minTokens, oi, fs[i]) && ComesFrom(files, minTokens, oj, fs[j])
    ensures Clones(fs, i, j) <==>
      i != j && fs[i].substantial && fs[j].substantial && AlphaEquivalent(BodyOf(files, oi), BodyOf(files, oj))
    ensures Duplicates(fs, i, j) <==>
      Clones(fs, i, j) && Values(BodyOf(files, oi)) == Values(BodyOf(files, oj))
  {
    FingerprintBody(files, minTokens, oi, fs[i]);
    FingerprintBody(files, minTokens, oj, fs[j]);
    CanonicalIffAlpha(BodyOf(files, oi), BodyOf(files, oj));
  }
}
