/** The audit of a list of scanned files from end to end (audit-dev-guidelines.py, lines 951-997
  * without the regular-expression findings): what the structural findings say of the source. */
module AuditRun {
  import opened GoTokens
  import Delimiters
  import opened GoDeclarations
  import opened GoNormalize
  import opened GoFunctions
  import opened CloneReport
  import opened Audit

  // ---- where the fingerprints come from ------------------------------------

  /** A file records only one set of pairs. */
  lemma RecordedUnique(ts: seq<Token>, pairs: map<nat, nat>, pairs': map<nat, nat>)
    requires Recorded(ts, pairs) && Recorded(ts, pairs')
    ensures pairs == pairs'
  {
    forall o: nat ensures o in pairs <==> o in pairs' {
      RecordedIff(ts, pairs, o);
      RecordedIff(ts, pairs', o);
    }
    forall o: nat | o in pairs && o in pairs' ensures pairs[o] == pairs'[o] {
      RecordedIs(ts, pairs, pairs', o);
    }
  }

  lemma RecordedIff(ts: seq<Token>, pairs: map<nat, nat>, o: nat)
    requires Recorded(ts, pairs)
    ensures o in pairs <==> exists c: nat :: Delimiters.IsPair(Brackets(ts), o, c)
  {
  }

  lemma RecordedIs(ts: seq<Token>, pairs: map<nat, nat>, pairs': map<nat, nat>, o: nat)
    requires Recorded(ts, pairs) && Recorded(ts, pairs') && o in pairs && o in pairs'
    ensures pairs[o] == pairs'[o]
  {
    assert Delimiters.IsPair(Brackets(ts), o, pairs[o]);
  }

  ghost predicate DeclaredAt(ts: seq<Token>, d: Declaration) {
    exists pairs :: Recorded(ts, pairs) && Declares(ts, pairs, d.index, d.header)
  }

  /** A declaration of a non-test Go file. */
  ghost predicate GoDeclaration(files: seq<SourceFile>, o: Origin) {
    && Placed(files, o)
    && IsScannedGo(files[o.file])
    && DeclaredAt(files[o.file].tokens, o.decl)
  }

  ghost predicate From(files: seq<SourceFile>, minTokens: int, o: Origin, f: Function) {
    GoDeclaration(files, o) && ComesFrom(files, minTokens, o, f)
  }

  /** The declarations, with their fingerprints. */
  ghost predicate Traced(files: seq<SourceFile>, minTokens: int, os: seq<Origin>, fs: seq<Function>) {
    |os| == |fs| && forall i :: 0 <= i < |os| ==> From(files, minTokens, os[i], fs[i])
  }

  ghost predicate Distinct(os: seq<Origin>) { forall i, j :: 0 <= i < j < |os| ==> os[i] != os[j] }

  /** os are declarations of files lo to hi alone, and all of them. */
  ghost predicate ListsFiles(files: seq<SourceFile>, lo: nat, hi: nat, os: seq<Origin>) {
    && (forall o :: o in os ==> lo <= o.file < hi)
    && (forall o :: GoDeclaration(files, o) && lo <= o.file < hi ==> o in os)
  }

  /** os are the declarations of the first n files, each once, and fs their fingerprints. */
  ghost predicate Origins(files: seq<SourceFile>, minTokens: int, n: nat, os: seq<Origin>, fs: seq<Function>) {
    Traced(files, minTokens, os, fs) && Distinct(os) && ListsFiles(files, 0, n, os)
  }

  function OriginsIn(n: nat, decls: seq<Declaration>): (os: seq<Origin>)
    ensures |os| == |decls| && forall k :: 0 <= k < |decls| ==> os[k] == Origin(n, decls[k])
  {
    seq(|decls|, k requires 0 <= k < |decls| => Origin(n, decls[k]))
  }

  lemma DeclaredIff(ts: seq<Token>, pairs: map<nat, nat>, d: Declaration)
    requires Recorded(ts, pairs)
    ensures DeclaredAt(ts, d) <==> Declares(ts, pairs, d.index, d.header)
  {
    if DeclaredAt(ts, d) {
      var pairs' :| Recorded(ts, pairs') && Declares(ts, pairs', d.index, d.header);
      RecordedUnique(ts, pairs, pairs');
    }
  }

  lemma ListedIff(file: SourceFile, minTokens: int, scan: Scan, d: Declaration)
    requires IsScannedGo(file) && WellLexed(file.tokens) && Scanned(file, minTokens, scan)
    ensures d in scan.decls <==> DeclaredAt(file.tokens, d)
    ensures d in scan.decls ==> InFile(file.tokens, d.index, d.header)
  {
    DeclaredIff(file.tokens, scan.pairs, d);
    if d in scan.decls {
      var k :| 0 <= k < |scan.decls| && scan.decls[k] == d;
      assert FingerprintOf(file, minTokens, scan.pairs, scan.decls[k], scan.functions[k]);
    }
    if Declares(file.tokens, scan.pairs, d.index, d.header) {
      RecordedForward(file.tokens, scan.pairs);
      DeclaresOrder(file.tokens, scan.pairs, d.index, d.header);
      assert Declaration(d.index, d.header) == d;
    }
  }

  lemma FileOrigins(files: seq<SourceFile>, minTokens: int, n: nat, scan: Scan, o: Origin)
    requires n < |files| && LexedFile(files[n]) && Scanned(files[n], minTokens, scan)
    requires IsScannedGo(files[n]) && o.file == n
    ensures GoDeclaration(files, o) <==> o.decl in scan.decls
  {
    ListedIff(files[n], minTokens, scan, o.decl);
  }

  lemma FileTraced(files: seq<SourceFile>, minTokens: int, n: nat, scan: Scan, os: seq<Origin>)
    requires n < |files| && LexedFile(files[n]) && Scanned(files[n], minTokens, scan)
    requires IsScannedGo(files[n]) && os == OriginsIn(n, scan.decls)
    ensures Traced(files, minTokens, os, scan.functions)
  {
    forall k | 0 <= k < |os| ensures From(files, minTokens, os[k], scan.functions[k]) {
      assert FingerprintOf(files[n], minTokens, scan.pairs, scan.decls[k], scan.functions[k]);
      FileOrigins(files, minTokens, n, scan, os[k]);
    }
  }

  /** The declarations of one more file. */
  lemma MoreOrigins(files: seq<SourceFile>, minTokens: int, n: nat, scan: Scan)
    returns (os: seq<Origin>)
    requires n < |files| && LexedFile(files[n]) && Scanned(files[n], minTokens, scan)
    ensures Traced(files, minTokens, os, scan.functions) && Distinct(os) && ListsFiles(files, n, n + 1, os)
  {
    if !IsScannedGo(files[n]) {
      os := [];
    } else {
      os := OriginsIn(n, scan.decls);
      FileTraced(files, minTokens, n, scan, os);
      forall o | GoDeclaration(files, o) && o.file == n ensures o in os {
        FileOrigins(files, minTokens, n, scan, o);
        var k :| 0 <= k < |scan.decls| && scan.decls[k] == o.decl;
        assert os[k] == o;
      }
    }
  }

  lemma TracedConcat(files: seq<SourceFile>, minTokens: int, os: seq<Origin>, fs: seq<Function>,
                     os': seq<Origin>, fs': seq<Function>)
    requires Traced(files, minTokens, os, fs) && Traced(files, minTokens, os', fs')
    ensures Traced(files, minTokens, os + os', fs + fs')
  {
    var all, alls := os + os', fs + fs';
    forall i | 0 <= i < |all| ensures From(files, minTokens, all[i], alls[i]) {
      if i >= |os| { assert From(files, minTokens, os'[i - |os|], fs'[i - |os|]); }
    }
  }

  lemma DistinctConcat(os: seq<Origin>, os': seq<Origin>)
    requires Distinct(os) && Distinct(os') && forall o :: o in os ==> o !in os'
    ensures Distinct(os + os')
  {
    var all := os + os';
    forall i, j | 0 <= i < j < |all| ensures all[i] != all[j] {
      if i < |os| && j >= |os| { assert os[i] in os && os'[j - |os|] in os'; }
    }
  }

  lemma ListsConcat(files: seq<SourceFile>, n: nat, os: seq<Origin>, os': seq<Origin>)
    requires ListsFiles(files, 0, n, os) && ListsFiles(files, n, n + 1, os')
    ensures ListsFiles(files, 0, n + 1, os + os')
  {
  }

  /** The fingerprints of a scan are those of the declarations of its files, one for each. */
  lemma {:induction false} OriginsOf(files: seq<SourceFile>, minTokens: int, scans: seq<Scan>)
    returns (os: seq<Origin>)
    requires AllLexed(files) && AllScanned(files, minTokens, scans)
    ensures Origins(files, minTokens, |scans|, os, AllFunctions(scans))
    decreases |scans|
  {
    if scans == [] {
      os := [];
    } else {
      var n := |scans| - 1;
      var before := OriginsOf(files, minTokens, scans[..n]);
      var here := MoreOrigins(files, minTokens, n, scans[n]);
      TracedConcat(files, minTokens, before, AllFunctions(scans[..n]), here, scans[n].functions);
      DistinctConcat(before, here);
      ListsConcat(files, n, before, here);
      os := before + here;
    }
  }

  // ---- what is reported ----------------------------------------------------

  /** A private helper of a Go file that no token outside its own span names, in any file of its
    * suffix. */
  ghost predicate UnusedHelper(files: seq<SourceFile>, minTokens: int, o: Origin, f: Function) {
    && From(files, minTokens, o, f) && f.isPrivate
    && forall j: nat, p: nat :: Named(files, f.suffix, j, p, f.name) ==>
         j == o.file && o.decl.index <= p < o.decl.header.end + 1
  }

  ghost predicate ReportsUnused(files: seq<SourceFile>, minTokens: int, found: Finding) {
    exists o, f :: UnusedHelper(files, minTokens, o, f) && found == UnusedFinding(f)
  }

  lemma PassesIff(files: seq<SourceFile>, minTokens: int, o: Origin, f: Function,
                  references: map<string, multiset<string>>)
    requires From(files, minTokens, o, f) && Totals(files, references)
    ensures CountsUnused(f, references) <==> UnusedHelper(files, minTokens, o, f)
  {
    UnusedIffNamedOnlyInside(files, minTokens, o, f, references);
  }

  lemma HelperListed(files: seq<SourceFile>, minTokens: int, os: seq<Origin>, fs: seq<Function>, o: Origin, f: Function)
    returns (i: nat)
    requires Origins(files, minTokens, |files|, os, fs) && From(files, minTokens, o, f)
    ensures i < |fs| && fs[i] == f
  {
    assert o in os;
    i :| 0 <= i < |os| && os[i] == o;
    assert From(files, minTokens, os[i], fs[i]);
  }

  lemma UnusedReportIff(files: seq<SourceFile>, minTokens: int, os: seq<Origin>, fs: seq<Function>,
                        references: map<string, multiset<string>>, found: Finding)
    requires Origins(files, minTokens, |files|, os, fs)
    requires Totals(files, references)
    ensures found in UnusedFindings(fs, references) <==> ReportsUnused(files, minTokens, found)
  {
    UnusedFindingsAre(fs, references, found);
    if found in UnusedFindings(fs, references) {
      var i :| 0 <= i < |fs| && CountsUnused(fs[i], references) && found == UnusedFinding(fs[i]);
      PassesIff(files, minTokens, os[i], fs[i], references);
    }
    if ReportsUnused(files, minTokens, found) {
      var o, f :| UnusedHelper(files, minTokens, o, f) && found == UnusedFinding(f);
      var i := HelperListed(files, minTokens, os, fs, o, f);
      PassesIff(files, minTokens, o, f, references);
    }
  }

  /** Between func and the rest stands a name that begins with a letter from a to z and is neither
    * main nor init; before the name of a method there is a parenthesis. */
  predicate PrivateFunc(ts: seq<Token>, index: nat) {
    && index + 1 < |ts|
    && var name := ts[index + 1].value;
    && name != "" && 'a' <= name[0] <= 'z' && name != "main" && name != "init"
  }

  ghost predicate GoName(files: seq<SourceFile>, j: nat, p: nat, name: string) {
    && j < |files| && files[j].suffix == ".go" && p < |files[j].tokens|
    && files[j].tokens[p].kind == Name && files[j].tokens[p].value == name
  }

  /** No token of a Go file is the name but from the declaration's func to its closing brace. */
  ghost predicate NamedInside(files: seq<SourceFile>, o: Origin, name: string) {
    forall j: nat, p: nat :: GoName(files, j, p, name) ==> j == o.file && o.decl.index <= p <= o.decl.header.end
  }

  /** A declaration of a scanned Go file, private by its tokens and named only inside itself. */
  ghost predicate UnusedDeclaration(files: seq<SourceFile>, o: Origin) {
    && o.file < |files| && files[o.file].suffix == ".go" && !files[o.file].test
    && DeclaredAt(files[o.file].tokens, o.decl)
    && PrivateFunc(files[o.file].tokens, o.decl.index)
    && NamedInside(files, o, files[o.file].tokens[o.decl.index + 1].value)
  }

  /** The finding for it: where it stands, and its name cut to 300 characters. */
  ghost predicate FindingAt(file: SourceFile, index: nat, found: Finding) {
    && index + 1 < |file.tokens|
    && var name := file.tokens[index + 1].value;
    && found.rule == UnusedPrivateHelper && found.related == []
    && found.path == file.path && found.line == file.tokens[index].line
    && (if |name| <= 300 then found.evidence == name else found.evidence == name[..300])
  }

  ghost predicate ReportsDeclaration(files: seq<SourceFile>, found: Finding) {
    exists o :: UnusedDeclaration(files, o) && FindingAt(files[o.file], o.decl.index, found)
  }

  lemma HeadParts(ts: seq<Token>, pairs: map<nat, nat>, index: nat, h: Header)
    requires Declares(ts, pairs, index, h) && Forward(pairs, |ts|)
    ensures InFile(ts, index, h) && index + 1 < |ts|
    ensures h.isMethod <==> ts[index + 1].value == "("
    ensures !h.isMethod ==> h.name == index + 1
  {
    DeclaresOrder(ts, pairs, index, h);
  }

  lemma DeclaredForward(ts: seq<Token>, d: Declaration) returns (pairs: map<nat, nat>)
    requires DeclaredAt(ts, d)
    ensures Declares(ts, pairs, d.index, d.header) && Forward(pairs, |ts|)
  {
    pairs :| Recorded(ts, pairs) && Declares(ts, pairs, d.index, d.header);
    RecordedForward(ts, pairs);
  }

  lemma DeclaredParts(ts: seq<Token>, d: Declaration)
    requires DeclaredAt(ts, d)
    ensures InFile(ts, d.index, d.header) && d.index + 1 < |ts|
    ensures d.header.isMethod <==> ts[d.index + 1].value == "("
    ensures !d.header.isMethod ==> d.header.name == d.index + 1
  {
    var pairs := DeclaredForward(ts, d);
    HeadParts(ts, pairs, d.index, d.header);
  }

  lemma PrivateIff(isMethod: bool, name: string)
    requires name != ""
    ensures IsPrivate(isMethod, name) <==> !isMethod && 'a' <= name[0] <= 'z' && name != "main" && name != "init"
  {
  }

  /** The fields of a fingerprint that the test of unused helpers reads. */
  lemma PrintFields(file: SourceFile, minTokens: int, index: nat, h: Header)
    requires WellLexed(file.tokens) && InFile(file.tokens, index, h)
    ensures var f, ts := FunctionAt(file, minTokens, index, h), file.tokens;
      && f.path == file.path && f.suffix == file.suffix && f.line == ts[index].line && f.name == ts[h.name].value
      && f.name != "" && (f.isPrivate <==> IsPrivate(h.isMethod, f.name))
  {
    assert WellLexedToken(file.tokens[h.name]);
  }

  lemma HelperTokens(file: SourceFile, minTokens: int, d: Declaration)
    requires WellLexed(file.tokens) && DeclaredAt(file.tokens, d) && InFile(file.tokens, d.index, d.header)
    ensures FunctionAt(file, minTokens, d.index, d.header).isPrivate <==> PrivateFunc(file.tokens, d.index)
    ensures PrivateFunc(file.tokens, d.index) ==>
      FunctionAt(file, minTokens, d.index, d.header).name == file.tokens[d.index + 1].value
  {
    DeclaredParts(file.tokens, d);
    PrintFields(file, minTokens, d.index, d.header);
    PrivateIff(d.header.isMethod, file.tokens[d.header.name].value);
  }

  lemma NamedInsideIff(files: seq<SourceFile>, o: Origin, name: string)
    ensures NamedInside(files, o, name) <==>
      forall j: nat, p: nat :: Named(files, ".go", j, p, name) ==>
        j == o.file && o.decl.index <= p < o.decl.header.end + 1
  {
    forall j: nat, p: nat ensures Named(files, ".go", j, p, name) <==> GoName(files, j, p, name) {}
  }

  lemma HelperIs(files: seq<SourceFile>, minTokens: int, o: Origin, f: Function)
    requires From(files, minTokens, o, f)
    ensures UnusedHelper(files, minTokens, o, f) <==> UnusedDeclaration(files, o)
  {
    HelperTokens(files[o.file], minTokens, o.decl);
    PrintFields(files[o.file], minTokens, o.decl.index, o.decl.header);
    NamedInsideIff(files, o, f.name);
  }

  lemma FindingIs(files: seq<SourceFile>, minTokens: int, o: Origin, f: Function, found: Finding)
    requires From(files, minTokens, o, f) && PrivateFunc(files[o.file].tokens, o.decl.index)
    ensures found == UnusedFinding(f) <==> FindingAt(files[o.file], o.decl.index, found)
  {
    HelperTokens(files[o.file], minTokens, o.decl);
    PrintFields(files[o.file], minTokens, o.decl.index, o.decl.header);
  }

  lemma DeclarationHasPrint(files: seq<SourceFile>, minTokens: int, o: Origin) returns (f: Function)
    requires AllLexed(files) && UnusedDeclaration(files, o)
    ensures From(files, minTokens, o, f)
  {
    DeclaredParts(files[o.file].tokens, o.decl);
    f := FunctionAt(files[o.file], minTokens, o.decl.index, o.decl.header);
  }

  lemma UnusedIsDeclared(files: seq<SourceFile>, minTokens: int, o: Origin, f: Function, found: Finding)
    requires UnusedHelper(files, minTokens, o, f) && found == UnusedFinding(f)
    ensures ReportsDeclaration(files, found)
  {
    HelperIs(files, minTokens, o, f);
    FindingIs(files, minTokens, o, f, found);
  }

  lemma DeclaredIsUnused(files: seq<SourceFile>, minTokens: int, o: Origin, found: Finding)
    requires AllLexed(files) && UnusedDeclaration(files, o) && FindingAt(files[o.file], o.decl.index, found)
    ensures ReportsUnused(files, minTokens, found)
  {
    var f := DeclarationHasPrint(files, minTokens, o);
    HelperIs(files, minTokens, o, f);
    FindingIs(files, minTokens, o, f, found);
  }

  /** What is reported as unused, in terms of the tokens alone. */
  lemma UnusedInTokens(files: seq<SourceFile>, minTokens: int, found: Finding)
    requires AllLexed(files)
    ensures ReportsUnused(files, minTokens, found) <==> ReportsDeclaration(files, found)
  {
    if ReportsUnused(files, minTokens, found) {
      var o, f :| UnusedHelper(files, minTokens, o, f) && found == UnusedFinding(f);
      UnusedIsDeclared(files, minTokens, o, f, found);
    }
    if ReportsDeclaration(files, found) {
      var o :| UnusedDeclaration(files, o) && FindingAt(files[o.file], o.decl.index, found);
      DeclaredIsUnused(files, minTokens, o, found);
    }
  }

  // ---- what a clone is -----------------------------------------------------

  /** The tokens between the braces of a declaration. */
  ghost function Between(files: seq<SourceFile>, o: Origin): (body: seq<Token>)
    requires Placed(files, o)
    ensures WellLexed(body)
  {
    files[o.file].tokens[o.decl.header.brace + 1..o.decl.header.end]
  }

  /** At least minTokens tokens, on at least six lines. */
  ghost predicate Sizeable(body: seq<Token>, minTokens: int) {
    |body| >= minTokens && |set k | 0 <= k < |body| :: body[k].line| >= 6
  }

  /** Two different declarations, sizeable and with alpha-equivalent bodies. */
  ghost predicate AlphaTwins(files: seq<SourceFile>, minTokens: int, os: seq<Origin>, fs: seq<Function>, i: nat, j: nat)
    requires Origins(files, minTokens, |files|, os, fs)
  {
    && i < |os| && j < |os| && i != j
    && Sizeable(Between(files, os[i]), minTokens) && Sizeable(Between(files, os[j]), minTokens)
    && AlphaEquivalent(Between(files, os[i]), Between(files, os[j]))
  }

  lemma PrintIs(files: seq<SourceFile>, minTokens: int, o: Origin, f: Function)
    requires From(files, minTokens, o, f)
    ensures BodyOf(files, o) == Between(files, o)
    ensures f.substantial <==> Sizeable(Between(files, o), minTokens)
    ensures f.exact == Values(Between(files, o)) && f.suffix == ".go"
  {
    assert Lines(Between(files, o)) ==
      set k | 0 <= k < |Between(files, o)| :: Between(files, o)[k].line;
  }

  lemma ClonesAreTwins(files: seq<SourceFile>, minTokens: int, os: seq<Origin>, fs: seq<Function>, i: nat, j: nat)
    requires Origins(files, minTokens, |files|, os, fs)
    ensures Clones(fs, i, j) <==> AlphaTwins(files, minTokens, os, fs, i, j)
    ensures Duplicates(fs, i, j) <==>
      AlphaTwins(files, minTokens, os, fs, i, j) && Values(Between(files, os[i])) == Values(Between(files, os[j]))
  {
    if i < |os| && j < |os| {
      PrintIs(files, minTokens, os[i], fs[i]);
      PrintIs(files, minTokens, os[j], fs[j]);
      ClonesAreAlphaEquivalent(files, minTokens, fs, i, os[i], j, os[j]);
    }
  }

  /** A clone finding is reported exactly when it is that of a function with a clone. */
  lemma CloneReportIff(fs: seq<Function>, found: seq<Finding>, f: Finding)
    requires IsCloneReport(fs, found)
    ensures f in found <==> ReportsSome(fs, f)
  {
    if ReportsSome(fs, f) {
      var i: nat :| IsCloneFinding(fs, i, f) && HasClone(fs, i);
      assert ReportedIn(fs, i, found);
      var k: nat :| k < |found| && IsCloneFinding(fs, i, found[k]);
      CloneFindingUnique(fs, i, f, found[k]);
    }
  }

  lemma CloneRules(fs: seq<Function>, f: Finding)
    requires ReportsSome(fs, f)
    ensures f.rule != UnusedPrivateHelper
  {
    var i: nat :| IsCloneFinding(fs, i, f) && HasClone(fs, i);
    var js :| ReportsAgainst(fs, i, f, js);
  }

  lemma UnusedRule(files: seq<SourceFile>, minTokens: int, f: Finding)
    requires ReportsUnused(files, minTokens, f)
    ensures f.rule == UnusedPrivateHelper
  {
  }

  /** The unused helpers, then the clones. */
  ghost predicate Structural(fs: seq<Function>, references: map<string, multiset<string>>, found: seq<Finding>) {
    var unused := UnusedFindings(fs, references);
    unused <= found && IsCloneReport(fs, found[|unused|..])
  }

  lemma InPrefixOrRest<T>(a: seq<T>, b: seq<T>, x: T)
    requires a <= b
    ensures x in b <==> x in a || x in b[|a|..]
  {
    assert b == a + b[|a|..];
  }

  lemma StructuralIff(files: seq<SourceFile>, minTokens: int, os: seq<Origin>, fs: seq<Function>,
                      references: map<string, multiset<string>>, found: seq<Finding>, f: Finding)
    requires Origins(files, minTokens, |files|, os, fs) && Totals(files, references)
    requires Structural(fs, references, found)
    ensures f in found <==> ReportsUnused(files, minTokens, f) || ReportsSome(fs, f)
  {
    var unused := UnusedFindings(fs, references);
    InPrefixOrRest(unused, found, f);
    UnusedReportIff(files, minTokens, os, fs, references, f);
    CloneReportIff(fs, found[|unused|..], f);
  }

  /** found are exactly the findings called for, and the rule tells the two kinds apart. */
  ghost predicate IsAudit(files: seq<SourceFile>, minTokens: int, fs: seq<Function>, found: seq<Finding>) {
    forall f ::
      && (f in found <==> ReportsUnused(files, minTokens, f) || ReportsSome(fs, f))
      && (ReportsUnused(files, minTokens, f) ==> f.rule == UnusedPrivateHelper)
      && (ReportsSome(fs, f) ==> f.rule != UnusedPrivateHelper)
  }

  lemma StructuralIsAudit(files: seq<SourceFile>, minTokens: int, os: seq<Origin>, fs: seq<Function>,
                          references: map<string, multiset<string>>, found: seq<Finding>)
    requires Origins(files, minTokens, |files|, os, fs)
    requires Totals(files, references)
    requires Structural(fs, references, found)
    ensures IsAudit(files, minTokens, fs, found)
    ensures forall i: nat, j: nat :: Clones(fs, i, j) <==> AlphaTwins(files, minTokens, os, fs, i, j)
  {
    forall f: Finding
      ensures f in found <==> ReportsUnused(files, minTokens, f) || ReportsSome(fs, f)
      ensures ReportsUnused(files, minTokens, f) ==> f.rule == UnusedPrivateHelper
      ensures ReportsSome(fs, f) ==> f.rule != UnusedPrivateHelper
    {
      StructuralIff(files, minTokens, os, fs, references, found, f);
      if ReportsUnused(files, minTokens, f) { UnusedRule(files, minTokens, f); }
      if ReportsSome(fs, f) { CloneRules(fs, f); }
    }
    forall i: nat, j: nat ensures Clones(fs, i, j) <==> AlphaTwins(files, minTokens, os, fs, i, j) {
      ClonesAreTwins(files, minTokens, os, fs, i, j);
    }
  }

  /** From scanned files to findings. A helper is reported unused exactly when it is a private
    * declaration of a Go file that nothing outside it names; every other finding is the clone
    * finding of a function that has a clone; and clones are different, substantial declarations
    * with alpha-equivalent bodies. */
  method AuditFiles(files: seq<SourceFile>, minTokens: int)
    returns (found: seq<Finding>, ghost os: seq<Origin>, ghost fs: seq<Function>)
    requires AllLexed(files)
    ensures Origins(files, minTokens, |files|, os, fs)
    ensures forall f: Finding :: f.rule == UnusedPrivateHelper ==> (f in found <==> ReportsDeclaration(files, f))
    ensures IsAudit(files, minTokens, fs, found)
    ensures forall i: nat, j: nat :: Clones(fs, i, j) <==> AlphaTwins(files, minTokens, os, fs, i, j)
  {
    var functions, references;
    ghost var scans, cloned;
    functions, references, scans := ScanFiles(files, minTokens);
    found, cloned := StructuralFindings(functions, references);
    fs := functions;
    os := OriginsOf(files, minTokens, scans);
    StructuralIsAudit(files, minTokens, os, fs, references, found);
    forall f: Finding ensures ReportsUnused(files, minTokens, f) <==> ReportsDeclaration(files, f) {
      UnusedInTokens(files, minTokens, f);
    }
  }
}
