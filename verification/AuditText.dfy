/** The audit from the text of the files on: lexing (audit-dev-guidelines.py, lines 321-376), then
  * the run over the lexed files (lines 951-997). */
module AuditText {
  import opened GoTokens
  import opened GoLexer
  import opened GoFunctions
  import opened CloneReport
  import opened Audit
  import opened AuditRun

  /** A file as it is read. Only Go text is lexed here; the tokens Python's own tokenizer makes of a
    * Python file come with it, and other files have none. */
  datatype RawFile = RawFile(path: string, suffix: string, test: bool, text: string, foreign: seq<Token>)

  /** file is the raw file with the tokens of its text. */
  ghost predicate LexedAs(cc: Classes, raw: RawFile, file: SourceFile) {
    && file.path == raw.path && file.suffix == raw.suffix && file.test == raw.test
    && (if raw.suffix == ".go" then TokensUpTo(cc, raw.text, file.tokens, |raw.text|) else file.tokens == raw.foreign)
  }

  ghost predicate AllLexedAs(cc: Classes, raws: seq<RawFile>, files: seq<SourceFile>) {
    |files| == |raws| && forall k :: 0 <= k < |raws| ==> LexedAs(cc, raws[k], files[k])
  }

  lemma LexedIsLexed(cc: Classes, raw: RawFile, file: SourceFile)
    requires LexedAs(cc, raw, file)
    ensures LexedFile(file)
  {
    if raw.suffix == ".go" { TokensWellLexed(cc, raw.text, file.tokens); }
  }

  /** The texts determine the lexed files. */
  lemma LexedUnique(cc: Classes, raws: seq<RawFile>, files: seq<SourceFile>, files': seq<SourceFile>)
    requires AllLexedAs(cc, raws, files) && AllLexedAs(cc, raws, files')
    ensures files == files'
  {
    forall k | 0 <= k < |raws| ensures files[k] == files'[k] {
      assert LexedAs(cc, raws[k], files[k]) && LexedAs(cc, raws[k], files'[k]);
      if raws[k].suffix == ".go" { TokensUnique(cc, raws[k].text, files[k].tokens, files'[k].tokens); }
    }
  }

  method LexFile(cc: Classes, raw: RawFile) returns (file: SourceFile)
    ensures LexedAs(cc, raw, file)
  {
    var tokens := raw.foreign;
    if raw.suffix == ".go" {
      var source := new Source(raw.text);
      source.Lex(cc);
      tokens := source.tokens;
    }
    file := SourceFile(raw.path, raw.suffix, raw.test, tokens);
  }

  /** found is what the audit owes for these files. */
  ghost predicate Audits(files: seq<SourceFile>, minTokens: int, found: seq<Finding>) {
    exists os, fs :: Origins(files, minTokens, |files|, os, fs) && IsAudit(files, minTokens, fs, found)
  }

  /** From text to findings: for the tokens the texts have, and they have no others, a helper is
    * reported unused exactly when it is a private Go declaration that nothing outside it names, and
    * the other findings are exactly the clone findings of the declarations' fingerprints. */
  method AuditTexts(cc: Classes, raws: seq<RawFile>, minTokens: int) returns (found: seq<Finding>)
    ensures exists files :: AllLexedAs(cc, raws, files)
    ensures forall files :: AllLexedAs(cc, raws, files) ==> Audits(files, minTokens, found)
    ensures forall files, f: Finding :: AllLexedAs(cc, raws, files) && f.rule == UnusedPrivateHelper ==>
              (f in found <==> ReportsDeclaration(files, f))
  {
    var files: seq<SourceFile> := [];
    for k := 0 to |raws|
      invariant AllLexedAs(cc, raws[..k], files)
    {
      var file := LexFile(cc, raws[k]);
      assert raws[..k + 1][..k] == raws[..k];
      files := files + [file];
    }
    assert raws[..|raws|] == raws;
    forall k | 0 <= k < |files| ensures LexedFile(files[k]) { LexedIsLexed(cc, raws[k], files[k]); }
    ghost var os, fs;
    found, os, fs := AuditFiles(files, minTokens);
    forall files' | AllLexedAs(cc, raws, files') ensures files' == files { LexedUnique(cc, raws, files, files'); }
  }
}
