/** Extracting function fingerprints from a Go file, and counting references
  * (audit-dev-guidelines.py, lines 687-763 and 973-980). */
module GoFunctions {
  import opened Wrappers
  import opened GoTokens
  import opened Delimiters
  import opened GoDeclarations
  import opened GoNormalize

  /** One scanned file: its tokens are what the lexer kept. */
  datatype SourceFile = SourceFile(path: string, suffix: string, test: bool, tokens: seq<Token>)

  /** The fingerprint kept of a function. */
  datatype Function = Function(
    path: string, suffix: string, name: string, line: nat,
    exact: seq<string>, normalized: seq<string>, identifiers: multiset<string>,
    isPrivate: bool, substantial: bool)

  predicate IsScannedGo(file: SourceFile) { file.suffix == ".go" && !file.test }

  /** Tokens of Go text are well lexed; what the tokens of any other file are does not matter. */
  predicate LexedFile(file: SourceFile) { IsScannedGo(file) ==> WellLexed(file.tokens) }

  // ---- counting names -----------------------------------------------------

  /** The values of the name tokens, each as often as it stands there. */
  ghost function NameBag(ts: seq<Token>): multiset<string> {
    if ts == [] then multiset{}
    else
      var last := ts[|ts| - 1];
      NameBag(ts[..|ts| - 1]) + (if last.kind == Name then multiset{last.value} else multiset{})
  }

  method CountNames(ts: seq<Token>) returns (bag: multiset<string>)
    ensures bag == NameBag(ts)
  {
    bag := multiset{};
    for i := 0 to |ts|
      invariant bag == NameBag(ts[..i])
    {
      assert ts[..i + 1][..i] == ts[..i];
      if ts[i].kind == Name {
        bag := bag + multiset{ts[i].value};
      }
    }
    assert ts[..|ts|] == ts;
  }

  lemma {:induction false} NameBagConcat(a: seq<Token>, b: seq<Token>)
    ensures NameBag(a + b) == NameBag(a) + NameBag(b)
    decreases |b|
  {
    if b == [] {
      assert a + b == a;
    } else {
      assert (a + b)[..|a + b| - 1] == a + b[..|b| - 1];
      NameBagConcat(a, b[..|b| - 1]);
    }
  }

  ghost predicate Occurs(ts: seq<Token>, p: nat, x: string) {
    p < |ts| && ts[p].kind == Name && ts[p].value == x
  }

  lemma {:induction false} NoOccurrence(ts: seq<Token>, x: string)
    ensures NameBag(ts)[x] == 0 <==> forall p: nat :: !Occurs(ts, p, x)
    decreases |ts|
  {
    if ts != [] {
      var init := ts[..|ts| - 1];
      NoOccurrence(init, x);
      assert forall p: nat :: p < |init| ==> init[p] == ts[p];
      if NameBag(ts)[x] != 0 && NameBag(init)[x] == 0 {
        assert Occurs(ts, |ts| - 1, x);
      } else if NameBag(ts)[x] != 0 {
        var p: nat :| Occurs(init, p, x);
        assert Occurs(ts, p, x);
      } else {
        forall p: nat ensures !Occurs(ts, p, x) {
          if p < |init| { assert !Occurs(init, p, x); }
        }
      }
    }
  }

  // ---- one file -----------------------------------------------------------

  function Lines(ts: seq<Token>): set<nat> { set i | 0 <= i < |ts| :: ts[i].line }

  function IsPrivate(isMethod: bool, name: string): bool
    requires name != ""
  {
    !isMethod && IsLower(name[0]) && name != "main" && name != "init"
  }

  ghost predicate InFile(ts: seq<Token>, index: nat, h: Header) {
    index <= h.brace < h.end < |ts| && h.name < |ts|
  }

  /** The tokens between a declaration's braces. */
  function BodyTokens(ts: seq<Token>, h: Header): (body: seq<Token>)
    requires WellLexed(ts) && h.brace < h.end < |ts|
    ensures WellLexed(body)
  {
    ts[h.brace + 1..h.end]
  }

  /** The fingerprint of the declaration standing at index. */
  ghost function FunctionAt(file: SourceFile, minTokens: int, index: nat, h: Header): Function
    requires WellLexed(file.tokens) && InFile(file.tokens, index, h)
  {
    var ts := file.tokens;
    var body := BodyTokens(ts, h);
    Function(file.path, file.suffix, ts[h.name].value, ts[index].line,
             Values(body), Canonical(body), NameBag(ts[index..h.end + 1]),
             IsPrivate(h.isMethod, ts[h.name].value),
             |body| >= minTokens && |Lines(body)| >= 6)
  }

  datatype Declaration = Declaration(index: nat, header: Header)

  /** decls are the declarations starting before token n, all of them, in order, and
    * functions are their fingerprints. */
  ghost predicate Fingerprints(file: SourceFile, minTokens: int, pairs: map<nat, nat>, n: nat,
                               decls: seq<Declaration>, functions: seq<Function>)
    requires WellLexed(file.tokens)
  {
    && |functions| == |decls|
    && (forall k :: 0 <= k < |decls| ==> FingerprintOf(file, minTokens, pairs, decls[k], functions[k]))
    && (forall k :: 0 <= k < |decls| ==> decls[k].index < n)
    && (forall j, k :: 0 <= j < k < |decls| ==> decls[j].index < decls[k].index)
    && (forall i: nat, h :: i < n && Declares(file.tokens, pairs, i, h) ==> Declaration(i, h) in decls)
  }

  ghost predicate FingerprintOf(file: SourceFile, minTokens: int, pairs: map<nat, nat>, d: Declaration, f: Function)
    requires WellLexed(file.tokens)
  {
    && Declares(file.tokens, pairs, d.index, d.header)
    && InFile(file.tokens, d.index, d.header)
    && f == FunctionAt(file, minTokens, d.index, d.header)
  }

  lemma OneMore(file: SourceFile, minTokens: int, pairs: map<nat, nat>, n: nat,
                decls: seq<Declaration>, functions: seq<Function>, d: Declaration, f: Function)
    requires WellLexed(file.tokens)
    requires Fingerprints(file, minTokens, pairs, n, decls, functions)
    requires d.index == n && FingerprintOf(file, minTokens, pairs, d, f)
    requires forall h :: Declares(file.tokens, pairs, n, h) ==> h == d.header
    ensures Fingerprints(file, minTokens, pairs, n + 1, decls + [d], functions + [f])
  {
  }

  lemma NoneHere(file: SourceFile, minTokens: int, pairs: map<nat, nat>, n: nat,
                 decls: seq<Declaration>, functions: seq<Function>)
    requires WellLexed(file.tokens)
    requires Fingerprints(file, minTokens, pairs, n, decls, functions)
    requires forall h :: !Declares(file.tokens, pairs, n, h)
    ensures Fingerprints(file, minTokens, pairs, n + 1, decls, functions)
  {
  }

  method BuildFunction(file: SourceFile, minTokens: int, index: nat, h: Header) returns (f: Function)
    requires WellLexed(file.tokens) && InFile(file.tokens, index, h)
    ensures f == FunctionAt(file, minTokens, index, h)
  {
    var ts := file.tokens;
    var body := BodyTokens(ts, h);
    var values, normalized := Normalize(body);
    var identifiers := CountNames(ts[index..h.end + 1]);
    f := Function(file.path, file.suffix, ts[h.name].value, ts[index].line,
                  values, normalized, identifiers,
                  IsPrivate(h.isMethod, ts[h.name].value),
                  |body| >= minTokens && |Lines(body)| >= 6);
  }

  /** The declaration standing at a token, if any. */
  method DeclarationAt(ts: seq<Token>, pairs: map<nat, nat>, index: nat) returns (h: Option<Header>)
    requires Recorded(ts, pairs) && index < |ts|
    ensures h.Some? ==> Declares(ts, pairs, index, h.value) && InFile(ts, index, h.value)
    ensures forall g :: Declares(ts, pairs, index, g) ==> h == Some(g)
  {
    h := None;
    if ts[index].value == "func" {
      h := FindHeader(ts, pairs, index);
    }
    if h.Some? {
      RecordedForward(ts, pairs);
      DeclaresOrder(ts, pairs, index, h.value);
    }
  }

  /** go_functions: the fingerprints of exactly the declarations of a non-test Go file. */
  method GoFunctionsOf(file: SourceFile, minTokens: int)
    returns (functions: seq<Function>, ghost pairs: map<nat, nat>, ghost decls: seq<Declaration>)
    requires LexedFile(file)
    ensures !IsScannedGo(file) ==> functions == []
    ensures IsScannedGo(file) ==>
      && Recorded(file.tokens, pairs)
      && Fingerprints(file, minTokens, pairs, |file.tokens|, decls, functions)
  {
    functions, pairs, decls := [], map[], [];
    if file.suffix != ".go" || file.test {
      return;
    }
    var recorded := PairDelimiters(Brackets(file.tokens));
    pairs := recorded;
    for index := 0 to |file.tokens|
      invariant Fingerprints(file, minTokens, pairs, index, decls, functions)
    {
      var h := DeclarationAt(file.tokens, recorded, index);
      if h.Some? {
        var f := BuildFunction(file, minTokens, index, h.value);
        OneMore(file, minTokens, pairs, index, decls, functions, Declaration(index, h.value), f);
        functions, decls := functions + [f], decls + [Declaration(index, h.value)];
      } else {
        NoneHere(file, minTokens, pairs, index, decls, functions);
      }
    }
  }
}
