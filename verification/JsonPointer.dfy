/** JSON Pointer (internal/jsonschema/jsonpointer.go), after RFC 6901. */
module JsonPointer {
  import opened Wrappers
  import opened Strings

  // ---- tokens ----------------------------------------------------------------

  /** escapeJSONPointerToken: two passes. */
  function Escape(token: string): string {
    ReplaceAll(ReplaceAll(token, "~", "~0"), "/", "~1")
  }

  /** unescapeJSONPointerToken: two passes, in the order section 4 asks for. */
  function Unescape(token: string): string {
    ReplaceAll(ReplaceAll(token, "~1", "/"), "~0", "~")
  }

  /** The single-pass reading of the escape rules. */
  function EncodeToken(t: string): string {
    if t == "" then ""
    else (if t[0] == '~' then "~0" else if t[0] == '/' then "~1" else [t[0]]) + EncodeToken(t[1..])
  }

  function DecodeToken(s: string): string {
    if s == "" then ""
    else if s[0] == '~' && |s| >= 2 && s[1] == '0' then "~" + DecodeToken(s[2..])
    else if s[0] == '~' && |s| >= 2 && s[1] == '1' then "/" + DecodeToken(s[2..])
    else [s[0]] + DecodeToken(s[1..])
  }

  /** reference-token of section 3: no slash, and every tilde begins an escape. */
  predicate WellFormedToken(s: string) {
    s == "" ||
    if s[0] == '~' then |s| >= 2 && (s[1] == '0' || s[1] == '1') && WellFormedToken(s[2..])
    else s[0] != '/' && WellFormedToken(s[1..])
  }

  lemma ReplaceHere(x: string, pat: string, sub: string)
    requires pat != ""
    ensures ReplaceAll(pat + x, pat, sub) == sub + ReplaceAll(x, pat, sub)
  {
    assert (pat + x)[..|pat|] == pat && (pat + x)[|pat|..] == x;
  }

  lemma ReplaceSkip(c: char, x: string, pat: string, sub: string)
    requires pat != "" && pat[0] != c
    ensures ReplaceAll([c] + x, pat, sub) == [c] + ReplaceAll(x, pat, sub)
  {
    var s := [c] + x;
    assert s[1..] == x && s[0] == c;
    if |s| >= |pat| { assert s[..|pat|][0] == c; }
  }

  lemma ReplaceSkipPair(c: char, x: string, pat: string, sub: string)
    requires |pat| == 2 && (x == "" || x[0] != pat[1])
    ensures ReplaceAll([c] + x, pat, sub) == [c] + ReplaceAll(x, pat, sub)
  {
    var s := [c] + x;
    assert s[1..] == x;
    if |s| >= 2 { assert s[..2][1] == x[0]; }
  }

  lemma EscapeTilde(t: string)
    ensures Escape(['~'] + t) == "~0" + Escape(t)
  {
    var rest := ReplaceAll(t, "~", "~0");
    assert ['~'] + t == "~" + t;
    ReplaceHere(t, "~", "~0");
    assert "~0" + rest == ['~'] + (['0'] + rest);
    ReplaceSkip('~', ['0'] + rest, "/", "~1");
    ReplaceSkip('0', rest, "/", "~1");
    assert ['~'] + (['0'] + Escape(t)) == "~0" + Escape(t);
  }

  /** Two passes of escaping do what one pass does. */
  lemma {:induction false} EscapeIsEncode(t: string)
    ensures Escape(t) == EncodeToken(t)
    decreases |t|
  {
    if t != "" {
      EscapeIsEncode(t[1..]);
      var rest := ReplaceAll(t[1..], "~", "~0");
      assert t == [t[0]] + t[1..];
      if t[0] == '~' {
        EscapeTilde(t[1..]);
      } else {
        ReplaceSkip(t[0], t[1..], "~", "~0");
        if t[0] == '/' {
          assert ['/'] + rest == "/" + rest;
          ReplaceHere(rest, "/", "~1");
        } else {
          ReplaceSkip(t[0], rest, "/", "~1");
        }
      }
    }
  }

  /** The first pass shows a digit zero first only where there was one. */
  lemma FirstPassHead(s: string)
    requires s != ""
    ensures var r := ReplaceAll(s, "~1", "/");
      r != "" && (s[0] == '0' ==> r == ['0'] + ReplaceAll(s[1..], "~1", "/")) && (s[0] != '0' ==> r[0] != '0')
  {
    if "~1" <= s {
      assert s == "~1" + s[2..];
      ReplaceHere(s[2..], "~1", "/");
    } else {
      assert s == [s[0]] + s[1..];
      NotEscapedSlash(s);
    }
  }

  lemma NotEscapedSlash(s: string)
    requires s != "" && !("~1" <= s)
    ensures ReplaceAll(s, "~1", "/") == [s[0]] + ReplaceAll(s[1..], "~1", "/")
  {
  }

  /** Two passes of unescaping equal one left-to-right pass, on every string. */
  lemma {:induction false} UnescapeIsDecode(s: string)
    ensures Unescape(s) == DecodeToken(s)
    decreases |s|
  {
    if s != "" {
      if "~1" <= s {
        UnescapeEscapedSlash(s);
      } else if s[0] != '~' {
        UnescapeIsDecode(s[1..]);
        assert s == [s[0]] + s[1..];
        ReplaceSkip(s[0], s[1..], "~1", "/");
        ReplaceSkip(s[0], ReplaceAll(s[1..], "~1", "/"), "~0", "~");
      } else {
        UnescapeTilde(s);
      }
    }
  }

  lemma {:induction false} UnescapeEscapedSlash(s: string)
    requires "~1" <= s
    ensures Unescape(s) == DecodeToken(s)
    decreases |s|, 0
  {
    UnescapeIsDecode(s[2..]);
    assert s == "~1" + s[2..];
    ReplaceHere(s[2..], "~1", "/");
    var rest := ReplaceAll(s[2..], "~1", "/");
    assert "/" + rest == ['/'] + rest;
    ReplaceSkip('/', rest, "~0", "~");
    assert s[0] == "~1"[0] && s[1] == "~1"[1];
  }

  lemma EscapedSlashHead(s: string)
    requires |s| >= 2 && s[0] == '~'
    ensures "~1" <= s <==> s[1] == '1'
  {
    assert s[..2] == [s[0], s[1]];
  }

  lemma {:induction false} UnescapeTilde(s: string)
    requires s != "" && s[0] == '~' && !("~1" <= s)
    ensures Unescape(s) == DecodeToken(s)
    decreases |s|, 0
  {
    assert s == ['~'] + s[1..];
    if |s| >= 2 { EscapedSlashHead(s); }
    NotEscapedSlash(s);
    var rest := ReplaceAll(s[1..], "~1", "/");
    if |s| >= 2 && s[1] == '0' {
      UnescapeIsDecode(s[2..]);
      FirstPassHead(s[1..]);
      assert s[1..][1..] == s[2..];
      var later := ReplaceAll(s[2..], "~1", "/");
      assert ['~'] + rest == "~0" + later;
      ReplaceHere(later, "~0", "~");
    } else {
      UnescapeIsDecode(s[1..]);
      if |s| >= 2 { FirstPassHead(s[1..]); }
      ReplaceSkipPair('~', rest, "~0", "~");
    }
  }

  lemma {:induction false} DecodeEncodeToken(t: string)
    ensures DecodeToken(EncodeToken(t)) == t
    decreases |t|
  {
    if t != "" {
      DecodeEncodeToken(t[1..]);
      var rest := EncodeToken(t[1..]);
      if t[0] == '~' {
        assert EncodeToken(t)[2..] == rest;
      } else if t[0] == '/' {
        assert EncodeToken(t)[2..] == rest;
      } else {
        assert EncodeToken(t)[1..] == rest;
      }
    }
  }

  lemma {:induction false} EncodeWellFormed(t: string)
    ensures WellFormedToken(EncodeToken(t))
    decreases |t|
  {
    if t != "" {
      EncodeWellFormed(t[1..]);
      var rest := EncodeToken(t[1..]);
      if t[0] == '~' || t[0] == '/' {
        assert EncodeToken(t)[2..] == rest;
      } else {
        assert EncodeToken(t)[1..] == rest;
      }
    }
  }

  lemma {:induction false} EncodeDecodeToken(s: string)
    requires WellFormedToken(s)
    ensures EncodeToken(DecodeToken(s)) == s
    decreases |s|
  {
    if s != "" {
      if s[0] == '~' {
        EncodeDecodeToken(s[2..]);
        assert DecodeToken(s)[1..] == DecodeToken(s[2..]);
        assert s == [s[0], s[1]] + s[2..];
      } else {
        EncodeDecodeToken(s[1..]);
        assert DecodeToken(s)[1..] == DecodeToken(s[1..]);
      }
    }
  }

  /** Unescaping undoes escaping, for every string. */
  lemma UnescapeEscape(t: string)
    ensures Unescape(Escape(t)) == t
  {
    EscapeIsEncode(t);
    UnescapeIsDecode(Escape(t));
    DecodeEncodeToken(t);
  }

  /** Escaping undoes unescaping exactly on well-formed tokens. */
  lemma EscapeUnescapeIff(s: string)
    ensures Escape(Unescape(s)) == s <==> WellFormedToken(s)
  {
    UnescapeIsDecode(s);
    EscapeIsEncode(DecodeToken(s));
    EncodeWellFormed(DecodeToken(s));
    if WellFormedToken(s) { EncodeDecodeToken(s); }
  }

  lemma {:induction false} WellFormedNoSlash(s: string)
    requires WellFormedToken(s)
    ensures '/' !in s
    decreases |s|
  {
    if s != "" {
      var n := if s[0] == '~' then 2 else 1;
      WellFormedNoSlash(s[n..]);
    }
  }

  /** An escaped token contains no slash, so it stays one token. */
  lemma EscapeNoSlash(t: string)
    ensures '/' !in Escape(t)
  {
    EscapeIsEncode(t);
    EncodeWellFormed(t);
    WellFormedNoSlash(EncodeToken(t));
  }

  // ---- values and resolution -------------------------------------------------

  datatype Value =
    | Null
    | Bool(b: bool)
    | Number(n: real)
    | Text(s: string)
    | Object(fields: map<string, Value>)
    | Array(items: seq<Value>)

  datatype PointerError =
    | InvalidPointer
    | TokenNotFound(token: string)
    | NotAnIndex(token: string)
    | OutOfBounds(index: int, length: nat)
    | NotAContainer(token: string)

  const TWO_TO_THE_63: int := 0x8000_0000_0000_0000

  /** strconv.Atoi: an optional sign, at least one digit, and a value in 64 bits. */
  function Atoi(s: string): Option<int> {
    var signed := s != "" && (s[0] == '-' || s[0] == '+');
    var digits := if signed then s[1..] else s;
    if digits == "" || !AllDigits(digits) then None
    else
      var v := if signed && s[0] == '-' then -(DigitsValue(digits) as int) else DigitsValue(digits);
      if -TWO_TO_THE_63 <= v < TWO_TO_THE_63 then Some(v) else None
  }

  /** One token, already unescaped. */
  function Step(v: Value, token: string): Result<Value, PointerError> {
    match v
    case Object(fields) => if token in fields then Ok(fields[token]) else Err(TokenNotFound(token))
    case Array(items) =>
      (match Atoi(token)
       case None => Err(NotAnIndex(token))
       case Some(i) => if i < 0 || i >= |items| then Err(OutOfBounds(i, |items|)) else Ok(items[i]))
    case _ => Err(NotAContainer(token))
  }

  function Follow(v: Value, tokens: seq<string>): Result<Value, PointerError> {
    if tokens == [] then Ok(v)
    else
      match Step(v, Unescape(tokens[0]))
      case Err(e) => Err(e)
      case Ok(child) => Follow(child, tokens[1..])
  }

  /** resolveJSONPointer, as a function. */
  function Resolve(root: Value, ptr: string): Result<Value, PointerError> {
    if ptr == "" then Ok(root)
    else if !HasPrefix(ptr, "/") then Err(InvalidPointer)
    else Follow(root, Split(ptr[1..], '/'))
  }

  /** The resolving loop. */
  method ResolveJSONPointer(root: Value, ptr: string) returns (r: Result<Value, PointerError>)
    ensures r == Resolve(root, ptr)
  {
    if ptr == "" {
      return Ok(root);
    }
    if !HasPrefix(ptr, "/") {
      return Err(InvalidPointer);
    }
    var tokens := Split(ptr[1..], '/');
    var current := root;
    for i := 0 to |tokens|
      invariant Follow(root, tokens) == Follow(current, tokens[i..])
    {
      assert tokens[i..][1..] == tokens[i + 1..];
      var next := Step(current, Unescape(tokens[i]));
      if next.Err? {
        return Err(next.error);
      }
      current := next.value;
    }
    return Ok(current);
  }

  /** Resolving q in the result of resolving p. */
  function AndThen(r: Result<Value, PointerError>, q: string): Result<Value, PointerError> {
    if r.Err? then r else Resolve(r.value, q)
  }

  lemma {:induction false} FollowConcat(v: Value, a: seq<string>, b: seq<string>)
    ensures Follow(v, a + b) == if Follow(v, a).Err? then Follow(v, a) else Follow(Follow(v, a).value, b)
    decreases |a|
  {
    if a == [] {
      assert a + b == b;
    } else {
      assert (a + b)[0] == a[0] && (a + b)[1..] == a[1..] + b;
      var next := Step(v, Unescape(a[0]));
      if next.Ok? { FollowConcat(next.value, a[1..], b); }
    }
  }

  /** Pointers compose: resolving p followed by q is resolving q in what p resolves to, and a
    * failure of p is a failure of both. */
  lemma ResolveConcat(root: Value, p: string, q: string)
    requires q == "" || HasPrefix(q, "/")
    ensures Resolve(root, p + q) == AndThen(Resolve(root, p), q)
  {
    if p == "" {
      assert p + q == q;
    } else if q == "" {
      assert p + q == p;
    } else {
      assert HasPrefix(p + q, "/") <==> HasPrefix(p, "/") by {
        assert (p + q)[0] == p[0];
        SlashFirst(p);
        SlashFirst(p + q);
      }
      SlashFirst(q);
      assert (p + q)[1..] == p[1..] + ['/'] + q[1..];
      SplitConcat(p[1..], q[1..], '/');
      FollowConcat(root, Split(p[1..], '/'), Split(q[1..], '/'));
    }
  }

  lemma SlashFirst(p: string)
    requires p != ""
    ensures HasPrefix(p, "/") <==> p[0] == '/'
  {
    assert "/" <= p <==> p[..1] == "/";
  }

  // ---- printing paths --------------------------------------------------------

  /** An array index: a non-negative Go int. */
  type Index = i: nat | i < TWO_TO_THE_63

  datatype PathStep = Member(name: string) | At(index: Index)

  function TokenOf(step: PathStep): string {
    match step
    case Member(name) => name
    case At(i) => Decimal(i)
  }

  function Escaped(path: seq<PathStep>): (ts: seq<string>)
    ensures |ts| == |path| && forall i :: 0 <= i < |path| ==> ts[i] == Escape(TokenOf(path[i]))
  {
    seq(|path|, i requires 0 <= i < |path| => Escape(TokenOf(path[i])))
  }

  /** The pointer of a path: a slash and an escaped token for every step. */
  function Print(path: seq<PathStep>): string {
    if path == [] then "" else "/" + Join(Escaped(path), '/')
  }

  /** Walking the value tree directly: keys into objects, indices into arrays. */
  function Walk(v: Value, path: seq<PathStep>): Option<Value>
    decreases |path|
  {
    if path == [] then Some(v)
    else
      match (v, path[0])
      case (Object(fields), Member(name)) => if name in fields then Walk(fields[name], path[1..]) else None
      case (Array(items), At(i)) => if i < |items| then Walk(items[i], path[1..]) else None
      case _ => None
  }

  /** A canonical decimal reads back as its index. */
  lemma AtoiDecimal(i: Index)
    ensures Atoi(Decimal(i)) == Some(i)
  {
    var s := Decimal(i);
    DecimalValue(i);
    assert IsDigit(s[0]);
  }

  lemma PrintTokens(root: Value, path: seq<PathStep>)
    ensures Resolve(root, Print(path)) == Follow(root, Escaped(path))
  {
    if path != [] {
      var p := Print(path);
      SlashFirst(p);
      assert p[1..] == Join(Escaped(path), '/');
      forall i | 0 <= i < |path| ensures '/' !in Escaped(path)[i] { EscapeNoSlash(TokenOf(path[i])); }
      SplitJoin(Escaped(path), '/');
    }
  }

  lemma {:induction false} WalkFollows(v: Value, path: seq<PathStep>)
    ensures Walk(v, path).Some? ==> Follow(v, Escaped(path)) == Ok(Walk(v, path).value)
    decreases |path|
  {
    if path != [] {
      UnescapeEscape(TokenOf(path[0]));
      assert Escaped(path)[1..] == Escaped(path[1..]);
      match (v, path[0])
      case (Object(fields), Member(name)) => if name in fields { WalkFollows(fields[name], path[1..]); }
      case (Array(items), At(i)) => AtoiDecimal(i); if i < |items| { WalkFollows(items[i], path[1..]); }
      case _ =>
    }
  }

  /** Every location of the tree is reached by the pointer printed from its path. */
  lemma PrintedPathResolves(root: Value, path: seq<PathStep>, v: Value)
    requires Walk(root, path) == Some(v)
    ensures Resolve(root, Print(path)) == Ok(v)
  {
    PrintTokens(root, path);
    WalkFollows(root, path);
  }

  // ---- printed paths that lead nowhere ----------------------------------------

  /** Resolving the printed pointer comes to what walking the path comes to, failure included. */
  ghost predicate Agrees(root: Value, path: seq<PathStep>) {
    var resolved, walked := Resolve(root, Print(path)), Walk(root, path);
    && (resolved.Ok? <==> walked.Some?)
    && (walked.Some? ==> resolved.value == walked.value)
  }

  /** Names meet objects and indices meet arrays, as far as the walk gets. */
  ghost predicate Fits(v: Value, path: seq<PathStep>)
    decreases |path|
  {
    path == [] ||
    match (v, path[0])
    case (Object(fields), Member(name)) => name in fields ==> Fits(fields[name], path[1..])
    case (Array(items), At(i)) => i < |items| ==> Fits(items[i], path[1..])
    case (Object(_), At(_)) => false
    case (Array(_), Member(_)) => false
    case _ => true
  }

  /** Where the kinds of step and value differ, no member is spelt like the index, and the name
    * does not spell an index the array has. */
  ghost predicate Unambiguous(v: Value, path: seq<PathStep>)
    decreases |path|
  {
    path == [] ||
    match (v, path[0])
    case (Object(fields), Member(name)) => name in fields ==> Unambiguous(fields[name], path[1..])
    case (Array(items), At(i)) => i < |items| ==> Unambiguous(items[i], path[1..])
    case (Object(fields), At(i)) => Decimal(i) !in fields
    case (Array(items), Member(name)) => !SpellsIndex(name, |items|)
    case _ => true
  }

  predicate SpellsIndex(token: string, length: nat) {
    Atoi(token).Some? && 0 <= Atoi(token).value < length
  }

  ghost predicate FollowAgrees(v: Value, path: seq<PathStep>) {
    var followed, walked := Follow(v, Escaped(path)), Walk(v, path);
    && (followed.Ok? <==> walked.Some?)
    && (walked.Some? ==> followed.value == walked.value)
  }

  /** Along a path whose first step finds a child, agreement is agreement below the child. */
  lemma AgreesBelow(v: Value, path: seq<PathStep>, child: Value)
    requires path != [] && Walk(v, path[..1]) == Some(child)
    ensures FollowAgrees(v, path) <==> FollowAgrees(child, path[1..])
  {
    UnescapeEscape(TokenOf(path[0]));
    assert Escaped(path)[1..] == Escaped(path[1..]);
    assert path[..1][1..] == [];
    if path[0].At? { AtoiDecimal(path[0].index); }
  }

  /** Otherwise the walk fails, and they agree unless the token succeeds all the same. */
  lemma AgreesHere(v: Value, path: seq<PathStep>)
    requires path != [] && Walk(v, path[..1]) == None
    ensures Walk(v, path) == None
    ensures Step(v, TokenOf(path[0])).Err? ==> FollowAgrees(v, path)
    ensures |path| == 1 ==> (FollowAgrees(v, path) <==> Step(v, TokenOf(path[0])).Err?)
  {
    UnescapeEscape(TokenOf(path[0]));
    assert Escaped(path)[1..] == Escaped(path[1..]) && path[..1][1..] == [];
    assert |path| == 1 ==> path[1..] == [] && Escaped(path[1..]) == [];
    var token := TokenOf(path[0]);
    assert Walk(v, path) == None;
    assert Follow(v, Escaped(path)) ==
      if Step(v, token).Err? then Err(Step(v, token).error) else Follow(Step(v, token).value, Escaped(path[1..]));
  }

  ghost predicate PrefixesAgree(v: Value, path: seq<PathStep>) {
    forall n: nat :: n <= |path| ==> FollowAgrees(v, path[..n])
  }

  lemma UnambiguousHere(v: Value, path: seq<PathStep>)
    requires path != [] && Walk(v, path[..1]) == None
    ensures Unambiguous(v, path) <==> Step(v, TokenOf(path[0])).Err?
  {
    assert path[..1][1..] == [];
    if path[0].At? { AtoiDecimal(path[0].index); }
  }

  lemma UnambiguousBelow(v: Value, path: seq<PathStep>, child: Value)
    requires path != [] && Walk(v, path[..1]) == Some(child)
    ensures Unambiguous(v, path) <==> Unambiguous(child, path[1..])
  {
    assert path[..1][1..] == [];
  }

  lemma PrefixesBelow(v: Value, path: seq<PathStep>, child: Value)
    requires path != [] && Walk(v, path[..1]) == Some(child)
    ensures PrefixesAgree(v, path) <==> PrefixesAgree(child, path[1..])
  {
    forall n: nat | n < |path|
      ensures FollowAgrees(v, path[..n + 1]) <==> FollowAgrees(child, path[1..][..n])
    {
      var longer := path[..n + 1];
      assert longer[..1] == path[..1] && longer[1..] == path[1..][..n];
      AgreesBelow(v, longer, child);
    }
    assert path[..0] == [];
    forall n: nat | 0 < n <= |path| ensures FollowAgrees(v, path[..n]) <==> FollowAgrees(child, path[1..][..n - 1]) {}
    if PrefixesAgree(v, path) {
      forall n: nat | n <= |path[1..]| ensures FollowAgrees(child, path[1..][..n]) {
        assert FollowAgrees(v, path[..n + 1]);
      }
    }
  }

  lemma {:induction false} PrefixesAgreeIff(v: Value, path: seq<PathStep>)
    ensures PrefixesAgree(v, path) <==> Unambiguous(v, path)
    decreases |path|
  {
    if path == [] {
      assert forall n: nat :: n <= |path| ==> path[..n] == [];
    } else if Walk(v, path[..1]).Some? {
      var child := Walk(v, path[..1]).value;
      PrefixesAgreeIff(child, path[1..]);
      PrefixesBelow(v, path, child);
      UnambiguousBelow(v, path, child);
    } else {
      UnambiguousHere(v, path);
      AgreesHere(v, path[..1]);
      forall n: nat | 0 < n <= |path| && Unambiguous(v, path) ensures FollowAgrees(v, path[..n]) {
        assert path[..n][..1] == path[..1];
        AgreesHere(v, path[..n]);
      }
      assert path[..0] == [];
    }
  }

  /** Resolving a printed path equals walking it, at every depth of the path, exactly when no
    * step is ambiguous: a pointer does not say whether a token is a name or an index. */
  lemma ResolvesAsWalkedIff(root: Value, path: seq<PathStep>)
    ensures (forall n: nat :: n <= |path| ==> Agrees(root, path[..n])) <==> Unambiguous(root, path)
  {
    forall n: nat | n <= |path| ensures Agrees(root, path[..n]) <==> FollowAgrees(root, path[..n]) {
      PrintTokens(root, path[..n]);
    }
    PrefixesAgreeIff(root, path);
  }

  lemma {:induction false} FitsUnambiguous(v: Value, path: seq<PathStep>)
    requires Fits(v, path)
    ensures Unambiguous(v, path)
    decreases |path|
  {
    if path != [] {
      match (v, path[0])
      case (Object(fields), Member(name)) => if name in fields { FitsUnambiguous(fields[name], path[1..]); }
      case (Array(items), At(i)) => if i < |items| { FitsUnambiguous(items[i], path[1..]); }
      case _ =>
    }
  }

  /** So a path that fits the tree resolves to what walking it finds, and to an error when
    * walking it leads nowhere. */
  lemma FittingPathResolves(root: Value, path: seq<PathStep>)
    requires Fits(root, path)
    ensures Resolve(root, Print(path)).Ok? <==> Walk(root, path).Some?
    ensures Walk(root, path).Some? ==> Resolve(root, Print(path)) == Ok(Walk(root, path).value)
  {
    FitsUnambiguous(root, path);
    ResolvesAsWalkedIff(root, path);
    assert path[..|path|] == path;
    assert Agrees(root, path);
  }

  /** A name that spells an index resolves into an array, where walking fails. */
  lemma AmbiguousName()
    ensures var root, path := Array([Null]), [Member("0")];
      Walk(root, path) == None && Resolve(root, Print(path)) == Ok(Null)
  {
    var path := [Member("0")];
    assert Decimal(0) == "0" && Escaped(path) == Escaped([At(0)]);
    assert Walk(Array([Null]), [At(0)]) == Some(Null);
    PrintedPathResolves(Array([Null]), [At(0)], Null);
  }

  /** The step a token takes at a value is the step of a path. */
  function StepFor(v: Value, token: string): PathStep
    requires Step(v, token).Ok? && (v.Array? ==> |v.items| <= TWO_TO_THE_63)
  {
    if v.Object? then Member(token) else At(Atoi(token).value)
  }

  /** Every array in the tree has a length a Go int can hold. */
  ghost predicate Addressable(v: Value)
    decreases v
  {
    match v
    case Object(fields) => forall k :: k in fields ==> Addressable(fields[k])
    case Array(items) => |items| < TWO_TO_THE_63 && forall i :: 0 <= i < |items| ==> Addressable(items[i])
    case _ => true
  }

  /** And every pointer that resolves does so to a location of the tree, at the depth of its
    * tokens. */
  lemma {:induction false} FollowedIsLocation(v: Value, tokens: seq<string>) returns (path: seq<PathStep>)
    requires Addressable(v) && Follow(v, tokens).Ok?
    ensures |path| == |tokens| && Walk(v, path) == Some(Follow(v, tokens).value)
    decreases |tokens|
  {
    if tokens == [] {
      path := [];
    } else {
      var token := Unescape(tokens[0]);
      var rest := FollowedIsLocation(Step(v, token).value, tokens[1..]);
      path := [StepFor(v, token)] + rest;
      assert path[1..] == rest;
    }
  }

  /** A value is somewhere in the tree exactly when some pointer resolves to it. */
  lemma LocatedIffResolved(root: Value, v: Value)
    requires Addressable(root)
    ensures (exists p :: Resolve(root, p) == Ok(v)) <==> (exists path :: Walk(root, path) == Some(v))
  {
    if p :| Resolve(root, p) == Ok(v) {
      if p == "" {
        assert Walk(root, []) == Some(v);
      } else {
        var path := FollowedIsLocation(root, Split(p[1..], '/'));
        assert Walk(root, path) == Some(v);
      }
    }
    if path :| Walk(root, path) == Some(v) {
      PrintedPathResolves(root, path, v);
    }
  }

  lemma {:induction false} PlainToken(t: string)
    requires '~' !in t
    ensures DecodeToken(t) == t
    decreases |t|
  {
    if t != "" { PlainToken(t[1..]); }
  }

  lemma OneToken(root: Value, t: string)
    requires '~' !in t && '/' !in t
    ensures Resolve(root, "/" + t) == Step(root, t)
  {
    SlashFirst("/" + t);
    assert ("/" + t)[1..] == t;
    SplitFree(t, '/');
    UnescapeIsDecode(t);
    PlainToken(t);
    if Step(root, t).Ok? {
      assert Follow(Step(root, t).value, [t][1..]) == Step(root, t);
    }
  }

  // ---- failures --------------------------------------------------------------

  /** What an index is read as: digits, with a sign or without, if the number fits 64 bits. */
  lemma AtoiIs(d: string)
    requires d != "" && AllDigits(d)
    ensures Atoi(d) == if DigitsValue(d) <= 9223372036854775807 then Some(DigitsValue(d)) else None
    ensures Atoi("+" + d) == Atoi(d)
    ensures Atoi("-" + d) == if DigitsValue(d) <= 9223372036854775808 then Some(-(DigitsValue(d) as int)) else None
  {
    assert IsDigit(d[0]);
    assert ("+" + d)[1..] == d && ("-" + d)[1..] == d;
  }

  lemma AtoiRejects(s: string)
    requires Atoi(s).Some?
    ensures exists d :: d != "" && AllDigits(d) && (s == d || s == "+" + d || s == "-" + d)
  {
    if s[0] == '+' || s[0] == '-' {
      assert s == [s[0]] + s[1..];
      assert s == "+" + s[1..] || s == "-" + s[1..];
    }
  }

  /** Where one token leads, and the error where it leads nowhere. */
  lemma OneTokenResult(root: Value, t: string)
    requires '~' !in t && '/' !in t
    ensures var r := Resolve(root, "/" + t);
      match root
      case Object(fields) => r == if t in fields then Ok(fields[t]) else Err(TokenNotFound(t))
      case Array(items) =>
        if Atoi(t).None? then r == Err(NotAnIndex(t))
        else if 0 <= Atoi(t).value < |items| then r == Ok(items[Atoi(t).value])
        else r == Err(OutOfBounds(Atoi(t).value, |items|))
      case _ => r == Err(NotAContainer(t))
  {
    OneToken(root, t);
  }

  /** A pointer that is not empty begins with a slash. */
  lemma PointerForm(root: Value, p: string)
    ensures Resolve(root, "") == Ok(root)
    ensures p != "" ==> (p[0] == '/' <==> Resolve(root, p) != Err(InvalidPointer))
  {
    if p != "" {
      SlashFirst(p);
      if p[0] == '/' { FollowErrors(root, Split(p[1..], '/')); }
    }
  }

  lemma {:induction false} FollowErrors(v: Value, tokens: seq<string>)
    ensures Follow(v, tokens) != Err(InvalidPointer)
    decreases |tokens|
  {
    if tokens != [] && Step(v, Unescape(tokens[0])).Ok? {
      FollowErrors(Step(v, Unescape(tokens[0])).value, tokens[1..]);
    }
  }

  // ---- index spellings -------------------------------------------------------

  /** array-index of section 4: the digit 0, or digits that do not begin with 0. */
  predicate ConformingIndex(t: string) {
    t != "" && AllDigits(t) && (|t| == 1 || t[0] != '0')
  }

  lemma {:induction false} DecimalConforms(n: nat)
    ensures ConformingIndex(Decimal(n)) && (n > 0 ==> Decimal(n)[0] != '0')
    decreases n
  {
    if n >= 10 {
      DecimalConforms(n / 10);
      assert Decimal(n)[0] == Decimal(n / 10)[0];
    }
  }

  lemma {:induction false} ConformingIsDecimal(t: string)
    requires ConformingIndex(t)
    ensures Decimal(DigitsValue(t)) == t
    decreases |t|
  {
    var init := t[..|t| - 1];
    if init != "" {
      ConformingIsDecimal(init);
      assert DigitsValue(init) != 0 by { assert init[0] == t[0]; }
      assert t == init + [t[|t| - 1]];
    } else {
      assert t == [t[0]];
    }
  }

  /** Section 4 forbids leading zeros and signs, and the code accepts both. Whatever it accepts at
    * an array is the numeral of an index exactly when it begins with a digit, and with 0 only if
    * that is all. */
  lemma AcceptedIndexConformsIff(items: seq<Value>, t: string)
    requires Step(Array(items), t).Ok?
    ensures t != ""
    ensures (exists i: nat :: t == Decimal(i)) <==> IsDigit(t[0]) && (|t| == 1 || t[0] != '0')
  {
    if i: nat :| t == Decimal(i) {
      DecimalConforms(i);
    }
    if IsDigit(t[0]) && (|t| == 1 || t[0] != '0') {
      ConformingIsDecimal(t);
    }
  }

  lemma SmallNumerals()
    ensures AllDigits("0") && AllDigits("1") && AllDigits("01")
    ensures DigitsValue("0") == 0 && DigitsValue("1") == 1 && DigitsValue("01") == 1
  {
    assert "0"[..0] == "" && "1"[..0] == "" && "01"[..1] == "0";
    assert DigitsValue("0") == 0;
  }

  lemma LooseAtoi()
    ensures Atoi("01") == Some(1)
    ensures Atoi("+1") == Some(1)
    ensures Atoi("-0") == Some(0)
  {
    SmallNumerals();
    var s, z := "+1", "-0";
    assert s[0] == '+' && s[1..] == "1";
    assert z[0] == '-' && z[1..] == "0";
    assert "01"[0] == '0';
  }

  /** Three spellings that do not conform. */
  lemma LooseIndices(items: seq<Value>)
    requires |items| > 1
    ensures Resolve(Array(items), "/" + "01") == Ok(items[1])
    ensures Resolve(Array(items), "/" + "+1") == Ok(items[1])
    ensures Resolve(Array(items), "/" + "-0") == Ok(items[0])
  {
    LooseAtoi();
    OneToken(Array(items), "01");
    OneToken(Array(items), "+1");
    OneToken(Array(items), "-0");
  }
}
