/** Finding named function declarations among the tokens of a file
  * (audit-dev-guidelines.py, lines 692-731). */
module GoDeclarations {
  import opened Wrappers
  import opened GoTokens
  import opened Delimiters
  import opened Nesting

  function BracketOf(v: string): Bracket {
    if v == "(" then Open(Round)
    else if v == "[" then Open(Square)
    else if v == "{" then Open(Curly)
    else if v == ")" then Close(Round)
    else if v == "]" then Close(Square)
    else if v == "}" then Close(Curly)
    else Plain
  }

  function Brackets(ts: seq<Token>): (bs: seq<Bracket>)
    ensures |bs| == |ts|
    ensures forall i :: 0 <= i < |ts| ==> bs[i] == BracketOf(ts[i].value)
  {
    seq(|ts|, i requires 0 <= i < |ts| => BracketOf(ts[i].value))
  }

  /** pairs is what the stack loop records for these tokens. */
  ghost predicate Recorded(ts: seq<Token>, pairs: map<nat, nat>) {
    PairsOf(Brackets(ts), pairs, |ts|)
  }

  predicate Is(ts: seq<Token>, i: int, v: string) {
    0 <= i < |ts| && ts[i].value == v
  }

  // ---- the declaration grammar the analyser accepts -----------------------

  /** ts[o..b] is a recorded group. */
  ghost predicate Spans(pairs: map<nat, nat>, o: nat, b: nat) {
    o in pairs && b == pairs[o] + 1
  }

  predicate TypeLiteralAt(ts: seq<Token>, a: nat) {
    (Is(ts, a, "struct") || Is(ts, a, "interface")) && Is(ts, a + 1, "{")
  }

  /** ts[a..b] is one step of a result list: a parenthesised or bracketed group, a struct or
    * interface type with its braces, or a single token other than an opening brace. */
  ghost predicate Item(ts: seq<Token>, pairs: map<nat, nat>, a: nat, b: nat) {
    && a < b <= |ts|
    && (if Is(ts, a, "(") || Is(ts, a, "[") then Spans(pairs, a, b)
        else if TypeLiteralAt(ts, a) then Spans(pairs, a + 1, b)
        else !Is(ts, a, "{") && b == a + 1)
  }

  /** ts[a..b] is a run of such steps. */
  ghost predicate Items(ts: seq<Token>, pairs: map<nat, nat>, a: nat, b: nat)
    decreases b - a
  {
    a == b || exists m :: a < m <= b && Item(ts, pairs, a, m) && Items(ts, pairs, m, b)
  }

  /** Where the parts of a declaration stand. */
  datatype Header = Header(isMethod: bool, name: nat, params: nat, brace: nat, end: nat)

  /** func, an optional receiver, a name, optional type parameters, an opening parenthesis. */
  ghost predicate Heads(ts: seq<Token>, pairs: map<nat, nat>, index: nat, isMethod: bool, name: nat, params: nat) {
    && Is(ts, index, "func")
    && isMethod == Is(ts, index + 1, "(")
    && (if isMethod then Spans(pairs, index + 1, name) else name == index + 1)
    && name < |ts| && ts[name].kind == Name
    && (if Is(ts, name + 1, "[") then Spans(pairs, name + 1, params) else params == name + 1)
    && Is(ts, params, "(")
  }

  /** Parameters from an opening parenthesis, results, and a braced body. */
  ghost predicate Tails(ts: seq<Token>, pairs: map<nat, nat>, params: nat, brace: nat, end: nat) {
    && params in pairs && pairs[params] < brace && Items(ts, pairs, pairs[params] + 1, brace)
    && Is(ts, brace, "{")
    && brace in pairs && pairs[brace] == end
  }

  ghost predicate Declares(ts: seq<Token>, pairs: map<nat, nat>, index: nat, h: Header) {
    && Heads(ts, pairs, index, h.isMethod, h.name, h.params)
    && Tails(ts, pairs, h.params, h.brace, h.end)
  }

  lemma {:induction false} ItemsSnoc(ts: seq<Token>, pairs: map<nat, nat>, a: nat, m: nat, b: nat)
    requires a <= m && Items(ts, pairs, a, m) && Item(ts, pairs, m, b)
    ensures Items(ts, pairs, a, b)
    decreases m - a
  {
    if a == m {
      assert Items(ts, pairs, b, b);
    } else {
      var k :| a < k <= m && Item(ts, pairs, a, k) && Items(ts, pairs, k, m);
      ItemsSnoc(ts, pairs, k, m, b);
    }
  }

  // ---- the scan -----------------------------------------------------------

  /** The position after the closer recorded for o; past the end when there is none. */
  function After(pairs: map<nat, nat>, o: nat, len: nat): nat {
    if o in pairs then pairs[o] + 1 else len + 1
  }

  /** One turn of the result walk. */
  function Advance(ts: seq<Token>, pairs: map<nat, nat>, cursor: nat): nat {
    if Is(ts, cursor, "(") || Is(ts, cursor, "[") then After(pairs, cursor, |ts|)
    else if TypeLiteralAt(ts, cursor) then After(pairs, cursor + 1, |ts|)
    else cursor + 1
  }

  /** Recorded closers lie after their openers and inside the file. */
  ghost predicate Forward(pairs: map<nat, nat>, len: nat) {
    forall o :: o in pairs ==> o < pairs[o] < len
  }

  lemma RecordedForward(ts: seq<Token>, pairs: map<nat, nat>)
    requires Recorded(ts, pairs)
    ensures Forward(pairs, |ts|)
  {
  }

  /** One turn of the walk is one item, or it runs off the end because there is none. */
  lemma TurnIsItem(ts: seq<Token>, pairs: map<nat, nat>, a: nat)
    requires Forward(pairs, |ts|) && a < |ts| && !Is(ts, a, "{")
    ensures var b := Advance(ts, pairs, a);
      b > a && (b <= |ts| ==> Item(ts, pairs, a, b)) && forall m :: Item(ts, pairs, a, m) ==> m == b
  {
  }

  /** The result walk, from start to the brace that opens the body, if there is one. */
  method FindBody(ts: seq<Token>, pairs: map<nat, nat>, start: nat) returns (cursor: nat)
    requires Forward(pairs, |ts|)
    ensures cursor < |ts| ==> Is(ts, cursor, "{") && start <= cursor && Items(ts, pairs, start, cursor)
    ensures forall b: nat :: start <= b && Is(ts, b, "{") && Items(ts, pairs, start, b) ==> b == cursor
  {
    cursor := start;
    while cursor < |ts| && !Is(ts, cursor, "{")
      invariant cursor <= |ts| ==> start <= cursor && Items(ts, pairs, start, cursor)
      invariant forall b: nat :: start <= b && Is(ts, b, "{") && Items(ts, pairs, start, b) ==>
                  cursor <= b && Items(ts, pairs, cursor, b)
      decreases |ts| + 1 - cursor
    {
      TurnIsItem(ts, pairs, cursor);
      var next := Advance(ts, pairs, cursor);
      if next <= |ts| {
        ItemsSnoc(ts, pairs, start, cursor, next);
      }
      forall b: nat | start <= b && Is(ts, b, "{") && Items(ts, pairs, start, b)
        ensures next <= b && Items(ts, pairs, next, b)
      {
        var m :| cursor < m <= b && Item(ts, pairs, cursor, m) && Items(ts, pairs, m, b);
      }
      cursor := next;
    }
  }

  method FindHead(ts: seq<Token>, pairs: map<nat, nat>, index: nat) returns (r: Option<(bool, nat, nat)>)
    requires Is(ts, index, "func")
    ensures r.Some? ==> Heads(ts, pairs, index, r.value.0, r.value.1, r.value.2)
    ensures forall m: bool, name: nat, params: nat ::
              Heads(ts, pairs, index, m, name, params) ==> r == Some((m, name, params))
  {
    var isMethod := Is(ts, index + 1, "(");
    var name := if isMethod then After(pairs, index + 1, |ts|) else index + 1;
    if name >= |ts| || ts[name].kind != Name {
      return None;
    }
    var params := if Is(ts, name + 1, "[") then After(pairs, name + 1, |ts|) else name + 1;
    if !Is(ts, params, "(") {
      return None;
    }
    r := Some((isMethod, name, params));
  }

  method FindTail(ts: seq<Token>, pairs: map<nat, nat>, params: nat) returns (r: Option<(nat, nat)>)
    requires Forward(pairs, |ts|)
    ensures r.Some? ==> Tails(ts, pairs, params, r.value.0, r.value.1)
    ensures forall b: nat, e: nat :: Tails(ts, pairs, params, b, e) ==> r == Some((b, e))
  {
    var brace := FindBody(ts, pairs, After(pairs, params, |ts|));
    if brace in pairs {
      r := Some((brace, pairs[brace]));
    } else {
      r := None;
    }
  }

  /** The scan from a func token: it finds the declaration standing there, whenever there is
    * one, and reports nothing otherwise. */
  method FindHeader(ts: seq<Token>, pairs: map<nat, nat>, index: nat) returns (r: Option<Header>)
    requires Recorded(ts, pairs) && Is(ts, index, "func")
    ensures r.Some? ==> Declares(ts, pairs, index, r.value)
    ensures forall h :: Declares(ts, pairs, index, h) ==> r == Some(h)
  {
    RecordedForward(ts, pairs);
    r := None;
    var head := FindHead(ts, pairs, index);
    if head.Some? {
      var (isMethod, name, params) := head.value;
      var tail := FindTail(ts, pairs, params);
      if tail.Some? {
        r := Some(Header(isMethod, name, params, tail.value.0, tail.value.1));
      }
    }
  }

  // ---- what a found declaration is like -----------------------------------

  /** The walk can reach one brace only. */
  lemma {:induction false} ItemsReachOneBrace(ts: seq<Token>, pairs: map<nat, nat>, a: nat, b: nat, b': nat)
    requires a <= b && a <= b' && Items(ts, pairs, a, b) && Items(ts, pairs, a, b')
    requires Is(ts, b, "{") && Is(ts, b', "{")
    ensures b == b'
    decreases b - a
  {
    if a < b {
      var m :| a < m <= b && Item(ts, pairs, a, m) && Items(ts, pairs, m, b);
      assert a < b';
      var m' :| a < m' <= b' && Item(ts, pairs, a, m') && Items(ts, pairs, m', b');
      ItemsReachOneBrace(ts, pairs, m, b, b');
    }
  }

  lemma GroupCloses(bs: seq<Bracket>, pairs: map<nat, nat>, p: nat, o: nat)
    requires PairsOf(bs, pairs, |bs|) && p in pairs && o in pairs && p <= o <= pairs[p]
    ensures pairs[o] <= pairs[p]
  {
    assert Pops(bs, p, pairs[p]) && Pops(bs, o, pairs[o]);
    if p != o { Laminar(bs, p, pairs[p], o, pairs[o]); }
  }

  lemma OpenerToken(ts: seq<Token>, pairs: map<nat, nat>, o: nat)
    requires Recorded(ts, pairs) && o in pairs
    ensures Is(ts, o, "(") || Is(ts, o, "[") || Is(ts, o, "{")
  {
    assert Pops(Brackets(ts), o, pairs[o]);
  }

  /** A step with an opener in it is a group, or a type literal's. */
  lemma OpenerInItem(ts: seq<Token>, pairs: map<nat, nat>, a: nat, m: nat, o: nat) returns (p: nat)
    requires Item(ts, pairs, a, m) && a <= o < m
    requires Is(ts, o, "(") || Is(ts, o, "[") || Is(ts, o, "{")
    ensures p <= o && Spans(pairs, p, m)
  {
    if Is(ts, a, "(") || Is(ts, a, "[") {
      p := a;
    } else {
      assert o != a;
      p := a + 1;
    }
  }

  /** A group opened within one step is closed within it. */
  lemma ItemClosesItsGroups(ts: seq<Token>, pairs: map<nat, nat>, a: nat, m: nat, o: nat)
    requires Recorded(ts, pairs) && Item(ts, pairs, a, m) && a <= o < m && o in pairs
    ensures pairs[o] < m
  {
    OpenerToken(ts, pairs, o);
    var p := OpenerInItem(ts, pairs, a, m, o);
    GroupCloses(Brackets(ts), pairs, p, o);
  }

  /** Every group opened along the result list, whatever is in it, is closed before the brace the
    * walk reaches: the brace of the body stands in none of them. */
  lemma {:induction false} ItemsCloseTheirGroups(ts: seq<Token>, pairs: map<nat, nat>, a: nat, b: nat, o: nat)
    requires Recorded(ts, pairs) && b <= |ts| && Items(ts, pairs, a, b)
    requires a <= o < b && o in pairs
    ensures pairs[o] < b
    decreases b - a
  {
    var m :| a < m <= b && Item(ts, pairs, a, m) && Items(ts, pairs, m, b);
    if o < m {
      ItemClosesItsGroups(ts, pairs, a, m, o);
    } else {
      ItemsCloseTheirGroups(ts, pairs, m, b, o);
    }
  }

  // ---- struct and interface results ------------------------------------------

  /** The last step before the brace the walk reaches. */
  lemma {:induction false} LastItem(ts: seq<Token>, pairs: map<nat, nat>, a: nat, b: nat) returns (m: nat)
    requires a < b && Items(ts, pairs, a, b)
    ensures a <= m < b && Item(ts, pairs, m, b)
    decreases b - a
  {
    var k :| a < k <= b && Item(ts, pairs, a, k) && Items(ts, pairs, k, b);
    if k == b {
      m := a;
    } else {
      m := LastItem(ts, pairs, k, b);
    }
  }

  lemma CloserToken(ts: seq<Token>, pairs: map<nat, nat>, o: nat)
    requires Recorded(ts, pairs) && o in pairs
    ensures pairs[o] < |ts|
    ensures (Is(ts, o, "(") && Is(ts, pairs[o], ")")) || (Is(ts, o, "[") && Is(ts, pairs[o], "]")) ||
            (Is(ts, o, "{") && Is(ts, pairs[o], "}"))
  {
    assert IsPair(Brackets(ts), o, pairs[o]);
  }

  predicate TypeWord(ts: seq<Token>, i: int) { Is(ts, i, "interface") || Is(ts, i, "struct") }

  ghost predicate ClosersAreNoTypes(ts: seq<Token>, pairs: map<nat, nat>) {
    forall o :: o in pairs ==> !TypeWord(ts, pairs[o])
  }

  lemma RecordedClosers(ts: seq<Token>, pairs: map<nat, nat>)
    requires Recorded(ts, pairs)
    ensures ClosersAreNoTypes(ts, pairs)
  {
    forall o | o in pairs ensures !TypeWord(ts, pairs[o]) { CloserToken(ts, pairs, o); }
  }

  lemma StepEndsOff(ts: seq<Token>, pairs: map<nat, nat>, m: nat, b: nat)
    requires ClosersAreNoTypes(ts, pairs) && Item(ts, pairs, m, b) && Is(ts, b, "{")
    ensures !TypeWord(ts, b - 1)
  {
    if m in pairs && b == pairs[m] + 1 {
      assert !TypeWord(ts, pairs[m]);
    } else if m + 1 in pairs && b == pairs[m + 1] + 1 {
      assert !TypeWord(ts, pairs[m + 1]);
    }
  }

  lemma TailEndsOff(ts: seq<Token>, pairs: map<nat, nat>, p: nat, b: nat, e: nat)
    requires ClosersAreNoTypes(ts, pairs) && Tails(ts, pairs, p, b, e)
    ensures !TypeWord(ts, b - 1)
  {
    if pairs[p] + 1 < b {
      var m := LastItem(ts, pairs, pairs[p] + 1, b);
      StepEndsOff(ts, pairs, m, b);
    } else {
      assert !TypeWord(ts, pairs[p]);
    }
  }

  lemma DeclarationEndsOff(ts: seq<Token>, pairs: map<nat, nat>, index: nat, h: Header)
    requires ClosersAreNoTypes(ts, pairs) && Declares(ts, pairs, index, h)
    ensures !Is(ts, h.brace - 1, "interface") && !Is(ts, h.brace - 1, "struct")
  {
    TailEndsOff(ts, pairs, h.params, h.brace, h.end);
    assert !TypeWord(ts, h.brace - 1);
  }

  /** The braces of an interface or struct type are never taken for those of the body. */
  lemma BodyFollowsNoType(ts: seq<Token>, pairs: map<nat, nat>, index: nat, h: Header)
    requires Recorded(ts, pairs) && Declares(ts, pairs, index, h)
    ensures !Is(ts, h.brace - 1, "interface") && !Is(ts, h.brace - 1, "struct")
  {
    RecordedClosers(ts, pairs);
    DeclarationEndsOff(ts, pairs, index, h);
  }

  /** Tokens that open nothing and begin no type literal. */
  ghost predicate PlainResults(ts: seq<Token>, a: nat, b: nat) {
    a <= b <= |ts| && forall k :: a <= k < b ==> ts[k].value !in {"(", "[", "{", "struct", "interface"}
  }

  lemma {:induction false} PlainItems(ts: seq<Token>, pairs: map<nat, nat>, a: nat, b: nat)
    requires PlainResults(ts, a, b)
    ensures Items(ts, pairs, a, b)
    decreases b - a
  {
    if a < b {
      PlainItems(ts, pairs, a + 1, b);
      assert Item(ts, pairs, a, a + 1);
    }
  }

  /** A declaration with an interface or struct type among its results is found, and its body is
    * what stands in the braces after the type's. */
  lemma TypeResultSkipped(ts: seq<Token>, pairs: map<nat, nat>, index: nat, isMethod: bool, name: nat, params: nat,
                          t: nat, brace: nat, h: Header)
    requires Heads(ts, pairs, index, isMethod, name, params) && params in pairs
    requires pairs[params] + 1 <= t && PlainResults(ts, pairs[params] + 1, t)
    requires (Is(ts, t, "interface") || Is(ts, t, "struct")) && Is(ts, t + 1, "{") && t + 1 in pairs
    requires t + 1 < pairs[t + 1] < brace && PlainResults(ts, pairs[t + 1] + 1, brace)
    requires Is(ts, brace, "{") && brace in pairs
    ensures Declares(ts, pairs, index, h) <==> h == Header(isMethod, name, params, brace, pairs[brace])
  {
    var a, b := pairs[params] + 1, pairs[t + 1] + 1;
    PlainItems(ts, pairs, a, t);
    assert Item(ts, pairs, t, b);
    ItemsSnoc(ts, pairs, a, t, b);
    PlainItems(ts, pairs, b, brace);
    ItemsConcat(ts, pairs, a, b, brace);
    var g := Header(isMethod, name, params, brace, pairs[brace]);
    assert Declares(ts, pairs, index, g);
    if Declares(ts, pairs, index, h) { DeclaresUnique(ts, pairs, index, h, g); }
  }

  lemma {:induction false} ItemsConcat(ts: seq<Token>, pairs: map<nat, nat>, a: nat, m: nat, b: nat)
    requires a <= m <= b && Items(ts, pairs, a, m) && Items(ts, pairs, m, b)
    ensures Items(ts, pairs, a, b)
    decreases m - a
  {
    if a < m {
      var k :| a < k <= m && Item(ts, pairs, a, k) && Items(ts, pairs, k, m);
      ItemsConcat(ts, pairs, k, m, b);
    }
  }

  /** At most one declaration starts at a token. */
  lemma DeclaresUnique(ts: seq<Token>, pairs: map<nat, nat>, index: nat, h: Header, h': Header)
    requires Declares(ts, pairs, index, h) && Declares(ts, pairs, index, h')
    ensures h == h'
  {
    ItemsReachOneBrace(ts, pairs, pairs[h.params] + 1, h.brace, h'.brace);
  }

  /** The parts of a declaration stand in order, and its last is a recorded pair of braces. */
  lemma DeclaresOrder(ts: seq<Token>, pairs: map<nat, nat>, index: nat, h: Header)
    requires Forward(pairs, |ts|) && Declares(ts, pairs, index, h)
    ensures index < h.name < h.params < h.brace < h.end < |ts|
    ensures Is(ts, h.brace, "{") && h.brace in pairs && pairs[h.brace] == h.end
  {
  }

  /** What counts as a delimiter, and which belong together. */
  lemma BracketsAre(ts: seq<Token>, i: nat)
    requires i < |ts|
    ensures Brackets(ts)[i].Open? <==> ts[i].value == "(" || ts[i].value == "[" || ts[i].value == "{"
    ensures Brackets(ts)[i].Close? <==> ts[i].value == ")" || ts[i].value == "]" || ts[i].value == "}"
    ensures ts[i].value == "(" || ts[i].value == ")" ==> Brackets(ts)[i].shape == Round
    ensures ts[i].value == "[" || ts[i].value == "]" ==> Brackets(ts)[i].shape == Square
    ensures ts[i].value == "{" || ts[i].value == "}" ==> Brackets(ts)[i].shape == Curly
  {
  }

  ghost predicate OpenersRecorded(bs: seq<Bracket>, pairs: map<nat, nat>, lo: nat, hi: nat)
    requires hi <= |bs|
  {
    forall p: nat :: lo <= p < hi && bs[p].Open? ==> p in pairs
  }

  lemma RecordedInterior(bs: seq<Bracket>, pairs: map<nat, nat>, o: nat)
    requires PairsOf(bs, pairs, |bs|) && o in pairs
    ensures Nested(bs, o + 1, pairs[o])
    ensures Balanced(bs, o + 1, pairs[o]) <==> OpenersRecorded(bs, pairs, o + 1, pairs[o])
  {
    PairInterior(bs, o, pairs[o]);
    forall p: nat | p in pairs ensures exists c :: IsPair(bs, p, c) {
      assert IsPair(bs, p, pairs[p]);
    }
  }

  /** The braces of skipped groups and type literals never pass for the body: what is found is
    * nested text between braces of its own, balanced exactly when every opener in it was
    * recorded. */
  lemma BodyNests(ts: seq<Token>, bs: seq<Bracket>, pairs: map<nat, nat>, brace: nat)
    requires bs == Brackets(ts) && Recorded(ts, pairs)
    requires brace in pairs && Is(ts, brace, "{")
    ensures brace < pairs[brace] < |ts| == |bs| && Is(ts, pairs[brace], "}")
    ensures Nested(bs, brace + 1, pairs[brace])
    ensures Balanced(bs, brace + 1, pairs[brace]) <==> OpenersRecorded(bs, pairs, brace + 1, pairs[brace])
  {
    RecordedInterior(bs, pairs, brace);
  }
}
