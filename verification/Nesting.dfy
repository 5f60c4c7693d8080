/** Recursive matching: the tree reading of nested delimiters, and how the stack loop's
  * pairs agree with it. */
module Nesting {
  import opened Delimiters

  /** A nested stretch of source, read as a tree. The two shapes of a group may differ. */
  datatype Forest =
    | Empty
    | Leaf(rest: Forest)
    | Group(open: Shape, inside: Forest, close: Shape, rest: Forest)

  ghost function Flatten(f: Forest): seq<Bracket> {
    match f
    case Empty => []
    case Leaf(rest) => [Plain] + Flatten(rest)
    case Group(open, inside, close, rest) => [Open(open)] + Flatten(inside) + [Close(close)] + Flatten(rest)
  }

  /** Every group is closed by its own shape: the text is balanced in the usual sense. */
  ghost predicate WellShaped(f: Forest) {
    match f
    case Empty => true
    case Leaf(rest) => WellShaped(rest)
    case Group(open, inside, close, rest) => open == close && WellShaped(inside) && WellShaped(rest)
  }

  /** Recursive matching: f, laid out from position base on, closes at c the group it opens at o. */
  ghost predicate Twins(f: Forest, base: nat, o: nat, c: nat) {
    match f
    case Empty => false
    case Leaf(rest) => Twins(rest, base + 1, o, c)
    case Group(_, inside, _, rest) =>
      var closer := base + 1 + |Flatten(inside)|;
      (o == base && c == closer) || Twins(inside, base + 1, o, c) || Twins(rest, closer + 1, o, c)
  }

  /** f is what bs reads from position base on. */
  ghost predicate ReadsAs(bs: seq<Bracket>, base: nat, f: Forest) {
    base + |Flatten(f)| <= |bs| && bs[base..base + |Flatten(f)|] == Flatten(f)
  }

  ghost function End(base: nat, f: Forest): nat { base + |Flatten(f)| }

  lemma SliceConcat<T>(s: seq<T>, base: nat, x: seq<T>, y: seq<T>)
    requires base + |x + y| <= |s| && s[base..base + |x + y|] == x + y
    ensures s[base..base + |x|] == x
    ensures s[base + |x|..base + |x| + |y|] == y
  {
    var text := s[base..base + |x + y|];
    assert s[base..base + |x|] == text[..|x|];
    assert s[base + |x|..base + |x| + |y|] == text[|x|..];
  }

  lemma SliceHead<T>(s: seq<T>, base: nat, x: T, y: seq<T>)
    requires base + 1 + |y| <= |s| && s[base..base + 1 + |y|] == [x] + y
    ensures s[base] == x
    ensures s[base + 1..base + 1 + |y|] == y
  {
    SliceConcat(s, base, [x], y);
    assert s[base] == s[base..base + 1][0];
  }

  lemma ReadsLeaf(bs: seq<Bracket>, base: nat, f: Forest)
    requires ReadsAs(bs, base, f) && f.Leaf?
    ensures base < |bs| && bs[base] == Plain && ReadsAs(bs, base + 1, f.rest)
    ensures End(base, f) == End(base + 1, f.rest)
  {
    SliceHead(bs, base, Plain, Flatten(f.rest));
  }

  lemma ReadsGroup(bs: seq<Bracket>, base: nat, f: Forest)
    requires ReadsAs(bs, base, f) && f.Group?
    ensures base < |bs| && bs[base] == Open(f.open)
    ensures ReadsAs(bs, base + 1, f.inside)
    ensures var closer := End(base + 1, f.inside);
      && closer < |bs| && bs[closer] == Close(f.close)
      && ReadsAs(bs, closer + 1, f.rest)
      && End(base, f) == End(closer + 1, f.rest)
  {
    var right := [Close(f.close)] + Flatten(f.rest);
    assert Flatten(f) == [Open(f.open)] + (Flatten(f.inside) + right);
    SliceHead(bs, base, Open(f.open), Flatten(f.inside) + right);
    SliceConcat(bs, base + 1, Flatten(f.inside), right);
    SliceHead(bs, End(base + 1, f.inside), Close(f.close), Flatten(f.rest));
  }

  lemma NestedConcat(bs: seq<Bracket>, a: nat, b: nat, c: nat)
    requires a <= b <= c <= |bs| && Nested(bs, a, b) && Nested(bs, b, c)
    ensures Nested(bs, a, c)
  {
    forall m | b <= m <= c ensures Depth(bs, a, m) == Depth(bs, b, m) {
      DepthSplit(bs, a, b, m);
    }
  }

  lemma NestedWrap(bs: seq<Bracket>, o: nat, c: nat)
    requires Pops(bs, o, c)
    ensures Nested(bs, o, c + 1)
  {
    assert Depth(bs, o, o + 1) == 1;
    forall m | o + 1 <= m <= c ensures Depth(bs, o, m) == 1 + Depth(bs, o + 1, m) {
      DepthSplit(bs, o, o + 1, m);
    }
  }

  /** What a tree lays out is nested. */
  lemma {:induction false} ForestNests(bs: seq<Bracket>, base: nat, f: Forest)
    requires ReadsAs(bs, base, f)
    ensures Nested(bs, base, End(base, f))
    decreases f
  {
    match f
    case Empty =>
    case Leaf(rest) =>
      ReadsLeaf(bs, base, f);
      ForestNests(bs, base + 1, rest);
      assert Nested(bs, base, base + 1) by { assert Depth(bs, base, base + 1) == 0; }
      NestedConcat(bs, base, base + 1, End(base, f));
    case Group(_, inside, _, rest) =>
      ReadsGroup(bs, base, f);
      var closer := End(base + 1, inside);
      ForestNests(bs, base + 1, inside);
      assert Pops(bs, base, closer);
      NestedWrap(bs, base, closer);
      ForestNests(bs, closer + 1, rest);
      NestedConcat(bs, base, closer + 1, End(base, f));
  }

  lemma {:induction false} TwinsInside(f: Forest, base: nat, o: nat, c: nat)
    requires Twins(f, base, o, c)
    ensures base <= o < c < End(base, f)
    decreases f
  {
    match f
    case Leaf(rest) => TwinsInside(rest, base + 1, o, c);
    case Group(_, inside, _, rest) =>
      var closer := End(base + 1, inside);
      if Twins(inside, base + 1, o, c) { TwinsInside(inside, base + 1, o, c); }
      if Twins(rest, closer + 1, o, c) { TwinsInside(rest, closer + 1, o, c); }
  }

  lemma TwinsOutside(f: Forest, base: nat, o: nat, c: nat)
    requires !(base <= o < End(base, f))
    ensures !Twins(f, base, o, c)
  {
    if Twins(f, base, o, c) { TwinsInside(f, base, o, c); }
  }

  /** Which part of a group decides the twin of o. */
  lemma GroupTwins(f: Forest, base: nat, o: nat, c: nat)
    requires f.Group? && base <= o < End(base, f)
    ensures var closer := End(base + 1, f.inside);
      Twins(f, base, o, c) <==>
        if o == base then c == closer
        else if o < closer then Twins(f.inside, base + 1, o, c)
        else o > closer && Twins(f.rest, closer + 1, o, c)
  {
    var closer := End(base + 1, f.inside);
    if !(base + 1 <= o < closer) { TwinsOutside(f.inside, base + 1, o, c); }
    if o <= closer { TwinsOutside(f.rest, closer + 1, o, c); }
  }

  /** Inside anything read as a tree, the stack pops exactly what recursive matching pairs. */
  lemma {:induction false} PopsAreTwins(bs: seq<Bracket>, base: nat, f: Forest, o: nat, c: nat)
    requires ReadsAs(bs, base, f) && base <= o < End(base, f)
    ensures Pops(bs, o, c) <==> Twins(f, base, o, c)
    decreases f
  {
    match f
    case Leaf(rest) =>
      ReadsLeaf(bs, base, f);
      if o == base {
        TwinsOutside(rest, base + 1, o, c);
      } else {
        PopsAreTwins(bs, base + 1, rest, o, c);
      }
    case Group(_, inside, _, rest) =>
      ReadsGroup(bs, base, f);
      GroupTwins(f, base, o, c);
      var closer := End(base + 1, inside);
      if o == base {
        GroupPops(bs, base, f, c);
      } else if o < closer {
        PopsAreTwins(bs, base + 1, inside, o, c);
      } else if o > closer {
        PopsAreTwins(bs, closer + 1, rest, o, c);
      }
  }

  lemma GroupPops(bs: seq<Bracket>, base: nat, f: Forest, c: nat)
    requires ReadsAs(bs, base, f) && f.Group?
    ensures Pops(bs, base, c) <==> c == End(base + 1, f.inside)
  {
    ReadsGroup(bs, base, f);
    var closer := End(base + 1, f.inside);
    ForestNests(bs, base + 1, f.inside);
    assert Pops(bs, base, closer);
    if Pops(bs, base, c) { PopsUnique(bs, base, c, base, closer); }
  }

  /** In nested text an opener is popped before the text ends. */
  lemma {:induction false} PoppedWithin(bs: seq<Bracket>, o: nat, hi: nat, m: nat) returns (c: nat)
    requires o < m <= hi <= |bs| && bs[o].Open? && Nested(bs, o, hi)
    requires Pending(bs, o, m)
    ensures c < hi && Pops(bs, o, c)
    decreases hi - m
  {
    DepthSplit(bs, o, o + 1, hi);
    assert Depth(bs, o, o + 1) == 1;
    if bs[m].Close? && Depth(bs, o + 1, m) == 0 {
      c := m;
    } else {
      assert Depth(bs, o + 1, m + 1) == Depth(bs, o + 1, m) + Delta(bs[m]);
      c := PoppedWithin(bs, o, hi, m + 1);
    }
  }

  lemma NestedDrop(bs: seq<Bracket>, a: nat, b: nat, c: nat)
    requires a <= b <= c <= |bs| && Nested(bs, a, b) && Nested(bs, a, c)
    ensures Nested(bs, b, c)
  {
    forall m | b <= m <= c ensures Depth(bs, a, m) == Depth(bs, b, m) {
      DepthSplit(bs, a, b, m);
    }
  }

  /** Nested text reads as a tree. */
  lemma {:induction false} Parse(bs: seq<Bracket>, lo: nat, hi: nat) returns (f: Forest)
    requires lo <= hi <= |bs| && Nested(bs, lo, hi)
    ensures ReadsAs(bs, lo, f) && End(lo, f) == hi
    decreases hi - lo
  {
    if lo == hi {
      f := Empty;
    } else if bs[lo].Open? {
      assert Pending(bs, lo, lo + 1);
      var c := PoppedWithin(bs, lo, hi, lo + 1);
      var inside := Parse(bs, lo + 1, c);
      NestedWrap(bs, lo, c);
      NestedDrop(bs, lo, c + 1, hi);
      var rest := Parse(bs, c + 1, hi);
      f := Group(bs[lo].shape, inside, bs[c].shape, rest);
      assert bs[lo..hi] == [bs[lo]] + bs[lo + 1..c] + [bs[c]] + bs[c + 1..hi];
    } else {
      assert Depth(bs, lo, lo + 1) == Delta(bs[lo]);
      NestedDrop(bs, lo, lo + 1, hi);
      var rest := Parse(bs, lo + 1, hi);
      f := Leaf(rest);
      assert bs[lo..hi] == [bs[lo]] + bs[lo + 1..hi];
    }
  }

  /** The usual notion: bs[lo..hi] is generated by the grammar of matching shapes. */
  ghost predicate Balanced(bs: seq<Bracket>, lo: nat, hi: nat) {
    exists f :: ReadsAs(bs, lo, f) && End(lo, f) == hi && WellShaped(f)
  }

  /** Every opener of bs[lo..hi] got recorded. */
  ghost predicate AllPaired(bs: seq<Bracket>, lo: nat, hi: nat)
    requires hi <= |bs|
  {
    forall o: nat :: lo <= o < hi && bs[o].Open? ==> exists c :: IsPair(bs, o, c)
  }

  lemma {:induction false} WellShapedAllPaired(bs: seq<Bracket>, base: nat, f: Forest)
    requires ReadsAs(bs, base, f) && WellShaped(f)
    ensures AllPaired(bs, base, End(base, f))
    decreases f
  {
    match f
    case Empty =>
    case Leaf(rest) =>
      ReadsLeaf(bs, base, f);
      WellShapedAllPaired(bs, base + 1, rest);
    case Group(_, inside, _, rest) =>
      ReadsGroup(bs, base, f);
      var closer := End(base + 1, inside);
      ForestNests(bs, base + 1, inside);
      assert IsPair(bs, base, closer);
      WellShapedAllPaired(bs, base + 1, inside);
      WellShapedAllPaired(bs, closer + 1, rest);
  }

  lemma {:induction false} AllPairedWellShaped(bs: seq<Bracket>, base: nat, f: Forest)
    requires ReadsAs(bs, base, f) && AllPaired(bs, base, End(base, f))
    ensures WellShaped(f)
    decreases f
  {
    match f
    case Empty =>
    case Leaf(rest) =>
      ReadsLeaf(bs, base, f);
      AllPairedWellShaped(bs, base + 1, rest);
    case Group(_, inside, _, rest) =>
      ReadsGroup(bs, base, f);
      var closer := End(base + 1, inside);
      ForestNests(bs, base + 1, inside);
      var c :| IsPair(bs, base, c);
      PopsUnique(bs, base, c, base, closer);
      AllPairedWellShaped(bs, base + 1, inside);
      AllPairedWellShaped(bs, closer + 1, rest);
  }

  /** Between the two ends of a recorded pair the text always nests; it is balanced exactly
    * when every opener in it was recorded too. */
  lemma PairInterior(bs: seq<Bracket>, o: nat, c: nat)
    requires IsPair(bs, o, c)
    ensures Nested(bs, o + 1, c)
    ensures Balanced(bs, o + 1, c) <==> AllPaired(bs, o + 1, c)
  {
    var f := Parse(bs, o + 1, c);
    if AllPaired(bs, o + 1, c) {
      AllPairedWellShaped(bs, o + 1, f);
    }
    if Balanced(bs, o + 1, c) {
      var g :| ReadsAs(bs, o + 1, g) && End(o + 1, g) == c && WellShaped(g);
      WellShapedAllPaired(bs, o + 1, g);
    }
  }

  /** A recorded pair need not enclose balanced text: `{ ( ] }` records its braces. */
  lemma PairInteriorMayBeUnbalanced()
    ensures var bs := [Open(Curly), Open(Round), Close(Square), Close(Curly)];
      IsPair(bs, 0, 3) && !Balanced(bs, 1, 3)
  {
    var bs := [Open(Curly), Open(Round), Close(Square), Close(Curly)];
    assert Depth(bs, 1, 1) == 0 && Depth(bs, 1, 2) == 1 && Depth(bs, 1, 3) == 0;
    assert Depth(bs, 2, 2) == 0;
    assert Pops(bs, 0, 3) && Pops(bs, 1, 2);
    forall c ensures !IsPair(bs, 1, c) {
      if IsPair(bs, 1, c) { PopsUnique(bs, 1, c, 1, 2); }
    }
    PairInterior(bs, 0, 3);
  }

  /** On balanced input the stack loop is recursive matching: every opener is recorded, with
    * the closer the tree gives it. */
  lemma StackIsRecursiveMatching(bs: seq<Bracket>, f: Forest, pairs: map<nat, nat>)
    requires bs == Flatten(f) && WellShaped(f) && PairsOf(bs, pairs, |bs|)
    ensures forall o: nat :: o in pairs <==> o < |bs| && bs[o].Open?
    ensures forall o: nat, c: nat :: (o in pairs && pairs[o] == c) <==> Twins(f, 0, o, c)
  {
    assert bs[0..|bs|] == bs;
    WellShapedAllPaired(bs, 0, f);
    forall o: nat | o < |bs| && bs[o].Open? ensures o in pairs {
      var c :| IsPair(bs, o, c);
    }
    forall o: nat, c: nat ensures (o in pairs && pairs[o] == c) <==> Twins(f, 0, o, c) {
      if o < |bs| {
        PopsAreTwins(bs, 0, f, o, c);
        if Pops(bs, o, c) { PopsUnique(bs, o, c, o, pairs[o]); }
      } else if Twins(f, 0, o, c) {
        TwinsInside(f, 0, o, c);
      }
    }
  }
}
