/** Pairing delimiters with a stack (audit-dev-guidelines.py, lines 692-702), specified by
  * nesting depth. An opener is popped by the closer that brings the depth back, whatever
  * the shapes; the pair is recorded only when the two shapes agree. */
module Delimiters {

  datatype Shape = Round | Square | Curly

  datatype Bracket = Open(shape: Shape) | Close(shape: Shape) | Plain

  function Delta(b: Bracket): int {
    match b
    case Open(_) => 1
    case Close(_) => -1
    case Plain => 0
  }

  /** Openers minus closers in bs[lo..hi]. */
  ghost function Depth(bs: seq<Bracket>, lo: nat, hi: nat): int
    requires lo <= hi <= |bs|
    decreases hi
  {
    if lo == hi then 0 else Depth(bs, lo, hi - 1) + Delta(bs[hi - 1])
  }

  /** The depth never drops below its value at lo. */
  ghost predicate NeverBelow(bs: seq<Bracket>, lo: nat, hi: nat)
    requires hi <= |bs|
  {
    forall m :: lo <= m <= hi ==> Depth(bs, lo, m) >= 0
  }

  /** An opener at o has not been popped before position n. */
  ghost predicate Pending(bs: seq<Bracket>, o: nat, n: nat)
    requires o < n <= |bs|
  {
    bs[o].Open? && NeverBelow(bs, o + 1, n)
  }

  /** bs[lo..hi] nests, whatever the shapes. */
  ghost predicate Nested(bs: seq<Bracket>, lo: nat, hi: nat)
    requires lo <= hi <= |bs|
  {
    Depth(bs, lo, hi) == 0 && NeverBelow(bs, lo, hi)
  }

  /** The closer at c is the one that pops the opener at o. */
  ghost predicate Pops(bs: seq<Bracket>, o: nat, c: nat) {
    o < c < |bs| && bs[o].Open? && bs[c].Close? && Nested(bs, o + 1, c)
  }

  /** The declarative meaning of the recorded pairs. */
  ghost predicate IsPair(bs: seq<Bracket>, o: nat, c: nat) {
    Pops(bs, o, c) && bs[o].shape == bs[c].shape
  }

  lemma {:induction false} DepthSplit(bs: seq<Bracket>, a: nat, b: nat, c: nat)
    requires a <= b <= c <= |bs|
    ensures Depth(bs, a, c) == Depth(bs, a, b) + Depth(bs, b, c)
    decreases c
  {
    if b < c {
      DepthSplit(bs, a, b, c - 1);
    }
  }

  /** What the stack holds after n tokens: exactly the pending openers, in order. */
  ghost predicate StackOf(bs: seq<Bracket>, stack: seq<nat>, n: nat)
    requires n <= |bs|
  {
    && (forall k :: 0 <= k < |stack| ==> stack[k] < n)
    && (forall k :: 0 <= k < |stack| ==> Pending(bs, stack[k], n) && Depth(bs, stack[k] + 1, n) == |stack| - 1 - k)
    && (forall o: nat :: o < n && Pending(bs, o, n) ==> o in stack)
  }

  /** pairs holds exactly the pairs closed before position n. */
  ghost predicate PairsOf(bs: seq<Bracket>, pairs: map<nat, nat>, n: nat)
    requires n <= |bs|
  {
    && (forall o :: o in pairs ==> pairs[o] < n && IsPair(bs, o, pairs[o]))
    && (forall o: nat, c: nat :: c < n && IsPair(bs, o, c) ==> o in pairs && pairs[o] == c)
  }

  lemma PushStep(bs: seq<Bracket>, stack: seq<nat>, pairs: map<nat, nat>, n: nat)
    requires n < |bs| && bs[n].Open? && StackOf(bs, stack, n) && PairsOf(bs, pairs, n)
    ensures StackOf(bs, stack + [n], n + 1) && PairsOf(bs, pairs, n + 1)
  {
    forall o: nat | o < n + 1 && Pending(bs, o, n + 1) ensures o in stack + [n] {
      if o < n { assert Pending(bs, o, n); }
    }
  }

  lemma PlainStep(bs: seq<Bracket>, stack: seq<nat>, pairs: map<nat, nat>, n: nat)
    requires n < |bs| && bs[n].Plain? && StackOf(bs, stack, n) && PairsOf(bs, pairs, n)
    ensures StackOf(bs, stack, n + 1) && PairsOf(bs, pairs, n + 1)
  {
    forall o: nat | o < n + 1 && Pending(bs, o, n + 1) ensures o in stack {
      assert o != n && Pending(bs, o, n);
    }
  }

  /** A closer on an empty stack pops nothing and is ignored. */
  lemma StrayStep(bs: seq<Bracket>, pairs: map<nat, nat>, n: nat)
    requires n < |bs| && bs[n].Close? && StackOf(bs, [], n) && PairsOf(bs, pairs, n)
    ensures StackOf(bs, [], n + 1) && PairsOf(bs, pairs, n + 1)
  {
    var next := n + 1;
    forall o: nat | o < next && Pending(bs, o, next) ensures o in [] {
      assert o != n && Pending(bs, o, n);
    }
    forall o: nat ensures !Pops(bs, o, n) {
      if Pops(bs, o, n) { assert Pending(bs, o, n); }
    }
  }

  /** A closer pops the top of the stack and nothing else. */
  lemma TopIsPopped(bs: seq<Bracket>, stack: seq<nat>, n: nat)
    requires n < |bs| && bs[n].Close? && StackOf(bs, stack, n) && stack != []
    ensures forall o: nat :: Pops(bs, o, n) <==> o == stack[|stack| - 1]
  {
    var top := stack[|stack| - 1];
    forall o: nat | Pops(bs, o, n) ensures o == top {
      assert Pending(bs, o, n);
      var k :| 0 <= k < |stack| && stack[k] == o;
    }
    assert Pending(bs, top, n) && Depth(bs, top + 1, n) == 0;
  }

  lemma PopStack(bs: seq<Bracket>, stack: seq<nat>, n: nat)
    requires n < |bs| && bs[n].Close? && StackOf(bs, stack, n) && stack != []
    ensures StackOf(bs, stack[..|stack| - 1], n + 1)
  {
    var rest := stack[..|stack| - 1];
    var top := stack[|stack| - 1];
    forall o: nat | o < n + 1 && Pending(bs, o, n + 1) ensures o in rest {
      assert o != n && Pending(bs, o, n);
      assert Depth(bs, o + 1, n + 1) == Depth(bs, o + 1, n) - 1;
      var k :| 0 <= k < |stack| && stack[k] == o;
      assert rest[k] == o;
    }
    forall k | 0 <= k < |rest| ensures Pending(bs, rest[k], n + 1) && Depth(bs, rest[k] + 1, n + 1) == |rest| - 1 - k {
      assert rest[k] == stack[k];
    }
  }

  /** Once popped, an opener is never pending again, so its pair is never overwritten. */
  lemma PairedNotPending(bs: seq<Bracket>, o: nat, c: nat, n: nat)
    requires c < n <= |bs| && Pops(bs, o, c)
    ensures !Pending(bs, o, n)
  {
    assert Depth(bs, o + 1, c + 1) == -1;
  }

  lemma PopPairs(bs: seq<Bracket>, stack: seq<nat>, pairs: map<nat, nat>, n: nat)
    requires n < |bs| && bs[n].Close? && StackOf(bs, stack, n) && stack != [] && PairsOf(bs, pairs, n)
    ensures var top := stack[|stack| - 1];
      PairsOf(bs, if bs[top].shape == bs[n].shape then pairs[top := n] else pairs, n + 1)
  {
    TopIsPopped(bs, stack, n);
    var top := stack[|stack| - 1];
    if top in pairs {
      PairedNotPending(bs, top, pairs[top], n);
      assert false;
    }
  }

  /** The pairing loop. */
  method PairDelimiters(bs: seq<Bracket>) returns (pairs: map<nat, nat>)
    ensures PairsOf(bs, pairs, |bs|)
  {
    pairs := map[];
    var stack: seq<nat> := [];
    for i := 0 to |bs|
      invariant StackOf(bs, stack, i) && PairsOf(bs, pairs, i)
    {
      match bs[i]
      case Open(_) =>
        PushStep(bs, stack, pairs, i);
        stack := stack + [i];
      case Plain =>
        PlainStep(bs, stack, pairs, i);
      case Close(_) =>
        if stack == [] {
          StrayStep(bs, pairs, i);
        } else {
          PopPairs(bs, stack, pairs, i);
          PopStack(bs, stack, i);
          var opener := stack[|stack| - 1];
          stack := stack[..|stack| - 1];
          if bs[opener].shape == bs[i].shape {
            pairs := pairs[opener := i];
          }
        }
    }
  }

  // ---- what the pairs are like, on every token sequence ------------------

  /** An opener is popped at most once and a closer pops at most one opener. */
  lemma PopsUnique(bs: seq<Bracket>, o: nat, c: nat, o': nat, c': nat)
    requires Pops(bs, o, c) && Pops(bs, o', c')
    ensures o == o' <==> c == c'
  {
    if o == o' && c < c' {
      assert Depth(bs, o + 1, c + 1) == -1;
    }
    if o == o' && c' < c {
      assert Depth(bs, o + 1, c' + 1) == -1;
    }
    if c == c' && o < o' {
      DepthSplit(bs, o + 1, o' + 1, c);
    }
    if c == c' && o' < o {
      DepthSplit(bs, o' + 1, o + 1, c);
    }
  }

  /** Any two pairs are disjoint or nested: the intervals form a laminar family. */
  lemma Laminar(bs: seq<Bracket>, o: nat, c: nat, o': nat, c': nat)
    requires Pops(bs, o, c) && Pops(bs, o', c') && o < o'
    ensures c < o' || c' < c
  {
    if o' < c {
      DepthSplit(bs, o + 1, o' + 1, c);
    }
  }
}
