/** Replacing the marked entries of a sequence by id0, id1, ... in order of first
  * occurrence, and when two sequences come out the same. */
module FirstOccurrence {
  import opened Strings

  predicate Distinct<T(==)>(s: seq<T>) {
    forall i, j :: 0 <= i < j < |s| ==> s[i] != s[j]
  }

  function IndexOf<T(==)>(s: seq<T>, x: T): (i: nat)
    requires x in s
    ensures i < |s| && s[i] == x
  {
    if s[0] == x then 0 else 1 + IndexOf(s[1..], x)
  }

  lemma {:induction false} IndexAppended<T>(names: seq<T>, x: T)
    requires x !in names
    ensures IndexOf(names + [x], x) == |names|
    ensures forall y :: y in names ==> IndexOf(names + [x], y) == IndexOf(names, y)
    decreases |names|
  {
    if names != [] {
      assert (names + [x])[1..] == names[1..] + [x];
      IndexAppended(names[1..], x);
    }
  }

  lemma IndexUnique<T>(s: seq<T>, i: nat)
    requires Distinct(s) && i < |s|
    ensures IndexOf(s, s[i]) == i
  {
    var j := IndexOf(s, s[i]);
    assert s[j] == s[i];
  }

  function IdName(k: nat): (s: string)
    ensures |s| > 1 && s[0] == 'i' && s[1] == 'd'
  {
    "id" + Decimal(k)
  }

  lemma IdNameInjective(j: nat, k: nat)
    requires IdName(j) == IdName(k)
    ensures j == k
  {
    assert IdName(j)[2..] == Decimal(j) && IdName(k)[2..] == Decimal(k);
    DecimalInjective(j, k);
  }

  /** The distinct marked values of vs[..n], in order of first occurrence. */
  ghost function FirstSeen(vs: seq<string>, marks: seq<bool>, n: nat): (names: seq<string>)
    requires |marks| == |vs| && n <= |vs|
    ensures Distinct(names)
  {
    if n == 0 then []
    else
      var names := FirstSeen(vs, marks, n - 1);
      if marks[n - 1] && vs[n - 1] !in names then names + [vs[n - 1]] else names
  }

  lemma {:induction false} SeenIff(vs: seq<string>, marks: seq<bool>, n: nat, x: string)
    requires |marks| == |vs| && n <= |vs|
    ensures x in FirstSeen(vs, marks, n) <==> exists p :: 0 <= p < n && marks[p] && vs[p] == x
    decreases n
  {
    if n > 0 {
      SeenIff(vs, marks, n - 1, x);
    }
  }

  lemma {:induction false} SeenBound(vs: seq<string>, marks: seq<bool>, n: nat)
    requires |marks| == |vs| && n <= |vs|
    ensures |FirstSeen(vs, marks, n)| <= n
    decreases n
  {
    if n > 0 { SeenBound(vs, marks, n - 1); }
  }

  /** What entry p becomes: the rank of its value among those seen so far, if marked. */
  ghost function RenamedAt(vs: seq<string>, marks: seq<bool>, p: nat): string
    requires |marks| == |vs| && p < |vs|
  {
    if marks[p] then
      assert vs[p] in FirstSeen(vs, marks, p + 1);
      IdName(IndexOf(FirstSeen(vs, marks, p + 1), vs[p]))
    else vs[p]
  }

  ghost function Renamed(vs: seq<string>, marks: seq<bool>): (r: seq<string>)
    requires |marks| == |vs|
    ensures |r| == |vs|
    ensures forall p :: 0 <= p < |vs| ==> r[p] == RenamedAt(vs, marks, p)
  {
    seq(|vs|, p requires 0 <= p < |vs| => RenamedAt(vs, marks, p))
  }

  ghost predicate InjectiveMap(f: map<string, string>) {
    forall x, y :: x in f && y in f && f[x] == f[y] ==> x == y
  }

  /** b is a with its marked entries renamed one-to-one by f, and the rest untouched. */
  ghost predicate RenamedBy(a: seq<string>, b: seq<string>, marks: seq<bool>, f: map<string, string>)
    requires |a| == |b| == |marks|
  {
    && InjectiveMap(f)
    && forall p :: 0 <= p < |a| ==>
      if marks[p] then a[p] in f && b[p] == f[a[p]] else b[p] == a[p]
  }

  /** The rank of a value never changes once it has been seen. */
  lemma {:induction false} RankStable(vs: seq<string>, marks: seq<bool>, p: nat, n: nat)
    requires |marks| == |vs| && p < n <= |vs| && marks[p]
    ensures vs[p] in FirstSeen(vs, marks, n)
    ensures RenamedAt(vs, marks, p) == IdName(IndexOf(FirstSeen(vs, marks, n), vs[p]))
    decreases n
  {
    if n > p + 1 {
      RankStable(vs, marks, p, n - 1);
      var names := FirstSeen(vs, marks, n - 1);
      if marks[n - 1] && vs[n - 1] !in names {
        IndexAppended(names, vs[n - 1]);
      }
    }
  }

  /** Renaming commutes with first-occurrence numbering. */
  lemma {:induction false} RenamedSeen(a: seq<string>, b: seq<string>, marks: seq<bool>, f: map<string, string>, n: nat)
    requires |a| == |b| == |marks| && RenamedBy(a, b, marks, f) && n <= |a|
    ensures |FirstSeen(a, marks, n)| == |FirstSeen(b, marks, n)|
    ensures forall k :: 0 <= k < |FirstSeen(a, marks, n)| ==>
      FirstSeen(a, marks, n)[k] in f && FirstSeen(b, marks, n)[k] == f[FirstSeen(a, marks, n)[k]]
    decreases n
  {
    if n > 0 {
      RenamedSeen(a, b, marks, f, n - 1);
      var seenA, seenB := FirstSeen(a, marks, n - 1), FirstSeen(b, marks, n - 1);
      if marks[n - 1] {
        var x, y := a[n - 1], b[n - 1];
        assert x in seenA <==> y in seenB by {
          if x in seenA { assert seenB[IndexOf(seenA, x)] == y; }
          if y in seenB { assert f[seenA[IndexOf(seenB, y)]] == f[x]; }
        }
      }
    }
  }

  lemma RenamingGivesSameAt(a: seq<string>, b: seq<string>, marks: seq<bool>, f: map<string, string>, p: nat)
    requires |a| == |b| == |marks| && RenamedBy(a, b, marks, f) && p < |a|
    ensures RenamedAt(a, marks, p) == RenamedAt(b, marks, p)
  {
    if marks[p] {
      RenamedSeen(a, b, marks, f, p + 1);
      var seenA, seenB := FirstSeen(a, marks, p + 1), FirstSeen(b, marks, p + 1);
      assert a[p] in seenA;
      var k := IndexOf(seenA, a[p]);
      assert seenB[k] == b[p];
      IndexUnique(seenB, k);
    }
  }

  lemma RenamingGivesSame(a: seq<string>, b: seq<string>, marks: seq<bool>, f: map<string, string>)
    requires |a| == |b| == |marks| && RenamedBy(a, b, marks, f)
    ensures Renamed(a, marks) == Renamed(b, marks)
  {
    forall p | 0 <= p < |a| ensures Renamed(a, marks)[p] == Renamed(b, marks)[p] {
      RenamingGivesSameAt(a, b, marks, f, p);
    }
  }

  lemma SameRenamedPairs(a: seq<string>, b: seq<string>, marks: seq<bool>, p: nat, q: nat)
    requires |a| == |b| == |marks| && Renamed(a, marks) == Renamed(b, marks)
    requires p < |a| && q < |a| && marks[p] && marks[q]
    requires a[p] == a[q]
    ensures b[p] == b[q]
  {
    RankStable(a, marks, p, |a|);
    RankStable(a, marks, q, |a|);
    RankStable(b, marks, p, |b|);
    RankStable(b, marks, q, |b|);
    assert Renamed(a, marks)[p] == Renamed(b, marks)[p] && Renamed(a, marks)[q] == Renamed(b, marks)[q];
    var names := FirstSeen(b, marks, |b|);
    IdNameInjective(IndexOf(names, b[p]), IndexOf(names, b[q]));
  }

  lemma SameGivesRenaming(a: seq<string>, b: seq<string>, marks: seq<bool>) returns (f: map<string, string>)
    requires |a| == |b| == |marks| && Renamed(a, marks) == Renamed(b, marks)
    ensures RenamedBy(a, b, marks, f)
  {
    forall p, q | 0 <= p < |a| && 0 <= q < |a| && marks[p] && marks[q]
      ensures a[p] == a[q] <==> b[p] == b[q]
    {
      if a[p] == a[q] { SameRenamedPairs(a, b, marks, p, q); }
      if b[p] == b[q] { SameRenamedPairs(b, a, marks, p, q); }
    }
    f := map p | 0 <= p < |a| && marks[p] :: a[p] := b[p];
    forall p | 0 <= p < |a| && !marks[p] ensures a[p] == b[p] {
      assert Renamed(a, marks)[p] == Renamed(b, marks)[p];
    }
  }
}
