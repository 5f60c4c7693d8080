/** digestEntries (internal/buildinfo/treehash.go, lines 140-158): the canonical byte stream of a
  * set of hashed files. The stream is what is hashed; SHA-256 itself stays a parameter. */
module TreeDigest {
  import opened Orders
  import opened Strings
  import opened PathOrder

  datatype HashedEntry = HashedEntry(key: string, digest: string)

  const NUL: char := '\0'

  // ---- sorting -------------------------------------------------------------

  /** No later entry sorts before an earlier one: all an unstable sort promises about order. */
  ghost predicate Sorted(es: seq<HashedEntry>) {
    forall i, j :: 0 <= i < j < |es| ==> !PathLess(es[j].key, es[i].key)
  }

  /** A possible outcome of sort.Slice on the entries before. */
  ghost predicate ValidSort(before: seq<HashedEntry>, after: seq<HashedEntry>) {
    multiset(before) == multiset(after) && Sorted(after)
  }

  method Swap(a: array<HashedEntry>, i: nat, j: nat)
    requires i < a.Length && j < a.Length
    modifies a
    ensures a[..] == old(a[..])[i := old(a[j])][j := old(a[i])]
    ensures multiset(a[..]) == multiset(old(a[..]))
  {
    a[i], a[j] := a[j], a[i];
  }

  /** es[..n] is sorted, except that the entry at j may belong further left. */
  ghost predicate SortedBut(es: seq<HashedEntry>, n: nat, j: nat)
    requires n <= |es|
  {
    forall x, y :: 0 <= x < y < n && y != j ==> !PathLess(es[y].key, es[x].key)
  }

  lemma SiftStep(es: seq<HashedEntry>, n: nat, j: nat)
    requires 0 < j < n <= |es| && SortedBut(es, n, j) && PathLess(es[j].key, es[j - 1].key)
    ensures SortedBut(es[j - 1 := es[j]][j := es[j - 1]], n, j - 1)
  {
    var swapped := es[j - 1 := es[j]][j := es[j - 1]];
    PathLessAsymmetric(es[j].key, es[j - 1].key);
    forall x, y | 0 <= x < y < n && y != j - 1 ensures !PathLess(swapped[y].key, swapped[x].key) {
      var x' := if x == j then j - 1 else if x == j - 1 then j else x;
      var y' := if y == j then j - 1 else y;
      assert swapped[x] == es[x'] && swapped[y] == es[y'];
    }
  }

  lemma SiftDone(es: seq<HashedEntry>, n: nat, j: nat)
    requires j < n <= |es| && SortedBut(es, n, j)
    requires j == 0 || !PathLess(es[j].key, es[j - 1].key)
    ensures SortedBut(es, n, n)
  {
    forall x | 0 <= x < j ensures !PathLess(es[j].key, es[x].key) {
      if x < j - 1 { PathNotLessTransitive(es[j].key, es[j - 1].key, es[x].key); }
    }
  }

  method BelongsLeft(a: array<HashedEntry>, j: nat) returns (less: bool)
    requires j < a.Length
    ensures less <==> j > 0 && PathLess(a[j].key, a[j - 1].key)
  {
    if j == 0 {
      return false;
    }
    less := LessPathParts(a[j].key, a[j - 1].key);
  }

  /** sort.Slice, in place. Callers rely on its contract alone, so any valid sort will do. */
  method SortEntries(a: array<HashedEntry>)
    modifies a
    ensures ValidSort(old(a[..]), a[..])
  {
    var n := 0;
    while n < a.Length
      invariant n <= a.Length && SortedBut(a[..], n, n) && multiset(a[..]) == multiset(old(a[..]))
    {
      var j: nat := n;
      var less := BelongsLeft(a, j);
      while less
        invariant 0 <= j <= n < a.Length && SortedBut(a[..], n + 1, j) && multiset(a[..]) == multiset(old(a[..]))
        invariant less <==> j > 0 && PathLess(a[j].key, a[j - 1].key)
        decreases j
      {
        SiftStep(a[..], n + 1, j);
        Swap(a, j - 1, j);
        j := j - 1;
        less := BelongsLeft(a, j);
      }
      SiftDone(a[..], n + 1, j);
      n := n + 1;
    }
  }

  /** The files of a directory are adjacent once sorted. */
  lemma DirectoryAdjacent(es: seq<HashedEntry>, dir: seq<string>, i: nat, j: nat, k: nat)
    requires Sorted(es) && i <= j <= k < |es|
    requires dir <= Parts(es[i].key) && dir <= Parts(es[k].key)
    ensures dir <= Parts(es[j].key)
  {
    if i < j < k {
      NotLessContiguous(dir, es[i].key, es[j].key, es[k].key);
    }
  }

  // ---- the stream ----------------------------------------------------------

  function Emit(e: HashedEntry): string { e.key + [NUL] + e.digest + [NUL] }

  function Stream(es: seq<HashedEntry>): string {
    if es == [] then "" else Stream(es[..|es| - 1]) + Emit(es[|es| - 1])
  }

  /** One entry after another: key, zero byte, digest, zero byte. */
  lemma StreamIs(es: seq<HashedEntry>, e: HashedEntry)
    ensures Stream([]) == ""
    ensures Stream(es + [e]) == Stream(es) + e.key + "\0" + e.digest + "\0"
  {
    assert (es + [e])[..|es|] == es;
    assert Stream(es) + Emit(e) == Stream(es) + e.key + "\0" + e.digest + "\0";
  }

  /** The entries that are written: the first of each run of equal keys. */
  function Collapsed(es: seq<HashedEntry>): seq<HashedEntry> {
    if es == [] then []
    else
      var n := |es| - 1;
      var init := Collapsed(es[..n]);
      if n > 0 && es[n].key == es[n - 1].key then init else init + [es[n]]
  }

  class Hasher {
    var written: string

    constructor ()
      ensures written == ""
    {
      written := "";
    }

    method Write(s: string)
      modifies this
      ensures written == old(written) + s
    {
      written := written + s;
    }
  }

  method WriteEntry(e: HashedEntry, hasher: Hasher)
    modifies hasher
    ensures hasher.written == old(hasher.written) + Emit(e)
  {
    hasher.Write(e.key);
    hasher.Write([NUL]);
    hasher.Write(e.digest);
    hasher.Write([NUL]);
  }

  /** The writing loop over sorted entries, skipping an entry whose key repeats the last one. */
  method WriteEntries(a: array<HashedEntry>, hasher: Hasher)
    requires hasher.written == ""
    modifies hasher
    ensures hasher.written == Stream(Collapsed(a[..]))
  {
    var prev := "";
    for i := 0 to a.Length
      invariant hasher.written == Stream(Collapsed(a[..i]))
      invariant i > 0 ==> prev == a[i - 1].key
    {
      assert a[..i + 1][..i] == a[..i];
      if i > 0 && a[i].key == prev {
        continue;
      }
      prev := a[i].key;
      WriteEntry(a[i], hasher);
    }
    assert a[..a.Length] == a[..];
  }

  // ---- what the entries denote ---------------------------------------------

  /** The entries say the same as the map from keys to digests. */
  ghost predicate Denotes(es: seq<HashedEntry>, m: map<string, string>) {
    && (forall i :: 0 <= i < |es| ==> es[i].key in m && m[es[i].key] == es[i].digest)
    && (forall k :: k in m ==> HashedEntry(k, m[k]) in es)
  }

  /** Strictly ascending: sorted without repetition. */
  ghost predicate Strict(es: seq<HashedEntry>) {
    forall i, j :: 0 <= i < j < |es| ==> PathLess(es[i].key, es[j].key)
  }

  lemma SameElements(a: seq<HashedEntry>, b: seq<HashedEntry>, e: HashedEntry)
    requires multiset(a) == multiset(b)
    ensures e in a <==> e in b
  {
    assert e in multiset(a) <==> e in multiset(b);
  }

  lemma DenotesAnyOrder(a: seq<HashedEntry>, b: seq<HashedEntry>, m: map<string, string>)
    requires multiset(a) == multiset(b) && Denotes(a, m)
    ensures Denotes(b, m)
  {
    forall i | 0 <= i < |b| ensures b[i].key in m && m[b[i].key] == b[i].digest {
      SameElements(a, b, b[i]);
    }
    forall k | k in m ensures HashedEntry(k, m[k]) in b {
      SameElements(a, b, HashedEntry(k, m[k]));
    }
  }

  /** Collapsing keeps the last key, only drops entries, and loses no key. */
  lemma {:induction false} CollapsedKeys(es: seq<HashedEntry>)
    ensures es != [] ==> Collapsed(es) != [] && Collapsed(es)[|Collapsed(es)| - 1].key == es[|es| - 1].key
    ensures forall e :: e in Collapsed(es) ==> e in es
    ensures forall i :: 0 <= i < |es| ==> exists j :: 0 <= j < |Collapsed(es)| && Collapsed(es)[j].key == es[i].key
    decreases |es|
  {
    if es != [] {
      var n := |es| - 1;
      CollapsedKeys(es[..n]);
      var init, c := Collapsed(es[..n]), Collapsed(es);
      assert c[|c| - 1].key == es[n].key;
      forall i | 0 <= i < n ensures exists j :: 0 <= j < |c| && c[j].key == es[i].key {
        assert es[..n][i] == es[i];
        var j :| 0 <= j < |init| && init[j].key == es[i].key;
        assert c[j].key == es[i].key;
      }
    }
  }

  lemma StrictAppend(es: seq<HashedEntry>, e: HashedEntry)
    requires Strict(es)
    requires es != [] ==> PathLess(es[|es| - 1].key, e.key)
    ensures Strict(es + [e])
  {
    forall i | 0 <= i < |es| ensures PathLess(es[i].key, e.key) {
      if i < |es| - 1 { PathLessTransitive(es[i].key, es[|es| - 1].key, e.key); }
    }
  }

  /** One more entry is kept, or has the key of the last. */
  lemma CollapsedStep(init: seq<HashedEntry>, last: HashedEntry, e: HashedEntry)
    requires init != [] && init[|init| - 1] == last
    ensures Collapsed(init + [e]) == if e.key == last.key then Collapsed(init) else Collapsed(init) + [e]
  {
    assert (init + [e])[..|init|] == init;
  }

  lemma CollapsedLast(es: seq<HashedEntry>)
    requires es != []
    ensures Collapsed(es) != [] && Collapsed(es)[|Collapsed(es)| - 1].key == es[|es| - 1].key
  {
    CollapsedKeys(es);
  }

  lemma NewKeyAbove(last: HashedEntry, e: HashedEntry)
    requires !PathLess(e.key, last.key) && e.key != last.key
    ensures PathLess(last.key, e.key)
  {
    NotLessIsLeq(last.key, e.key);
  }

  lemma StrictSnoc(kept: seq<HashedEntry>, last: HashedEntry, e: HashedEntry)
    requires kept != [] && kept[|kept| - 1].key == last.key && Strict(kept)
    requires !PathLess(e.key, last.key) && e.key != last.key
    ensures Strict(kept + [e])
  {
    NewKeyAbove(last, e);
    StrictAppend(kept, e);
  }

  lemma CollapsedOne(e: HashedEntry)
    ensures Collapsed([e]) == [e] && Strict([e])
  {
    assert [e][..0] == [];
  }

  lemma SortedInit(es: seq<HashedEntry>)
    requires Sorted(es) && |es| >= 2
    ensures Sorted(es[..|es| - 1]) && es == es[..|es| - 1] + [es[|es| - 1]]
    ensures !PathLess(es[|es| - 1].key, es[|es| - 2].key)
  {
  }

  /** Collapsing a sorted listing leaves a strictly ascending one. */
  lemma {:induction false} CollapsedStrict(es: seq<HashedEntry>)
    requires Sorted(es)
    ensures Strict(Collapsed(es))
    decreases |es|
  {
    if |es| == 1 {
      CollapsedOne(es[0]);
      assert es == [es[0]];
    } else if |es| >= 2 {
      var init, e := es[..|es| - 1], es[|es| - 1];
      SortedInit(es);
      CollapsedStrict(init);
      CollapsedStep(init, es[|es| - 2], e);
      CollapsedLast(init);
      if e.key != es[|es| - 2].key { StrictSnoc(Collapsed(init), es[|es| - 2], e); }
    }
  }

  lemma CollapsedDenotes(es: seq<HashedEntry>, m: map<string, string>)
    requires Sorted(es) && Denotes(es, m)
    ensures Denotes(Collapsed(es), m)
  {
    CollapsedKeys(es);
    var c := Collapsed(es);
    forall i | 0 <= i < |c| ensures c[i].key in m && m[c[i].key] == c[i].digest {
      assert c[i] in c && c[i] in es;
    }
    forall k | k in m ensures HashedEntry(k, m[k]) in c {
      var i :| 0 <= i < |es| && es[i] == HashedEntry(k, m[k]);
      var j :| 0 <= j < |c| && c[j].key == es[i].key;
      assert c[j] == HashedEntry(k, m[k]);
    }
  }

  /** A map has only one strictly ascending listing. */
  lemma {:induction false} OneListing(a: seq<HashedEntry>, b: seq<HashedEntry>)
    requires StrictTotal(PathLess) && Strict(a) && Strict(b)
    requires forall e :: e in a <==> e in b
    ensures a == b
    decreases |a|
  {
    assert b != [] ==> b[0] in b;
    if a != [] {
      assert a[0] in b;
      var i :| 0 <= i < |b| && b[i] == a[0];
      assert b[0] in a;
      var j :| 0 <= j < |a| && a[j] == b[0];
      assert i == 0 && j == 0;
      assert a == [a[0]] + a[1..] && b == [b[0]] + b[1..];
      forall e ensures e in a[1..] <==> e in b[1..] {
        Rest(a, e);
        Rest(b, e);
      }
      OneListing(a[1..], b[1..]);
    }
  }

  lemma Rest(a: seq<HashedEntry>, e: HashedEntry)
    requires StrictTotal(PathLess) && Strict(a) && a != []
    ensures e in a[1..] <==> e in a && e != a[0]
  {
    if e in a && e != a[0] {
      var i :| 0 <= i < |a| && a[i] == e;
      assert a[1..][i - 1] == e;
    }
    if e in a[1..] {
      var i :| 0 <= i < |a[1..]| && a[1..][i] == e;
      assert a[i + 1] == e && PathLess(a[0].key, a[i + 1].key);
    }
  }

  /** stream is the canonical stream of the map: keys in path order, each with its digest. */
  ghost predicate IsCanonicalStream(m: map<string, string>, stream: string) {
    exists es :: Strict(es) && Denotes(es, m) && stream == Stream(es)
  }

  /** Canonicity: whatever the order, the repetitions and the outcome of the sort. */
  lemma SortedStreamCanonical(entries: seq<HashedEntry>, sorted: seq<HashedEntry>, m: map<string, string>)
    requires ValidSort(entries, sorted) && Denotes(entries, m)
    ensures IsCanonicalStream(m, Stream(Collapsed(sorted)))
  {
    DenotesAnyOrder(entries, sorted, m);
    CollapsedStrict(sorted);
    CollapsedDenotes(sorted, m);
  }

  /** The canonical stream of a map is unique. */
  lemma CanonicalStreamUnique(m: map<string, string>, s: string, s': string)
    requires IsCanonicalStream(m, s) && IsCanonicalStream(m, s')
    ensures s == s'
  {
    PathLessStrictTotal();
    var a :| Strict(a) && Denotes(a, m) && s == Stream(a);
    var b :| Strict(b) && Denotes(b, m) && s' == Stream(b);
    forall e: HashedEntry ensures e in a <==> e in b {
      if e in a { assert e == HashedEntry(e.key, m[e.key]); }
      if e in b { assert e == HashedEntry(e.key, m[e.key]); }
    }
    OneListing(a, b);
  }

  // ---- injectivity ---------------------------------------------------------

  ghost predicate NulFree(m: map<string, string>) {
    forall k :: k in m ==> NUL !in k && NUL !in m[k]
  }

  ghost predicate EntriesNulFree(es: seq<HashedEntry>) {
    forall i :: 0 <= i < |es| ==> NUL !in es[i].key && NUL !in es[i].digest
  }

  function Fields(es: seq<HashedEntry>): seq<string> {
    if es == [] then [] else Fields(es[..|es| - 1]) + [es[|es| - 1].key, es[|es| - 1].digest]
  }

  /** Splitting the stream at NUL recovers the fields. */
  lemma {:induction false} SplitStream(es: seq<HashedEntry>, rest: string)
    requires EntriesNulFree(es)
    ensures Split(Stream(es) + rest, NUL) == Fields(es) + Split(rest, NUL)
    decreases |es|
  {
    if es == [] {
      assert Stream(es) + rest == rest;
    } else {
      var n := |es| - 1;
      var e := es[n];
      var tail := e.digest + [NUL] + rest;
      assert Stream(es) + rest == Stream(es[..n]) + (e.key + [NUL] + tail);
      SplitStream(es[..n], e.key + [NUL] + tail);
      SplitCons(e.key, tail, NUL);
      SplitCons(e.digest, rest, NUL);
    }
  }

  lemma {:induction false} FieldsInjective(a: seq<HashedEntry>, b: seq<HashedEntry>)
    requires Fields(a) == Fields(b)
    ensures a == b
    decreases |a|
  {
    FieldsLength(a);
    FieldsLength(b);
    if a != [] {
      var x, y := a[|a| - 1], b[|b| - 1];
      var n := |Fields(a)|;
      assert Fields(a)[n - 2] == x.key && Fields(a)[n - 1] == x.digest;
      assert Fields(b)[n - 2] == y.key && Fields(b)[n - 1] == y.digest;
      assert Fields(a)[..n - 2] == Fields(a[..|a| - 1]) && Fields(b)[..n - 2] == Fields(b[..|b| - 1]);
      FieldsInjective(a[..|a| - 1], b[..|b| - 1]);
      assert a == a[..|a| - 1] + [x] && b == b[..|b| - 1] + [y];
    }
  }

  lemma {:induction false} FieldsLength(a: seq<HashedEntry>)
    ensures |Fields(a)| == 2 * |a|
    decreases |a|
  {
    if a != [] { FieldsLength(a[..|a| - 1]); }
  }

  lemma StreamInjective(a: seq<HashedEntry>, b: seq<HashedEntry>)
    requires EntriesNulFree(a) && EntriesNulFree(b) && Stream(a) == Stream(b)
    ensures a == b
  {
    SplitStream(a, "");
    SplitStream(b, "");
    assert Stream(a) + "" == Stream(a) && Stream(b) + "" == Stream(b);
    CancelRight(Fields(a), Fields(b), Split("", NUL));
    FieldsInjective(a, b);
  }

  lemma CancelRight<T>(x: seq<T>, y: seq<T>, z: seq<T>)
    requires x + z == y + z
    ensures x == y
  {
    assert |x + z| == |y + z|;
    assert x == (x + z)[..|x|] && y == (y + z)[..|y|];
  }

  /** For NUL-free keys and digests the stream determines the map. */
  lemma CanonicalStreamInjective(m: map<string, string>, m': map<string, string>, s: string)
    requires NulFree(m) && NulFree(m') && IsCanonicalStream(m, s) && IsCanonicalStream(m', s)
    ensures m == m'
  {
    var a :| Strict(a) && Denotes(a, m) && s == Stream(a);
    var b :| Strict(b) && Denotes(b, m') && s == Stream(b);
    StreamInjective(a, b);
    DenotesOnce(a, m, m');
  }

  lemma DenotesOnce(es: seq<HashedEntry>, m: map<string, string>, m': map<string, string>)
    requires Denotes(es, m) && Denotes(es, m')
    ensures m == m'
  {
    forall k | k in m ensures k in m' && m'[k] == m[k] {
      assert HashedEntry(k, m[k]) in es;
    }
    forall k | k in m' ensures k in m {
      assert HashedEntry(k, m'[k]) in es;
    }
  }

  // ---- without a map there is no canonical stream ---------------------------

  lemma EmitTail(x: string, e: HashedEntry, e': HashedEntry)
    requires e.key == e'.key && e.digest != e'.digest
    ensures x + Emit(e) != x + Emit(e')
  {
    var k := |x| + |e.key| + 1;
    var s, s' := x + Emit(e), x + Emit(e');
    assert s[k..|s| - 1] == e.digest && s'[k..|s'| - 1] == e'.digest;
  }

  /** What is written of the first m entries. */
  ghost function Sent(es: seq<HashedEntry>, m: nat): string
    requires m <= |es|
  {
    Stream(Collapsed(es[..m]))
  }

  /** Two listings with the same keys that differ, among written entries, in one digest only. */
  ghost predicate DifferAt(es: seq<HashedEntry>, es': seq<HashedEntry>, f: nat) {
    && f < |es| == |es'|
    && (forall i :: 0 <= i < |es| ==> es[i].key == es'[i].key)
    && es[..f] == es'[..f] && es[f].digest != es'[f].digest
    && (f > 0 ==> es[f].key != es[f - 1].key)
    && (forall i :: f < i < |es| && es[i].key != es[i - 1].key ==> es[i] == es'[i])
  }

  lemma {:induction false} StreamsDiffer(es: seq<HashedEntry>, es': seq<HashedEntry>, f: nat, n: nat)
    requires DifferAt(es, es', f) && f < n <= |es|
    ensures Sent(es, n) != Sent(es', n)
    decreases n
  {
    var m := n - 1;
    StreamStep(es, m);
    StreamStep(es', m);
    if m == f {
      EmitTail(Sent(es, f), es[f], es'[f]);
    } else {
      StreamsDiffer(es, es', f, m);
      AppendKeepsDifference(Sent(es, m), Sent(es', m), Emit(es[m]));
    }
  }

  lemma StreamStep(es: seq<HashedEntry>, m: nat)
    requires m < |es|
    ensures Sent(es, m + 1) ==
      if m > 0 && es[m].key == es[m - 1].key then Sent(es, m) else Sent(es, m) + Emit(es[m])
  {
    assert es[..m + 1][..m] == es[..m];
    var c := Collapsed(es[..m]);
    assert (c + [es[m]])[..|c|] == c;
  }

  lemma AppendKeepsDifference(x: string, y: string, z: string)
    ensures x + z == y + z ==> x == y
  {
    if x + z == y + z { CancelRight(x, y, z); }
  }

  /** The first position of the run of key k. */
  lemma {:induction false} RunStart(es: seq<HashedEntry>, i: nat) returns (f: nat)
    requires i < |es|
    ensures f <= i && forall j :: f <= j <= i ==> es[j].key == es[i].key
    ensures f > 0 ==> es[f - 1].key != es[f].key
    decreases i
  {
    if i > 0 && es[i - 1].key == es[i].key {
      f := RunStart(es, i - 1);
    } else {
      f := i;
    }
  }

  /** Swapping two entries of one run keeps the listing a valid outcome of the sort. */
  lemma SwapWithinRun(before: seq<HashedEntry>, es: seq<HashedEntry>, f: nat, q: nat)
    requires ValidSort(before, es) && f < q < |es| && es[f].key == es[q].key
    ensures ValidSort(before, es[f := es[q]][q := es[f]])
  {
    var es' := es[f := es[q]][q := es[f]];
    assert forall i :: 0 <= i < |es| ==> es'[i].key == es[i].key;
    assert multiset(es') == multiset(es);
  }

  /** Swapping the first entry of a run with another digest of that run shows in the stream. */
  lemma SwapShows(es: seq<HashedEntry>, f: nat, q: nat)
    requires f < q < |es| && es[q].key == es[f].key && es[q].digest != es[f].digest
    requires f > 0 ==> es[f - 1].key != es[f].key
    requires es[q - 1].key == es[q].key
    ensures Stream(Collapsed(es[f := es[q]][q := es[f]])) != Stream(Collapsed(es))
  {
    var other := es[f := es[q]][q := es[f]];
    assert forall i :: 0 <= i < |es| ==> other[i].key == es[i].key;
    assert forall i :: f < i < |es| && i != q ==> other[i] == es[i];
    assert other[..f] == es[..f];
    StreamsDiffer(es, other, f, |es|);
    assert es[..|es|] == es && other[..|es|] == other;
  }

  lemma PickSwap(es: seq<HashedEntry>, i: nat, j: nat) returns (f: nat, q: nat)
    requires i < j < |es| && es[i].digest != es[j].digest
    requires forall x :: i <= x <= j ==> es[x].key == es[i].key
    ensures f < q < |es| && es[q].key == es[f].key && es[q].digest != es[f].digest
    ensures f > 0 ==> es[f - 1].key != es[f].key
    ensures es[q - 1].key == es[q].key
  {
    f := RunStart(es, i);
    q := if es[i].digest != es[f].digest then i else j;
  }

  lemma SameKeyAdjacent(es: seq<HashedEntry>, i: nat, j: nat)
    requires Sorted(es) && i < j < |es| && es[i].key == es[j].key
    ensures forall x :: i <= x <= j ==> es[x].key == es[i].key
  {
    PathLessStrictTotal();
  }

  /** If two entries give one key different digests, the sort may go two ways that are hashed
    * differently: the digest depends on the listing's map only when there is one. */
  lemma ConflictIsAmbiguous(before: seq<HashedEntry>, es: seq<HashedEntry>, i: nat, j: nat)
    returns (other: seq<HashedEntry>)
    requires ValidSort(before, es)
    requires i < j < |es| && es[i].key == es[j].key && es[i].digest != es[j].digest
    ensures ValidSort(before, other) && Stream(Collapsed(other)) != Stream(Collapsed(es))
  {
    SameKeyAdjacent(es, i, j);
    var f, q := PickSwap(es, i, j);
    SwapWithinRun(before, es, f, q);
    SwapShows(es, f, q);
    other := es[f := es[q]][q := es[f]];
  }

  lemma ConflictSurvivesSort(before: seq<HashedEntry>, es: seq<HashedEntry>, e: HashedEntry, e': HashedEntry)
    returns (other: seq<HashedEntry>)
    requires ValidSort(before, es) && e in before && e' in before && e.key == e'.key && e != e'
    ensures ValidSort(before, other) && Stream(Collapsed(other)) != Stream(Collapsed(es))
  {
    SameElements(before, es, e);
    SameElements(before, es, e');
    var i :| 0 <= i < |es| && es[i] == e;
    var j :| 0 <= j < |es| && es[j] == e';
    if i < j {
      other := ConflictIsAmbiguous(before, es, i, j);
    } else {
      other := ConflictIsAmbiguous(before, es, j, i);
    }
  }

  /** Every entry list without such a conflict denotes a map. */
  lemma ConsistentDenotes(es: seq<HashedEntry>) returns (m: map<string, string>)
    requires forall e, e' :: e in es && e' in es && e.key == e'.key ==> e == e'
    ensures Denotes(es, m)
  {
    m := map e | e in es :: e.key := e.digest;
  }

  /** The stream is independent of the outcome of the unstable sort exactly when no two entries
    * give one key different digests. */
  lemma StreamDeterminedIff(before: seq<HashedEntry>, es: seq<HashedEntry>)
    requires ValidSort(before, es)
    ensures (forall other :: ValidSort(before, other) ==> Stream(Collapsed(other)) == Stream(Collapsed(es)))
      <==> (forall e, e' :: e in before && e' in before && e.key == e'.key ==> e == e')
  {
    if forall e, e' :: e in before && e' in before && e.key == e'.key ==> e == e' {
      var m := ConsistentDenotes(before);
      SortedStreamCanonical(before, es, m);
      forall other | ValidSort(before, other) ensures Stream(Collapsed(other)) == Stream(Collapsed(es)) {
        SortedStreamCanonical(before, other, m);
        CanonicalStreamUnique(m, Stream(Collapsed(other)), Stream(Collapsed(es)));
      }
    } else {
      var e, e' :| e in before && e' in before && e.key == e'.key && e != e';
      var other := ConflictSurvivesSort(before, es, e, e');
    }
  }

  // ---- the digest ----------------------------------------------------------

  /** digestEntries: sort in place, write, hash what was written. */
  method DigestEntries(a: array<HashedEntry>, sha256Hex: string -> string)
    returns (digest: string, ghost stream: string)
    modifies a
    ensures digest == sha256Hex(stream)
    ensures ValidSort(old(a[..]), a[..]) && stream == Stream(Collapsed(a[..]))
    ensures forall m :: Denotes(old(a[..]), m) ==> IsCanonicalStream(m, stream)
  {
    SortEntries(a);
    var hasher := new Hasher();
    WriteEntries(a, hasher);
    stream := hasher.written;
    digest := sha256Hex(hasher.written);
    forall m | Denotes(old(a[..]), m) ensures IsCanonicalStream(m, stream) {
      SortedStreamCanonical(old(a[..]), a[..], m);
    }
  }
}
