/** lessPathParts (internal/buildinfo/treehash.go, lines 160-173): slash-separated paths ordered
  * component by component, a strict prefix first. */
module PathOrder {
  import opened Orders
  import opened Strings

  function Parts(path: string): seq<string> { Split(path, '/') }

  predicate PartsLess(a: seq<string>, b: seq<string>) { LexLess(StringLess, a, b) }

  predicate PathLess(a: string, b: string) { PartsLess(Parts(a), Parts(b)) }

  predicate PathLeq(a: string, b: string) { a == b || PathLess(a, b) }

  lemma DropCommon(a: seq<string>, b: seq<string>, i: nat)
    requires i <= |a| && i <= |b| && a[..i] == b[..i]
    ensures PartsLess(a, b) == PartsLess(a[i..], b[i..])
  {
    assert a == a[..i] + a[i..] && b == b[..i] + b[i..];
    LexCommonPrefix(StringLess, a[..i], a[i..], b[i..]);
  }

  /** The comparison loop. */
  method LessPathParts(a: string, b: string) returns (less: bool)
    ensures less == PathLess(a, b)
  {
    less := LessParts(Split(a, '/'), Split(b, '/'));
  }

  method LessParts(a: seq<string>, b: seq<string>) returns (less: bool)
    ensures less == PartsLess(a, b)
  {
    var i := 0;
    while i < |a| && i < |b|
      invariant i <= |a| && i <= |b| && a[..i] == b[..i]
    {
      if a[i] != b[i] {
        DropCommon(a, b, i);
        return StringLess(a[i], b[i]);
      }
      assert a[..i + 1] == a[..i] + [a[i]] && b[..i + 1] == b[..i] + [b[i]];
      i := i + 1;
    }
    DropCommon(a, b, i);
    return |a| < |b|;
  }

  lemma PartsLessStrictTotal()
    ensures StrictTotal(PartsLess)
  {
    StringLessStrictTotal();
    forall a: seq<string>, b: seq<string>, c: seq<string> | PartsLess(a, b) && PartsLess(b, c) ensures PartsLess(a, c) {
      LexTransitive(StringLess, a, b, c);
    }
    forall a: seq<string> ensures !PartsLess(a, a) { LexIrreflexive(StringLess, a); }
    forall a: seq<string>, b: seq<string> ensures a == b || PartsLess(a, b) || PartsLess(b, a) {
      LexTrichotomous(StringLess, a, b);
    }
  }

  /** A strict total order on path strings: only equal strings are incomparable. */
  lemma PathLessStrictTotal()
    ensures StrictTotal(PathLess)
  {
    PartsLessStrictTotal();
    forall a, b ensures a == b || PathLess(a, b) || PathLess(b, a) {
      if Parts(a) == Parts(b) {
        assert a == Join(Parts(a), '/') == Join(Parts(b), '/') == b;
      }
    }
    forall a, b, c | PathLess(a, b) && PathLess(b, c) ensures PathLess(a, c) {
      assert PartsLess(Parts(a), Parts(b)) && PartsLess(Parts(b), Parts(c));
    }
    forall a ensures !PathLess(a, a) {
      assert !PartsLess(Parts(a), Parts(a));
    }
  }

  lemma PathLessAsymmetric(a: string, b: string)
    requires PathLess(a, b)
    ensures !PathLess(b, a)
  {
    PathLessStrictTotal();
  }

  lemma PathLessTransitive(a: string, b: string, c: string)
    requires PathLess(a, b) && PathLess(b, c)
    ensures PathLess(a, c)
  {
    PathLessStrictTotal();
  }

  lemma NotLessIsLeq(a: string, b: string)
    requires !PathLess(b, a)
    ensures PathLeq(a, b)
  {
    PathLessStrictTotal();
  }

  lemma PathNotLessTransitive(a: string, b: string, c: string)
    requires !PathLess(a, b) && !PathLess(b, c)
    ensures !PathLess(a, c)
  {
    PathLessStrictTotal();
  }

  /** Between two sequences with a common prefix, every sequence has that prefix. */
  lemma {:induction false} PrefixContiguous(p: seq<string>, a: seq<string>, b: seq<string>, c: seq<string>)
    requires StrictTotal(StringLess)
    requires p <= a && p <= c
    requires (a == b || PartsLess(a, b)) && (b == c || PartsLess(b, c))
    ensures p <= b
    decreases |p|
  {
    if p != [] && b != a && b != c {
      assert b != [];
      assert b[0] == p[0];
      assert b == [b[0]] + b[1..] && p == [p[0]] + p[1..] && a == [a[0]] + a[1..] && c == [c[0]] + c[1..];
      PrefixContiguous(p[1..], a[1..], b[1..], c[1..]);
    }
  }

  /** Subtrees are contiguous: whatever sorts between two paths of a directory is beneath it. */
  lemma SubtreesContiguous(dir: seq<string>, a: string, b: string, c: string)
    requires dir <= Parts(a) && dir <= Parts(c) && PathLeq(a, b) && PathLeq(b, c)
    ensures dir <= Parts(b)
  {
    StringLessStrictTotal();
    PrefixContiguous(dir, Parts(a), Parts(b), Parts(c));
  }

  lemma NotLessContiguous(dir: seq<string>, a: string, b: string, c: string)
    requires dir <= Parts(a) && dir <= Parts(c) && !PathLess(b, a) && !PathLess(c, b)
    ensures dir <= Parts(b)
  {
    NotLessIsLeq(a, b);
    NotLessIsLeq(b, c);
    SubtreesContiguous(dir, a, b, c);
  }

  /** Plain string order disagrees: '.' sorts before '/', but "a" is a shorter name than "a.b". */
  lemma NotStringOrder()
    ensures PathLess("a/c", "a.b/d") && StringLess("a.b/d", "a/c")
  {
    assert "a/c" == "a" + ['/'] + "c" && "a.b/d" == "a.b" + ['/'] + "d";
    SplitCons("a", "c", '/');
    SplitCons("a.b", "d", '/');
    SplitFree("c", '/');
    SplitFree("d", '/');
    assert "a"[1..] == "" && "a.b"[1..] == ".b";
    assert StringLess("a", "a.b");
    assert "a/c"[1..] == "/c" && "a.b/d"[1..] == ".b/d";
  }
}
