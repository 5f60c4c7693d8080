/** filepath.Clean on slash-separated paths, and validateManifestEntry
  * (internal/buildinfo/treehash.go, lines 188-199). */
module CleanPath {
  import opened Strings
  import opened SourceTree

  /** Clean's component loop: kept is what has been kept so far. */
  function Reduce(parts: seq<string>, rooted: bool, kept: seq<string>): seq<string> {
    if parts == [] then kept
    else
      var p, rest := parts[0], parts[1..];
      if p == "" || p == "." then Reduce(rest, rooted, kept)
      else if p != ".." then Reduce(rest, rooted, kept + [p])
      else if kept != [] && kept[|kept| - 1] != ".." then Reduce(rest, rooted, kept[..|kept| - 1])
      else if rooted then Reduce(rest, rooted, kept)
      else Reduce(rest, rooted, kept + [".."])
  }

  function Clean(path: string): string {
    if path == "" then "."
    else
      var rooted := path[0] == '/';
      var kept := Reduce(Split(path, '/'), rooted, []);
      if rooted then "/" + Join(kept, '/') else if kept == [] then "." else Join(kept, '/')
  }

  predicate IsAbs(path: string) { HasPrefix(path, "/") }

  /** validateManifestEntry accepts. */
  predicate ValidEntry(entry: string) {
    && entry != "" && !IsAbs(entry)
    && Clean(entry) == entry && Clean(entry) != ".." && !HasPrefix(Clean(entry), "../")
  }

  /** Parents only at the front, and no empty or dot components: what Clean leaves. */
  ghost predicate Reduced(kept: seq<string>) {
    forall i :: 0 <= i < |kept| ==>
      && kept[i] != "" && kept[i] != "." && '/' !in kept[i]
      && (kept[i] == ".." ==> i == 0 || kept[i - 1] == "..")
  }

  lemma {:induction false} ReduceReduced(parts: seq<string>, rooted: bool, kept: seq<string>)
    requires Free(parts, '/') && Reduced(kept)
    ensures Reduced(Reduce(parts, rooted, kept))
    decreases |parts|
  {
    if parts != [] {
      var p, rest := parts[0], parts[1..];
      if p == "" || p == "." {
        ReduceReduced(rest, rooted, kept);
      } else if p != ".." {
        ReduceReduced(rest, rooted, kept + [p]);
      } else if kept != [] && kept[|kept| - 1] != ".." {
        ReduceReduced(rest, rooted, kept[..|kept| - 1]);
      } else if rooted {
        ReduceReduced(rest, rooted, kept);
      } else {
        ReduceReduced(rest, rooted, kept + [".."]);
      }
    }
  }

  /** Proper components go through untouched. */
  lemma {:induction false} ReduceProper(parts: seq<string>, rooted: bool, kept: seq<string>)
    requires ProperPath(parts)
    ensures Reduce(parts, rooted, kept) == kept + parts
    decreases |parts|
  {
    if parts != [] {
      ReduceProper(parts[1..], rooted, kept + [parts[0]]);
      assert kept + [parts[0]] + parts[1..] == kept + parts;
    } else {
      assert kept + parts == kept;
    }
  }

  lemma {:induction false} NoParents(kept: seq<string>, i: nat)
    requires Reduced(kept) && i < |kept| && kept[0] != ".."
    ensures kept[i] != ".."
    decreases i
  {
    if i > 0 { NoParents(kept, i - 1); }
  }

  lemma JoinFirst(parts: seq<string>)
    requires parts != [] && parts[0] == ".."
    ensures Join(parts, '/') == ".." || HasPrefix(Join(parts, '/'), "../")
  {
    if |parts| > 1 {
      assert parts[0] + ['/'] == "../";
    }
  }

  lemma AbsIff(path: string)
    requires path != ""
    ensures IsAbs(path) <==> path[0] == '/'
  {
    assert "/" <= path <==> path[0] == "/"[0];
  }

  /** The path from the base an entry names. */
  function EntryPath(entry: string): seq<string> {
    if entry == "." then [] else Split(entry, '/')
  }

  lemma ValidGivesProper(entry: string)
    requires ValidEntry(entry)
    ensures ProperPath(EntryPath(entry)) && KeyOf(EntryPath(entry)) == entry
  {
    AbsIff(entry);
    var parts := Split(entry, '/');
    var kept := Reduce(parts, false, []);
    ReduceReduced(parts, false, []);
    if kept != [] {
      assert Free(kept, '/');
      SplitJoin(kept, '/');
      if kept[0] == ".." { JoinFirst(kept); }
      forall i | 0 <= i < |kept| ensures ProperName(kept[i]) { NoParents(kept, i); }
    }
  }

  lemma ProperGivesValid(entry: string)
    requires entry == "." || (entry != "" && ProperPath(Split(entry, '/')))
    ensures ValidEntry(entry)
  {
    var parts := Split(entry, '/');
    if entry == "." {
      SplitFree(".", '/');
      assert Reduce(["."], false, []) == Reduce([], false, []) by { assert ["."][1..] == []; }
    } else {
      ReduceProper(parts, false, []);
      assert [] + parts == parts;
      FirstComponent(entry);
      AbsIff(entry);
    }
  }

  /** What a leading slash, or a leading parent, makes of the first component. */
  lemma FirstComponent(entry: string)
    requires entry != ""
    ensures entry[0] == '/' ==> Split(entry, '/')[0] == ""
    ensures entry == ".." || HasPrefix(entry, "../") ==> Split(entry, '/')[0] == ".."
  {
    if HasPrefix(entry, "../") {
      assert entry == ".." + ['/'] + entry[3..];
      SplitCons("..", entry[3..], '/');
    }
    SplitFree("..", '/');
  }

  /** An entry is accepted exactly when it is "." or its components are plain names: clean
    * entries give each path one spelling. */
  lemma ValidIffPlain(entry: string)
    ensures ValidEntry(entry) <==> entry == "." || (entry != "" && ProperPath(Split(entry, '/')))
  {
    if ValidEntry(entry) { ValidGivesProper(entry); }
    if entry == "." || (entry != "" && ProperPath(Split(entry, '/'))) { ProperGivesValid(entry); }
  }

  // ---- cleaning ----------------------------------------------------------------

  /** What Clean leaves goes through once more untouched. */
  lemma {:induction false} ReduceAgain(rest: seq<string>, rooted: bool, kept: seq<string>)
    requires Reduced(kept + rest) && (rooted ==> ".." !in kept + rest)
    ensures Reduce(rest, rooted, kept) == kept + rest
    decreases |rest|
  {
    if rest == [] {
      assert kept + rest == kept;
    } else {
      var all, p := kept + rest, rest[0];
      assert all[|kept|] == p && p in all;
      if kept != [] { assert all[|kept| - 1] == kept[|kept| - 1]; }
      assert (kept + [p]) + rest[1..] == all;
      ReduceAgain(rest[1..], rooted, kept + [p]);
    }
  }

  /** Above the root there is nothing. */
  lemma {:induction false} RootedKeepsNoParents(parts: seq<string>, kept: seq<string>)
    requires ".." !in kept
    ensures ".." !in Reduce(parts, true, kept)
    decreases |parts|
  {
    if parts != [] {
      var p, rest := parts[0], parts[1..];
      if p == "" || p == "." {
        RootedKeepsNoParents(rest, kept);
      } else if p != ".." {
        RootedKeepsNoParents(rest, kept + [p]);
      } else if kept != [] && kept[|kept| - 1] != ".." {
        RootedKeepsNoParents(rest, kept[..|kept| - 1]);
      } else {
        RootedKeepsNoParents(rest, kept);
      }
    }
  }

  lemma CleanRelative(kept: seq<string>)
    requires kept != [] && Reduced(kept)
    ensures Clean(Join(kept, '/')) == Join(kept, '/') && Join(kept, '/')[0] != '/'
  {
    SplitJoin(kept, '/');
    ReduceAgain(kept, false, []);
    assert [] + kept == kept;
    assert kept[0] <= Join(kept, '/') && kept[0][0] in kept[0];
  }

  lemma CleanRooted(kept: seq<string>)
    requires Reduced(kept) && ".." !in kept
    ensures Clean("/" + Join(kept, '/')) == "/" + Join(kept, '/')
  {
    var path := "/" + Join(kept, '/');
    assert path[1..] == Join(kept, '/') && path == "" + ['/'] + path[1..];
    SplitCons("", path[1..], '/');
    var parts := Split(path[1..], '/');
    assert ([""] + parts)[1..] == parts;
    assert Reduce([""] + parts, true, []) == Reduce(parts, true, []);
    if kept == [] {
      assert parts == [""] && parts[1..] == [] && Reduce(parts, true, []) == Reduce([], true, []);
    } else {
      SplitJoin(kept, '/');
      ReduceAgain(kept, true, []);
      assert [] + kept == kept;
    }
  }

  /** Cleaning what is clean changes nothing, and a path stays absolute or relative. */
  lemma CleanTwice(path: string)
    ensures Clean(path) != "" && (Clean(path)[0] == '/' <==> path != "" && path[0] == '/')
    ensures Clean(Clean(path)) == Clean(path)
  {
    SplitFree(".", '/');
    assert ["."][1..] == [];
    assert Reduce(["."], false, []) == [];
    if path != "" {
      var rooted := path[0] == '/';
      var kept := Reduce(Split(path, '/'), rooted, []);
      ReduceReduced(Split(path, '/'), rooted, []);
      if rooted {
        RootedKeepsNoParents(Split(path, '/'), []);
        CleanRooted(kept);
      } else if kept != [] {
        CleanRelative(kept);
      }
    }
  }
}
