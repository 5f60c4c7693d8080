/** walkDir and excludedKey (internal/buildinfo/treehash.go, lines 106-138 and 175-186) over a
  * snapshot of a file tree: the pruned walk, specified by filtering everything beneath. */
module SourceTree {
  import opened Wrappers
  import opened Strings
  import opened TreeDigest

  /** What lstat sees. A file stands for the SHA-256 of its content; a symbolic link for what it
    * resolves to, if anything. Directory entries are in the order the walk visits them. */
  datatype Node =
    | File(digest: string)
    | Symlink(target: Option<Node>)
    | Special
    | Dir(children: seq<Child>)

  datatype Child = Child(name: string, node: Node)

  /** Patterns, and what filepath.Match says of a pattern and a component (false on a bad pattern). */
  datatype Excludes = Excludes(patterns: seq<string>, matches: (string, string) -> bool)

  predicate ExcludedPart(part: string, ex: Excludes) {
    exists p :: p in ex.patterns && ex.matches(p, part)
  }

  predicate ExcludedParts(parts: seq<string>, ex: Excludes) {
    exists c :: c in parts && ExcludedPart(c, ex)
  }

  /** excludedKey: some component matches some pattern. */
  predicate ExcludedKey(key: string, ex: Excludes) { ExcludedParts(Split(key, '/'), ex) }

  /** The key of a path relative to the base; the base itself is ".". */
  function KeyOf(path: seq<string>): string {
    if path == [] then "." else Join(path, '/')
  }

  // ---- everything beneath, and what is wanted of it --------------------------

  /** A non-directory and its path relative to the base. */
  datatype Leaf = Leaf(path: seq<string>, node: Node)

  /** Every non-directory at or beneath the node, excluded or not. */
  function Leaves(node: Node, path: seq<string>): seq<Leaf>
    decreases node, 0
  {
    match node
    case Dir(children) => LeavesOf(children, path)
    case _ => [Leaf(path, node)]
  }

  function LeavesOf(children: seq<Child>, path: seq<string>): seq<Leaf>
    decreases children, 1
  {
    if children == [] then []
    else Leaves(children[0].node, path + [children[0].name]) + LeavesOf(children[1..], path)
  }

  /** Some directory from depth start on, on the way to the path, is excluded. */
  ghost predicate Pruned(path: seq<string>, start: nat, ex: Excludes) {
    exists k :: start <= k < |path| && ExcludedKey(KeyOf(path[..k]), ex)
  }

  /** A symbolic link that is not beneath an excluded directory. */
  ghost predicate Rejects(l: Leaf, start: nat, ex: Excludes) {
    l.node.Symlink? && !Pruned(l.path, start, ex)
  }

  /** A regular file that is neither excluded nor beneath an excluded directory. */
  ghost predicate Collects(l: Leaf, start: nat, ex: Excludes) {
    l.node.File? && !Pruned(l.path, start, ex) && !ExcludedKey(KeyOf(l.path), ex)
  }

  function EntryFor(l: Leaf): HashedEntry
    requires l.node.File?
  {
    HashedEntry(KeyOf(l.path), l.node.digest)
  }

  datatype BuildError =
    | SymlinkRejected(key: string)
    | EntryInvalid(entry: string)
    | EntryNotFound(entry: string)
    | LstatFailed(entry: string)
    | BaseMissing
    | NotDirectory

  /** What the walk owes: the first rejected link, or all the wanted files in order. */
  ghost function Outcome(leaves: seq<Leaf>, start: nat, ex: Excludes): Result<seq<HashedEntry>, BuildError> {
    if leaves == [] then Ok([])
    else if Rejects(leaves[0], start, ex) then Err(SymlinkRejected(KeyOf(leaves[0].path)))
    else
      match Outcome(leaves[1..], start, ex)
      case Err(e) => Err(e)
      case Ok(rest) => Ok((if Collects(leaves[0], start, ex) then [EntryFor(leaves[0])] else []) + rest)
  }

  ghost function Then(a: Result<seq<HashedEntry>, BuildError>, b: Result<seq<HashedEntry>, BuildError>)
    : Result<seq<HashedEntry>, BuildError>
  {
    if a.Err? then a else if b.Err? then b else Ok(a.value + b.value)
  }

  lemma {:induction false} OutcomeConcat(a: seq<Leaf>, b: seq<Leaf>, start: nat, ex: Excludes)
    ensures Outcome(a + b, start, ex) == Then(Outcome(a, start, ex), Outcome(b, start, ex))
    decreases |a|
  {
    if a == [] {
      assert a + b == b;
      if Outcome(b, start, ex).Ok? {
        assert [] + Outcome(b, start, ex).value == Outcome(b, start, ex).value;
      }
    } else {
      assert (a + b)[1..] == a[1..] + b;
      OutcomeConcat(a[1..], b, start, ex);
      var first := if Collects(a[0], start, ex) then [EntryFor(a[0])] else [];
      var x, y := Outcome(a[1..], start, ex), Outcome(b, start, ex);
      if x.Ok? && y.Ok? {
        assert (first + x.value) + y.value == first + (x.value + y.value);
      }
    }
  }

  /** The walk fails exactly when some link is not beneath an excluded directory. */
  lemma {:induction false} FailsIffLinkVisible(leaves: seq<Leaf>, start: nat, ex: Excludes)
    ensures Outcome(leaves, start, ex).Err? <==> exists l :: l in leaves && Rejects(l, start, ex)
    decreases |leaves|
  {
    if leaves != [] {
      FailsIffLinkVisible(leaves[1..], start, ex);
      assert leaves == [leaves[0]] + leaves[1..];
    }
  }

  /** Otherwise it collects precisely the wanted files. */
  lemma {:induction false} CollectsExactly(leaves: seq<Leaf>, start: nat, ex: Excludes, e: HashedEntry)
    requires Outcome(leaves, start, ex).Ok?
    ensures e in Outcome(leaves, start, ex).value <==>
      exists l :: l in leaves && Collects(l, start, ex) && EntryFor(l) == e
    decreases |leaves|
  {
    if leaves != [] {
      CollectsExactly(leaves[1..], start, ex, e);
      assert leaves == [leaves[0]] + leaves[1..];
    }
  }

  /** Every leaf lies at or beneath the path it was listed from. */
  lemma {:induction false} LeavesBeneath(node: Node, path: seq<string>)
    ensures forall l :: l in Leaves(node, path) ==> path <= l.path && (node.Dir? ==> path < l.path)
    decreases node, 0
  {
    if node.Dir? { LeavesOfBeneath(node.children, path); }
  }

  lemma {:induction false} LeavesOfBeneath(children: seq<Child>, path: seq<string>)
    ensures forall l :: l in LeavesOf(children, path) ==> path < l.path
    decreases children, 1
  {
    if children != [] {
      LeavesBeneath(children[0].node, path + [children[0].name]);
      LeavesOfBeneath(children[1..], path);
    }
  }

  /** Beneath an excluded directory nothing is rejected and nothing collected. */
  lemma {:induction false} AllPruned(leaves: seq<Leaf>, path: seq<string>, ex: Excludes)
    requires ExcludedKey(KeyOf(path), ex) && forall l :: l in leaves ==> path < l.path
    ensures Outcome(leaves, |path|, ex) == Ok([])
    decreases |leaves|
  {
    if leaves != [] {
      assert leaves[0].path[..|path|] == path;
      assert Pruned(leaves[0].path, |path|, ex);
      AllPruned(leaves[1..], path, ex);
      var none: seq<HashedEntry> := [];
      assert none + none == none;
    }
  }

  /** A directory that is not excluded can be left out of account. */
  lemma {:induction false} StartDeeper(leaves: seq<Leaf>, path: seq<string>, ex: Excludes)
    requires !ExcludedKey(KeyOf(path), ex) && forall l :: l in leaves ==> path < l.path
    ensures Outcome(leaves, |path|, ex) == Outcome(leaves, |path| + 1, ex)
    decreases |leaves|
  {
    if leaves != [] {
      var p := leaves[0].path;
      assert p[..|path|] == path;
      if k :| |path| <= k < |p| && ExcludedKey(KeyOf(p[..k]), ex) {
        assert k >= |path| + 1;
      }
      assert Pruned(p, |path|, ex) <==> Pruned(p, |path| + 1, ex);
      StartDeeper(leaves[1..], path, ex);
    }
  }

  // ---- the walk ------------------------------------------------------------

  /** The slice the walk appends to. */
  class EntryList {
    var items: seq<HashedEntry>

    constructor ()
      ensures items == []
    {
      items := [];
    }

    method Append(e: HashedEntry)
      modifies this
      ensures items == old(items) + [e]
    {
      items := items + [e];
    }
  }

  /** What the walk leaves in out and returns, given what it owes. */
  ghost predicate Delivers(before: seq<HashedEntry>, after: seq<HashedEntry>, err: Option<BuildError>,
                           owed: Result<seq<HashedEntry>, BuildError>) {
    match owed
    case Err(e) => err == Some(e)
    case Ok(files) => err == None && after == before + files
  }

  /** A file, a link, or anything else that is not a directory. */
  method VisitLeaf(node: Node, path: seq<string>, ex: Excludes, out: EntryList) returns (err: Option<BuildError>)
    requires !node.Dir?
    modifies out
    ensures Delivers(old(out.items), out.items, err, Outcome(Leaves(node, path), |path|, ex))
  {
    ghost var leaf := Leaf(path, node);
    assert Leaves(node, path) == [leaf] && [leaf][1..] == [];
    assert Outcome([leaf][1..], |path|, ex) == Ok([]);
    if node.Symlink? {
      return Some(SymlinkRejected(KeyOf(path)));
    }
    if node.File? && !ExcludedKey(KeyOf(path), ex) {
      out.Append(HashedEntry(KeyOf(path), node.digest));
    }
    return None;
  }

  /** walkDir: pruned descent, appending through out. */
  method WalkDir(node: Node, path: seq<string>, ex: Excludes, out: EntryList) returns (err: Option<BuildError>)
    modifies out
    ensures Delivers(old(out.items), out.items, err, Outcome(Leaves(node, path), |path|, ex))
    decreases node, 0
  {
    if !node.Dir? {
      err := VisitLeaf(node, path, ex, out);
      return;
    }
    LeavesOfBeneath(node.children, path);
    if ExcludedKey(KeyOf(path), ex) {
      AllPruned(Leaves(node, path), path, ex);
      return None;
    }
    StartDeeper(Leaves(node, path), path, ex);
    err := WalkChildren(node.children, path, ex, out);
  }

  /** Delivering one more stretch, after which either all is well so far or the error stands. */
  lemma DeliverMore(before: seq<HashedEntry>, middle: seq<HashedEntry>, after: seq<HashedEntry>,
                    err: Option<BuildError>, done: seq<Leaf>, here: seq<Leaf>, later: seq<Leaf>,
                    start: nat, ex: Excludes)
    requires Delivers(before, middle, None, Outcome(done, start, ex))
    requires Delivers(middle, after, err, Outcome(here, start, ex))
    ensures err == None ==> Delivers(before, after, None, Outcome(done + here, start, ex))
    ensures err != None ==> Outcome((done + here) + later, start, ex) == Err(err.value)
  {
    OutcomeConcat(done, here, start, ex);
    OutcomeConcat(done + here, later, start, ex);
    if err == None {
      assert before + (Outcome(done, start, ex).value + Outcome(here, start, ex).value) == after;
    }
  }

  lemma NextChild(children: seq<Child>, path: seq<string>, i: nat, done: seq<Leaf>)
    requires i < |children| && LeavesOf(children, path) == done + LeavesOf(children[i..], path)
    ensures LeavesOf(children, path) ==
      (done + Leaves(children[i].node, path + [children[i].name])) + LeavesOf(children[i + 1..], path)
  {
    assert children[i..][1..] == children[i + 1..];
  }

  method WalkChildren(children: seq<Child>, path: seq<string>, ex: Excludes, out: EntryList)
    returns (err: Option<BuildError>)
    modifies out
    ensures Delivers(old(out.items), out.items, err, Outcome(LeavesOf(children, path), |path| + 1, ex))
    decreases children, 1
  {
    err := None;
    var i := 0;
    ghost var done: seq<Leaf> := [];
    while i < |children| && err == None
      invariant i <= |children|
      invariant err == None ==> LeavesOf(children, path) == done + LeavesOf(children[i..], path)
      invariant err == None ==> Delivers(old(out.items), out.items, err, Outcome(done, |path| + 1, ex))
      invariant err != None ==> Outcome(LeavesOf(children, path), |path| + 1, ex) == Err(err.value)
      decreases |children| - i
    {
      var child := children[i];
      ghost var here := Leaves(child.node, path + [child.name]);
      NextChild(children, path, i, done);
      ghost var middle := out.items;
      err := WalkDir(child.node, path + [child.name], ex, out);
      ghost var later := LeavesOf(children[i + 1..], path);
      DeliverMore(old(out.items), middle, out.items, err, done, here, later, |path| + 1, ex);
      done := done + here;
      i := i + 1;
    }
    if err == None {
      assert children[i..] == [] && done + [] == done;
    }
  }

  // ---- pruning is filtering ------------------------------------------------

  /** A name a directory entry can have. */
  predicate ProperName(name: string) {
    name != "" && name != "." && name != ".." && '/' !in name
  }

  predicate ProperPath(path: seq<string>) {
    forall i :: 0 <= i < |path| ==> ProperName(path[i])
  }

  /** Components come back out of a key. */
  lemma KeyParts(path: seq<string>)
    requires ProperPath(path)
    ensures Split(KeyOf(path), '/') == if path == [] then ["."] else path
  {
    if path == [] {
      SplitFree(".", '/');
    } else {
      SplitJoin(path, '/');
    }
  }

  /** Different proper paths have different keys. */
  lemma KeyInjective(p: seq<string>, q: seq<string>)
    requires ProperPath(p) && ProperPath(q) && KeyOf(p) == KeyOf(q)
    ensures p == q
  {
    KeyParts(p);
    KeyParts(q);
  }

  /** From a start that is not excluded, pruning takes away nothing that filtering by key keeps. */
  lemma PrunedIsExcluded(path: seq<string>, start: nat, ex: Excludes)
    requires ProperPath(path) && start <= |path| && !ExcludedKey(KeyOf(path[..start]), ex)
    ensures Pruned(path, start, ex) ==> ExcludedKey(KeyOf(path), ex)
  {
    if k :| start <= k < |path| && ExcludedKey(KeyOf(path[..k]), ex) {
      assert k > start;
      KeyParts(path[..k]);
      KeyParts(path);
      var c :| c in path[..k] && ExcludedPart(c, ex);
      assert c in path;
    }
  }

  /** Everything listed has proper components when the tree's names are proper. */
  ghost predicate WellNamed(node: Node)
    decreases node
  {
    match node
    case Dir(children) =>
      && (forall i :: 0 <= i < |children| ==> ProperName(children[i].name) && WellNamed(children[i].node))
      && (forall i, j :: 0 <= i < j < |children| ==> children[i].name != children[j].name)
    case Symlink(Some(target)) => WellNamed(target)
    case _ => true
  }

  lemma {:induction false} LeavesProper(node: Node, path: seq<string>)
    requires WellNamed(node) && ProperPath(path)
    ensures forall l :: l in Leaves(node, path) ==> ProperPath(l.path)
    decreases node, 0
  {
    if node.Dir? { LeavesOfProper(node.children, path); }
  }

  lemma {:induction false} LeavesOfProper(children: seq<Child>, path: seq<string>)
    requires ProperPath(path)
    requires forall i :: 0 <= i < |children| ==> ProperName(children[i].name) && WellNamed(children[i].node)
    ensures forall l :: l in LeavesOf(children, path) ==> ProperPath(l.path)
    decreases children, 1
  {
    if children != [] {
      LeavesProper(children[0].node, path + [children[0].name]);
      LeavesOfProper(children[1..], path);
    }
  }

  /** The regular files whose key is not excluded, by filtering the full listing. */
  ghost function Filtered(leaves: seq<Leaf>, ex: Excludes): seq<HashedEntry> {
    if leaves == [] then []
    else
      (if leaves[0].node.File? && !ExcludedKey(KeyOf(leaves[0].path), ex) then [EntryFor(leaves[0])] else [])
      + Filtered(leaves[1..], ex)
  }

  lemma {:induction false} OutcomeIsFiltered(leaves: seq<Leaf>, path: seq<string>, ex: Excludes)
    requires forall l :: l in leaves ==> path <= l.path && ProperPath(l.path)
    requires !ExcludedKey(KeyOf(path), ex) && Outcome(leaves, |path|, ex).Ok?
    ensures Outcome(leaves, |path|, ex).value == Filtered(leaves, ex)
    decreases |leaves|
  {
    if leaves != [] {
      assert leaves[0].path[..|path|] == path;
      PrunedIsExcluded(leaves[0].path, |path|, ex);
      OutcomeIsFiltered(leaves[1..], path, ex);
    }
  }

  /** Beneath an excluded directory other than the base every key is excluded. */
  lemma {:induction false} FilteredBeneath(leaves: seq<Leaf>, path: seq<string>, ex: Excludes)
    requires path != [] && ProperPath(path) && ExcludedKey(KeyOf(path), ex)
    requires forall l :: l in leaves ==> path <= l.path && ProperPath(l.path)
    ensures Filtered(leaves, ex) == []
    decreases |leaves|
  {
    if leaves != [] {
      var p := leaves[0].path;
      KeyParts(path);
      KeyParts(p);
      var c :| c in path && ExcludedPart(c, ex);
      assert c in p by { assert p[..|path|] == path; }
      FilteredBeneath(leaves[1..], path, ex);
    }
  }

  /** Although it skips whole directories, a walk that succeeds collects exactly the files whose
    * key is not excluded. Only at the base itself, and only if "." is excluded, is that not so: the
    * walk then collects nothing, whatever the files are called. */
  lemma PruningIsFiltering(node: Node, path: seq<string>, ex: Excludes)
    requires node.Dir? && WellNamed(node) && ProperPath(path)
    requires Outcome(Leaves(node, path), |path|, ex).Ok?
    ensures var got := Outcome(Leaves(node, path), |path|, ex).value;
      && (path != [] || !ExcludedKey(".", ex) ==> got == Filtered(Leaves(node, path), ex))
      && (ExcludedKey(KeyOf(path), ex) ==> got == [])
  {
    LeavesBeneath(node, path);
    LeavesProper(node, path);
    if ExcludedKey(KeyOf(path), ex) {
      AllPruned(Leaves(node, path), path, ex);
      if path != [] { FilteredBeneath(Leaves(node, path), path, ex); }
    } else {
      OutcomeIsFiltered(Leaves(node, path), path, ex);
    }
  }

  /** If the walk of a tree from its base succeeds, it collects what filtering keeps. */
  ghost predicate FiltersTree(tree: Node, ex: Excludes) {
    Outcome(Leaves(tree, []), 0, ex).Ok? ==>
    Outcome(Leaves(tree, []), 0, ex).value == Filtered(Leaves(tree, []), ex)
  }

  lemma {:induction false} AllExcluded(leaves: seq<Leaf>, ex: Excludes)
    requires forall l :: l in leaves ==> [] < l.path && ProperPath(l.path)
    requires forall c :: ProperName(c) ==> ExcludedPart(c, ex)
    ensures Filtered(leaves, ex) == []
    decreases |leaves|
  {
    if leaves != [] {
      var p := leaves[0].path;
      KeyParts(p);
      assert p[0] in p && ExcludedPart(p[0], ex);
      AllExcluded(leaves[1..], ex);
    }
  }

  function OneFile(name: string, digest: string): Node { Dir([Child(name, File(digest))]) }

  lemma OneFileLeaves(name: string, digest: string)
    requires ProperName(name)
    ensures WellNamed(OneFile(name, digest))
    ensures Leaves(OneFile(name, digest), []) == [Leaf([name], File(digest))]
  {
    var children := [Child(name, File(digest))];
    assert children[1..] == [] && [] + [name] == [name];
    assert LeavesOf(children, []) == Leaves(File(digest), [name]) + LeavesOf(children[1..], []);
  }

  lemma OneFileLost(name: string, digest: string, ex: Excludes)
    requires ProperName(name) && ExcludedKey(".", ex) && !ExcludedPart(name, ex)
    ensures Outcome(Leaves(OneFile(name, digest), []), 0, ex) == Ok([])
    ensures Filtered(Leaves(OneFile(name, digest), []), ex) == [HashedEntry(name, digest)]
  {
    OneFileLeaves(name, digest);
    KeyParts([name]);
    LeavesBeneath(OneFile(name, digest), []);
    AllPruned(Leaves(OneFile(name, digest), []), [], ex);
    var leaf := Leaf([name], File(digest));
    assert [leaf][1..] == [];
    assert ExcludedKey(name, ex) <==> ExcludedPart(name, ex);
    assert Filtered([leaf], ex) == [EntryFor(leaf)] + Filtered([leaf][1..], ex);
  }

  /** Walking from the base is filtering for every tree exactly when "." is not excluded, or
    * every name is. */
  lemma BaseWalkIsFilteringIff(ex: Excludes)
    ensures (forall tree: Node :: tree.Dir? && WellNamed(tree) ==> FiltersTree(tree, ex)) <==>
            !ExcludedKey(".", ex) || forall c :: ProperName(c) ==> ExcludedPart(c, ex)
  {
    if !ExcludedKey(".", ex) || forall c :: ProperName(c) ==> ExcludedPart(c, ex) {
      forall tree: Node | tree.Dir? && WellNamed(tree) ensures FiltersTree(tree, ex) {
        if Outcome(Leaves(tree, []), 0, ex).Ok? {
          PruningIsFiltering(tree, [], ex);
          LeavesBeneath(tree, []);
          LeavesProper(tree, []);
          if ExcludedKey(".", ex) { AllExcluded(Leaves(tree, []), ex); }
        }
      }
    } else {
      var c :| ProperName(c) && !ExcludedPart(c, ex);
      OneFileLeaves(c, "");
      OneFileLost(c, "", ex);
      assert !FiltersTree(OneFile(c, ""), ex);
    }
  }

  /** The pattern "." is such a case: a file a survives filtering and is not collected. */
  lemma DotPatternLosesFile(digest: string)
    ensures var ex := Excludes(["."], (p, part) => p == part);
      && Outcome(Leaves(OneFile("a", digest), []), 0, ex) == Ok([])
      && Filtered(Leaves(OneFile("a", digest), []), ex) == [HashedEntry("a", digest)]
  {
    var ex := Excludes(["."], (p, part) => p == part);
    SplitFree(".", '/');
    assert ExcludedPart(".", ex) by { assert "." in ex.patterns && ex.matches(".", "."); }
    assert "." in Split(".", '/');
    OneFileLost("a", digest, ex);
  }

  // ---- exclusion, pattern by pattern -------------------------------------------

  /** Some pattern of the list matches some component. */
  ghost predicate SomeMatch(ex: Excludes, parts: seq<string>) {
    exists i, j :: 0 <= i < |ex.patterns| && 0 <= j < |parts| && ex.matches(ex.patterns[i], parts[j])
  }

  lemma ExcludedIff(path: seq<string>, ex: Excludes)
    requires ProperPath(path)
    ensures ExcludedKey(KeyOf(path), ex) <==> SomeMatch(ex, if path == [] then ["."] else path)
  {
    KeyParts(path);
    var parts := if path == [] then ["."] else path;
    if ExcludedKey(KeyOf(path), ex) {
      var c :| c in parts && ExcludedPart(c, ex);
      var p :| p in ex.patterns && ex.matches(p, c);
      var i :| 0 <= i < |ex.patterns| && ex.patterns[i] == p;
      var j :| 0 <= j < |parts| && parts[j] == c;
    }
    if i, j :| 0 <= i < |ex.patterns| && 0 <= j < |parts| && ex.matches(ex.patterns[i], parts[j]) {
      assert ex.patterns[i] in ex.patterns && parts[j] in parts;
    }
  }

  lemma SomeMatchMore(ex: Excludes, parts: seq<string>, more: seq<string>)
    requires parts <= more && SomeMatch(ex, parts)
    ensures SomeMatch(ex, more)
  {
    var i, j :| 0 <= i < |ex.patterns| && 0 <= j < |parts| && ex.matches(ex.patterns[i], parts[j]);
    assert more[j] == parts[j];
  }

  /** No file is collected whose path has a component that any pattern of the list matches. */
  lemma MatchedNotCollected(node: Node, path: seq<string>, ex: Excludes, p: seq<string>, e: HashedEntry)
    requires WellNamed(node) && ProperPath(path) && Outcome(Leaves(node, path), |path|, ex).Ok?
    requires p != [] && ProperPath(p) && SomeMatch(ex, p) && e.key == KeyOf(p)
    ensures e !in Outcome(Leaves(node, path), |path|, ex).value
  {
    if e in Outcome(Leaves(node, path), |path|, ex).value {
      CollectsExactly(Leaves(node, path), |path|, ex, e);
      var l :| l in Leaves(node, path) && Collects(l, |path|, ex) && EntryFor(l) == e;
      LeavesProper(node, path);
      KeyInjective(l.path, p);
      ExcludedIff(p, ex);
    }
  }

  /** Every file is collected whose path has no component that a pattern matches, if none matches
    * "." and the walk succeeds. */
  lemma UnmatchedCollected(node: Node, path: seq<string>, ex: Excludes, l: Leaf)
    requires WellNamed(node) && ProperPath(path) && Outcome(Leaves(node, path), |path|, ex).Ok?
    requires l in Leaves(node, path) && l.node.File?
    requires !SomeMatch(ex, ["."]) && !SomeMatch(ex, l.path)
    ensures HashedEntry(KeyOf(l.path), l.node.digest) in Outcome(Leaves(node, path), |path|, ex).value
  {
    LeavesProper(node, path);
    ExcludedIff(l.path, ex);
    forall k | |path| <= k < |l.path| ensures !ExcludedKey(KeyOf(l.path[..k]), ex) {
      ExcludedIff(l.path[..k], ex);
      if k > 0 && SomeMatch(ex, l.path[..k]) { SomeMatchMore(ex, l.path[..k], l.path); }
    }
    CollectsExactly(Leaves(node, path), |path|, ex, EntryFor(l));
  }

  /** A key is the components with slashes between them. */
  lemma KeyIs(a: string, path: seq<string>)
    ensures KeyOf([]) == "." && KeyOf([a]) == a
    ensures path != [] ==> KeyOf([a] + path) == a + "/" + KeyOf(path)
  {
    assert ([a] + path)[1..] == path;
  }

  // ---- links with excluded names -----------------------------------------------

  /** From a start that is not excluded, a path is pruned exactly when a component before its last
    * is excluded. */
  lemma PrunedIff(path: seq<string>, start: nat, ex: Excludes)
    requires ProperPath(path) && start < |path| && !ExcludedKey(KeyOf(path[..start]), ex)
    ensures Pruned(path, start, ex) <==> ExcludedParts(path[..|path| - 1], ex)
  {
    var n := |path| - 1;
    var init := path[..n];
    KeyParts(init);
    if k :| start <= k < |path| && ExcludedKey(KeyOf(path[..k]), ex) {
      KeyParts(path[..k]);
      var c :| c in path[..k] && ExcludedPart(c, ex);
      assert c in init by { assert path[..k] == init[..k]; }
    }
    if ExcludedParts(init, ex) {
      assert init != [] && ExcludedKey(KeyOf(path[..n]), ex);
    }
  }

  lemma ExcludedSplit(init: seq<string>, last: string, ex: Excludes)
    ensures ExcludedParts(init + [last], ex) <==> ExcludedParts(init, ex) || ExcludedPart(last, ex)
  {
    var all := init + [last];
    forall c ensures c in all <==> c in init || c == last {}
  }

  lemma ExcludedByLast(path: seq<string>, ex: Excludes)
    requires path != [] && ProperPath(path)
    ensures var n := |path| - 1;
      ExcludedKey(KeyOf(path), ex) <==> ExcludedParts(path[..n], ex) || ExcludedPart(path[n], ex)
  {
    var n := |path| - 1;
    KeyParts(path);
    assert path == path[..n] + [path[n]];
    ExcludedSplit(path[..n], path[n], ex);
  }

  /** A link is skipped just when its key is excluded, unless its last component is the only one
    * that is excluded: then the walk rejects it all the same. */
  lemma LinkSkippedIff(l: Leaf, start: nat, ex: Excludes)
    requires l.node.Symlink? && ProperPath(l.path)
    requires start < |l.path| && !ExcludedKey(KeyOf(l.path[..start]), ex)
    ensures var n := |l.path| - 1;
      (Rejects(l, start, ex) <==> !ExcludedKey(KeyOf(l.path), ex)) <==>
      (ExcludedPart(l.path[n], ex) ==> ExcludedParts(l.path[..n], ex))
  {
    var n := |l.path| - 1;
    PrunedIff(l.path, start, ex);
    ExcludedByLast(l.path, ex);
  }

  function OneLink(name: string): Node { Dir([Child(name, Symlink(None))]) }

  lemma OneLinkLeaves(name: string)
    ensures Leaves(OneLink(name), []) == [Leaf([name], Symlink(None))]
  {
    var children := [Child(name, Symlink(None))];
    assert [] + [name] == [name] && children[1..] == [];
    assert LeavesOf(children, []) == Leaves(Symlink(None), [name]) + LeavesOf(children[1..], []);
  }

  lemma OneLinkRejected(name: string, ex: Excludes)
    requires ProperName(name) && !ExcludedPart(".", ex)
    ensures Outcome(Leaves(OneLink(name), []), 0, ex) == Err(SymlinkRejected(name))
  {
    OneLinkLeaves(name);
    KeyParts([]);
    var path := [name];
    assert path[..0] == [] && !ExcludedKey(KeyOf(path[..0]), ex);
    assert !Pruned(path, 0, ex);
  }

  /** A link in the base whose own name is the excluded one is rejected. */
  lemma ExcludedLinkRejected()
    ensures var ex := Excludes(["l"], (p, part) => p == part);
      && ExcludedKey(KeyOf(["l"]), ex)
      && Outcome(Leaves(OneLink("l"), []), 0, ex) == Err(SymlinkRejected("l"))
  {
    var ex := Excludes(["l"], (p, part) => p == part);
    assert "l" in ex.patterns && ex.matches("l", "l");
    assert ExcludedPart("l", ex) && !ExcludedPart(".", ex);
    KeyParts(["l"]);
    assert "l" in ["l"];
    OneLinkRejected("l", ex);
  }
}
