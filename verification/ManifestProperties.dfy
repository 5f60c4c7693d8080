/** What the manifest digest depends on: only the set of files its entries cover. */
module ManifestProperties {
  import opened Wrappers
  import opened Strings
  import opened TreeDigest
  import opened SourceTree
  import opened CleanPath
  import opened SourceManifest

  // ---- lookup ----------------------------------------------------------------

  function Step(m: Node, name: string): Result<Node, LookupError> { Lstat(m, [name]) }

  /** Looking a longer path up is one more step from where the shorter one led. */
  lemma {:induction false} LstatSnoc(n: Node, path: seq<string>, name: string, m: Node)
    requires Lstat(n, path) == Ok(m)
    ensures Lstat(n, path + [name]) == Step(m, name)
    decreases |path|
  {
    if path == [] {
      assert path + [name] == [name];
    } else {
      assert (path + [name])[0] == path[0] && (path + [name])[1..] == path[1..] + [name];
      var child := FindChild(Follow(n).value.children, path[0]).value;
      LstatSnoc(child, path[1..], name, m);
    }
  }

  lemma {:induction false} FollowWellNamed(n: Node)
    requires WellNamed(n) && Follow(n).Some?
    ensures WellNamed(Follow(n).value)
    decreases n
  {
    match n
    case Symlink(Some(target)) => FollowWellNamed(target);
    case _ =>
  }

  lemma {:induction false} LstatWellNamed(n: Node, path: seq<string>, m: Node)
    requires WellNamed(n) && Lstat(n, path) == Ok(m)
    ensures WellNamed(m)
    decreases |path|
  {
    if path != [] {
      FollowWellNamed(n);
      var children := Follow(n).value.children;
      var child := FindChild(children, path[0]).value;
      var i :| 0 <= i < |children| && children[i] == Child(path[0], child);
      LstatWellNamed(child, path[1..], m);
    }
  }

  /** In a well-named directory each child is found by its name. */
  lemma ChildFound(children: seq<Child>, i: nat)
    requires WellNamed(Dir(children)) && i < |children|
    ensures Step(Dir(children), children[i].name) == Ok(children[i].node)
  {
    var found := FindChild(children, children[i].name);
    assert found.Some?;
    var j :| 0 <= j < |children| && children[j] == Child(children[i].name, found.value);
    assert j == i;
    assert Lstat(children[i].node, [children[i].name][1..]) == Ok(children[i].node);
  }

  /** Every listed leaf is what looking its path up finds. */
  lemma {:induction false} LeafFound(base: Node, path: seq<string>, n: Node, l: Leaf)
    requires Lstat(base, path) == Ok(n) && WellNamed(n) && l in Leaves(n, path)
    ensures Lstat(base, l.path) == Ok(l.node)
    decreases n, 0
  {
    if n.Dir? {
      forall i | 0 <= i < |n.children|
        ensures Lstat(base, path + [n.children[i].name]) == Ok(n.children[i].node)
      {
        LstatSnoc(base, path, n.children[i].name, n);
        ChildFound(n.children, i);
      }
      LeafFoundIn(base, path, n.children, l);
    }
  }

  lemma {:induction false} LeafFoundIn(base: Node, path: seq<string>, children: seq<Child>, l: Leaf)
    requires l in LeavesOf(children, path)
    requires forall i :: 0 <= i < |children| ==> WellNamed(children[i].node)
    requires forall i :: 0 <= i < |children| ==> Lstat(base, path + [children[i].name]) == Ok(children[i].node)
    ensures Lstat(base, l.path) == Ok(l.node)
    decreases children, 1
  {
    if l in Leaves(children[0].node, path + [children[0].name]) {
      LeafFound(base, path + [children[0].name], children[0].node, l);
    } else {
      LeafFoundIn(base, path, children[1..], l);
    }
  }

  /** What a lookup cannot go beneath: something that is there and is no directory. */
  ghost predicate Blocks(n: Node, path: seq<string>) {
    Lstat(n, path).Ok? && Follow(Lstat(n, path).value).Some? && !Follow(Lstat(n, path).value).value.Dir?
  }

  /** A lookup that fails runs into a file exactly when some strict prefix of the path is one, or a
    * link to one; all other failures say that something is missing. */
  lemma {:induction false} LookupErrorIs(n: Node, path: seq<string>)
    requires Lstat(n, path).Err?
    ensures Lstat(n, path) == Err(NotADirectory) <==> exists k :: 0 <= k < |path| && Blocks(n, path[..k])
    decreases |path|
  {
    assert path[..0] == [];
    if Follow(n).None? || !Follow(n).value.Dir? {
      assert Blocks(n, path[..0]) <==> Lstat(n, path) == Err(NotADirectory);
      forall k | 0 < k < |path| ensures !Blocks(n, path[..k]) {}
    } else {
      assert !Blocks(n, path[..0]);
      var r := FindChild(Follow(n).value.children, path[0]);
      if r.None? {
        forall k | 0 < k < |path| ensures !Blocks(n, path[..k]) {}
      } else {
        LookupErrorIs(r.value, path[1..]);
        forall k | 0 < k < |path| ensures Blocks(n, path[..k]) <==> Blocks(r.value, path[1..][..k - 1]) {
          assert path[..k][1..] == path[1..][..k - 1];
        }
        if k :| 0 <= k < |path[1..]| && Blocks(r.value, path[1..][..k]) {
          assert path[1..][..k] == path[1..][..(k + 1) - 1];
          assert Blocks(n, path[..k + 1]);
        }
      }
    }
  }

  // ---- links in the middle of an entry ------------------------------------------

  /** lstat of a path that gives up at a link instead of following it. */
  function LstatNoFollow(n: Node, path: seq<string>): Result<Node, LookupError>
    decreases |path|
  {
    if path == [] then Ok(n)
    else
      match n
      case Dir(children) =>
        (match FindChild(children, path[0])
         case None => Err(Missing)
         case Some(child) => LstatNoFollow(child, path[1..]))
      case _ => Err(NotADirectory)
  }

  ghost predicate LinkAt(n: Node, path: seq<string>) { Lstat(n, path).Ok? && Lstat(n, path).value.Symlink? }

  /** Some strict prefix of the path is a link. */
  ghost predicate PassesLink(n: Node, path: seq<string>) {
    exists k :: 0 <= k < |path| && LinkAt(n, path[..k])
  }

  lemma LinkBelow(children: seq<Child>, path: seq<string>, child: Node)
    requires path != [] && FindChild(children, path[0]) == Some(child)
    ensures PassesLink(Dir(children), path) <==> PassesLink(child, path[1..])
  {
    forall k | 0 < k < |path|
      ensures LinkAt(Dir(children), path[..k]) <==> LinkAt(child, path[1..][..k - 1])
    {
      assert path[..k][1..] == path[1..][..k - 1];
    }
    assert !LinkAt(Dir(children), path[..0]);
    if PassesLink(child, path[1..]) {
      var k :| 0 <= k < |path[1..]| && LinkAt(child, path[1..][..k]);
      assert k + 1 - 1 == k;
      assert LinkAt(Dir(children), path[..k + 1]);
    }
  }

  /** A lookup that succeeds would also succeed without following links, with the same result,
    * exactly when no strict prefix of the path is a link: rejecting the link at the end of an entry
    * is not enough to reject links. */
  lemma {:induction false} NoLinkFollowedIff(n: Node, path: seq<string>)
    requires Lstat(n, path).Ok?
    ensures LstatNoFollow(n, path).Ok? <==> !PassesLink(n, path)
    ensures LstatNoFollow(n, path).Ok? ==> LstatNoFollow(n, path) == Lstat(n, path)
    decreases |path|
  {
    if path != [] {
      if n.Symlink? {
        assert LinkAt(n, path[..0]);
      } else {
        var child := FindChild(n.children, path[0]).value;
        NoLinkFollowedIff(child, path[1..]);
        LinkBelow(n.children, path, child);
      }
    }
  }

  /** A directory holding a link l to a directory with one file. */
  function LinkedTree(digest: string): Node {
    Dir([Child("l", Symlink(Some(Dir([Child("f", File(digest))]))))])
  }

  lemma LinkedEntry()
    ensures Split("l/f", '/') == ["l", "f"]
    ensures ValidEntry("l/f") && EntryPath("l/f") == ["l", "f"]
  {
    assert Join(["l", "f"], '/') == "l/f" by { assert ["l", "f"][1..] == ["f"]; }
    SplitJoin(["l", "f"], '/');
    ValidIffPlain("l/f");
  }

  /** An entry through a link is accepted, and hashed under its own name. */
  lemma MiddleLinkFollowed(digest: string, ex: Excludes)
    requires ex.patterns == []
    ensures PassesLink(LinkedTree(digest), ["l", "f"])
    ensures ManifestOutcome(LinkedTree(digest), ["l/f"], ex) == Ok([HashedEntry("l/f", digest)])
  {
    var base, path := LinkedTree(digest), ["l", "f"];
    LinkedEntry();
    SingleEntry(base, "l/f", ex);
    var inner, rest := Dir([Child("f", File(digest))]), path[1..];
    assert path[..1] == ["l"] && path[..1][1..] == [] && rest[0] == "f" && rest[1..] == [];
    assert Lstat(inner, rest) == Lstat(File(digest), rest[1..]);
    assert Lstat(base, path) == Lstat(Symlink(Some(inner)), rest) == Ok(File(digest));
    assert LinkAt(base, path[..1]);
  }

  // ---- each file has one key ---------------------------------------------------

  /** The entry is the file found at the path its key spells. */
  ghost predicate FileAt(base: Node, path: seq<string>, e: HashedEntry) {
    ProperPath(path) && e.key == KeyOf(path) && Lstat(base, path) == Ok(File(e.digest))
  }

  lemma EntryFileAt(base: Node, entry: string, ex: Excludes, e: HashedEntry) returns (path: seq<string>)
    requires WellNamed(base) && EntryOutcome(base, entry, ex).Ok? && e in EntryOutcome(base, entry, ex).value
    ensures EntryPath(entry) <= path && FileAt(base, path, e)
    ensures !ExcludedKey(entry, ex) && !ExcludedKey(e.key, ex)
  {
    ValidGivesProper(entry);
    path := EntryPath(entry);
    var n := Lstat(base, path).value;
    if n.Dir? {
      CollectsExactly(Leaves(n, path), |path|, ex, e);
      var l :| l in Leaves(n, path) && Collects(l, |path|, ex) && EntryFor(l) == e;
      LstatWellNamed(base, path, n);
      LeavesBeneath(n, path);
      LeavesProper(n, path);
      LeafFound(base, path, n, l);
      path := l.path;
    }
  }

  lemma {:induction false} SequenceMember(rs: seq<Result<seq<HashedEntry>, BuildError>>, e: HashedEntry)
    ensures Sequence(rs).Err? <==> exists i :: 0 <= i < |rs| && rs[i].Err?
    ensures Sequence(rs).Ok? ==>
      (e in Sequence(rs).value <==> exists i :: 0 <= i < |rs| && rs[i].Ok? && e in rs[i].value)
    decreases |rs|
  {
    if rs != [] {
      var init := rs[..|rs| - 1];
      SequenceMember(init, e);
      assert forall i :: 0 <= i < |init| ==> init[i] == rs[i];
    }
  }

  /** A manifest fails exactly when one of its entries does; otherwise it collects their union. */
  lemma ManifestMember(base: Node, entries: seq<string>, ex: Excludes, e: HashedEntry)
    ensures ManifestOutcome(base, entries, ex).Err? <==>
      exists i :: 0 <= i < |entries| && EntryOutcome(base, entries[i], ex).Err?
    ensures ManifestOutcome(base, entries, ex).Ok? ==>
      (e in ManifestOutcome(base, entries, ex).value <==>
       exists i :: 0 <= i < |entries| && e in EntryOutcome(base, entries[i], ex).value)
  {
    SequenceMember(EntryOutcomes(base, entries, ex), e);
  }

  /** Because accepted entries are clean, no key is ever given two digests, however the entries
    * overlap: the hashed stream does not depend on the unstable sort. */
  lemma ManifestConsistent(base: Node, entries: seq<string>, ex: Excludes, e: HashedEntry, e': HashedEntry)
    requires WellNamed(base) && ManifestOutcome(base, entries, ex).Ok?
    requires e in ManifestOutcome(base, entries, ex).value && e' in ManifestOutcome(base, entries, ex).value
    requires e.key == e'.key
    ensures e == e'
  {
    ManifestMember(base, entries, ex, e);
    ManifestMember(base, entries, ex, e');
    var i :| 0 <= i < |entries| && e in EntryOutcome(base, entries[i], ex).value;
    var j :| 0 <= j < |entries| && e' in EntryOutcome(base, entries[j], ex).value;
    var p := EntryFileAt(base, entries[i], ex, e);
    var q := EntryFileAt(base, entries[j], ex, e');
    KeyInjective(p, q);
  }

  // ---- exclusion, pattern by pattern -------------------------------------------

  /** No file is in a manifest whose path has a component that any pattern of the list matches. */
  lemma MatchedNotListed(base: Node, entries: seq<string>, ex: Excludes, p: seq<string>, e: HashedEntry)
    requires WellNamed(base) && ManifestOutcome(base, entries, ex).Ok?
    requires p != [] && ProperPath(p) && SomeMatch(ex, p) && e.key == KeyOf(p)
    ensures e !in ManifestOutcome(base, entries, ex).value
  {
    ManifestMember(base, entries, ex, e);
    if i :| 0 <= i < |entries| && e in EntryOutcome(base, entries[i], ex).value {
      var path := EntryFileAt(base, entries[i], ex, e);
      ExcludedIff(p, ex);
    }
  }

  /** The leaves at and beneath an entry that is there. */
  ghost predicate Beneath(base: Node, entry: string, l: Leaf) {
    && ValidEntry(entry) && Lstat(base, EntryPath(entry)).Ok?
    && l in Leaves(Lstat(base, EntryPath(entry)).value, EntryPath(entry))
  }

  lemma EntryUnmatched(base: Node, entry: string, ex: Excludes, l: Leaf)
    requires Beneath(base, entry, l) && !SomeMatch(ex, ["."]) && !SomeMatch(ex, l.path)
    ensures !ExcludedKey(entry, ex)
  {
    var path := EntryPath(entry);
    ValidGivesProper(entry);
    LeavesBeneath(Lstat(base, path).value, path);
    ExcludedIff(path, ex);
    if path != [] && SomeMatch(ex, path) { SomeMatchMore(ex, path, l.path); }
  }

  /** Every file at or beneath an entry is in a manifest that succeeds, if no pattern matches a
    * component of its path, nor ".". */
  lemma UnmatchedListed(base: Node, entries: seq<string>, ex: Excludes, i: nat, l: Leaf)
    requires WellNamed(base) && ManifestOutcome(base, entries, ex).Ok? && i < |entries|
    requires Beneath(base, entries[i], l) && l.node.File?
    requires !SomeMatch(ex, ["."]) && !SomeMatch(ex, l.path)
    ensures HashedEntry(KeyOf(l.path), l.node.digest) in ManifestOutcome(base, entries, ex).value
  {
    var path, e := EntryPath(entries[i]), HashedEntry(KeyOf(l.path), l.node.digest);
    var n := Lstat(base, path).value;
    ManifestMember(base, entries, ex, e);
    ValidGivesProper(entries[i]);
    LstatWellNamed(base, path, n);
    EntryUnmatched(base, entries[i], ex, l);
    if n.Dir? { UnmatchedCollected(n, path, ex, l); }
    assert e in EntryOutcome(base, entries[i], ex).value;
  }

  // ---- only the covered set matters ------------------------------------------

  /** Two successful manifests covering the same files. */
  ghost predicate SameCover(base: Node, xs: seq<string>, ys: seq<string>, ex: Excludes) {
    var a, b := ManifestOutcome(base, xs, ex), ManifestOutcome(base, ys, ex);
    a.Ok? && b.Ok? && forall e :: e in a.value <==> e in b.value
  }

  lemma ManifestDenotes(base: Node, entries: seq<string>, ex: Excludes) returns (m: map<string, string>)
    requires WellNamed(base) && ManifestOutcome(base, entries, ex).Ok?
    ensures Denotes(ManifestOutcome(base, entries, ex).value, m)
  {
    var files := ManifestOutcome(base, entries, ex).value;
    forall e, e' | e in files && e' in files && e.key == e'.key ensures e == e' {
      ManifestConsistent(base, entries, ex, e, e');
    }
    m := ConsistentDenotes(files);
  }

  lemma SameElementsDenote(a: seq<HashedEntry>, b: seq<HashedEntry>, m: map<string, string>)
    requires Denotes(a, m) && forall e :: e in a <==> e in b
    ensures Denotes(b, m)
  {
    forall i | 0 <= i < |b| ensures b[i].key in m && m[b[i].key] == b[i].digest {
      assert b[i] in b && b[i] in a;
    }
  }

  /** Manifests that collect the same files have the same digest. */
  lemma SameCoverSameDigest(base: Node, xs: seq<string>, ys: seq<string>, ex: Excludes,
                            sha256Hex: string -> string, r: Result<string, BuildError>, r': Result<string, BuildError>)
    requires WellNamed(base) && SameCover(base, xs, ys, ex)
    requires Hashes(ManifestOutcome(base, xs, ex), sha256Hex, r)
    requires Hashes(ManifestOutcome(base, ys, ex), sha256Hex, r')
    ensures r == r'
  {
    var a, b := ManifestOutcome(base, xs, ex).value, ManifestOutcome(base, ys, ex).value;
    var m := ManifestDenotes(base, xs, ex);
    SameElementsDenote(a, b, m);
    var es :| ValidSort(a, es) && r == Ok(sha256Hex(Stream(Collapsed(es))));
    var fs :| ValidSort(b, fs) && r' == Ok(sha256Hex(Stream(Collapsed(fs))));
    SortedStreamCanonical(a, es, m);
    SortedStreamCanonical(b, fs, m);
    CanonicalStreamUnique(m, Stream(Collapsed(es)), Stream(Collapsed(fs)));
  }

  /** Some entry listed fails. */
  ghost predicate SomeFails(base: Node, entries: seq<string>, ex: Excludes) {
    exists s :: s in entries && EntryOutcome(base, s, ex).Err?
  }

  /** Some entry listed contributes e. */
  ghost predicate SomeGives(base: Node, entries: seq<string>, ex: Excludes, e: HashedEntry) {
    exists s :: s in entries && EntryOutcome(base, s, ex).Ok? && e in EntryOutcome(base, s, ex).value
  }

  lemma ManifestGives(base: Node, entries: seq<string>, ex: Excludes, e: HashedEntry)
    ensures ManifestOutcome(base, entries, ex).Err? <==> SomeFails(base, entries, ex)
    ensures ManifestOutcome(base, entries, ex).Ok? ==>
      (e in ManifestOutcome(base, entries, ex).value <==> SomeGives(base, entries, ex, e))
  {
    ManifestMember(base, entries, ex, e);
    assert forall i :: 0 <= i < |entries| ==> entries[i] in entries;
  }

  /** Reordering or repeating entries changes neither success nor the files collected, nor then
    * the digest. */
  lemma SameEntriesSameCover(base: Node, xs: seq<string>, ys: seq<string>, ex: Excludes)
    requires forall s :: s in xs <==> s in ys
    ensures ManifestOutcome(base, xs, ex).Ok? <==> ManifestOutcome(base, ys, ex).Ok?
    ensures ManifestOutcome(base, xs, ex).Ok? ==> SameCover(base, xs, ys, ex)
  {
    ManifestGives(base, xs, ex, HashedEntry("", ""));
    ManifestGives(base, ys, ex, HashedEntry("", ""));
    if ManifestOutcome(base, xs, ex).Ok? {
      forall e ensures e in ManifestOutcome(base, xs, ex).value <==> e in ManifestOutcome(base, ys, ex).value {
        ManifestGives(base, xs, ex, e);
        ManifestGives(base, ys, ex, e);
      }
    }
  }

  /** And manifests with the same hashed stream collect the same files, be they of one snapshot or
    * of two, when names and digests are free of NUL: the digest tells trees apart. */
  lemma SameStreamSameFiles(base: Node, xs: seq<string>, ex: Excludes, es: seq<HashedEntry>,
                            base': Node, ys: seq<string>, ex': Excludes, fs: seq<HashedEntry>, e: HashedEntry)
    requires WellNamed(base) && WellNamed(base')
    requires ManifestOutcome(base, xs, ex).Ok? && ManifestOutcome(base', ys, ex').Ok?
    requires ValidSort(ManifestOutcome(base, xs, ex).value, es) && EntriesNulFree(es)
    requires ValidSort(ManifestOutcome(base', ys, ex').value, fs) && EntriesNulFree(fs)
    requires Stream(Collapsed(es)) == Stream(Collapsed(fs))
    ensures e in ManifestOutcome(base, xs, ex).value <==> e in ManifestOutcome(base', ys, ex').value
  {
    var a, b := ManifestOutcome(base, xs, ex).value, ManifestOutcome(base', ys, ex').value;
    var m := ManifestDenotes(base, xs, ex);
    var m' := ManifestDenotes(base', ys, ex');
    SortedStreamCanonical(a, es, m);
    SortedStreamCanonical(b, fs, m');
    DenotedNulFree(a, es, m);
    DenotedNulFree(b, fs, m');
    CanonicalStreamInjective(m, m', Stream(Collapsed(es)));
    if e in a { assert m[e.key] == e.digest; assert HashedEntry(e.key, m[e.key]) in b; }
    if e in b { assert m[e.key] == e.digest; assert HashedEntry(e.key, m[e.key]) in a; }
  }

  /** On one snapshot that is the same cover. */
  lemma SameStreamSameCover(base: Node, xs: seq<string>, ys: seq<string>, ex: Excludes,
                            es: seq<HashedEntry>, fs: seq<HashedEntry>)
    requires WellNamed(base)
    requires ManifestOutcome(base, xs, ex).Ok? && ManifestOutcome(base, ys, ex).Ok?
    requires ValidSort(ManifestOutcome(base, xs, ex).value, es) && EntriesNulFree(es)
    requires ValidSort(ManifestOutcome(base, ys, ex).value, fs) && EntriesNulFree(fs)
    requires Stream(Collapsed(es)) == Stream(Collapsed(fs))
    ensures SameCover(base, xs, ys, ex)
  {
    forall e: HashedEntry
      ensures e in ManifestOutcome(base, xs, ex).value <==> e in ManifestOutcome(base, ys, ex).value
    {
      SameStreamSameFiles(base, xs, ex, es, base, ys, ex, fs, e);
    }
  }

  lemma DenotedNulFree(files: seq<HashedEntry>, es: seq<HashedEntry>, m: map<string, string>)
    requires ValidSort(files, es) && EntriesNulFree(es) && Denotes(files, m)
    ensures NulFree(m)
  {
    DenotesAnyOrder(files, es, m);
    forall k | k in m ensures NUL !in k && NUL !in m[k] {
      var i :| 0 <= i < |es| && es[i] == HashedEntry(k, m[k]);
    }
  }

  // ---- entries that are missing or links ---------------------------------------

  /** A valid entry that is missing, or is a link, is rejected exactly when it is not excluded. */
  lemma BadEntryRejectedIff(base: Node, entry: string, ex: Excludes)
    requires ValidEntry(entry)
    requires Lstat(base, EntryPath(entry)).Err? || Lstat(base, EntryPath(entry)).value.Symlink?
    ensures EntryOutcome(base, entry, ex).Err? <==> !ExcludedKey(entry, ex)
  {
  }

  /** An entry the pattern "x" excludes is passed over in an empty directory, and as a link. */
  lemma ExcludedEntryPassesOver(target: Option<Node>)
    ensures var ex := Excludes(["x"], (p, part) => p == part);
      && ManifestOutcome(Dir([]), ["x"], ex) == Ok([])
      && ManifestOutcome(Dir([Child("x", Symlink(target))]), ["x"], ex) == Ok([])
      && Lstat(Dir([]), ["x"]) == Err(Missing)
      && Lstat(Dir([Child("x", Symlink(target))]), ["x"]) == Ok(Symlink(target))
  {
    var ex := Excludes(["x"], (p, part) => p == part);
    SplitFree("x", '/');
    ValidIffPlain("x");
    assert ExcludedPart("x", ex) by { assert "x" in ex.patterns && ex.matches("x", "x"); }
    assert "x" in Split("x", '/');
    SingleEntry(Dir([]), "x", ex);
    SingleEntry(Dir([Child("x", Symlink(target))]), "x", ex);
    assert ["x"][1..] == [];
  }

  // ---- snapshots without links ----------------------------------------------

  ghost predicate SymlinkFree(n: Node)
    decreases n
  {
    match n
    case Symlink(_) => false
    case Dir(children) => forall i :: 0 <= i < |children| ==> SymlinkFree(children[i].node)
    case _ => true
  }

  lemma {:induction false} NoLinkLeaves(n: Node, path: seq<string>)
    requires SymlinkFree(n)
    ensures forall l :: l in Leaves(n, path) ==> !l.node.Symlink?
    decreases n, 0
  {
    if n.Dir? { NoLinkLeavesOf(n.children, path); }
  }

  lemma {:induction false} NoLinkLeavesOf(children: seq<Child>, path: seq<string>)
    requires forall i :: 0 <= i < |children| ==> SymlinkFree(children[i].node)
    ensures forall l :: l in LeavesOf(children, path) ==> !l.node.Symlink?
    decreases children, 1
  {
    if children != [] {
      NoLinkLeaves(children[0].node, path + [children[0].name]);
      NoLinkLeavesOf(children[1..], path);
    }
  }

  lemma {:induction false} LstatSymlinkFree(n: Node, path: seq<string>, m: Node)
    requires SymlinkFree(n) && Lstat(n, path) == Ok(m)
    ensures SymlinkFree(m)
    decreases |path|
  {
    if path != [] {
      var child := FindChild(n.children, path[0]).value;
      var i :| 0 <= i < |n.children| && n.children[i] == Child(path[0], child);
      LstatSymlinkFree(child, path[1..], m);
    }
  }

  /** Without links, an entry fails only by being invalid, missing, or beneath a file. */
  lemma EntryOkIff(base: Node, entry: string, ex: Excludes)
    requires SymlinkFree(base)
    ensures EntryOutcome(base, entry, ex).Ok? <==>
      ValidEntry(entry) && (ExcludedKey(entry, ex) || Lstat(base, EntryPath(entry)).Ok?)
  {
    if Lstat(base, EntryPath(entry)).Ok? {
      var n, path := Lstat(base, EntryPath(entry)).value, EntryPath(entry);
      LstatSymlinkFree(base, path, n);
      NoLinkLeaves(n, path);
      FailsIffLinkVisible(Leaves(n, path), |path|, ex);
    }
  }

  lemma {:induction false} LstatConcat(n: Node, p: seq<string>, q: seq<string>, m: Node)
    requires Lstat(n, p) == Ok(m)
    ensures Lstat(n, p + q) == Lstat(m, q)
    decreases |p|
  {
    if p == [] {
      assert p + q == q;
    } else {
      assert (p + q)[0] == p[0] && (p + q)[1..] == p[1..] + q;
      LstatConcat(FindChild(Follow(n).value.children, p[0]).value, p[1..], q, m);
    }
  }

  lemma {:induction false} ChildLeaves(children: seq<Child>, path: seq<string>, i: nat, l: Leaf)
    requires i < |children| && l in Leaves(children[i].node, path + [children[i].name])
    ensures l in LeavesOf(children, path)
    decreases |children|
  {
    if i > 0 { ChildLeaves(children[1..], path, i - 1, l); }
  }

  /** Without links, whatever lookup finds beneath a node is listed. */
  lemma {:induction false} FoundIsLeaf(n: Node, path: seq<string>, q: seq<string>, m: Node)
    requires SymlinkFree(n) && Lstat(n, q) == Ok(m) && !m.Dir?
    ensures Leaf(path + q, m) in Leaves(n, path)
    decreases |q|
  {
    if q == [] {
      assert path + q == path;
    } else {
      var child := FindChild(n.children, q[0]).value;
      var i :| 0 <= i < |n.children| && n.children[i] == Child(q[0], child);
      assert path + q == (path + [q[0]]) + q[1..];
      FoundIsLeaf(child, path + [q[0]], q[1..], m);
      ChildLeaves(n.children, path, i, Leaf(path + q, m));
    }
  }

  /** The regular files an entry covers, straight from the snapshot: those at or beneath it whose
    * key is not excluded, if the entry itself is not. */
  ghost predicate Covers(base: Node, entry: string, ex: Excludes, e: HashedEntry) {
    && !ExcludedKey(entry, ex) && !ExcludedKey(e.key, ex)
    && exists path :: EntryPath(entry) <= path && FileAt(base, path, e)
  }

  /** A file found beneath a listed directory, and not excluded, is in the directory's outcome. */
  lemma FileBeneathCollected(n: Node, top: seq<string>, q: seq<string>, ex: Excludes, digest: string)
    requires SymlinkFree(n) && Lstat(n, q) == Ok(File(digest)) && ProperPath(top + q)
    requires !ExcludedKey(KeyOf(top), ex) && !ExcludedKey(KeyOf(top + q), ex)
    requires Outcome(Leaves(n, top), |top|, ex).Ok?
    ensures HashedEntry(KeyOf(top + q), digest) in Outcome(Leaves(n, top), |top|, ex).value
  {
    var l := Leaf(top + q, File(digest));
    FoundIsLeaf(n, top, q, File(digest));
    assert (top + q)[..|top|] == top;
    PrunedIsExcluded(top + q, |top|, ex);
    CollectsExactly(Leaves(n, top), |top|, ex, EntryFor(l));
  }

  lemma CoveredIsListed(base: Node, entry: string, ex: Excludes, e: HashedEntry, path: seq<string>)
    requires SymlinkFree(base) && EntryOutcome(base, entry, ex).Ok?
    requires !ExcludedKey(entry, ex) && !ExcludedKey(e.key, ex)
    requires EntryPath(entry) <= path && FileAt(base, path, e)
    ensures e in EntryOutcome(base, entry, ex).value
  {
    ValidGivesProper(entry);
    var top := EntryPath(entry);
    var n := Lstat(base, top).value;
    var q := path[|top|..];
    assert path == top + q;
    LstatConcat(base, top, q, n);
    LstatSymlinkFree(base, top, n);
    if n.Dir? {
      FileBeneathCollected(n, top, q, ex, e.digest);
    } else {
      assert q == [] && path == top && n == File(e.digest);
      assert e == HashedEntry(entry, e.digest);
    }
  }

  /** On a snapshot without links a successful manifest collects the union of what its entries
    * cover. */
  lemma ManifestIsUnion(base: Node, entries: seq<string>, ex: Excludes, e: HashedEntry)
    requires WellNamed(base) && SymlinkFree(base) && ManifestOutcome(base, entries, ex).Ok?
    ensures e in ManifestOutcome(base, entries, ex).value <==>
      exists i :: 0 <= i < |entries| && Covers(base, entries[i], ex, e)
  {
    ManifestMember(base, entries, ex, e);
    forall i | 0 <= i < |entries|
      ensures e in EntryOutcome(base, entries[i], ex).value <==> Covers(base, entries[i], ex, e)
    {
      if e in EntryOutcome(base, entries[i], ex).value {
        var path := EntryFileAt(base, entries[i], ex, e);
      }
      if Covers(base, entries[i], ex, e) {
        var path :| EntryPath(entries[i]) <= path && FileAt(base, path, e);
        CoveredIsListed(base, entries[i], ex, e, path);
      }
    }
  }

  /** Some entry covers e. */
  ghost predicate CoveredBy(base: Node, entries: seq<string>, ex: Excludes, e: HashedEntry) {
    exists i :: 0 <= i < |entries| && Covers(base, entries[i], ex, e)
  }

  /** Every entry is accepted, and is excluded or there. */
  ghost predicate AllFound(base: Node, entries: seq<string>, ex: Excludes) {
    forall i :: 0 <= i < |entries| ==>
      ValidEntry(entries[i]) && (ExcludedKey(entries[i], ex) || Lstat(base, EntryPath(entries[i])).Ok?)
  }

  lemma FoundSucceeds(base: Node, entries: seq<string>, ex: Excludes)
    requires SymlinkFree(base)
    ensures ManifestOutcome(base, entries, ex).Ok? <==> AllFound(base, entries, ex)
  {
    ManifestMember(base, entries, ex, HashedEntry("", ""));
    forall i | 0 <= i < |entries| ensures EntryOutcome(base, entries[i], ex).Ok? <==>
      ValidEntry(entries[i]) && (ExcludedKey(entries[i], ex) || Lstat(base, EntryPath(entries[i])).Ok?)
    {
      EntryOkIff(base, entries[i], ex);
    }
  }

  /** On a snapshot without links, manifests whose entries together cover the same files have the
    * same digest, however they are ordered, repeated, nested or overlapping. */
  lemma SameUnionSameDigest(base: Node, xs: seq<string>, ys: seq<string>, ex: Excludes,
                            sha256Hex: string -> string, r: Result<string, BuildError>, r': Result<string, BuildError>)
    requires WellNamed(base) && SymlinkFree(base)
    requires AllFound(base, xs, ex) && AllFound(base, ys, ex)
    requires forall e :: CoveredBy(base, xs, ex, e) <==> CoveredBy(base, ys, ex, e)
    requires Hashes(ManifestOutcome(base, xs, ex), sha256Hex, r)
    requires Hashes(ManifestOutcome(base, ys, ex), sha256Hex, r')
    ensures r == r'
  {
    FoundSucceeds(base, xs, ex);
    FoundSucceeds(base, ys, ex);
    forall e ensures e in ManifestOutcome(base, xs, ex).value <==> e in ManifestOutcome(base, ys, ex).value {
      ManifestIsUnion(base, xs, ex, e);
      ManifestIsUnion(base, ys, ex, e);
      assert CoveredBy(base, xs, ex, e) <==> CoveredBy(base, ys, ex, e);
    }
    SameCoverSameDigest(base, xs, ys, ex, sha256Hex, r, r');
  }

  // ---- the single-directory form ------------------------------------------------

  lemma SingleEntry(base: Node, entry: string, ex: Excludes)
    ensures ManifestOutcome(base, [entry], ex) == EntryOutcome(base, entry, ex)
  {
    var o := EntryOutcome(base, entry, ex);
    assert EntryOutcomes(base, [entry], ex) == [o];
    assert [o][..0] == [] && Sequence([o]) == Then(Ok([]), o);
    if o.Ok? { assert [] + o.value == o.value; }
  }

  /** The manifest ["."] owes what the whole tree owes, except when the base is reached through a
    * link and "." itself is excluded: the tree form then rejects the link, the manifest skips. */
  lemma DotManifestIsTree(base: Node, ex: Excludes)
    requires IsDirectory(base)
    ensures ManifestOutcome(base, ["."], ex) == TreeOutcome(base, ex) <==>
            !(base.Symlink? && ExcludedKey(".", ex))
  {
    SingleEntry(base, ".", ex);
    ValidIffPlain(".");
    if base.Dir? {
      if ExcludedKey(".", ex) {
        LeavesBeneath(base, []);
        AllPruned(Leaves(base, []), [], ex);
      }
    } else {
      var leaf := Leaf([], base);
      assert Leaves(base, []) == [leaf];
    }
  }

  /** And the two forms give one digest, exactly with that exception. */
  lemma DotDigestIsTreeDigest(base: Node, ex: Excludes, sha256Hex: string -> string,
                              r: Result<string, BuildError>, r': Result<string, BuildError>)
    requires IsDirectory(base) && WellNamed(base)
    requires Hashes(TreeOutcome(base, ex), sha256Hex, r)
    requires Hashes(ManifestOutcome(base, ["."], ex), sha256Hex, r')
    ensures r == r' <==> !(base.Symlink? && ExcludedKey(".", ex))
  {
    DotManifestIsTree(base, ex);
    if base.Symlink? && ExcludedKey(".", ex) {
      LinkedBaseDiffers(base, ex);
    } else if TreeOutcome(base, ex).Ok? {
      SameCoverSameDigest(base, ["."], ["."], ex, sha256Hex, r, r');
    }
  }

  lemma LinkedBaseDiffers(base: Node, ex: Excludes)
    requires base.Symlink? && ExcludedKey(".", ex)
    ensures TreeOutcome(base, ex).Err? && ManifestOutcome(base, ["."], ex).Ok?
  {
    SingleEntry(base, ".", ex);
    ValidIffPlain(".");
    var leaf := Leaf([], base);
    assert Leaves(base, []) == [leaf];
  }
}
