/** ComputeSourceTreeHash and ComputeSourceManifestHash (internal/buildinfo/treehash.go,
  * lines 38-104) over a snapshot. */
module SourceManifest {
  import opened Wrappers
  import opened TreeDigest
  import opened SourceTree
  import opened CleanPath

  // ---- looking a path up -----------------------------------------------------

  /** What a node is once symbolic links are followed. */
  function Follow(n: Node): Option<Node> {
    match n
    case Symlink(None) => None
    case Symlink(Some(target)) => Follow(target)
    case _ => Some(n)
  }

  datatype LookupError = Missing | NotADirectory

  function FindChild(children: seq<Child>, name: string): (r: Option<Node>)
    ensures r.None? ==> forall i :: 0 <= i < |children| ==> children[i].name != name
    ensures r.Some? ==> exists i :: 0 <= i < |children| && children[i] == Child(name, r.value)
  {
    if children == [] then None
    else if children[0].name == name then Some(children[0].node)
    else FindChild(children[1..], name)
  }

  /** lstat of a path below n: links on the way are followed, a link at the end is not. */
  function Lstat(n: Node, path: seq<string>): Result<Node, LookupError>
    decreases |path|
  {
    if path == [] then Ok(n)
    else
      match Follow(n)
      case None => Err(Missing)
      case Some(Dir(children)) =>
        (match FindChild(children, path[0])
         case None => Err(Missing)
         case Some(child) => Lstat(child, path[1..]))
      case Some(_) => Err(NotADirectory)
  }

  // ---- specification -------------------------------------------------------

  /** What one manifest entry contributes. */
  ghost function EntryOutcome(base: Node, entry: string, ex: Excludes): Result<seq<HashedEntry>, BuildError> {
    if !ValidEntry(entry) then Err(EntryInvalid(entry))
    else if ExcludedKey(entry, ex) then Ok([])
    else
      match Lstat(base, EntryPath(entry))
      case Err(Missing) => Err(EntryNotFound(entry))
      case Err(NotADirectory) => Err(LstatFailed(entry))
      case Ok(Symlink(_)) => Err(SymlinkRejected(entry))
      case Ok(Dir(children)) => Outcome(Leaves(Dir(children), EntryPath(entry)), |EntryPath(entry)|, ex)
      case Ok(Special) => Ok([])
      case Ok(File(digest)) => Ok([HashedEntry(entry, digest)])
  }

  /** One result after another: the first error, or everything. */
  ghost function Sequence(rs: seq<Result<seq<HashedEntry>, BuildError>>): Result<seq<HashedEntry>, BuildError> {
    if rs == [] then Ok([]) else Then(Sequence(rs[..|rs| - 1]), rs[|rs| - 1])
  }

  ghost function EntryOutcomes(base: Node, entries: seq<string>, ex: Excludes)
    : (rs: seq<Result<seq<HashedEntry>, BuildError>>)
    ensures |rs| == |entries|
    ensures forall i :: 0 <= i < |rs| ==> rs[i] == EntryOutcome(base, entries[i], ex)
  {
    seq(|entries|, i requires 0 <= i < |entries| => EntryOutcome(base, entries[i], ex))
  }

  /** The files of a manifest, or the first error. */
  ghost function ManifestOutcome(base: Node, entries: seq<string>, ex: Excludes): Result<seq<HashedEntry>, BuildError> {
    Sequence(EntryOutcomes(base, entries, ex))
  }

  ghost predicate IsDirectory(base: Node) { Follow(base).Some? && Follow(base).value.Dir? }

  /** The files of a whole tree, by the single-directory form. */
  ghost function TreeOutcome(root: Node, ex: Excludes): Result<seq<HashedEntry>, BuildError> {
    Outcome(Leaves(root, []), 0, ex)
  }

  /** r is what hashing owed comes to: an error, or the hash of a stream that some valid sort of
    * the files gives. */
  ghost predicate Hashes(owed: Result<seq<HashedEntry>, BuildError>, sha256Hex: string -> string,
                         r: Result<string, BuildError>) {
    match owed
    case Err(e) => r == Err(e)
    case Ok(files) => exists es :: ValidSort(files, es) && r == Ok(sha256Hex(Stream(Collapsed(es))))
  }

  // ---- the two entry points --------------------------------------------------

  method DigestOf(out: EntryList, sha256Hex: string -> string) returns (digest: string)
    ensures Hashes(Ok(out.items), sha256Hex, Ok(digest))
  {
    var items := out.items;
    var a := new HashedEntry[|items|](i requires 0 <= i < |items| => items[i]);
    assert a[..] == items;
    ghost var stream;
    digest, stream := DigestEntries(a, sha256Hex);
  }

  /** What is wrong with the base, if anything: it does not resolve, or not to a directory. */
  ghost function BaseError(base: Option<Node>): Option<BuildError> {
    if base.None? || Follow(base.value).None? then Some(BaseMissing)
    else if !IsDirectory(base.value) then Some(NotDirectory)
    else None
  }

  method CheckDirectory(base: Option<Node>) returns (err: Option<BuildError>)
    ensures err == BaseError(base)
    ensures err.None? <==> base.Some? && IsDirectory(base.value)
  {
    if base.None? || Follow(base.value).None? {
      return Some(BaseMissing);
    }
    if !Follow(base.value).value.Dir? {
      return Some(NotDirectory);
    }
    return None;
  }

  method ComputeSourceTreeHash(root: Option<Node>, ex: Excludes, sha256Hex: string -> string)
    returns (r: Result<string, BuildError>)
    ensures root.Some? && IsDirectory(root.value) ==> Hashes(TreeOutcome(root.value, ex), sha256Hex, r)
    ensures !(root.Some? && IsDirectory(root.value)) ==> BaseError(root).Some? && r == Err(BaseError(root).value)
  {
    var bad := CheckDirectory(root);
    if bad.Some? {
      return Err(bad.value);
    }
    var out := new EntryList();
    var err := WalkDir(root.value, [], ex, out);
    if err.Some? {
      return Err(err.value);
    }
    var digest := DigestOf(out, sha256Hex);
    assert [] + out.items == out.items;
    return Ok(digest);
  }

  /** One turn of the manifest loop. */
  method AddEntry(base: Node, entry: string, ex: Excludes, out: EntryList) returns (err: Option<BuildError>)
    modifies out
    ensures Delivers(old(out.items), out.items, err, EntryOutcome(base, entry, ex))
  {
    if !ValidEntry(entry) {
      return Some(EntryInvalid(entry));
    }
    if ExcludedKey(entry, ex) {
      return None;
    }
    match Lstat(base, EntryPath(entry))
    case Err(Missing) => return Some(EntryNotFound(entry));
    case Err(NotADirectory) => return Some(LstatFailed(entry));
    case Ok(node) =>
      match node
      case Symlink(_) => return Some(SymlinkRejected(entry));
      case Dir(_) => err := WalkDir(node, EntryPath(entry), ex, out);
      case Special => return None;
      case File(digest) =>
        out.Append(HashedEntry(entry, digest));
        return None;
  }

  method ComputeSourceManifestHash(base: Option<Node>, entries: seq<string>, ex: Excludes, sha256Hex: string -> string)
    returns (r: Result<string, BuildError>)
    ensures base.Some? && IsDirectory(base.value) ==> Hashes(ManifestOutcome(base.value, entries, ex), sha256Hex, r)
    ensures !(base.Some? && IsDirectory(base.value)) ==> BaseError(base).Some? && r == Err(BaseError(base).value)
  {
    var bad := CheckDirectory(base);
    if bad.Some? {
      return Err(bad.value);
    }
    var files := new EntryList();
    ghost var rs := EntryOutcomes(base.value, entries, ex);
    for i := 0 to |entries|
      invariant fresh(files) && Sequence(rs[..i]) == Ok(files.items)
    {
      assert rs[..i + 1][..i] == rs[..i];
      var err := AddEntry(base.value, entries[i], ex, files);
      if err.Some? {
        ErrorStands(rs, i + 1);
        return Err(err.value);
      }
    }
    assert rs[..|entries|] == rs;
    var digest := DigestOf(files, sha256Hex);
    return Ok(digest);
  }

  lemma {:induction false} ErrorStands(rs: seq<Result<seq<HashedEntry>, BuildError>>, i: nat)
    requires i <= |rs| && Sequence(rs[..i]).Err?
    ensures Sequence(rs) == Sequence(rs[..i])
    decreases |rs|
  {
    if i < |rs| {
      assert rs[..|rs| - 1][..i] == rs[..i];
      ErrorStands(rs[..|rs| - 1], i);
    } else {
      assert rs[..i] == rs;
    }
  }
}
