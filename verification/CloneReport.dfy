/** structural_findings (audit-dev-guidelines.py, lines 766-802): linear grouping of function
  * fingerprints, specified by comparing all pairs. */
module CloneReport {
  import opened Lists
  import opened GoFunctions

  datatype Location = Location(path: string, line: nat, symbol: string)

  datatype Rule = UnusedPrivateHelper | DuplicateFunction | RenamedFunctionClone

  datatype Finding = Finding(rule: Rule, path: string, line: nat, related: seq<Location>, evidence: string)

  /** The evidence a finding shows is cut to 300 characters. */
  function Shown(name: string): string { if |name| <= 300 then name else name[..300] }

  function LocationOf(f: Function): Location { Location(f.path, f.line, f.name) }

  // ---- the all-pairs specification ----------------------------------------

  /** fs[i] and fs[j] are two different substantial functions with one canonical form. */
  predicate Clones(fs: seq<Function>, i: nat, j: nat) {
    && i < |fs| && j < |fs| && i != j
    && fs[i].substantial && fs[j].substantial
    && fs[i].suffix == fs[j].suffix && fs[i].normalized == fs[j].normalized
  }

  /** Clones whose bodies agree token for token. */
  predicate Duplicates(fs: seq<Function>, i: nat, j: nat) {
    Clones(fs, i, j) && fs[i].exact == fs[j].exact
  }

  /** js lists, in order, the functions below n that relate to i. */
  ghost predicate IsClonesOf(fs: seq<Function>, i: nat, n: nat, js: seq<nat>) {
    Ascending(js) && forall j: nat :: j in js <==> j < n && Clones(fs, i, j)
  }

  ghost predicate IsDuplicatesOf(fs: seq<Function>, i: nat, js: seq<nat>) {
    Ascending(js) && forall j: nat :: j in js <==> Duplicates(fs, i, j)
  }

  function Locations(fs: seq<Function>, js: seq<nat>): (ls: seq<Location>)
    requires forall k :: 0 <= k < |js| ==> js[k] < |fs|
    ensures |ls| == |js|
    ensures forall k :: 0 <= k < |js| ==> ls[k] == LocationOf(fs[js[k]])
  {
    seq(|js|, k requires 0 <= k < |js| => LocationOf(fs[js[k]]))
  }

  ghost predicate HasClone(fs: seq<Function>, i: nat) { exists j: nat :: Clones(fs, i, j) }

  ghost predicate HasDuplicate(fs: seq<Function>, i: nat) { exists j: nat :: Duplicates(fs, i, j) }

  /** The rule comparing fs[i] with every other function calls for, and the partners to list. */
  ghost predicate IsVerdict(fs: seq<Function>, i: nat, rule: Rule, js: seq<nat>) {
    if HasDuplicate(fs, i) then rule == DuplicateFunction && IsDuplicatesOf(fs, i, js)
    else rule == RenamedFunctionClone && IsClonesOf(fs, i, |fs|, js)
  }

  ghost predicate InRange(js: seq<nat>, n: nat) { forall k :: 0 <= k < |js| ==> js[k] < n }

  /** found reports fs[i], against the partners js. */
  ghost predicate ReportsAgainst(fs: seq<Function>, i: nat, found: Finding, js: seq<nat>) {
    && i < |fs| && js != [] && InRange(js, |fs|)
    && IsVerdict(fs, i, found.rule, js)
    && found.path == fs[i].path && found.line == fs[i].line && found.evidence == Shown(fs[i].name)
    && found.related == Locations(fs, js)
  }

  ghost predicate IsCloneFinding(fs: seq<Function>, i: nat, found: Finding) {
    exists js :: ReportsAgainst(fs, i, found, js)
  }

  // ---- grouping -----------------------------------------------------------

  type Key = (string, seq<string>)

  function KeyOf(f: Function): Key { (f.suffix, f.normalized) }

  /** js lists, in order, the substantial functions below n with the given key. */
  ghost predicate IsGroup(fs: seq<Function>, key: Key, n: nat, js: seq<nat>)
    requires n <= |fs|
  {
    Ascending(js) && forall j: nat :: j in js <==> j < n && fs[j].substantial && KeyOf(fs[j]) == key
  }

  /** groups and keys are the grouping dictionary (insertion-ordered) after n functions. */
  ghost predicate Grouped(fs: seq<Function>, n: nat, groups: map<Key, seq<nat>>, keys: seq<Key>)
    requires n <= |fs|
  {
    && (forall k :: k in keys <==> k in groups)
    && (forall a, b :: 0 <= a < b < |keys| ==> keys[a] != keys[b])
    && (forall k :: k in groups ==> IsGroup(fs, k, n, groups[k]))
    && (forall j: nat :: j < n && fs[j].substantial ==> KeyOf(fs[j]) in groups)
  }

  lemma AppendAscending(js: seq<nat>, n: nat)
    requires Ascending(js) && forall j :: j in js ==> j < n
    ensures Ascending(js + [n])
  {
    assert forall k :: 0 <= k < |js| ==> js[k] in js;
  }

  method AddToGroups(fs: seq<Function>, n: nat, groups: map<Key, seq<nat>>, keys: seq<Key>)
    returns (groups': map<Key, seq<nat>>, keys': seq<Key>)
    requires n < |fs| && Grouped(fs, n, groups, keys)
    ensures Grouped(fs, n + 1, groups', keys')
  {
    groups', keys' := groups, keys;
    if fs[n].substantial {
      var key := KeyOf(fs[n]);
      if key in groups {
        AppendAscending(groups[key], n);
        groups' := groups[key := groups[key] + [n]];
      } else {
        groups' := groups[key := [n]];
        keys' := keys + [key];
      }
    }
  }

  /** The members of the group other than i, and those among them that agree with it exactly. */
  method Others(fs: seq<Function>, group: seq<nat>, i: nat, ghost key: Key)
    returns (others: seq<nat>, exact: seq<nat>)
    requires IsGroup(fs, key, |fs|, group) && i in group
    ensures IsClonesOf(fs, i, |fs|, others)
    ensures IsDuplicatesOf(fs, i, exact)
  {
    others, exact := [], [];
    assert forall a :: 0 <= a < |group| ==> group[a] in group;
    for k := 0 to |group|
      invariant Ascending(others) && Ascending(exact)
      invariant forall a :: 0 <= a < |group| ==> group[a] < |fs|
      invariant forall j: nat :: j in others <==> j in group[..k] && j != i
      invariant forall j: nat :: j in exact <==> j in group[..k] && j != i && fs[j].exact == fs[i].exact
    {
      var j := group[k];
      assert group[..k + 1] == group[..k] + [j];
      assert forall x :: x in group[..k] ==> x < j;
      if j != i {
        AppendAscending(others, j);
        others := others + [j];
        if fs[j].exact == fs[i].exact {
          AppendAscending(exact, j);
          exact := exact + [j];
        }
      }
    }
    assert group[..|group|] == group;
  }

  lemma OthersDecide(fs: seq<Function>, group: seq<nat>, i: nat, key: Key, others: seq<nat>, exact: seq<nat>)
    requires IsGroup(fs, key, |fs|, group) && i in group && |group| >= 2
    requires IsClonesOf(fs, i, |fs|, others) && IsDuplicatesOf(fs, i, exact)
    ensures others != [] && (HasDuplicate(fs, i) <==> exact != [])
    ensures InRange(others, |fs|) && InRange(exact, |fs|)
  {
    var other := if group[0] == i then group[1] else group[0];
    assert other in group && other in others;
    if exact != [] { assert exact[0] in exact; }
    assert forall k :: 0 <= k < |exact| ==> exact[k] in exact;
    assert forall k :: 0 <= k < |others| ==> others[k] in others;
  }

  method FindingFor(fs: seq<Function>, group: seq<nat>, i: nat, ghost key: Key) returns (found: Finding)
    requires IsGroup(fs, key, |fs|, group) && i in group && |group| >= 2
    ensures IsCloneFinding(fs, i, found)
  {
    var others, exact := Others(fs, group, i, key);
    OthersDecide(fs, group, i, key, others, exact);
    var js := if exact != [] then exact else others;
    var rule := if exact != [] then DuplicateFunction else RenamedFunctionClone;
    found := Finding(rule, fs[i].path, fs[i].line, Locations(fs, js), Shown(fs[i].name));
    assert ReportsAgainst(fs, i, found, js);
  }

  /** Every finding is that of a function with a clone, and every such function has one. */
  ghost predicate IsCloneReport(fs: seq<Function>, found: seq<Finding>) {
    && (forall f :: f in found ==> ReportsSome(fs, f))
    && (forall i: nat :: HasClone(fs, i) ==> ReportedIn(fs, i, found))
  }

  ghost predicate ReportsSome(fs: seq<Function>, f: Finding) {
    exists i: nat :: IsCloneFinding(fs, i, f) && HasClone(fs, i)
  }

  ghost predicate ReportedIn(fs: seq<Function>, i: nat, found: seq<Finding>) {
    exists k: nat :: k < |found| && IsCloneFinding(fs, i, found[k])
  }

  /** found are the clone findings of the functions listed by who, one each. */
  ghost predicate Reports(fs: seq<Function>, who: seq<nat>, found: seq<Finding>) {
    && |found| == |who|
    && (forall k :: 0 <= k < |who| ==> IsCloneFinding(fs, who[k], found[k]))
  }

  ghost predicate Once(who: seq<nat>) {
    forall a, b :: 0 <= a < b < |who| ==> who[a] != who[b]
  }

  method ReportGroup(fs: seq<Function>, group: seq<nat>, ghost key: Key) returns (found: seq<Finding>)
    requires IsGroup(fs, key, |fs|, group) && |group| >= 2
    ensures Reports(fs, group, found) && Once(group)
  {
    found := [];
    for k := 0 to |group|
      invariant Reports(fs, group[..k], found)
    {
      var f := FindingFor(fs, group, group[k], key);
      assert group[..k + 1] == group[..k] + [group[k]];
      found := found + [f];
    }
    assert group[..|group|] == group;
  }

  lemma ReportsConcat(fs: seq<Function>, who: seq<nat>, found: seq<Finding>, who': seq<nat>, found': seq<Finding>)
    requires Reports(fs, who, found) && Reports(fs, who', found')
    ensures Reports(fs, who + who', found + found')
  {
    forall k | 0 <= k < |who + who'| ensures IsCloneFinding(fs, (who + who')[k], (found + found')[k]) {
      if k >= |who| { assert IsCloneFinding(fs, who'[k - |who|], found'[k - |who|]); }
    }
  }

  lemma OnceConcat(who: seq<nat>, who': seq<nat>)
    requires Once(who) && Once(who') && forall j :: j in who ==> j !in who'
    ensures Once(who + who')
  {
    forall a, b | 0 <= a < b < |who + who'| ensures (who + who')[a] != (who + who')[b] {
      if a < |who| && b >= |who| { assert who[a] in who && who'[b - |who|] in who'; }
    }
  }

  lemma HasCloneIffBigGroup(fs: seq<Function>, key: Key, group: seq<nat>, i: nat)
    requires i < |fs| && IsGroup(fs, key, |fs|, group) && i in group
    ensures |group| >= 2 <==> HasClone(fs, i)
  {
    if |group| >= 2 {
      var other := if group[0] == i then group[1] else group[0];
      assert other in group && Clones(fs, i, other);
    }
    if j: nat :| Clones(fs, i, j) {
      assert i in group && j in group;
    }
  }

  /** The clone report: exactly the functions that have a clone, once each, and what is said of
    * each is what comparing it with all others says. */
  method ReportClones(fs: seq<Function>) returns (found: seq<Finding>, ghost who: seq<nat>)
    ensures IsCloneReport(fs, found)
    ensures Reports(fs, who, found) && Once(who)
    ensures forall i: nat :: i in who <==> HasClone(fs, i)
  {
    var groups: map<Key, seq<nat>>, keys: seq<Key> := map[], [];
    for n := 0 to |fs|
      invariant Grouped(fs, n, groups, keys)
    {
      groups, keys := AddToGroups(fs, n, groups, keys);
    }
    found, who := [], [];
    for k := 0 to |keys|
      invariant Reports(fs, who, found) && Once(who)
      invariant forall i: nat :: i in who <==>
        i < |fs| && fs[i].substantial && KeyOf(fs[i]) in keys[..k] && |groups[KeyOf(fs[i])]| >= 2
    {
      var key := keys[k];
      var group := groups[key];
      assert keys[..k + 1] == keys[..k] + [key];
      if |group| >= 2 {
        var more := ReportGroup(fs, group, key);
        ReportsConcat(fs, who, found, group, more);
        OnceConcat(who, group);
        found, who := found + more, who + group;
      }
    }
    assert keys[..|keys|] == keys;
    forall i: nat ensures i in who <==> HasClone(fs, i) {
      if i < |fs| && fs[i].substantial {
        HasCloneIffBigGroup(fs, KeyOf(fs[i]), groups[KeyOf(fs[i])], i);
      }
    }
    ReportsAreReport(fs, who, found);
  }

  lemma ReportsAreReport(fs: seq<Function>, who: seq<nat>, found: seq<Finding>)
    requires Reports(fs, who, found) && forall i: nat :: i in who <==> HasClone(fs, i)
    ensures IsCloneReport(fs, found)
  {
    forall f | f in found ensures ReportsSome(fs, f) {
      var k :| 0 <= k < |found| && found[k] == f;
      assert who[k] in who;
    }
    forall i: nat | HasClone(fs, i) ensures ReportedIn(fs, i, found) {
      var k :| 0 <= k < |who| && who[k] == i;
    }
  }

  // ---- consequences -------------------------------------------------------

  /** The report leaves no choice: a function has at most one finding. */
  lemma CloneFindingUnique(fs: seq<Function>, i: nat, f: Finding, f': Finding)
    requires IsCloneFinding(fs, i, f) && IsCloneFinding(fs, i, f')
    ensures f == f'
  {
    var js :| ReportsAgainst(fs, i, f, js);
    var js' :| ReportsAgainst(fs, i, f', js');
    AscendingUnique(js, js');
  }

  /** What a clone finding shows of the function and of its partners. */
  lemma CloneFindingShows(fs: seq<Function>, i: nat, found: Finding, js: seq<nat>)
    requires ReportsAgainst(fs, i, found, js)
    ensures found.path == fs[i].path && found.line == fs[i].line
    ensures found.evidence == if |fs[i].name| <= 300 then fs[i].name else fs[i].name[..300]
    ensures |found.related| == |js|
    ensures forall k :: 0 <= k < |js| ==>
      found.related[k] == Location(fs[js[k]].path, fs[js[k]].line, fs[js[k]].name)
  {
  }

  /** The duplicate relation is symmetric: each of two duplicates lists the other. */
  lemma DuplicatesListEachOther(fs: seq<Function>, i: nat, js: seq<nat>, j: nat, js': seq<nat>)
    requires IsDuplicatesOf(fs, i, js) && IsDuplicatesOf(fs, j, js')
    ensures j in js <==> i in js'
  {
  }

  /** Nothing but exact duplicates is listed for a function that has any. */
  lemma DuplicateHidesClones(fs: seq<Function>, i: nat, found: Finding, l: Location)
    requires HasDuplicate(fs, i) && IsCloneFinding(fs, i, found) && l in found.related
    ensures found.rule == DuplicateFunction
    ensures exists j: nat :: Duplicates(fs, i, j) && LocationOf(fs[j]) == l
  {
    var js :| ReportsAgainst(fs, i, found, js);
    var k :| 0 <= k < |js| && found.related[k] == l;
    assert js[k] in js && Duplicates(fs, i, js[k]);
  }

  /** A function with clones but no exact duplicate lists every one of them. */
  lemma RenamedListsAll(fs: seq<Function>, i: nat, j: nat, found: Finding)
    requires Clones(fs, i, j) && IsCloneFinding(fs, i, found) && !HasDuplicate(fs, i)
    ensures found.rule == RenamedFunctionClone && LocationOf(fs[j]) in found.related
  {
    var js :| ReportsAgainst(fs, i, found, js);
    assert j in js;
    var k :| 0 <= k < |js| && js[k] == j;
    assert found.related[k] == LocationOf(fs[j]);
  }

  /** So of two clones each lists the other, or neither does, exactly when they are duplicates of
    * one another or both have a duplicate or neither has. */
  lemma RelatedSymmetricIff(fs: seq<Function>, i: nat, rule: Rule, js: seq<nat>, j: nat, rule': Rule, js': seq<nat>)
    requires Clones(fs, i, j) && IsVerdict(fs, i, rule, js) && IsVerdict(fs, j, rule', js')
    ensures (j in js <==> i in js') <==> Duplicates(fs, i, j) || (HasDuplicate(fs, i) <==> HasDuplicate(fs, j))
  {
    assert Duplicates(fs, i, j) ==> Duplicates(fs, j, i);
  }

  /** The related lists as a whole are not symmetric: with i and d copies of one another and
    * c their only renaming, c lists i, but i lists d alone. */
  lemma RelatedNotSymmetric(fs: seq<Function>, i: nat, d: nat, c: nat, fi: Finding, fc: Finding)
    requires Duplicates(fs, i, d) && Clones(fs, c, i) && !HasDuplicate(fs, c)
    requires forall j: nat :: Duplicates(fs, i, j) ==> LocationOf(fs[j]) != LocationOf(fs[c])
    requires IsCloneFinding(fs, i, fi) && IsCloneFinding(fs, c, fc)
    ensures LocationOf(fs[i]) in fc.related && LocationOf(fs[c]) !in fi.related
  {
    RenamedListsAll(fs, c, i, fc);
    if LocationOf(fs[c]) in fi.related {
      DuplicateHidesClones(fs, i, fi, LocationOf(fs[c]));
    }
  }
}
