/** Operator role sets (internal/constants/operator_roles.go; role names in
  * internal/constants/status.go, lines 94-105). */
module OperatorRoles {
  import opened Strings

  type Role = string

  const EMBEDDED: Role := "embedded"
  const DATA: Role := "data"
  const INFERENCE: Role := "inference"
  const PROVENANCE: Role := "provenance"
  const OBSERVER: Role := "observer"

  /** Every known role, in canonical order. */
  const KNOWN: seq<Role> := [EMBEDDED, DATA, INFERENCE, PROVENANCE, OBSERVER]

  predicate Has(r: seq<Role>, role: Role) { role in r }

  predicate Valid(r: seq<Role>) { forall role :: role in r ==> role in KNOWN }

  // ---- canonical form --------------------------------------------------------

  /** The entries of order that r has, in that order. */
  function Select(order: seq<Role>, r: seq<Role>): seq<Role> {
    if order == [] then [] else (if order[0] in r then [order[0]] else []) + Select(order[1..], r)
  }

  function Canonical(r: seq<Role>): seq<Role> { Select(KNOWN, r) }

  lemma {:induction false} SelectSnoc(order: seq<Role>, role: Role, r: seq<Role>)
    ensures Select(order + [role], r) == Select(order, r) + (if role in r then [role] else [])
    decreases |order|
  {
    if order == [] {
      assert (order + [role])[1..] == [];
    } else {
      assert (order + [role])[1..] == order[1..] + [role];
      SelectSnoc(order[1..], role, r);
    }
  }

  /** The appending loop. */
  method CanonicalRoles(r: seq<Role>) returns (result: seq<Role>)
    ensures result == Canonical(r)
  {
    result := [];
    var order := KNOWN;
    for i := 0 to |order|
      invariant result == Select(order[..i], r)
    {
      assert order[..i + 1] == order[..i] + [order[i]];
      SelectSnoc(order[..i], order[i], r);
      if Has(r, order[i]) {
        result := result + [order[i]];
      }
    }
    assert order[..|order|] == order;
  }

  lemma {:induction false} SelectMembers(order: seq<Role>, r: seq<Role>, x: Role)
    ensures x in Select(order, r) <==> x in order && x in r
    decreases |order|
  {
    if order != [] {
      SelectMembers(order[1..], r, x);
    }
  }

  lemma {:induction false} SelectSame(order: seq<Role>, r: seq<Role>, r': seq<Role>)
    requires forall x :: x in order ==> (x in r <==> x in r')
    ensures Select(order, r) == Select(order, r')
    decreases |order|
  {
    if order != [] { SelectSame(order[1..], r, r'); }
  }

  /** The canonical form is the set of known roles and nothing else: two role lists have the same
    * one exactly when they have the same known roles. */
  lemma CanonicalIff(r: seq<Role>, r': seq<Role>)
    ensures Canonical(r) == Canonical(r') <==> forall x :: x in KNOWN ==> (x in r <==> x in r')
  {
    var order := KNOWN;
    forall x | x in order ensures (x in r <==> x in Select(order, r)) && (x in r' <==> x in Select(order, r')) {
      SelectMembers(order, r, x);
      SelectMembers(order, r', x);
    }
    if forall x :: x in order ==> (x in r <==> x in r') { SelectSame(order, r, r'); }
  }

  lemma CanonicalValid(r: seq<Role>)
    ensures Valid(Canonical(r)) && Canonical(Canonical(r)) == Canonical(r)
  {
    var order := KNOWN;
    forall x ensures x in Select(order, r) <==> x in order && x in r { SelectMembers(order, r, x); }
    CanonicalIff(Canonical(r), r);
  }

  /** The five roles, one by one. */
  lemma ValidIff(r: seq<Role>)
    ensures Valid(r) <==> forall i :: 0 <= i < |r| ==>
      r[i] == "embedded" || r[i] == "data" || r[i] == "inference" || r[i] == "provenance" || r[i] == "observer"
  {
    forall x: Role ensures x in KNOWN <==>
      x == "embedded" || x == "data" || x == "inference" || x == "provenance" || x == "observer"
    {
      KnownAre(x);
    }
    assert forall i :: 0 <= i < |r| ==> r[i] in r;
  }

  lemma KnownAre(x: Role)
    ensures x in KNOWN <==>
      x == "embedded" || x == "data" || x == "inference" || x == "provenance" || x == "observer"
  {
    assert KNOWN[0] == "embedded" && KNOWN[1] == "data" && KNOWN[2] == "inference";
    assert KNOWN[3] == "provenance" && KNOWN[4] == "observer";
  }

  function Only(r: seq<Role>, role: Role): seq<Role> { if role in r then [role] else [] }

  /** The canonical order, written out. */
  lemma CanonicalIs(r: seq<Role>)
    ensures Canonical(r) ==
      Only(r, "embedded") + Only(r, "data") + Only(r, "inference") + Only(r, "provenance") + Only(r, "observer")
  {
    var order := KNOWN;
    assert order == [] + ["embedded"] + ["data"] + ["inference"] + ["provenance"] + ["observer"];
    SelectSnoc([], "embedded", r);
    SelectSnoc([] + ["embedded"], "data", r);
    SelectSnoc([] + ["embedded"] + ["data"], "inference", r);
    SelectSnoc([] + ["embedded"] + ["data"] + ["inference"], "provenance", r);
    SelectSnoc([] + ["embedded"] + ["data"] + ["inference"] + ["provenance"], "observer", r);
  }

  // ---- flag values -----------------------------------------------------------

  /** unicode.IsSpace */
  predicate IsSpace(c: char) {
    var u := c as int;
    || 9 <= u <= 13 || u == 0x20 || u == 0x85 || u == 0xA0 || u == 0x1680 || 0x2000 <= u <= 0x200A
    || u == 0x2028 || u == 0x2029 || u == 0x202F || u == 0x205F || u == 0x3000
  }

  /** The characters Unicode calls white space, by their code points. */
  lemma SpacesAre(c: char)
    ensures IsSpace(c) <==> c as int in {
      0x9, 0xA, 0xB, 0xC, 0xD, 0x20, 0x85, 0xA0, 0x1680, 0x2000, 0x2001, 0x2002, 0x2003, 0x2004, 0x2005, 0x2006,
      0x2007, 0x2008, 0x2009, 0x200A, 0x2028, 0x2029, 0x202F, 0x205F, 0x3000}
  {
  }

  function TrimLeft(s: string): string {
    if s != "" && IsSpace(s[0]) then TrimLeft(s[1..]) else s
  }

  function TrimRight(s: string): string {
    if s != "" && IsSpace(s[|s| - 1]) then TrimRight(s[..|s| - 1]) else s
  }

  function TrimSpace(s: string): string { TrimRight(TrimLeft(s)) }

  predicate AllSpace(s: string) { forall i :: 0 <= i < |s| ==> IsSpace(s[i]) }

  predicate Tight(s: string) { s == "" || (!IsSpace(s[0]) && !IsSpace(s[|s| - 1])) }

  lemma {:induction false} TrimLeftIs(l: string, t: string)
    requires AllSpace(l) && (t != "" ==> !IsSpace(t[0]))
    ensures TrimLeft(l + t) == t
    decreases |l|
  {
    if l == "" {
      assert l + t == t;
    } else {
      assert (l + t)[1..] == l[1..] + t;
      TrimLeftIs(l[1..], t);
    }
  }

  lemma {:induction false} TrimRightIs(t: string, r: string)
    requires AllSpace(r) && (t != "" ==> !IsSpace(t[|t| - 1]))
    ensures TrimRight(t + r) == t
    decreases |r|
  {
    if r == "" {
      assert t + r == t;
    } else {
      assert (t + r)[..|t + r| - 1] == t + r[..|r| - 1];
      TrimRightIs(t, r[..|r| - 1]);
    }
  }

  /** Blanks around a role name in a flag value make no difference. */
  lemma TrimSpaceIs(l: string, t: string, r: string)
    requires AllSpace(l) && AllSpace(r) && Tight(t)
    ensures TrimSpace(l + t + r) == t
  {
    if t == "" {
      var blanks := l + r;
      assert l + t + r == blanks + "";
      TrimLeftIs(blanks, "");
    } else {
      assert l + t + r == l + (t + r);
      TrimLeftIs(l, t + r);
      TrimRightIs(t, r);
    }
  }

  function TrimAll(parts: seq<string>): (r: seq<string>)
    ensures |r| == |parts| && forall i :: 0 <= i < |parts| ==> r[i] == TrimSpace(parts[i])
  {
    seq(|parts|, i requires 0 <= i < |parts| => TrimSpace(parts[i]))
  }

  /** The roles a flag value asks for. */
  function Parse(value: string): seq<Role> { TrimAll(Split(value, ',')) }

  function ToString(r: seq<Role>): string { Join(Canonical(r), ',') }

  /** What Set leaves: the canonical union, or the old roles when the value is rejected. */
  function AfterSet(r: seq<Role>, value: string): seq<Role> {
    if Valid(Parse(value)) then Canonical(r + Parse(value)) else r
  }

  /** The flag variable. */
  class RolesFlag {
    var roles: seq<Role>

    constructor ()
      ensures roles == []
    {
      roles := [];
    }

    method Set(value: string) returns (accepted: bool)
      modifies this
      ensures accepted <==> Valid(Parse(value))
      ensures roles == AfterSet(old(roles), value)
    {
      var parts := Split(value, ',');
      var parsed: seq<Role> := [];
      for i := 0 to |parts|
        invariant parsed == TrimAll(parts)[..i] && roles == old(roles)
      {
        parsed := parsed + [TrimSpace(parts[i])];
      }
      assert parsed == Parse(value);
      if !Valid(parsed) {
        return false;
      }
      roles := CanonicalRoles(roles + parsed);
      return true;
    }
  }

  /** The roles after a whole command line of values. */
  function AfterAll(values: seq<string>): seq<Role> {
    if values == [] then [] else AfterSet(AfterAll(values[..|values| - 1]), values[|values| - 1])
  }

  /** A known role asked for by some accepted value. */
  ghost predicate Asked(values: seq<string>, role: Role) {
    exists i :: 0 <= i < |values| && AskedBy(values[i], role)
  }

  /** What one value asks for, if it is accepted. */
  ghost predicate AskedBy(value: string, role: Role) { Valid(Parse(value)) && role in Parse(value) }

  lemma AfterSetMembers(r: seq<Role>, value: string, role: Role)
    requires Canonical(r) == r
    ensures role in AfterSet(r, value) <==> role in r || AskedBy(value, role)
    ensures Canonical(AfterSet(r, value)) == AfterSet(r, value)
  {
    var order := KNOWN;
    SelectMembers(order, r, role);
    SelectMembers(order, r + Parse(value), role);
    CanonicalValid(r + Parse(value));
  }

  lemma {:induction false} SelectNone(order: seq<Role>)
    ensures Select(order, []) == []
    decreases |order|
  {
    if order != [] { SelectNone(order[1..]); }
  }

  lemma AskedSnoc(values: seq<string>, role: Role)
    requires values != []
    ensures Asked(values, role) <==> Asked(values[..|values| - 1], role) || AskedBy(values[|values| - 1], role)
  {
    var init := values[..|values| - 1];
    assert forall i :: 0 <= i < |init| ==> init[i] == values[i];
  }

  lemma {:induction false} AfterAllMembers(values: seq<string>, role: Role)
    ensures role in AfterAll(values) <==> Asked(values, role)
    ensures Canonical(AfterAll(values)) == AfterAll(values)
    decreases |values|
  {
    if values == [] {
      SelectNone(KNOWN);
    } else {
      var init := values[..|values| - 1];
      AfterAllMembers(init, role);
      AfterSetMembers(AfterAll(init), values[|values| - 1], role);
      AskedSnoc(values, role);
    }
  }

  /** Any sequence of Set calls leaves the canonical union of the accepted ones, whatever their
    * order or repetition. */
  lemma OnlyTheUnionMatters(values: seq<string>, values': seq<string>)
    requires forall role :: Asked(values, role) <==> Asked(values', role)
    ensures AfterAll(values) == AfterAll(values')
  {
    AfterAllMembers(values, "");
    AfterAllMembers(values', "");
    forall x ensures x in AfterAll(values) <==> x in AfterAll(values') {
      AfterAllMembers(values, x);
      AfterAllMembers(values', x);
    }
    CanonicalIff(AfterAll(values), AfterAll(values'));
  }

  // ---- printing and reading back ---------------------------------------------

  /** A role name: not empty, without commas, and with nothing to trim. */
  predicate PlainName(s: string) {
    s != "" && ',' !in s && !IsSpace(s[0]) && !IsSpace(s[|s| - 1])
  }

  lemma KnownPlain(role: Role)
    requires role in KNOWN
    ensures PlainName(role)
  {
  }

  lemma ParseJoined(r: seq<Role>)
    requires r != [] && Valid(r)
    ensures Parse(Join(r, ',')) == r
  {
    forall i | 0 <= i < |r| ensures PlainName(r[i]) {
      assert r[i] in r;
      KnownPlain(r[i]);
    }
    SplitJoin(r, ',');
    forall i | 0 <= i < |r| ensures TrimSpace(r[i]) == r[i] {
      assert "" + r[i] + "" == r[i];
      TrimSpaceIs("", r[i], "");
    }
  }

  lemma EmptyValueRejected()
    ensures !Valid(Parse(""))
  {
    assert Split("", ',') == [""];
    assert TrimSpace("") == "";
    assert Parse("")[0] == "";
    assert "" in Parse("");
  }

  /** Reading a printed set back into an empty flag restores it, exactly when it is not empty. */
  lemma SetOfString(r: seq<Role>)
    ensures Valid(Parse(ToString(r))) <==> Canonical(r) != []
    ensures AfterSet([], ToString(r)) == Canonical(r)
  {
    CanonicalValid(r);
    if Canonical(r) == [] {
      EmptyValueRejected();
    } else {
      ParseJoined(Canonical(r));
      assert [] + Canonical(r) == Canonical(r);
    }
  }
}
