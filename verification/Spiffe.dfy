/** SPIFFE identities (protocol/workload_identity.go): printers and extractors. */
module Spiffe {
  import opened Wrappers
  import opened Strings

  const TRUST_DOMAIN := "g8e.local"

  /** The workload classes that have an extractor. */
  datatype Class = Operator | Cli | User | Gateway

  /** spiffe://<trust domain>/<class>/ */
  function Prefix(c: Class): string {
    "spiffe://" + TRUST_DOMAIN + "/" +
    (match c
     case Operator => "operator"
     case Cli => "cli"
     case User => "user"
     case Gateway => "gateway") + "/"
  }

  function Arity(c: Class): nat {
    match c
    case Operator => 3
    case Cli => 2
    case User => 1
    case Gateway => 1
  }

  // ---- printers --------------------------------------------------------------

  function OperatorSPIFFEID(organizationID: string, operatorID: string, sessionID: string): string {
    Prefix(Operator) + organizationID + "/" + operatorID + "/" + sessionID
  }

  function CLISPIFFEID(userID: string, sessionID: string): string {
    Prefix(Cli) + userID + "/" + sessionID
  }

  function UserSPIFFEID(userID: string): string { Prefix(User) + userID }

  function GatewayPeerSPIFFEID(gatewayID: string): string { Prefix(Gateway) + gatewayID }

  /** The printed forms, in full. */
  lemma PrintedForms(a: string, b: string, c: string)
    ensures OperatorSPIFFEID(a, b, c) == "spiffe://g8e.local/operator/" + a + "/" + b + "/" + c
    ensures CLISPIFFEID(a, b) == "spiffe://g8e.local/cli/" + a + "/" + b
    ensures UserSPIFFEID(a) == "spiffe://g8e.local/user/" + a
    ensures GatewayPeerSPIFFEID(a) == "spiffe://g8e.local/gateway/" + a
  {
    assert Prefix(Operator) == "spiffe://g8e.local/operator/";
    assert Prefix(Cli) == "spiffe://g8e.local/cli/";
    assert Prefix(User) == "spiffe://g8e.local/user/";
    assert Prefix(Gateway) == "spiffe://g8e.local/gateway/";
  }

  // ---- extractors ------------------------------------------------------------

  /** The parts after the prefix, when there are as many as the class has and none is empty. */
  function Parts(c: Class, spiffeID: string): Option<seq<string>> {
    if !HasPrefix(spiffeID, Prefix(c)) then None
    else
      var parts := Split(spiffeID[|Prefix(c)|..], '/');
      if |parts| == Arity(c) && "" !in parts then Some(parts) else None
  }

  function ExtractCLISessionID(spiffeID: string): Option<string> {
    match Parts(Cli, spiffeID) case None => None case Some(parts) => Some(parts[1])
  }

  function ExtractUserID(spiffeID: string): Option<string> {
    match Parts(Cli, spiffeID) case None => None case Some(parts) => Some(parts[0])
  }

  /** Tests for emptiness and for a slash, without splitting. */
  function ExtractUserIDFromUserSAN(spiffeID: string): Option<string> {
    if !HasPrefix(spiffeID, Prefix(User)) then None
    else
      var userID := spiffeID[|Prefix(User)|..];
      if userID == "" || '/' in userID then None else Some(userID)
  }

  function ExtractGatewayID(spiffeID: string): Option<string> {
    match Parts(Gateway, spiffeID) case None => None case Some(parts) => Some(parts[0])
  }

  function ExtractOperatorSessionID(spiffeID: string): Option<string> {
    match Parts(Operator, spiffeID) case None => None case Some(parts) => Some(parts[2])
  }

  predicate MatchesCLISessionOnly(spiffeID: string, sessionID: string) {
    ExtractCLISessionID(spiffeID) == Some(sessionID)
  }

  // ---- inversion -------------------------------------------------------------

  predicate PlainID(id: string) { id != "" && '/' !in id }

  predicate AllPlain(ids: seq<string>) { forall i :: 0 <= i < |ids| ==> PlainID(ids[i]) }

  /** What every printer does: the prefix, then the ids joined by slashes. */
  function PrintIDs(c: Class, ids: seq<string>): string { Prefix(c) + Join(ids, '/') }

  lemma PrintersJoin(a: string, b: string, c: string)
    ensures OperatorSPIFFEID(a, b, c) == PrintIDs(Operator, [a, b, c])
    ensures CLISPIFFEID(a, b) == PrintIDs(Cli, [a, b])
    ensures UserSPIFFEID(a) == PrintIDs(User, [a]) && GatewayPeerSPIFFEID(a) == PrintIDs(Gateway, [a])
  {
    assert [b, c][1..] == [c] && [a, b][1..] == [b] && [a, b, c][1..] == [b, c];
    assert Join([b, c], '/') == b + "/" + c;
    assert Join([a, b], '/') == a + "/" + b;
    assert Join([a, b, c], '/') == a + "/" + Join([b, c], '/');
    assert Prefix(Operator) + a + "/" + b + "/" + c == Prefix(Operator) + (a + "/" + (b + "/" + c));
    assert Prefix(Cli) + a + "/" + b == Prefix(Cli) + (a + "/" + b);
  }

  lemma DropPrefix(p: string, s: string)
    ensures HasPrefix(p + s, p) && (p + s)[|p|..] == s
  {
  }

  /** Extraction gives printed ids back exactly when each is non-empty and free of slashes. */
  lemma ExtractPrintIff(c: Class, ids: seq<string>)
    requires |ids| == Arity(c)
    ensures Parts(c, PrintIDs(c, ids)) == Some(ids) <==> AllPlain(ids)
  {
    DropPrefix(Prefix(c), Join(ids, '/'));
    assert forall i :: 0 <= i < |ids| ==> ids[i] in ids;
    if AllPlain(ids) {
      SplitJoin(ids, '/');
    }
  }

  /** Whatever extraction accepts, printing its parts rebuilds. */
  lemma PrintExtract(c: Class, s: string)
    requires Parts(c, s).Some?
    ensures PrintIDs(c, Parts(c, s).value) == s && AllPlain(Parts(c, s).value) && |Parts(c, s).value| == Arity(c)
  {
    var rest := s[|Prefix(c)|..];
    assert s == Prefix(c) + rest;
    var parts := Split(rest, '/');
    assert forall i :: 0 <= i < |parts| ==> parts[i] in parts;
  }

  /** An operator identity has three parts only when no id brings a slash of its own. */
  lemma OperatorParts(a: string, b: string, c: string)
    ensures Parts(Operator, OperatorSPIFFEID(a, b, c)).Some? <==> AllPlain([a, b, c])
    ensures AllPlain([a, b, c]) <==> PlainID(a) && PlainID(b) && PlainID(c)
    ensures AllPlain([a, b, c]) ==> Parts(Operator, OperatorSPIFFEID(a, b, c)) == Some([a, b, c])
  {
    var rest := a + ['/'] + (b + ['/'] + c);
    PrintersJoin(a, b, c);
    ExtractPrintIff(Operator, [a, b, c]);
    DropPrefix(Prefix(Operator), rest);
    assert OperatorSPIFFEID(a, b, c) == Prefix(Operator) + rest;
    SplitConcat(a, b + ['/'] + c, '/');
    SplitConcat(b, c, '/');
    var x, y, z := Split(a, '/'), Split(b, '/'), Split(c, '/');
    assert Split(rest, '/') == x + (y + z);
    if Parts(Operator, OperatorSPIFFEID(a, b, c)).Some? {
      assert |x| == |y| == |z| == 1;
      assert x == [a] && y == [b] && z == [c];
      assert Split(rest, '/') == [a, b, c];
    }
    assert [a, b, c][0] == a && [a, b, c][1] == b && [a, b, c][2] == c;
  }

  /** Each extractor answers with what the printer was given, exactly when all the ids are plain. */
  lemma ExtractorsInvert(a: string, b: string, c: string)
    ensures ExtractUserID(CLISPIFFEID(a, b)) == Some(a) && ExtractCLISessionID(CLISPIFFEID(a, b)) == Some(b)
            <==> PlainID(a) && PlainID(b)
    ensures ExtractOperatorSessionID(OperatorSPIFFEID(a, b, c)) == Some(c) <==> PlainID(a) && PlainID(b) && PlainID(c)
    ensures ExtractGatewayID(GatewayPeerSPIFFEID(a)) == Some(a) <==> PlainID(a)
    ensures ExtractUserIDFromUserSAN(UserSPIFFEID(a)) == Some(a) <==> PlainID(a)
  {
    PrintersJoin(a, b, c);
    ExtractPrintIff(Cli, [a, b]);
    OperatorParts(a, b, c);
    ExtractPrintIff(Gateway, [a]);
    DropPrefix(Prefix(User), a);
    assert AllPlain([a, b]) <==> PlainID(a) && PlainID(b) by { assert [a, b][0] == a && [a, b][1] == b; }
    assert AllPlain([a]) <==> PlainID(a) by { assert [a][0] == a; }
  }

  /** Whenever the CLI extractors succeed, printing their answers rebuilds the identity; so the
    * session-only match holds exactly of the identities some plain user has with that session. */
  lemma CliRebuilds(s: string, session: string)
    ensures ExtractUserID(s).Some? <==> ExtractCLISessionID(s).Some?
    ensures ExtractUserID(s).Some? ==> CLISPIFFEID(ExtractUserID(s).value, ExtractCLISessionID(s).value) == s
    ensures MatchesCLISessionOnly(s, session) <==>
            exists user :: PlainID(user) && PlainID(session) && s == CLISPIFFEID(user, session)
  {
    if Parts(Cli, s).Some? {
      PrintExtract(Cli, s);
      var ids := Parts(Cli, s).value;
      assert ids == [ids[0], ids[1]];
      PrintersJoin(ids[0], ids[1], "");
    }
    if user :| PlainID(user) && PlainID(session) && s == CLISPIFFEID(user, session) {
      ExtractorsInvert(user, session, "");
    }
  }

  /** Splitting what was joined gives at least as many parts as there were, and exactly as many
    * only if it gives them back. */
  lemma {:induction false} SplitOfJoin(parts: seq<string>)
    requires parts != []
    ensures var split := Split(Join(parts, '/'), '/');
      |split| >= |parts| && (|split| == |parts| ==> split == parts)
    decreases |parts|
  {
    if |parts| == 1 {
      assert parts == [parts[0]];
      assert forall s: seq<string> :: |s| == 1 ==> Join(s, '/') == s[0];
    } else {
      var rest := parts[1..];
      SplitOfJoin(rest);
      SplitConcat(parts[0], Join(rest, '/'), '/');
      var head := Split(parts[0], '/');
      assert |head| == 1 ==> head[0] == Join(head, '/') == parts[0];
      assert parts == [parts[0]] + rest;
    }
  }

  /** Two neighbours enter a join only through their own join. */
  lemma {:induction false} JoinNeighbours(ids: seq<string>, k: nat, x: string, y: string)
    requires k + 1 < |ids| && ids[k] + "/" + ids[k + 1] == x + "/" + y
    ensures Join(ids[k := x][k + 1 := y], '/') == Join(ids, '/')
    decreases k
  {
    var moved := ids[k := x][k + 1 := y];
    if k == 0 {
      var after := ids[2..];
      assert ids[1..][1..] == after == moved[1..][1..];
      if after != [] {
        var tail := "/" + Join(after, '/');
        assert Join(ids, '/') == (ids[0] + "/" + ids[1]) + tail;
        assert Join(moved, '/') == (x + "/" + y) + tail;
      }
    } else {
      JoinNeighbours(ids[1..], k - 1, x, y);
      assert ids[1..][k - 1 := x][k := y] == moved[1..];
    }
  }

  /** A slash in an id can be taken for the one between it and a neighbour. */
  lemma SlashMoves(ids: seq<string>) returns (moved: seq<string>)
    requires |ids| >= 2 && !Free(ids, '/')
    ensures |moved| == |ids| && moved != ids && Join(moved, '/') == Join(ids, '/')
  {
    var i :| 0 <= i < |ids| && '/' in ids[i];
    var p :| 0 <= p < |ids[i]| && ids[i][p] == '/';
    var a, b := ids[i][..p], ids[i][p + 1..];
    assert ids[i] == a + "/" + b;
    if i + 1 < |ids| {
      var y := b + "/" + ids[i + 1];
      assert (a + "/" + b) + "/" + ids[i + 1] == a + "/" + y;
      JoinNeighbours(ids, i, a, y);
      moved := ids[i := a][i + 1 := y];
      assert |moved[i]| < |ids[i]|;
    } else {
      var x := ids[i - 1] + "/" + a;
      assert ids[i - 1] + "/" + (a + "/" + b) == x + "/" + b;
      JoinNeighbours(ids, i - 1, x, b);
      moved := ids[i - 1 := x][i := b];
      assert |moved[i]| < |ids[i]|;
    }
  }

  /** No other ids print as these do. */
  ghost predicate PrintsAlone(c: Class, ids: seq<string>) {
    forall ids' :: |ids'| == |ids| && PrintIDs(c, ids') == PrintIDs(c, ids) ==> ids' == ids
  }

  lemma SamePrintIff(c: Class, ids: seq<string>, ids': seq<string>)
    ensures PrintIDs(c, ids) == PrintIDs(c, ids') <==> Join(ids, '/') == Join(ids', '/')
  {
    DropPrefix(Prefix(c), Join(ids, '/'));
    DropPrefix(Prefix(c), Join(ids', '/'));
  }

  /** An identity tells its ids, among all ids whatever, exactly when the class has only one or
    * none of them contains a slash. */
  lemma PrintsAloneIff(c: Class, ids: seq<string>)
    requires |ids| == Arity(c)
    ensures PrintsAlone(c, ids) <==> Arity(c) == 1 || Free(ids, '/')
  {
    if Arity(c) == 1 || Free(ids, '/') {
      forall ids': seq<string> | |ids'| == |ids| && PrintIDs(c, ids') == PrintIDs(c, ids) ensures ids' == ids {
        SamePrintIff(c, ids', ids);
        if Arity(c) == 1 {
          assert ids == [Join(ids, '/')] && ids' == [Join(ids', '/')];
        } else {
          SplitJoin(ids, '/');
          SplitOfJoin(ids');
        }
      }
    } else {
      var moved := SlashMoves(ids);
      SamePrintIff(c, moved, ids);
    }
  }

  /** So a printed identity of slash-free ids, or of a class with one id, is no other's: the
    * other ids may be anything. */
  lemma PrintInjective(c: Class, ids: seq<string>, ids': seq<string>)
    requires |ids| == |ids'| == Arity(c) && (Arity(c) == 1 || Free(ids, '/'))
    requires PrintIDs(c, ids) == PrintIDs(c, ids')
    ensures ids == ids'
  {
    PrintsAloneIff(c, ids);
    assert PrintsAlone(c, ids);
  }

  /** An id with a slash can move into the next: the printers are not injective on all ids. */
  lemma SlashesCollide()
    ensures CLISPIFFEID("a/b", "c") == CLISPIFFEID("a", "b/c")
  {
    assert Prefix(Cli) + "a/b" + "/" + "c" == Prefix(Cli) + "a" + "/" + "b/c";
  }

  /** The character that tells the classes apart. */
  function Mark(c: Class): char {
    match c
    case Operator => 'o'
    case Cli => 'c'
    case User => 'u'
    case Gateway => 'g'
  }

  lemma PrefixMark(c: Class)
    ensures |Prefix(c)| > 19 && Prefix(c)[19] == Mark(c)
  {
    var start := "spiffe://" + TRUST_DOMAIN + "/";
    assert |start| == 19;
    assert Prefix(c) == start + Prefix(c)[19..];
  }

  lemma PrefixesDiffer(c: Class, c': Class, s: string)
    requires HasPrefix(s, Prefix(c)) && HasPrefix(s, Prefix(c'))
    ensures c == c'
  {
    PrefixMark(c);
    PrefixMark(c');
    assert Prefix(c)[19] == s[19] == Prefix(c')[19];
  }

  /** The class an extractor accepts the identity for, if any. */
  predicate Accepts(c: Class, s: string) {
    match c
    case User => ExtractUserIDFromUserSAN(s).Some?
    case _ => Parts(c, s).Some?
  }

  /** No identity is accepted by the extractors of two classes. */
  lemma OneClass(c: Class, c': Class, s: string)
    requires Accepts(c, s) && Accepts(c', s)
    ensures c == c'
  {
    PrefixesDiffer(c, c', s);
  }

  lemma UserAccepts(s: string, x: string)
    ensures ExtractUserIDFromUserSAN(s) == Some(x) <==> PlainID(x) && s == UserSPIFFEID(x)
  {
    DropPrefix(Prefix(User), x);
    if HasPrefix(s, Prefix(User)) { assert s == Prefix(User) + s[|Prefix(User)|..]; }
  }

  lemma GatewayAccepts(s: string, x: string)
    ensures ExtractGatewayID(s) == Some(x) <==> PlainID(x) && s == GatewayPeerSPIFFEID(x)
  {
    if Parts(Gateway, s).Some? {
      PrintExtract(Gateway, s);
      var ids := Parts(Gateway, s).value;
      assert ids == [ids[0]];
      PrintersJoin(ids[0], "", "");
    }
    ExtractorsInvert(x, "", "");
  }

  lemma OperatorAccepts(s: string, x: string)
    ensures ExtractOperatorSessionID(s) == Some(x) <==> exists a, b :: IsOperator(s, a, b, x)
  {
    if Parts(Operator, s).Some? {
      PrintExtract(Operator, s);
      var ids := Parts(Operator, s).value;
      assert ids == [ids[0], ids[1], ids[2]];
      PrintersJoin(ids[0], ids[1], ids[2]);
      assert IsOperator(s, ids[0], ids[1], ids[2]);
    }
    if a, b :| IsOperator(s, a, b, x) {
      ExtractorsInvert(a, b, x);
    }
  }

  /** The identity of an operator with plain ids. */
  ghost predicate IsOperator(s: string, a: string, b: string, c: string) {
    PlainID(a) && PlainID(b) && PlainID(c) && s == OperatorSPIFFEID(a, b, c)
  }

  /** What each extractor accepts, and what it answers. */
  lemma ExtractorsAccept(s: string, x: string)
    ensures ExtractUserIDFromUserSAN(s) == Some(x) <==> PlainID(x) && s == UserSPIFFEID(x)
    ensures ExtractGatewayID(s) == Some(x) <==> PlainID(x) && s == GatewayPeerSPIFFEID(x)
    ensures ExtractOperatorSessionID(s) == Some(x) <==> exists a, b :: IsOperator(s, a, b, x)
  {
    UserAccepts(s, x);
    GatewayAccepts(s, x);
    OperatorAccepts(s, x);
  }
}
