/** Tokens of Go source text, as the analyser keeps them. */
module GoTokens {

  datatype Kind = Name | Number | Text | Operator

  datatype Token = Token(value: string, start: nat, end: nat, line: nat, kind: Kind)

  const GO_KEYWORDS: set<string> := {
    "break", "case", "chan", "const", "continue", "default", "defer", "else", "fallthrough",
    "for", "func", "go", "goto", "if", "import", "interface", "map", "package", "range",
    "return", "select", "struct", "switch", "type", "var", "true", "false", "nil"}

  /** The characters that may start a name token. */
  predicate IsNameStart(c: char) {
    'a' <= c <= 'z' || 'A' <= c <= 'Z' || c == '_'
  }

  predicate IsUpper(c: char) { 'A' <= c <= 'Z' }

  predicate IsLower(c: char) { 'a' <= c <= 'z' }

  /** What the lexer guarantees of each token it keeps: the first character tells names
    * from everything else. */
  predicate WellLexedToken(t: Token) {
    t.value != "" && (t.kind == Name <==> IsNameStart(t.value[0]))
  }

  predicate WellLexed(ts: seq<Token>) {
    forall i :: 0 <= i < |ts| ==> WellLexedToken(ts[i])
  }

  /** The values of a token sequence. */
  function Values(ts: seq<Token>): (vs: seq<string>)
    ensures |vs| == |ts|
    ensures forall i :: 0 <= i < |ts| ==> vs[i] == ts[i].value
  {
    seq(|ts|, i requires 0 <= i < |ts| => ts[i].value)
  }
}
