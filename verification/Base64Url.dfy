/** base64urlToBuffer and bufferToBase64url (examples/external-console/app.js, lines 26-43). The
  * browser's btoa and atob are modelled by the WHATWG forgiving-base64 algorithms; the alphabets
  * and the padding are those of sections 4 and 5 of RFC 4648. */
module Base64Url {
  import opened Wrappers

  type byte = x: int | 0 <= x < 256
  type sextet = x: int | 0 <= x < 64

  // ---- bits ------------------------------------------------------------------

  // The four sextets of three bytes, and the three bytes of four sextets.
  function S0(a: byte): sextet { a / 4 }
  function S1(a: byte, b: byte): sextet { (a % 4) * 16 + b / 16 }
  function S2(b: byte, c: byte): sextet { (b % 16) * 4 + c / 64 }
  function S3(c: byte): sextet { c % 64 }
  function B0(x: sextet, y: sextet): byte { x * 4 + y / 16 }
  function B1(y: sextet, z: sextet): byte { (y % 16) * 16 + z / 4 }
  function B2(z: sextet, w: sextet): byte { (z % 4) * 64 + w }

  lemma GroupBytes(a: byte, b: byte, c: byte)
    ensures B0(S0(a), S1(a, b)) == a && B1(S1(a, b), S2(b, c)) == b && B2(S2(b, c), S3(c)) == c
  {
  }

  lemma GroupSextets(x: sextet, y: sextet, z: sextet, w: sextet)
    ensures S0(B0(x, y)) == x && S1(B0(x, y), B1(y, z)) == y && S2(B1(y, z), B2(z, w)) == z && S3(B2(z, w)) == w
    ensures y % 16 == 0 ==> S1(B0(x, y), 0) == y
    ensures z % 4 == 0 ==> S2(B1(y, z), 0) == z
  {
  }

  /** The bits of the bytes, six at a time, the last group filled with zeros. */
  function Sextets(b: seq<byte>): (x: seq<sextet>)
    ensures 8 * |b| <= 6 * |x| < 8 * |b| + 6
    ensures |x| % 4 != 1
  {
    if |b| == 0 then []
    else if |b| == 1 then [S0(b[0]), S1(b[0], 0)]
    else if |b| == 2 then [S0(b[0]), S1(b[0], b[1]), S2(b[1], 0)]
    else [S0(b[0]), S1(b[0], b[1]), S2(b[1], b[2]), S3(b[2])] + Sextets(b[3..])
  }

  /** The bits of the sextets, eight at a time, leftover bits dropped. */
  function Bytes(x: seq<sextet>): seq<byte> {
    if |x| < 2 then []
    else if |x| == 2 then [B0(x[0], x[1])]
    else if |x| == 3 then [B0(x[0], x[1]), B1(x[1], x[2])]
    else [B0(x[0], x[1]), B1(x[1], x[2]), B2(x[2], x[3])] + Bytes(x[4..])
  }

  lemma BytesCons(x: sextet, y: sextet, z: sextet, w: sextet, rest: seq<sextet>)
    ensures Bytes([x, y, z, w] + rest) == [B0(x, y), B1(y, z), B2(z, w)] + Bytes(rest)
  {
    assert ([x, y, z, w] + rest)[4..] == rest;
  }

  lemma SextetsCons(a: byte, b: byte, c: byte, rest: seq<byte>)
    ensures Sextets([a, b, c] + rest) == [S0(a), S1(a, b), S2(b, c), S3(c)] + Sextets(rest)
  {
    assert ([a, b, c] + rest)[3..] == rest;
  }

  lemma FirstByte(a: byte, b: byte)
    ensures B0(S0(a), S1(a, b)) == a
  {
  }

  lemma BytesOfTwo(x: sextet, y: sextet)
    ensures Bytes([x, y]) == [B0(x, y)]
  {
  }

  lemma OneByte(a: byte)
    ensures Bytes(Sextets([a])) == [a]
  {
    FirstByte(a, 0);
    BytesOfTwo(S0(a), S1(a, 0));
  }

  lemma TwoBytes(a: byte, b: byte)
    ensures Bytes(Sextets([a, b])) == [a, b]
  {
    GroupBytes(a, b, 0);
    var x := Sextets([a, b]);
    assert x == [S0(a), S1(a, b), S2(b, 0)];
  }

  lemma ThreeBytes(a: byte, b: byte, c: byte, rest: seq<byte>)
    requires Bytes(Sextets(rest)) == rest
    ensures Bytes(Sextets([a, b, c] + rest)) == [a, b, c] + rest
  {
    SextetsCons(a, b, c, rest);
    BytesCons(S0(a), S1(a, b), S2(b, c), S3(c), Sextets(rest));
    GroupBytes(a, b, c);
  }

  lemma {:induction false} BytesOfSextets(b: seq<byte>)
    ensures Bytes(Sextets(b)) == b
    decreases |b|
  {
    if |b| == 1 {
      OneByte(b[0]);
      assert b == [b[0]];
    } else if |b| == 2 {
      TwoBytes(b[0], b[1]);
      assert b == [b[0], b[1]];
    } else if |b| >= 3 {
      BytesOfSextets(b[3..]);
      ThreeBytes(b[0], b[1], b[2], b[3..]);
      assert b == [b[0], b[1], b[2]] + b[3..];
    }
  }

  /** The bits that do not make a whole byte are zero. */
  predicate TailZero(x: seq<sextet>) {
    && |x| % 4 != 1
    && (|x| % 4 == 2 ==> x[|x| - 1] % 16 == 0)
    && (|x| % 4 == 3 ==> x[|x| - 1] % 4 == 0)
  }

  lemma {:induction false} SextetsTailZero(b: seq<byte>)
    ensures TailZero(Sextets(b))
    decreases |b|
  {
    if |b| >= 3 {
      SextetsTailZero(b[3..]);
      assert Sextets(b)[4..] == Sextets(b[3..]);
      TailOfRest(Sextets(b));
    }
  }

  lemma TailOfRest(x: seq<sextet>)
    requires |x| >= 4
    ensures TailZero(x) <==> TailZero(x[4..])
  {
    assert |x| > 4 ==> x[|x| - 1] == x[4..][|x[4..]| - 1];
  }

  lemma {:induction false} SextetsOfBytes(x: seq<sextet>)
    requires TailZero(x)
    ensures Sextets(Bytes(x)) == x
    decreases |x|
  {
    if |x| == 2 {
      GroupSextets(x[0], x[1], 0, 0);
    } else if |x| == 3 {
      GroupSextets(x[0], x[1], x[2], 0);
    } else if |x| >= 4 {
      TailOfRest(x);
      SextetsOfBytes(x[4..]);
      SextetsCons(B0(x[0], x[1]), B1(x[1], x[2]), B2(x[2], x[3]), Bytes(x[4..]));
      GroupSextets(x[0], x[1], x[2], x[3]);
    }
  }

  // ---- alphabets -------------------------------------------------------------

  /** The alphabet of section 4. */
  function StdChar(v: sextet): char {
    if v < 26 then ('A' as int + v) as char
    else if v < 52 then ('a' as int + v - 26) as char
    else if v < 62 then ('0' as int + v - 52) as char
    else if v == 62 then '+' else '/'
  }

  function StdValue(c: char): Option<sextet> {
    if 'A' <= c <= 'Z' then Some(c as int - 'A' as int)
    else if 'a' <= c <= 'z' then Some(c as int - 'a' as int + 26)
    else if '0' <= c <= '9' then Some(c as int - '0' as int + 52)
    else if c == '+' then Some(62)
    else if c == '/' then Some(63)
    else None
  }

  /** The URL-safe alphabet of section 5. */
  function UrlChar(v: sextet): char {
    if v == 62 then '-' else if v == 63 then '_' else StdChar(v)
  }

  lemma StdInverse(v: sextet, c: char)
    ensures StdValue(c) == Some(v) <==> c == StdChar(v)
  {
  }

  function StdText(x: seq<sextet>): (s: string)
    ensures |s| == |x| && forall i :: 0 <= i < |x| ==> s[i] == StdChar(x[i])
  {
    seq(|x|, i requires 0 <= i < |x| => StdChar(x[i]))
  }

  function UrlText(x: seq<sextet>): (s: string)
    ensures |s| == |x| && forall i :: 0 <= i < |x| ==> s[i] == UrlChar(x[i])
  {
    seq(|x|, i requires 0 <= i < |x| => UrlChar(x[i]))
  }

  /** The two alphabets, as RFC 4648 lists them. */
  lemma AlphabetsAre(v: sextet)
    ensures v < 26 ==> UrlChar(v) == StdChar(v) == "ABCDEFGHIJKLMNOPQRSTUVWXYZ"[v]
    ensures 26 <= v < 52 ==> UrlChar(v) == StdChar(v) == "abcdefghijklmnopqrstuvwxyz"[v - 26]
    ensures 52 <= v < 62 ==> UrlChar(v) == StdChar(v) == "0123456789"[v - 52]
    ensures StdChar(62) == '+' && StdChar(63) == '/' && UrlChar(62) == '-' && UrlChar(63) == '_'
  {
  }

  // ---- string operations -----------------------------------------------------

  /** Replacing every occurrence of one character by another. */
  function ReplaceChar(s: string, a: char, b: char): (r: string)
    ensures |r| == |s| && forall i :: 0 <= i < |s| ==> r[i] == if s[i] == a then b else s[i]
  {
    seq(|s|, i requires 0 <= i < |s| => if s[i] == a then b else s[i])
  }

  /** The characters of s for which drop is false. */
  function Remove(s: string, drop: char -> bool): string {
    if s == "" then "" else Remove(s[..|s| - 1], drop) + (if drop(s[|s| - 1]) then "" else [s[|s| - 1]])
  }

  lemma {:induction false} RemoveNothing(s: string, drop: char -> bool)
    requires forall i :: 0 <= i < |s| ==> !drop(s[i])
    ensures Remove(s, drop) == s
    decreases |s|
  {
    if s != "" { RemoveNothing(s[..|s| - 1], drop); }
  }

  lemma {:induction false} RemoveSuffix(s: string, t: string, drop: char -> bool)
    requires forall i :: 0 <= i < |t| ==> drop(t[i])
    ensures Remove(s + t, drop) == Remove(s, drop)
    decreases |t|
  {
    if t == "" {
      assert s + t == s;
    } else {
      assert (s + t)[..|s + t| - 1] == s + t[..|t| - 1];
      RemoveSuffix(s, t[..|t| - 1], drop);
    }
  }

  // ---- btoa and atob ---------------------------------------------------------

  predicate IsBinary(s: string) { forall i :: 0 <= i < |s| ==> s[i] as int < 256 }

  /** The bytes of a binary string, one per character. */
  function ByteValues(s: string): (b: seq<byte>)
    requires IsBinary(s)
    ensures |b| == |s| && forall i :: 0 <= i < |s| ==> b[i] == s[i] as int
  {
    seq(|s|, i requires 0 <= i < |s| => s[i] as int)
  }

  function BinaryString(b: seq<byte>): (s: string)
    ensures |s| == |b| && IsBinary(s) && forall i :: 0 <= i < |b| ==> s[i] == b[i] as char
  {
    seq(|b|, i requires 0 <= i < |b| => b[i] as char)
  }

  /** The padding that fills the last group of four. */
  function Padding(n: nat): string {
    if n % 4 == 2 then "==" else if n % 4 == 3 then "=" else ""
  }

  function Btoa(binary: string): string
    requires IsBinary(binary)
  {
    var text := StdText(Sextets(ByteValues(binary)));
    text + Padding(|text|)
  }

  predicate IsAsciiSpace(c: char) {
    c == '\t' || c == '\n' || c == 12 as char || c == '\r' || c == ' '
  }

  /** One or two trailing '=' go, when the length is a multiple of four. */
  function DropPadding(s: string): string {
    if |s| % 4 != 0 || s == "" || s[|s| - 1] != '=' then s
    else if s[|s| - 2] != '=' then s[..|s| - 1]
    else s[..|s| - 2]
  }

  predicate InAlphabet(s: string) { forall i :: 0 <= i < |s| ==> StdValue(s[i]).Some? }

  function Values(s: string): (x: seq<sextet>)
    requires InAlphabet(s)
    ensures |x| == |s| && forall i :: 0 <= i < |s| ==> x[i] == StdValue(s[i]).value
  {
    seq(|s|, i requires 0 <= i < |s| => StdValue(s[i]).value)
  }

  /** None is the InvalidCharacterError. */
  function Atob(s: string): (r: Option<string>)
    ensures r.Some? ==> IsBinary(r.value)
  {
    var data := DropPadding(Remove(s, IsAsciiSpace));
    if |data| % 4 == 1 || !InAlphabet(data) then None else Some(BinaryString(Bytes(Values(data))))
  }

  // ---- the codec -------------------------------------------------------------

  /** bufferToBase64url, as a function of the bytes. */
  function Encode(b: seq<byte>): string {
    Remove(ReplaceChar(ReplaceChar(Btoa(BinaryString(b)), '+', '-'), '/', '_'), c => c == '=')
  }

  /** The text handed to atob: alphabet restored, and length % 4 padding. */
  function Repadded(s: string): string {
    var base64 := ReplaceChar(ReplaceChar(s, '-', '+'), '_', '/');
    base64 + PadFor(|base64|)
  }

  function PadFor(n: nat): (pad: string)
    ensures forall i :: 0 <= i < |pad| ==> pad[i] == '='
  {
    if n % 4 == 0 then "" else seq(4 - n % 4, _ => '=')
  }

  /** base64urlToBuffer, as a function of the text. */
  function Decode(s: string): Option<seq<byte>> {
    match Atob(Repadded(s))
    case None => None
    case Some(binary) => Some(ByteValues(binary))
  }

  /** The encoding loop: one character per byte, then btoa and the three replacements. */
  method BufferToBase64url(bytes: seq<byte>) returns (r: string)
    ensures r == Encode(bytes)
  {
    var binary := "";
    for i := 0 to |bytes|
      invariant |binary| == i && forall k :: 0 <= k < i ==> binary[k] == bytes[k] as char
    {
      binary := binary + [bytes[i] as char];
    }
    assert binary == BinaryString(bytes);
    r := Remove(ReplaceChar(ReplaceChar(Btoa(binary), '+', '-'), '/', '_'), c => c == '=');
  }

  /** The decoding loop: fill a fresh array with the character codes of what atob returns. */
  method Base64urlToBuffer(base64url: string) returns (r: Option<array<byte>>)
    ensures r.Some? <==> Decode(base64url).Some?
    ensures r.Some? ==> fresh(r.value) && r.value[..] == Decode(base64url).value
  {
    var decoded := Atob(Repadded(base64url));
    if decoded.None? {
      return None;
    }
    var binary := decoded.value;
    var bytes := new byte[|binary|];
    for i := 0 to |binary|
      invariant forall k :: 0 <= k < i ==> bytes[k] == binary[k] as int
    {
      bytes[i] := binary[i] as int;
    }
    assert bytes[..] == ByteValues(binary);
    r := Some(bytes);
  }

  // ---- round trips -----------------------------------------------------------

  lemma BinaryRoundTrip(b: seq<byte>)
    ensures ByteValues(BinaryString(b)) == b
  {
  }

  lemma ToUrlAlphabet(x: seq<sextet>, pad: string)
    requires forall i :: 0 <= i < |pad| ==> pad[i] == '='
    ensures ReplaceChar(ReplaceChar(StdText(x) + pad, '+', '-'), '/', '_') == UrlText(x) + pad
  {
  }

  /** The encoding is the URL-safe text of the bits, without padding. */
  lemma EncodeIsUrlText(b: seq<byte>)
    ensures Encode(b) == UrlText(Sextets(b))
  {
    BinaryRoundTrip(b);
    var x := Sextets(b);
    var pad := Padding(|x|);
    ToUrlAlphabet(x, pad);
    RemoveSuffix(UrlText(x), pad, c => c == '=');
    RemoveNothing(UrlText(x), c => c == '=');
  }

  /** Text of the right length is given back the padding it was stripped of. */
  lemma RepaddedText(x: seq<sextet>)
    requires |x| % 4 != 1
    ensures Repadded(UrlText(x)) == StdText(x) + Padding(|x|)
  {
    var base64 := ReplaceChar(ReplaceChar(UrlText(x), '-', '+'), '_', '/');
    assert base64 == StdText(x);
  }

  /** The length % 4 rule restores exactly what encoding stripped. */
  lemma PaddingRestored(b: seq<byte>)
    ensures Repadded(Encode(b)) == Btoa(BinaryString(b))
  {
    EncodeIsUrlText(b);
    BinaryRoundTrip(b);
    RepaddedText(Sextets(b));
  }

  lemma StdTextValues(x: seq<sextet>)
    ensures InAlphabet(StdText(x)) && Values(StdText(x)) == x
    ensures forall i :: 0 <= i < |x| ==> StdText(x)[i] != '=' && !IsAsciiSpace(StdText(x)[i])
  {
    forall i | 0 <= i < |x| ensures StdValue(StdText(x)[i]) == Some(x[i]) { StdInverse(x[i], StdText(x)[i]); }
  }

  lemma PaddingDropped(text: string)
    requires |text| % 4 != 1 && forall i :: 0 <= i < |text| ==> text[i] != '='
    ensures DropPadding(text + Padding(|text|)) == text
  {
    var s := text + Padding(|text|);
    assert s[..|text|] == text;
  }

  lemma AtobOfText(x: seq<sextet>)
    requires |x| % 4 != 1
    ensures Atob(StdText(x) + Padding(|x|)) == Some(BinaryString(Bytes(x)))
  {
    StdTextValues(x);
    PaddingDropped(StdText(x));
    RemoveNothing(StdText(x) + Padding(|x|), IsAsciiSpace);
  }

  lemma DecodeOfText(x: seq<sextet>)
    requires |x| % 4 != 1
    ensures Decode(UrlText(x)) == Some(Bytes(x))
  {
    RepaddedText(x);
    AtobOfText(x);
    BinaryRoundTrip(Bytes(x));
  }

  /** Decoding undoes encoding, for every sequence of bytes. */
  lemma DecodeEncode(b: seq<byte>)
    ensures Decode(Encode(b)) == Some(b)
  {
    EncodeIsUrlText(b);
    DecodeOfText(Sextets(b));
    BytesOfSextets(b);
  }

  /** The encoding is URL-safe, unpadded, and as short as its bits allow. */
  lemma EncodeUrlSafe(b: seq<byte>)
    ensures '+' !in Encode(b) && '/' !in Encode(b) && '=' !in Encode(b)
    ensures 8 * |b| <= 6 * |Encode(b)| < 8 * |b| + 6
  {
    EncodeIsUrlText(b);
  }

  /** What encoding produces: URL-safe text with no leftover bits set. */
  ghost predicate IsCanonical(s: string) {
    exists x :: TailZero(x) && s == UrlText(x)
  }

  /** Encoding undoes decoding exactly on canonical text; other spellings decoding accepts
    * ('+', '/', padding, blanks, stray bits) are not given back. */
  lemma EncodeDecodeIff(s: string)
    ensures Decode(s).Some? && Encode(Decode(s).value) == s <==> IsCanonical(s)
  {
    if Decode(s).Some? && Encode(Decode(s).value) == s {
      var b := Decode(s).value;
      EncodeIsUrlText(b);
      SextetsTailZero(b);
    }
    if IsCanonical(s) {
      var x :| TailZero(x) && s == UrlText(x);
      DecodeOfText(x);
      EncodeIsUrlText(Bytes(x));
      SextetsOfBytes(x);
    }
  }

  predicate InEitherAlphabet(c: char) { StdValue(c).Some? || c == '-' || c == '_' }

  /** The alphabet restored, as a function. */
  function Restored(s: string): (t: string)
    ensures |t| == |s|
    ensures forall i :: 0 <= i < |s| ==> t[i] == if s[i] == '-' then '+' else if s[i] == '_' then '/' else s[i]
  {
    ReplaceChar(ReplaceChar(s, '-', '+'), '_', '/')
  }

  lemma RestoredAlphabet(s: string)
    ensures InAlphabet(Restored(s)) <==> forall i :: 0 <= i < |s| ==> InEitherAlphabet(s[i])
  {
    var t := Restored(s);
    forall i | 0 <= i < |t| ensures StdValue(t[i]).Some? <==> InEitherAlphabet(s[i]) {}
  }

  /** Restoring the alphabet neither makes nor hides blanks. */
  lemma {:induction false} RemoveRestored(s: string)
    ensures Remove(Restored(s), IsAsciiSpace) == Restored(Remove(s, IsAsciiSpace))
    decreases |s|
  {
    if s != "" {
      var n := |s| - 1;
      RemoveRestored(s[..n]);
      assert Restored(s)[..n] == Restored(s[..n]);
      assert IsAsciiSpace(Restored(s)[n]) <==> IsAsciiSpace(s[n]);
      assert Restored(Remove(s[..n], IsAsciiSpace) + [s[n]]) ==
             Restored(Remove(s[..n], IsAsciiSpace)) + [Restored(s)[n]];
    }
  }

  lemma {:induction false} RemoveKeeps(s: string, t: string, drop: char -> bool)
    requires forall i :: 0 <= i < |t| ==> !drop(t[i])
    ensures Remove(s + t, drop) == Remove(s, drop) + t
    decreases |t|
  {
    if t == "" {
      assert s + t == s;
    } else {
      assert (s + t)[..|s + t| - 1] == s + t[..|t| - 1];
      RemoveKeeps(s, t[..|t| - 1], drop);
    }
  }

  function Pads(n: nat): (p: string)
    ensures |p| == n && forall i :: 0 <= i < n ==> p[i] == '='
  {
    seq(n, _ => '=')
  }

  /** How many '=' the text ends in. */
  function TrailingPads(c: string): (n: nat)
    ensures n <= |c|
  {
    if c == "" || c[|c| - 1] != '=' then 0 else 1 + TrailingPads(c[..|c| - 1])
  }

  lemma NoPads(c: string)
    ensures c + Pads(0) == c
  {
  }

  lemma LastApart(c: string)
    requires c != ""
    ensures c == c[..|c| - 1] + [c[|c| - 1]]
  {
  }

  lemma OneMorePad(body: string, n: nat)
    ensures body + Pads(n + 1) == (body + Pads(n)) + ['=']
  {
  }

  lemma BodyOfPadded(body: string, pads: string)
    ensures (body + pads)[..|body + pads| - |pads|] == body
  {
  }

  lemma {:induction false} PadsApart(c: string) returns (body: string)
    ensures c == body + Pads(TrailingPads(c)) && (body == "" || body[|body| - 1] != '=')
    decreases |c|
  {
    if c == "" || c[|c| - 1] != '=' {
      body := c;
      NoPads(c);
    } else {
      body := PadsApart(c[..|c| - 1]);
      LastApart(c);
      OneMorePad(body, TrailingPads(c[..|c| - 1]));
    }
  }

  /** What is left of padded text is text alone only when the padding is one or two characters
    * and fills a group of four. */
  lemma DropPads(t: string, q: nat)
    requires t == "" || t[|t| - 1] != '='
    ensures var whole, fits := t + Pads(q), q == 0 || (q <= 2 && (|t| + q) % 4 == 0);
      && (fits ==> DropPadding(whole) == t)
      && (!fits ==> '=' in DropPadding(whole))
  {
    var whole := t + Pads(q);
    if q > 0 && |whole| % 4 == 0 {
      if q == 1 {
        assert whole[|whole| - 2] == t[|t| - 1];
        assert whole[..|whole| - 1] == t;
      } else {
        assert whole[..|whole| - 2] == t + Pads(q - 2);
        assert q > 2 ==> Pads(q - 2)[0] in t + Pads(q - 2);
        assert q == 2 ==> t + Pads(q - 2) == t;
      }
    } else if q > 0 {
      assert whole[|whole| - 1] == '=';
    } else {
      assert whole == t;
    }
  }

  lemma PadNotInAlphabet(t: string)
    requires '=' in t
    ensures !InAlphabet(t)
  {
    var i :| 0 <= i < |t| && t[i] == '=';
    assert StdValue(t[i]).None?;
  }

  /** No padding beside n characters that can be a whole encoding, or one or two that fill the
    * last group of four. */
  predicate PaddingFits(n: nat, q: nat) {
    if q == 0 then n % 4 != 1 else q <= 2 && (n + q) % 4 == 0
  }

  /** What atob makes of text, once its blanks are gone. */
  lemma AtobAccepts(s: string, t: string, q: nat)
    requires Remove(s, IsAsciiSpace) == t + Pads(q) && (t == "" || t[|t| - 1] != '=')
    ensures Atob(s).Some? <==> InAlphabet(t) && PaddingFits(|t|, q)
  {
    DropPads(t, q);
    var data := DropPadding(t + Pads(q));
    if '=' in data { PadNotInAlphabet(data); }
  }

  /** Text for decoding, without its blanks. */
  function Unspaced(s: string): string { Remove(s, IsAsciiSpace) }

  /** And without the '=' it then ends in. */
  function Body(s: string): string { Unspaced(s)[..|Unspaced(s)| - TrailingPads(Unspaced(s))] }

  /** The padding atob sees: the text's own, and what the length rule adds for its full length. */
  function PadCount(s: string): nat { TrailingPads(Unspaced(s)) + |PadFor(|s|)| }

  lemma GluePads(c: string, body: string, own: nat, pad: string)
    requires c == body + Pads(own) && forall i :: 0 <= i < |pad| ==> pad[i] == '='
    ensures Restored(c) + pad == Restored(body) + Pads(own + |pad|)
  {
    assert Restored(c) == Restored(body) + Pads(own);
    assert Pads(own) + pad == Pads(own + |pad|);
    AppendAssociates(Restored(body), Pads(own), pad);
  }

  lemma AppendAssociates(a: string, b: string, c: string)
    ensures (a + b) + c == a + (b + c)
  {
  }

  lemma RepaddedUnspaced(s: string)
    ensures Remove(Repadded(s), IsAsciiSpace) == Restored(Unspaced(s)) + PadFor(|s|)
  {
    RemoveKeeps(Restored(s), PadFor(|s|), IsAsciiSpace);
    RemoveRestored(s);
  }

  lemma BodySplit(s: string)
    ensures Unspaced(s) == Body(s) + Pads(TrailingPads(Unspaced(s)))
    ensures Body(s) == "" || Body(s)[|Body(s)| - 1] != '='
  {
    var body := PadsApart(Unspaced(s));
    BodyOfPadded(body, Pads(TrailingPads(Unspaced(s))));
  }

  lemma RepaddedBody(s: string)
    ensures Remove(Repadded(s), IsAsciiSpace) == Restored(Body(s)) + Pads(PadCount(s))
  {
    var c, pad := Unspaced(s), PadFor(|s|);
    RepaddedUnspaced(s);
    BodySplit(s);
    GluePads(c, Body(s), TrailingPads(c), pad);
  }

  /** Decoding accepts a text, whatever it is, exactly when its body is in the alphabets and the
    * padding is none beside a body of possible length, or fills the last group of the body. */
  lemma DecodeAcceptsIff(s: string)
    ensures Decode(s).Some? <==>
      && (forall i :: 0 <= i < |Body(s)| ==> InEitherAlphabet(Body(s)[i]))
      && PaddingFits(|Body(s)|, PadCount(s))
  {
    RepaddedBody(s);
    BodySplit(s);
    AtobAccepts(Repadded(s), Restored(Body(s)), PadCount(s));
    RestoredAlphabet(Body(s));
  }

  lemma PlainBody(s: string)
    requires forall i :: 0 <= i < |s| ==> s[i] != '=' && !IsAsciiSpace(s[i])
    ensures Body(s) == s && PadCount(s) == |PadFor(|s|)|
  {
    RemoveNothing(s, IsAsciiSpace);
    assert TrailingPads(s) == 0;
    assert s[..|s|] == s;
  }

  lemma PlainPadding(n: nat)
    ensures PaddingFits(n, |PadFor(n)|) <==> n % 4 != 1
  {
  }

  /** On text without blanks or padding, decoding fails exactly when a character is in neither
    * alphabet or the length is one more than a multiple of four. */
  lemma DecodePlainIff(s: string)
    requires forall i :: 0 <= i < |s| ==> s[i] != '=' && !IsAsciiSpace(s[i])
    ensures Decode(s).Some? <==> |s| % 4 != 1 && forall i :: 0 <= i < |s| ==> InEitherAlphabet(s[i])
  {
    PlainBody(s);
    DecodeAcceptsIff(s);
    PlainPadding(|s|);
  }

  /** The padding added is what fills the last group of four, for every length. */
  lemma PadForIs(n: nat)
    ensures (n + |PadFor(n)|) % 4 == 0 && |PadFor(n)| < 4
  {
  }

  /** The blanks that atob drops: tab, newline, form feed, carriage return and space. */
  lemma AsciiSpacesAre(c: char)
    ensures IsAsciiSpace(c) <==> c as int in {0x09, 0x0A, 0x0C, 0x0D, 0x20}
  {
  }

  /** The number whose digits to base 64 are the sextets, most significant first. */
  function Number64(x: seq<sextet>): int {
    if x == [] then 0 else Number64(x[..|x| - 1]) * 64 + x[|x| - 1] as int
  }

  /** The bits of three bytes are those of their four sextets, and the bits of fewer bytes, filled
    * with zeros, those of fewer sextets. */
  lemma BitsAre(a: byte, b: byte, c: byte)
    ensures Number64(Sextets([a, b, c])) == (a as int * 256 + b as int) * 256 + c as int
    ensures Number64(Sextets([a, b])) == (a as int * 256 + b as int) * 4
    ensures Number64(Sextets([a])) == a as int * 16
  {
    assert [a, b, c][3..] == [];
    assert Sextets([a, b, c]) == [S0(a), S1(a, b), S2(b, c), S3(c)];
    assert Sextets([a, b]) == [S0(a), S1(a, b), S2(b, 0)];
    assert Sextets([a]) == [S0(a), S1(a, 0)];
    NumberOf(S0(a), S1(a, b), S2(b, c), S3(c));
    NumberOf(S0(a), S1(a, b), S2(b, 0), 0);
    NumberOf(S0(a), S1(a, 0), 0, 0);
  }

  lemma NumberOf(x: sextet, y: sextet, z: sextet, w: sextet)
    ensures Number64([x, y]) == x as int * 64 + y as int
    ensures Number64([x, y, z]) == (x as int * 64 + y as int) * 64 + z as int
    ensures Number64([x, y, z, w]) == ((x as int * 64 + y as int) * 64 + z as int) * 64 + w as int
  {
    assert [x][..0] == [] && [x, y][..1] == [x] && [x, y, z][..2] == [x, y] && [x, y, z, w][..3] == [x, y, z];
    assert Number64([x]) == x as int;
  }

  /** Distinct byte sequences have distinct encodings. */
  lemma EncodeInjective(a: seq<byte>, b: seq<byte>)
    requires Encode(a) == Encode(b)
    ensures a == b
  {
    DecodeEncode(a);
    DecodeEncode(b);
  }
}
