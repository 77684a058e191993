/** The `application/x-www-form-urlencoded` query format: how the client's
    `URLSearchParams` turns name/value pairs into the text after `?`, and how
    the server's query parser turns that text back into pairs, for text
    whose bytes are well-formed UTF-8 (all the client ever writes).
    Characters are first encoded as UTF-8 bytes; a space becomes `+`, the
    bytes of `*-._0-9A-Za-z` stay as they are, and every other byte becomes
    `%HH`. */
module FormEncoding {

  import opened Optional
  import opened Text

  type Byte = b: int | 0 <= b < 256

  /** A name/value pair of a query string. */
  type Param = (string, string)

  // ---------------------------------------------------------------- UTF-8

  /** The UTF-8 encoding of one Unicode scalar value. */
  function Utf8(c: char): (bs: seq<Byte>)
    ensures 1 <= |bs| <= 4
  {
    var cp := c as int;
    if cp < 0x80 then [cp]
    else if cp < 0x800 then [0xC0 + cp / 64, 0x80 + cp % 64]
    else if cp < 0x10000 then [0xE0 + cp / 4096, 0x80 + cp / 64 % 64, 0x80 + cp % 64]
    else [0xF0 + cp / 262144, 0x80 + cp / 4096 % 64, 0x80 + cp / 64 % 64, 0x80 + cp % 64]
  }

  function Utf8String(s: string): seq<Byte>
  {
    if s == [] then [] else Utf8(s[0]) + Utf8String(s[1..])
  }

  predicate IsContinuation(b: Byte) {
    0x80 <= b < 0xC0
  }

  /** The six value bits of a continuation byte. */
  function Payload(b: Byte): int {
    b as int - 0x80
  }

  /** A code point as a character, when it is a Unicode scalar value. */
  function Scalar(cp: int, width: nat): Option<(char, nat)> {
    if 0 <= cp < 0xD800 || 0xE000 <= cp < 0x11_0000 then Some((cp as char, width)) else None
  }

  /** The character whose encoding starts `bs`, with the number of bytes it
      takes; `None` when `bs` does not start with a well-formed sequence. */
  function DecodeChar(bs: seq<Byte>): (r: Option<(char, nat)>)
    requires |bs| > 0
    ensures r.Some? ==> 1 <= r.value.1 <= |bs|
  {
    var b0: int := bs[0];
    if b0 < 0x80 then Some((b0 as char, 1))
    else if 0xC0 <= b0 < 0xE0 && |bs| >= 2 && IsContinuation(bs[1]) then
      Scalar((b0 - 0xC0) * 64 + Payload(bs[1]), 2)
    else if 0xE0 <= b0 < 0xF0 && |bs| >= 3 && IsContinuation(bs[1]) && IsContinuation(bs[2]) then
      Scalar(((b0 - 0xE0) * 64 + Payload(bs[1])) * 64 + Payload(bs[2]), 3)
    else if 0xF0 <= b0 < 0xF8 && |bs| >= 4 && IsContinuation(bs[1]) && IsContinuation(bs[2]) && IsContinuation(bs[3]) then
      Scalar((((b0 - 0xF0) * 64 + Payload(bs[1])) * 64 + Payload(bs[2])) * 64 + Payload(bs[3]), 4)
    else None
  }

  /** The text a byte sequence encodes in UTF-8; `None` if it is malformed. */
  function DecodeUtf8(bs: seq<Byte>): Option<string>
    decreases |bs|
  {
    if bs == [] then Some([])
    else match DecodeChar(bs)
      case None => None
      case Some((c, n)) =>
        match DecodeUtf8(bs[n..])
        case None => None
        case Some(rest) => Some([c] + rest)
  }

  lemma TwoByteValue(cp: int)
    requires 0x80 <= cp < 0x800
    ensures (cp / 64) * 64 + cp % 64 == cp
  {
  }

  lemma ThreeByteValue(cp: int)
    requires 0x800 <= cp < 0x10000
    ensures ((cp / 4096) * 64 + cp / 64 % 64) * 64 + cp % 64 == cp
  {
    var q := cp / 64;
    assert cp == q * 64 + cp % 64;
    assert q / 64 == cp / 4096;
    assert q == (q / 64) * 64 + q % 64;
  }

  lemma FourByteValue(cp: int)
    requires 0x10000 <= cp < 0x11_0000
    ensures (((cp / 262144) * 64 + cp / 4096 % 64) * 64 + cp / 64 % 64) * 64 + cp % 64 == cp
  {
    var q := cp / 64;
    var q2 := cp / 4096;
    assert cp == q * 64 + cp % 64;
    assert q / 64 == q2;
    assert q == q2 * 64 + q % 64;
    assert q2 / 64 == cp / 262144;
    assert q2 == (q2 / 64) * 64 + q2 % 64;
  }

  lemma DecodeCharOfUtf8(c: char, rest: seq<Byte>)
    ensures DecodeChar(Utf8(c) + rest) == Some((c, |Utf8(c)|))
  {
    var cp := c as int;
    var bs := Utf8(c) + rest;
    if cp < 0x80 {
    } else if cp < 0x800 {
      assert bs[0] as int == 0xC0 + cp / 64 && Payload(bs[1]) == cp % 64;
      TwoByteValue(cp);
    } else if cp < 0x10000 {
      assert bs[0] as int == 0xE0 + cp / 4096;
      assert Payload(bs[1]) == cp / 64 % 64 && Payload(bs[2]) == cp % 64;
      ThreeByteValue(cp);
    } else {
      assert bs[0] as int == 0xF0 + cp / 262144 && Payload(bs[1]) == cp / 4096 % 64;
      assert Payload(bs[2]) == cp / 64 % 64 && Payload(bs[3]) == cp % 64;
      FourByteValue(cp);
    }
  }

  /** Decoding the UTF-8 encoding of a string gives the string back. */
  lemma {:induction false} DecodeUtf8OfEncoding(s: string)
    ensures DecodeUtf8(Utf8String(s)) == Some(s)
    decreases |s|
  {
    if s != [] {
      var bs := Utf8String(s);
      DecodeCharOfUtf8(s[0], Utf8String(s[1..]));
      assert bs[|Utf8(s[0])|..] == Utf8String(s[1..]);
      DecodeUtf8OfEncoding(s[1..]);
      assert [s[0]] + s[1..] == s;
    }
  }

  // ------------------------------------------------------- percent encoding

  /** The bytes the serializer leaves as they are: `*`, `-`, `.`, digits,
      ASCII letters and `_`. */
  predicate Unreserved(b: Byte) {
    b == 0x2A || b == 0x2D || b == 0x2E || (0x30 <= b <= 0x39) || (0x41 <= b <= 0x5A)
    || b == 0x5F || (0x61 <= b <= 0x7A)
  }

  function HexDigit(d: int): char
    requires 0 <= d < 16
  {
    "0123456789ABCDEF"[d]
  }

  /** The value of a hexadecimal digit of either case. */
  function HexValue(c: char): Option<int> {
    if '0' <= c <= '9' then Some(c as int - '0' as int)
    else if 'A' <= c <= 'F' then Some(c as int - 'A' as int + 10)
    else if 'a' <= c <= 'f' then Some(c as int - 'a' as int + 10)
    else None
  }

  function EncodeByte(b: Byte): (r: string)
    ensures 1 <= |r| <= 3
    ensures forall i | 0 <= i < |r| :: r[i] != '&' && r[i] != '='
  {
    if b == 0x20 then "+"
    else if Unreserved(b) then [b as char]
    else ['%', HexDigit(b / 16), HexDigit(b % 16)]
  }

  function EncodeBytes(bs: seq<Byte>): (r: string)
    ensures forall i | 0 <= i < |r| :: r[i] != '&' && r[i] != '='
  {
    if bs == [] then [] else EncodeByte(bs[0]) + EncodeBytes(bs[1..])
  }

  /** One query name or value as the serializer writes it. */
  function EncodeComponent(s: string): (r: string)
    ensures forall i | 0 <= i < |r| :: r[i] != '&' && r[i] != '='
  {
    EncodeBytes(Utf8String(s))
  }

  /** The bytes a query name or value stands for: `+` is a space, `%HH` is
      that byte, a `%` without two hexadecimal digits is itself, and any other
      character stands for its own UTF-8 encoding. */
  function DecodeBytes(s: string): seq<Byte>
    decreases |s|
  {
    if s == [] then []
    else if s[0] == '+' then [0x20] + DecodeBytes(s[1..])
    else if s[0] == '%' && |s| >= 3 && HexValue(s[1]).Some? && HexValue(s[2]).Some? then
      [HexValue(s[1]).value * 16 + HexValue(s[2]).value] + DecodeBytes(s[3..])
    else Utf8(s[0]) + DecodeBytes(s[1..])
  }

  lemma DecodeBytesOfByte(b: Byte, rest: string)
    ensures DecodeBytes(EncodeByte(b) + rest) == [b] + DecodeBytes(rest)
  {
    if b == 0x20 {
      DecodePlus(rest);
    } else if Unreserved(b) {
      DecodeUnreserved(b, rest);
    } else {
      DecodePercent(b / 16, b % 16, rest);
    }
  }

  /** `+` reads back as a space. */
  lemma DecodePlus(rest: string)
    ensures DecodeBytes("+" + rest) == [0x20] + DecodeBytes(rest)
  {
    assert ("+" + rest)[1..] == rest;
  }

  /** A byte the encoder leaves alone reads back as itself. */
  lemma DecodeUnreserved(b: Byte, rest: string)
    requires Unreserved(b)
    ensures DecodeBytes([b as char] + rest) == [b] + DecodeBytes(rest)
  {
    var s := [b as char] + rest;
    assert s[0] == b as char && s[1..] == rest;
    assert Utf8(b as char) == [b];
  }

  /** `%HH` reads back as the byte it encodes. */
  lemma DecodePercent(hi: int, lo: int, rest: string)
    requires 0 <= hi < 16 && 0 <= lo < 16
    ensures DecodeBytes(['%', HexDigit(hi), HexDigit(lo)] + rest) == [hi * 16 + lo] + DecodeBytes(rest)
  {
    var s := ['%', HexDigit(hi), HexDigit(lo)] + rest;
    assert s[0] == '%' && s[1] == HexDigit(hi) && s[2] == HexDigit(lo) && s[3..] == rest;
    HexValueOfDigit(hi);
    HexValueOfDigit(lo);
  }

  /** Every hexadecimal digit the encoder writes reads back as its value. */
  lemma HexValueOfDigit(d: int)
    requires 0 <= d < 16
    ensures HexValue(HexDigit(d)) == Some(d)
  {
  }

  lemma {:induction false} DecodeBytesOfEncoding(bs: seq<Byte>)
    ensures DecodeBytes(EncodeBytes(bs)) == bs
    decreases |bs|
  {
    if bs != [] {
      DecodeBytesOfByte(bs[0], EncodeBytes(bs[1..]));
      DecodeBytesOfEncoding(bs[1..]);
    }
  }

  /** A query name or value as the server reads it, when its bytes are
      well-formed UTF-8; `None` otherwise, where Python's decoder would put
      U+FFFD in place of the malformed bytes. */
  function DecodeComponent(s: string): Option<string> {
    DecodeUtf8(DecodeBytes(s))
  }

  /** Every string survives encoding followed by decoding. */
  lemma DecodeComponentOfEncoding(s: string)
    ensures DecodeComponent(EncodeComponent(s)) == Some(s)
  {
    DecodeBytesOfEncoding(Utf8String(s));
    DecodeUtf8OfEncoding(s);
  }

  // ----------------------------------------------------------- query strings

  function SerializePair(p: Param): string {
    EncodeComponent(p.0) + "=" + EncodeComponent(p.1)
  }

  function SerializePairs(ps: seq<Param>): (r: seq<string>)
    ensures |r| == |ps|
    ensures forall i | 0 <= i < |r| :: r[i] == SerializePair(ps[i])
  {
    if ps == [] then [] else [SerializePair(ps[0])] + SerializePairs(ps[1..])
  }

  /** `URLSearchParams.toString()`: the encoded pairs joined by `&`. */
  function Serialize(ps: seq<Param>): string {
    Join(SerializePairs(ps), "&")
  }

  /** The pieces of `s` between occurrences of `sep` (Python's `str.split`). */
  function Split(s: string, sep: char): (r: seq<string>)
    ensures |r| >= 1
  {
    if s == [] then [""]
    else if s[0] == sep then [""] + Split(s[1..], sep)
    else var t := Split(s[1..], sep); [[s[0]] + t[0]] + t[1..]
  }

  /** One `name=value` piece; a piece without `=` has an empty value. */
  function ParsePair(piece: string): Option<Param> {
    var (n, v) := SplitFirst(piece, '=');
    match (DecodeComponent(n), DecodeComponent(v.GetOr("")))
    case (Some(name), Some(value)) => Some((name, value))
    case _ => None
  }

  function ParsePieces(pieces: seq<string>): Option<seq<Param>> {
    if pieces == [] then Some([])
    else
      var rest := ParsePieces(pieces[1..]);
      if rest.None? then None
      else if pieces[0] == "" then rest
      else match ParsePair(pieces[0])
        case None => None
        case Some(p) => Some([p] + rest.value)
  }

  /** The server's query parser (`parse_qsl` keeping blank values) on
      queries whose names and values are well-formed UTF-8: split on `&`,
      skip empty pieces, split each piece at its first `=` and decode. A
      malformed component gives `None` rather than Python's U+FFFD. */
  function ParseQuery(q: string): Option<seq<Param>> {
    ParsePieces(Split(q, '&'))
  }

  lemma {:induction false} SplitNoSeparator(s: string, sep: char)
    requires Excludes(s, sep)
    ensures Split(s, sep) == [s]
    decreases |s|
  {
    if s != [] {
      SplitNoSeparator(s[1..], sep);
      assert [s[0]] + s[1..] == s;
    }
  }

  lemma {:induction false} SplitAtFirst(s: string, sep: char, rest: string)
    requires Excludes(s, sep)
    ensures Split(s + [sep] + rest, sep) == [s] + Split(rest, sep)
    decreases |s|
  {
    var w := s + [sep] + rest;
    if s == [] {
      assert w[1..] == rest;
    } else {
      assert w[1..] == s[1..] + [sep] + rest;
      SplitAtFirst(s[1..], sep, rest);
      assert [s[0]] + s[1..] == s;
    }
  }

  /** Splitting a join undoes it when no part holds the separator. */
  lemma {:induction false} SplitJoin(parts: seq<string>, sep: char)
    requires |parts| >= 1
    requires forall i | 0 <= i < |parts| :: Excludes(parts[i], sep)
    ensures Split(Join(parts, [sep]), sep) == parts
    decreases |parts|
  {
    if |parts| == 1 {
      SplitNoSeparator(parts[0], sep);
    } else {
      SplitAtFirst(parts[0], sep, Join(parts[1..], [sep]));
      SplitJoin(parts[1..], sep);
    }
  }

  lemma ParsePairOf(p: Param)
    ensures ParsePair(SerializePair(p)) == Some(p)
  {
    SplitFirstOf(EncodeComponent(p.0), '=', EncodeComponent(p.1));
    DecodeComponentOfEncoding(p.0);
    DecodeComponentOfEncoding(p.1);
  }

  lemma {:induction false} ParsePiecesOf(ps: seq<Param>)
    ensures ParsePieces(SerializePairs(ps)) == Some(ps)
    decreases |ps|
  {
    if ps != [] {
      var pieces := SerializePairs(ps);
      assert pieces[1..] == SerializePairs(ps[1..]);
      ParsePiecesOf(ps[1..]);
      ParsePairOf(ps[0]);
      SerializePairNonEmpty(ps[0]);
      ParsePiecesCons(pieces, ps[0], ps[1..]);
      assert [ps[0]] + ps[1..] == ps;
    }
  }

  /** A serialized pair is never an empty piece. */
  lemma SerializePairNonEmpty(p: Param)
    ensures SerializePair(p) != ""
  {
    assert |SerializePair(p)| >= 1;
  }

  /** A non-empty piece that parses adds its pair in front of the rest. */
  lemma ParsePiecesCons(pieces: seq<string>, p: Param, rest: seq<Param>)
    requires pieces != [] && pieces[0] != "" && ParsePair(pieces[0]) == Some(p)
    requires ParsePieces(pieces[1..]) == Some(rest)
    ensures ParsePieces(pieces) == Some([p] + rest)
  {
  }

  /** The server reads back exactly the pairs the client serialized, in order. */
  lemma ParseQueryOfSerialize(ps: seq<Param>)
    ensures ParseQuery(Serialize(ps)) == Some(ps)
  {
    var pieces := SerializePairs(ps);
    if ps == [] {
      assert Serialize(ps) == "";
    } else {
      forall i | 0 <= i < |pieces| ensures Excludes(pieces[i], '&') {
        var p := ps[i];
        assert pieces[i] == EncodeComponent(p.0) + "=" + EncodeComponent(p.1);
      }
      SplitJoin(pieces, '&');
      ParsePiecesOf(ps);
    }
  }
}
