/** Base64 with the standard alphabet and required padding, section 4 of RFC 4648. */
module Base64 {
  import opened Wrappers

  type Byte = b: int | 0 <= b < 256
  type Sextet = n: int | 0 <= n < 64

  /** The alphabet of table 1: A-Z, a-z, 0-9, '+', '/'. */
  function Symbol(n: Sextet): char {
    if n < 26 then 'A' + n as char
    else if n < 52 then 'a' + (n - 26) as char
    else if n < 62 then '0' + (n - 52) as char
    else if n == 62 then '+' else '/'
  }

  /** The six bits a character stands for. */
  function Value(c: char): Option<Sextet> {
    if 'A' <= c <= 'Z' then Some(c as int - 'A' as int)
    else if 'a' <= c <= 'z' then Some(c as int - 'a' as int + 26)
    else if '0' <= c <= '9' then Some(c as int - '0' as int + 52)
    else if c == '+' then Some(62)
    else if c == '/' then Some(63)
    else None
  }

  function Encode(bytes: seq<Byte>): string {
    if |bytes| == 0 then ""
    else if |bytes| == 1 then
      var a := bytes[0];
      [Symbol(a / 4), Symbol(a % 4 * 16), '=', '=']
    else if |bytes| == 2 then
      var a, b := bytes[0], bytes[1];
      [Symbol(a / 4), Symbol(a % 4 * 16 + b / 16), Symbol(b % 16 * 4), '=']
    else
      var a, b, c := bytes[0], bytes[1], bytes[2];
      [Symbol(a / 4), Symbol(a % 4 * 16 + b / 16), Symbol(b % 16 * 4 + c / 64), Symbol(c % 64)] + Encode(bytes[3..])
  }

  /** The last group, which may be padded; bits that no byte needs must be zero. */
  function DecodeLast(p: Sextet, q: Sextet, c: char, d: char): Option<seq<Byte>> {
    if c == '=' && d == '=' then
      if q % 16 == 0 then Some([p * 4 + q / 16]) else None
    else
      match (Value(c), d == '=', Value(d))
      case (Some(r), true, _) =>
        if r % 4 == 0 then Some([p * 4 + q / 16, q % 16 * 16 + r / 4]) else None
      case (Some(r), false, Some(s)) => Some(ThreeBytes(p, q, r, s))
      case _ => None
  }

  function ThreeBytes(p: Sextet, q: Sextet, r: Sextet, s: Sextet): seq<Byte> {
    [p * 4 + q / 16, q % 16 * 16 + r / 4, r % 4 * 64 + s]
  }

  /** A group in the middle: four characters, and what the rest decodes to. */
  function DecodeGroup(p: Option<Sextet>, q: Option<Sextet>, r: Option<Sextet>, s: Option<Sextet>,
                       rest: Option<seq<Byte>>): Option<seq<Byte>> {
    match (p, q, r, s, rest)
    case (Some(p), Some(q), Some(r), Some(s), Some(bytes)) => Some(ThreeBytes(p, q, r, s) + bytes)
    case _ => None
  }

  function Decode(text: string): Option<seq<Byte>> {
    if text == "" then Some([])
    else if |text| < 4 then None
    else if |text| == 4 then
      match (Value(text[0]), Value(text[1]))
      case (Some(p), Some(q)) => DecodeLast(p, q, text[2], text[3])
      case _ => None
    else
      DecodeGroup(Value(text[0]), Value(text[1]), Value(text[2]), Value(text[3]), Decode(text[4..]))
  }

  lemma SymbolValue(n: Sextet)
    ensures Value(Symbol(n)) == Some(n) && Symbol(n) != '='
  {
  }

  /** The sextets of three bytes, and how the bytes are put together again. */
  predicate Sextets(a: int, b: int, c: int, p: Sextet, q: Sextet, r: Sextet, s: Sextet) {
    && p * 4 + q / 16 == a && q % 16 * 16 + r / 4 == b && r % 4 * 64 + s == c
  }

  lemma Repack(a: Byte, b: Byte, c: Byte)
    ensures Sextets(a, b, c, a / 4, a % 4 * 16 + b / 16, b % 16 * 4 + c / 64, c % 64)
  {
  }

  lemma RepackPadded(a: Byte, b: Byte)
    ensures a / 4 < 64 && a % 4 * 16 < 64 && a % 4 * 16 % 16 == 0 && a / 4 * 4 + a % 4 * 16 / 16 == a
    ensures var q, r := a % 4 * 16 + b / 16, b % 16 * 4;
            q < 64 && r < 64 && r % 4 == 0 && a / 4 * 4 + q / 16 == a && q % 16 * 16 + r / 4 == b
  {
  }

  lemma DecodeEncodedGroup(
      a: Byte, b: Byte, c: Byte, p: Sextet, q: Sextet, r: Sextet, s: Sextet, rest: string, bytes: seq<Byte>)
    requires Sextets(a, b, c, p, q, r, s) && Decode(rest) == Some(bytes)
    ensures Decode([Symbol(p), Symbol(q), Symbol(r), Symbol(s)] + rest) == Some([a, b, c] + bytes)
  {
    hide Symbol, Value;
    var text := [Symbol(p), Symbol(q), Symbol(r), Symbol(s)] + rest;
    SymbolValue(p);
    SymbolValue(q);
    SymbolValue(r);
    SymbolValue(s);
    assert text[4..] == rest;
    assert [a, b, c] + [] == [a, b, c];
  }

  lemma DecodePaddedGroup(p: Sextet, q: Sextet, r: Sextet)
    ensures q % 16 == 0 ==> Decode([Symbol(p), Symbol(q), '=', '=']) == Some([p * 4 + q / 16])
    ensures r % 4 == 0 ==> Decode([Symbol(p), Symbol(q), Symbol(r), '=']) == Some([p * 4 + q / 16, q % 16 * 16 + r / 4])
  {
    SymbolValue(p);
    SymbolValue(q);
    SymbolValue(r);
  }

  lemma GroupRoundTrip(a: Byte, b: Byte, c: Byte, text: string, rest: seq<Byte>)
    requires Decode(text) == Some(rest)
    ensures Decode([Symbol(a / 4), Symbol(a % 4 * 16 + b / 16), Symbol(b % 16 * 4 + c / 64), Symbol(c % 64)] + text)
         == Some([a, b, c] + rest)
  {
    Repack(a, b, c);
    DecodeEncodedGroup(a, b, c, a / 4, a % 4 * 16 + b / 16, b % 16 * 4 + c / 64, c % 64, text, rest);
  }

  lemma PaddedRoundTrip(a: Byte, b: Byte)
    ensures Decode([Symbol(a / 4), Symbol(a % 4 * 16), '=', '=']) == Some([a])
    ensures Decode([Symbol(a / 4), Symbol(a % 4 * 16 + b / 16), Symbol(b % 16 * 4), '=']) == Some([a, b])
  {
    hide Decode, Symbol;
    RepackPadded(a, b);
    DecodePaddedGroup(a / 4, a % 4 * 16, 0);
    DecodePaddedGroup(a / 4, a % 4 * 16 + b / 16, b % 16 * 4);
  }

  lemma DecodeNothing()
    ensures Decode("") == Some([])
  {
  }

  /** Decoding undoes encoding, for every sequence of bytes. */
  lemma {:induction false} RoundTrip(bytes: seq<Byte>)
    ensures Decode(Encode(bytes)) == Some(bytes)
    decreases |bytes|
  {
    hide Decode, Symbol;
    if |bytes| > 2 {
      var a, b, c, rest := bytes[0], bytes[1], bytes[2], bytes[3..];
      RoundTrip(rest);
      GroupRoundTrip(a, b, c, Encode(rest), rest);
      assert bytes == [a, b, c] + rest;
    } else if bytes == [] {
      DecodeNothing();
    } else {
      PaddedRoundTrip(bytes[0], if |bytes| == 2 then bytes[1] else 0);
      assert bytes == if |bytes| == 2 then [bytes[0], bytes[1]] else [bytes[0]];
    }
  }

  /** Whole groups of three bytes need no padding character. */
  lemma {:induction false} WholeGroupsNeedNoPadding(bytes: seq<Byte>)
    ensures |bytes| % 3 == 0 <==> '=' !in Encode(bytes)
    decreases |bytes|
  {
    if |bytes| == 1 {
      assert Encode(bytes)[2] == '=';
    } else if |bytes| == 2 {
      assert Encode(bytes)[3] == '=';
    } else if |bytes| >= 3 {
      var a, b, c := bytes[0], bytes[1], bytes[2];
      SymbolValue(a / 4);
      SymbolValue(a % 4 * 16 + b / 16);
      SymbolValue(b % 16 * 4 + c / 64);
      SymbolValue(c % 64);
      WholeGroupsNeedNoPadding(bytes[3..]);
      assert (|bytes| - 3) % 3 == |bytes| % 3;
    }
  }

  // ---------------------------------------------------------------------------
  // Nothing else decodes
  // ---------------------------------------------------------------------------

  lemma ValueSymbol(c: char)
    ensures Value(c).Some? ==> Symbol(Value(c).value) == c && c != '='
  {
  }

  /** Sextets and the bytes they carry, the other way round. */
  lemma Unpack(p: Sextet, q: Sextet, r: Sextet, s: Sextet)
    ensures var a, b, c := p * 4 + q / 16, q % 16 * 16 + r / 4, r % 4 * 64 + s;
            && 0 <= a < 256 && 0 <= b < 256 && 0 <= c < 256
            && a / 4 == p && a % 4 * 16 + b / 16 == q && b % 16 * 4 + c / 64 == r && c % 64 == s
    ensures q % 16 == 0 ==> (p * 4 + q / 16) % 4 * 16 == q
    ensures r % 4 == 0 ==> (q % 16 * 16 + r / 4) % 16 * 4 == r
  {
  }

  lemma LastGroupEncodes(p: Sextet, q: Sextet, r: Sextet, s: Sextet)
    ensures q % 16 == 0 ==> Encode([p * 4 + q / 16]) == [Symbol(p), Symbol(q), '=', '=']
    ensures r % 4 == 0 ==> Encode([p * 4 + q / 16, q % 16 * 16 + r / 4]) == [Symbol(p), Symbol(q), Symbol(r), '=']
    ensures Encode(ThreeBytes(p, q, r, s)) == [Symbol(p), Symbol(q), Symbol(r), Symbol(s)]
  {
    hide Symbol;
    Unpack(p, q, r, s);
    var a, b, c := p * 4 + q / 16, q % 16 * 16 + r / 4, r % 4 * 64 + s;
    assert [a, b, c][3..] == [];
    assert [Symbol(p), Symbol(q), Symbol(r), Symbol(s)] + "" == [Symbol(p), Symbol(q), Symbol(r), Symbol(s)];
  }

  lemma DecodeLastIsEncoded(p: Sextet, q: Sextet, c: char, d: char)
    ensures DecodeLast(p, q, c, d).Some? ==> Encode(DecodeLast(p, q, c, d).value) == [Symbol(p), Symbol(q), c, d]
  {
    ValueSymbol(c);
    ValueSymbol(d);
    hide Value, Symbol, Encode, ThreeBytes;
    var r := if Value(c).Some? then Value(c).value else 0;
    LastGroupEncodes(p, q, r, if Value(d).Some? then Value(d).value else 0);
  }

  lemma LastGroupIsEncoded(text: string)
    requires |text| == 4
    ensures Decode(text).Some? ==> Encode(Decode(text).value) == text
  {
    ValueSymbol(text[0]);
    ValueSymbol(text[1]);
    hide Value, Symbol, Encode, DecodeLast;
    assert text == [text[0], text[1], text[2], text[3]];
    if Value(text[0]).Some? && Value(text[1]).Some? {
      DecodeLastIsEncoded(Value(text[0]).value, Value(text[1]).value, text[2], text[3]);
    }
  }

  lemma GroupIsEncoded(p: Sextet, q: Sextet, r: Sextet, s: Sextet, bytes: seq<Byte>)
    ensures Encode(ThreeBytes(p, q, r, s) + bytes)
         == [Symbol(p), Symbol(q), Symbol(r), Symbol(s)] + Encode(bytes)
  {
    hide Symbol;
    Unpack(p, q, r, s);
    var all := ThreeBytes(p, q, r, s) + bytes;
    assert all[3..] == bytes;
  }

  lemma DecodeLong(text: string)
    requires |text| > 4 && Decode(text).Some?
    ensures Value(text[0]).Some? && Value(text[1]).Some? && Value(text[2]).Some? && Value(text[3]).Some?
    ensures Decode(text[4..]).Some?
    ensures var p, q := Value(text[0]).value, Value(text[1]).value;
            var r, s := Value(text[2]).value, Value(text[3]).value;
            Decode(text).value == ThreeBytes(p, q, r, s) + Decode(text[4..]).value
  {
    hide Value;
  }

  /** Decoding accepts no text but encodings: a foreign character, missing padding or a bit too many, and
      the text is refused. */
  lemma {:induction false} DecodesOnlyEncodings(text: string)
    ensures Decode(text).Some? ==> Encode(Decode(text).value) == text
    decreases |text|
  {
    if |text| == 4 {
      LastGroupIsEncoded(text);
    } else if |text| > 4 && Decode(text).Some? {
      hide Value, Symbol, Decode, Encode;
      DecodesOnlyEncodings(text[4..]);
      DecodeLong(text);
      ValueSymbol(text[0]);
      ValueSymbol(text[1]);
      ValueSymbol(text[2]);
      ValueSymbol(text[3]);
      var p, q, r, s := Value(text[0]).value, Value(text[1]).value, Value(text[2]).value, Value(text[3]).value;
      GroupIsEncoded(p, q, r, s, Decode(text[4..]).value);
      assert text == [text[0], text[1], text[2], text[3]] + text[4..];
    }
  }

  /** A text decodes to these bytes if and only if it is their encoding. */
  lemma DecodeInvertsEncode(text: string, bytes: seq<Byte>)
    ensures Decode(text) == Some(bytes) <==> text == Encode(bytes)
  {
    RoundTrip(bytes);
    DecodesOnlyEncodings(text);
  }

  /** Table 1 of RFC 4648. */
  lemma StandardAlphabet()
    ensures [Symbol(0), Symbol(1), Symbol(2), Symbol(3)] == "ABCD"
    ensures [Symbol(4), Symbol(5), Symbol(6), Symbol(7)] == "EFGH"
    ensures [Symbol(8), Symbol(9), Symbol(10), Symbol(11)] == "IJKL"
    ensures [Symbol(12), Symbol(13), Symbol(14), Symbol(15)] == "MNOP"
    ensures [Symbol(16), Symbol(17), Symbol(18), Symbol(19)] == "QRST"
    ensures [Symbol(20), Symbol(21), Symbol(22), Symbol(23)] == "UVWX"
    ensures [Symbol(24), Symbol(25), Symbol(26), Symbol(27)] == "YZab"
    ensures [Symbol(28), Symbol(29), Symbol(30), Symbol(31)] == "cdef"
    ensures [Symbol(32), Symbol(33), Symbol(34), Symbol(35)] == "ghij"
    ensures [Symbol(36), Symbol(37), Symbol(38), Symbol(39)] == "klmn"
    ensures [Symbol(40), Symbol(41), Symbol(42), Symbol(43)] == "opqr"
    ensures [Symbol(44), Symbol(45), Symbol(46), Symbol(47)] == "stuv"
    ensures [Symbol(48), Symbol(49), Symbol(50), Symbol(51)] == "wxyz"
    ensures [Symbol(52), Symbol(53), Symbol(54), Symbol(55)] == "0123"
    ensures [Symbol(56), Symbol(57), Symbol(58), Symbol(59)] == "4567"
    ensures [Symbol(60), Symbol(61), Symbol(62), Symbol(63)] == "89+/"
  {
  }

  lemma EncodeFoo(rest: seq<Byte>)
    ensures Encode([102, 111, 111] + rest) == "Zm9v" + Encode(rest)
  {
    GroupIsEncoded(25, 38, 61, 47, rest);
    assert ThreeBytes(25, 38, 61, 47) == [102, 111, 111];
    assert [Symbol(25), Symbol(38), Symbol(61), Symbol(47)] == "Zm9v";
  }

  lemma ShortVectors(b: Byte, a: Byte, r: Byte)
    requires b == 98 && a == 97 && r == 114
    ensures Encode([102]) == "Zg==" && Encode([102, 111]) == "Zm8="
    ensures Encode([b]) == "Yg==" && Encode([b, a]) == "YmE=" && Encode([b, a, r]) == "YmFy"
  {
    assert [b, a, r][3..] == [] && Encode([]) == "";
    assert [Symbol(24), Symbol(38), Symbol(5), Symbol(50)] + "" == "YmFy";
  }

  /** The test vectors of section 10 of RFC 4648. */
  lemma TestVectors()
    ensures Encode([102]) == "Zg==" && Encode([102, 111]) == "Zm8=" && Encode([102, 111, 111]) == "Zm9v"
    ensures Encode([102, 111, 111, 98]) == "Zm9vYg==" && Encode([102, 111, 111, 98, 97]) == "Zm9vYmE="
    ensures Encode([102, 111, 111, 98, 97, 114]) == "Zm9vYmFy"
  {
    hide Encode, Symbol;
    ShortVectors(98, 97, 114);
    EncodeFoo([]);
    EncodeFoo([98]);
    EncodeFoo([98, 97]);
    EncodeFoo([98, 97, 114]);
    EncodeNothing();
    assert [102, 111, 111] + [] == [102, 111, 111] && "Zm9v" + "" == "Zm9v";
    assert [102, 111, 111] + [98] == [102, 111, 111, 98] && [102, 111, 111] + [98, 97] == [102, 111, 111, 98, 97];
    assert [102, 111, 111] + [98, 97, 114] == [102, 111, 111, 98, 97, 114];
    assert "Zm9v" + "Yg==" == "Zm9vYg==" && "Zm9v" + "YmE=" == "Zm9vYmE=" && "Zm9v" + "YmFy" == "Zm9vYmFy";
  }

  lemma EncodeNothing()
    ensures Encode([]) == ""
  {
  }
}
