/** Which byte sequences are UTF-8, by the grammar of section 4 of RFC 3629.  A string is
    represented, as in the program, by its bytes. */
module Utf8 {
  import opened Base64

  predicate Tail(bytes: seq<Byte>, i: nat, low: int, high: int) {
    i < |bytes| && low <= bytes[i] <= high
  }

  predicate AnyTail(bytes: seq<Byte>, i: nat) { Tail(bytes, i, 0x80, 0xBF) }

  /** The length of the character at the front, or 0 if there is none. */
  function FirstCharLength(bytes: seq<Byte>): (n: nat)
    ensures n <= |bytes|
    ensures forall i :: 0 <= i < n ==> bytes[i] != 0xFF
  {
    if bytes == [] then 0
    else
      var a := bytes[0];
      if a <= 0x7F then 1
      else if 0xC2 <= a <= 0xDF then (if AnyTail(bytes, 1) then 2 else 0)
      else if 0xE0 <= a <= 0xEF then
        var low, high := if a == 0xE0 then 0xA0 else 0x80, if a == 0xED then 0x9F else 0xBF;
        (if Tail(bytes, 1, low, high) && AnyTail(bytes, 2) then 3 else 0)
      else if 0xF0 <= a <= 0xF4 then
        var low, high := if a == 0xF0 then 0x90 else 0x80, if a == 0xF4 then 0x8F else 0xBF;
        (if Tail(bytes, 1, low, high) && AnyTail(bytes, 2) && AnyTail(bytes, 3) then 4 else 0)
      else 0
  }

  predicate Valid(bytes: seq<Byte>)
    decreases |bytes|
  {
    bytes == [] || (FirstCharLength(bytes) > 0 && Valid(bytes[FirstCharLength(bytes)..]))
  }

  type Text = bytes: seq<Byte> | Valid(bytes) witness []

  /** Section 3 of RFC 3629: the octet FF never appears. */
  lemma {:induction false} NeverFF(bytes: seq<Byte>)
    requires Valid(bytes)
    ensures 0xFF !in bytes
    decreases |bytes|
  {
    if bytes != [] {
      var n := FirstCharLength(bytes);
      NeverFF(bytes[n..]);
      assert bytes == bytes[..n] + bytes[n..];
    }
  }

  // ---------------------------------------------------------------------------
  // What the grammar describes
  // ---------------------------------------------------------------------------

  /** Unicode scalar values: code points without the surrogates. */
  predicate Scalar(c: int) { 0 <= c <= 0xD7FF || 0xE000 <= c <= 0x10FFFF }

  /** The octets of a character, by the table of section 3 of RFC 3629. */
  function EncodeScalar(c: int): (bytes: seq<Byte>)
    requires Scalar(c)
  {
    if c < 0x80 then [c]
    else if c < 0x800 then [0xC0 + c / 64, 0x80 + c % 64]
    else if c < 0x1_0000 then [0xE0 + c / 4096, 0x80 + c / 64 % 64, 0x80 + c % 64]
    else [0xF0 + c / 262_144, 0x80 + c / 4096 % 64, 0x80 + c / 64 % 64, 0x80 + c % 64]
  }

  function EncodeAll(text: seq<int>): seq<Byte>
    requires AllScalar(text)
  {
    if text == [] then [] else EncodeScalar(text[0]) + EncodeAll(text[1..])
  }

  /** The octets of a character are recognised as one character. */
  lemma CharIsRecognised(c: int, rest: seq<Byte>)
    requires Scalar(c)
    ensures FirstCharLength(EncodeScalar(c) + rest) == |EncodeScalar(c)|
  {
    var all := EncodeScalar(c) + rest;
    assert forall i :: 0 <= i < |EncodeScalar(c)| ==> all[i] == EncodeScalar(c)[i];
  }

  lemma TwoOctets(x: int, y: int)
    requires 0xC2 <= x <= 0xDF && 0x80 <= y <= 0xBF
    ensures var c := (x - 0xC0) * 64 + (y - 0x80); Scalar(c) && EncodeScalar(c) == [x, y]
  {
  }

  lemma ThreeOctets(x: int, y: int, z: int)
    requires 0xE0 <= x <= 0xEF && 0x80 <= y <= 0xBF && 0x80 <= z <= 0xBF
    requires (x == 0xE0 ==> 0xA0 <= y) && (x == 0xED ==> y <= 0x9F)
    ensures var c := (x - 0xE0) * 4096 + (y - 0x80) * 64 + (z - 0x80); Scalar(c) && EncodeScalar(c) == [x, y, z]
  {
    var c := (x - 0xE0) * 4096 + (y - 0x80) * 64 + (z - 0x80);
    assert c / 64 == (x - 0xE0) * 64 + (y - 0x80) && c % 64 == z - 0x80;
    assert c / 4096 == x - 0xE0 && c / 64 % 64 == y - 0x80;
  }

  lemma FourOctets(x: int, y: int, z: int, w: int)
    requires 0xF0 <= x <= 0xF4 && 0x80 <= y <= 0xBF && 0x80 <= z <= 0xBF && 0x80 <= w <= 0xBF
    requires (x == 0xF0 ==> 0x90 <= y) && (x == 0xF4 ==> y <= 0x8F)
    ensures var c := (x - 0xF0) * 262_144 + (y - 0x80) * 4096 + (z - 0x80) * 64 + (w - 0x80);
            Scalar(c) && EncodeScalar(c) == [x, y, z, w]
  {
    var c := (x - 0xF0) * 262_144 + (y - 0x80) * 4096 + (z - 0x80) * 64 + (w - 0x80);
    assert c / 64 == (x - 0xF0) * 4096 + (y - 0x80) * 64 + (z - 0x80) && c % 64 == w - 0x80;
    assert c / 4096 == (x - 0xF0) * 64 + (y - 0x80) && c / 64 % 64 == z - 0x80;
    assert c / 262_144 == x - 0xF0 && c / 4096 % 64 == y - 0x80;
  }

  /** And what is recognised as one character are the octets of one. */
  lemma RecognisedIsChar(bytes: seq<Byte>) returns (c: int)
    requires FirstCharLength(bytes) > 0
    ensures Scalar(c) && EncodeScalar(c) == bytes[..FirstCharLength(bytes)]
  {
    hide Scalar, EncodeScalar;
    var n := FirstCharLength(bytes);
    var x: int := bytes[0];
    if n == 1 {
      c := x;
      OneOctet(x);
      assert bytes[..1] == [x];
    } else if n == 2 {
      var y: int := bytes[1];
      c := (x - 0xC0) * 64 + (y - 0x80);
      TwoOctets(x, y);
      assert bytes[..2] == [x, y];
    } else if n == 3 {
      var y: int, z: int := bytes[1], bytes[2];
      c := (x - 0xE0) * 4096 + (y - 0x80) * 64 + (z - 0x80);
      ThreeOctets(x, y, z);
      assert bytes[..3] == [x, y, z];
    } else {
      var y: int, z: int, w: int := bytes[1], bytes[2], bytes[3];
      c := (x - 0xF0) * 262_144 + (y - 0x80) * 4096 + (z - 0x80) * 64 + (w - 0x80);
      FourOctets(x, y, z, w);
      assert bytes[..4] == [x, y, z, w];
    }
  }

  lemma OneOctet(x: int)
    requires 0 <= x < 0x80
    ensures Scalar(x) && EncodeScalar(x) == [x]
  {
  }

  lemma {:induction false} EncodedIsValid(text: seq<int>)
    requires AllScalar(text)
    ensures Valid(EncodeAll(text))
    decreases |text|
  {
    if text != [] {
      var c, rest := EncodeScalar(text[0]), EncodeAll(text[1..]);
      CharIsRecognised(text[0], rest);
      EncodedIsValid(text[1..]);
      assert (c + rest)[|c|..] == rest;
    }
  }

  predicate AllScalar(text: seq<int>) { forall i :: 0 <= i < |text| ==> Scalar(text[i]) }

  lemma EncodeAllCons(c: int, rest: seq<int>)
    requires Scalar(c) && AllScalar(rest)
    ensures AllScalar([c] + rest) && EncodeAll([c] + rest) == EncodeScalar(c) + EncodeAll(rest)
  {
    hide EncodeScalar, Scalar;
    assert ([c] + rest)[1..] == rest;
  }

  lemma ValidSplit(bytes: seq<Byte>)
    requires Valid(bytes) && bytes != []
    ensures FirstCharLength(bytes) > 0 && Valid(bytes[FirstCharLength(bytes)..])
  {
    hide FirstCharLength;
  }

  lemma {:induction false} ValidIsEncoded(bytes: seq<Byte>) returns (text: seq<int>)
    requires Valid(bytes)
    ensures AllScalar(text) && EncodeAll(text) == bytes
    decreases |bytes|
  {
    if bytes == [] {
      text := [];
    } else {
      ValidSplit(bytes);
      hide FirstCharLength, Scalar, EncodeScalar, Valid;
      var n := FirstCharLength(bytes);
      var c := RecognisedIsChar(bytes);
      var rest := ValidIsEncoded(bytes[n..]);
      hide EncodeAll, AllScalar;
      EncodeAllCons(c, rest);
      text := [c] + rest;
      assert bytes == bytes[..n] + bytes[n..];
    }
  }

  /** A byte sequence is valid exactly if it is the encoding of some sequence of characters. */
  lemma ValidExactlyIfEncoded(bytes: seq<Byte>)
    ensures Valid(bytes) <==>
            exists text: seq<int> :: AllScalar(text) && EncodeAll(text) == bytes
  {
    if Valid(bytes) {
      var text := ValidIsEncoded(bytes);
    }
    if text: seq<int> :| AllScalar(text) && EncodeAll(text) == bytes {
      EncodedIsValid(text);
    }
  }
}
