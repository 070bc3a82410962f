/**
 * The `hex` encoding of a Node.js Buffer (`data.toString('hex')`): every octet
 * becomes two lower-case hexadecimal digits, high nibble first.  The decoder is
 * the encoder's partner; it accepts exactly the strings the encoder produces.
 */
module Hex {
  import opened Wrappers
  import opened Bytes

  predicate IsLowerHexDigit(c: char) {
    '0' <= c <= '9' || 'a' <= c <= 'f'
  }

  /** A string made only of lower-case hexadecimal digits. */
  predicate IsLowerHex(s: string) {
    forall i :: 0 <= i < |s| ==> IsLowerHexDigit(s[i])
  }

  /** The lower-case hexadecimal digit for a nibble. */
  function Digit(n: int): (c: char)
    requires 0 <= n < 16
    ensures IsLowerHexDigit(c)
  {
    if n < 10 then ('0' as int + n) as char else ('a' as int + n - 10) as char
  }

  /** The value of one lower-case hexadecimal digit, if `c` is one. */
  function Nibble(c: char): (r: Option<int>)
    ensures r.Some? <==> IsLowerHexDigit(c)
    ensures r.Some? ==> 0 <= r.value < 16 && Digit(r.value) == c
  {
    if '0' <= c <= '9' then Some(c as int - '0' as int)
    else if 'a' <= c <= 'f' then Some(c as int - 'a' as int + 10)
    else None
  }

  /** `Buffer.prototype.toString('hex')`. */
  function Encode(data: seq<byte>): (s: string)
    ensures |s| == 2 * |data|
    ensures IsLowerHex(s)
  {
    if data == [] then []
    else
      var d := data[0] as int;
      [Digit(d / 16), Digit(d % 16)] + Encode(data[1..])
  }

  /** Inverse of `Encode`: `None` for odd length or any character outside `0-9a-f`. */
  function Decode(s: string): Option<seq<byte>>
  {
    if s == [] then Some([])
    else if |s| == 1 || Nibble(s[0]).None? || Nibble(s[1]).None? then None
    else
      match Decode(s[2..])
      case None => None
      case Some(rest) => Some([Join(Nibble(s[0]).value, Nibble(s[1]).value)] + rest)
  }

  /** The octet with high nibble `hi` and low nibble `lo`. */
  function Join(hi: int, lo: int): (b: byte)
    requires 0 <= hi < 16 && 0 <= lo < 16
    ensures b as int / 16 == hi && b as int % 16 == lo
  {
    (hi * 16 + lo) as byte
  }

  lemma SplitByte(d: int)
    requires 0 <= d < 256
    ensures 0 <= d / 16 < 16 && d / 16 * 16 + d % 16 == d
  {
  }

  lemma {:induction false} DecodeEncode(data: seq<byte>)
    ensures Decode(Encode(data)) == Some(data)
  {
    if data != [] {
      var d := data[0] as int;
      SplitByte(d);
      var s := Encode(data);
      assert s[2..] == Encode(data[1..]);
      DecodeEncode(data[1..]);
      assert Nibble(s[0]) == Some(d / 16);
      assert Nibble(s[1]) == Some(d % 16);
      assert Join(d / 16, d % 16) == data[0];
      assert [data[0]] + data[1..] == data;
    }
  }

  /** One step of `Encode`. */
  lemma EncodeStep(b: byte, rest: seq<byte>)
    ensures Encode([b] + rest) == [Digit(b as int / 16), Digit(b as int % 16)] + Encode(rest)
  {
    assert ([b] + rest)[1..] == rest;
  }

  lemma {:induction false} EncodeDecode(s: string, data: seq<byte>)
    requires Decode(s) == Some(data)
    ensures Encode(data) == s
  {
    if s != [] {
      var hi := Nibble(s[0]).value;
      var lo := Nibble(s[1]).value;
      var rest := Decode(s[2..]).value;
      var b := Join(hi, lo);
      assert data == [b] + rest;
      EncodeDecode(s[2..], rest);
      EncodeStep(b, rest);
      assert Digit(b as int / 16) == s[0] && Digit(b as int % 16) == s[1];
      assert s == [s[0], s[1]] + s[2..];
    }
  }

  /** Decoding succeeds exactly on the encoder's outputs, and gives back the bytes. */
  lemma HexIsBijective(s: string, data: seq<byte>)
    ensures Decode(s) == Some(data) <==> s == Encode(data)
  {
    if Decode(s) == Some(data) {
      EncodeDecode(s, data);
    }
    if s == Encode(data) {
      DecodeEncode(data);
    }
  }
}
