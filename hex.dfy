/** `bytes_to_hex`: "0x" followed by the lowercase hexadecimal digits of the
    bytes, high nibble first; and the decoder that inverts it. */
module Hex {
  import opened Types

  const Digits: string := "0123456789abcdef"

  /** The character for a nibble. */
  function HexDigit(n: nat): (c: char)
    requires n < 16
    ensures IsLowerHexDigit(c)
  {
    Digits[n]
  }

  predicate IsLowerHexDigit(c: char)
  {
    '0' <= c <= '9' || 'a' <= c <= 'f'
  }

  /** The nibble a lowercase hexadecimal character stands for. */
  function NibbleOf(c: char): (n: nat)
    requires IsLowerHexDigit(c)
    ensures n < 16 && HexDigit(n) == c
  {
    if c <= '9' then c as int - '0' as int else c as int - 'a' as int + 10
  }

  lemma NibbleOfHexDigit(n: nat)
    requires n < 16
    ensures NibbleOf(HexDigit(n)) == n
  {
  }

  /** The digits of the bytes, two per byte, with no prefix (`hex::encode`). */
  function Encode(bytes: seq<u8>): (s: string)
    ensures |s| == 2 * |bytes|
    ensures forall k :: 0 <= k < |bytes| ==>
              s[2 * k] == HexDigit(bytes[k] as nat / 16) && s[2 * k + 1] == HexDigit(bytes[k] as nat % 16)
  {
    if bytes == [] then []
    else [HexDigit(bytes[0] as nat / 16), HexDigit(bytes[0] as nat % 16)] + Encode(bytes[1..])
  }

  /** `bytes_to_hex(bytes)`. */
  function BytesToHex(bytes: seq<u8>): (s: string)
    ensures |s| == 2 + 2 * |bytes|
    ensures s[..2] == "0x"
    ensures forall i :: 2 <= i < |s| ==> IsLowerHexDigit(s[i])
    ensures forall k :: 0 <= k < |bytes| ==>
              s[2 + 2 * k] == HexDigit(bytes[k] as nat / 16) && s[3 + 2 * k] == HexDigit(bytes[k] as nat % 16)
  {
    var body := Encode(bytes);
    assert forall i :: 0 <= i < |body| ==> IsLowerHexDigit(body[i]) by {
      forall i | 0 <= i < |body| ensures IsLowerHexDigit(body[i]) {
        var k := i / 2;
        assert i == 2 * k || i == 2 * k + 1;
        assert body[2 * k] == HexDigit(bytes[k] as nat / 16);
        assert body[2 * k + 1] == HexDigit(bytes[k] as nat % 16);
      }
    }
    "0x" + body
  }

  /** Inverse of Encode: pairs of lowercase digits, nothing else. */
  function Decode(s: string): (r: Option<seq<u8>>)
    ensures r.Some? ==> |s| == 2 * |r.value|
    decreases |s|
  {
    if |s| == 0 then Some([])
    else if |s| == 1 || !IsLowerHexDigit(s[0]) || !IsLowerHexDigit(s[1]) then None
    else
      match Decode(s[2..])
      case None => None
      case Some(rest) => Some([(16 * NibbleOf(s[0]) + NibbleOf(s[1])) as u8] + rest)
  }

  /** Inverse of BytesToHex: "0x" and then an even number of lowercase digits. */
  function HexToBytes(s: string): (r: Option<seq<u8>>)
    ensures r.Some? ==> |s| == 2 + 2 * |r.value|
  {
    if |s| >= 2 && s[..2] == "0x" then Decode(s[2..]) else None
  }

  lemma {:induction false} DecodeEncode(bytes: seq<u8>)
    ensures Decode(Encode(bytes)) == Some(bytes)
    decreases |bytes|
  {
    if bytes != [] {
      var b := bytes[0] as nat;
      var hi, lo := b / 16, b % 16;
      var s := Encode(bytes);
      assert s == [HexDigit(hi), HexDigit(lo)] + Encode(bytes[1..]);
      assert s[2..] == Encode(bytes[1..]);
      DecodeEncode(bytes[1..]);
      NibbleOfHexDigit(hi);
      NibbleOfHexDigit(lo);
      assert (16 * hi + lo) as u8 == bytes[0];
      assert Decode(s) == Some([bytes[0]] + bytes[1..]);
      assert [bytes[0]] + bytes[1..] == bytes;
    }
  }

  lemma {:induction false} EncodeDecode(s: string, bytes: seq<u8>)
    requires Decode(s) == Some(bytes)
    ensures Encode(bytes) == s
    decreases |s|
  {
    if |s| != 0 {
      var rest := Decode(s[2..]).value;
      EncodeDecode(s[2..], rest);
      var hi, lo := NibbleOf(s[0]), NibbleOf(s[1]);
      var b := 16 * hi + lo;
      assert b / 16 == hi && b % 16 == lo;
      assert bytes == [b as u8] + rest;
      assert bytes[0] as nat == b && bytes[1..] == rest;
      assert Encode(bytes) == [HexDigit(hi), HexDigit(lo)] + Encode(rest);
      assert s == [s[0], s[1]] + s[2..];
    }
  }

  /** Decoding what BytesToHex produced gives the bytes back. */
  lemma HexRoundTrip(bytes: seq<u8>)
    ensures HexToBytes(BytesToHex(bytes)) == Some(bytes)
  {
    var s := BytesToHex(bytes);
    assert s[2..] == Encode(bytes);
    DecodeEncode(bytes);
  }

  /** The only strings that decode are the ones BytesToHex produces. */
  lemma HexToBytesIff(s: string, bytes: seq<u8>)
    ensures HexToBytes(s) == Some(bytes) <==> s == BytesToHex(bytes)
  {
    if HexToBytes(s) == Some(bytes) {
      EncodeDecode(s[2..], bytes);
      assert s == s[..2] + s[2..];
    }
    if s == BytesToHex(bytes) {
      HexRoundTrip(bytes);
    }
  }

  lemma BytesToHexInjective(a: seq<u8>, b: seq<u8>)
    requires BytesToHex(a) == BytesToHex(b)
    ensures a == b
  {
    HexRoundTrip(a);
    HexRoundTrip(b);
  }
}
