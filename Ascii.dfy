/**
 * Single-byte text encoding as performed by .NET's `ASCIIEncoding`:
 * characters below 0x80 map to the byte of the same value; on decoding,
 * a byte of 0x80 or above becomes the replacement character '?'.
 */
module Ascii {
  newtype byte = b: int | 0 <= b < 0x100

  /** The line-feed byte used as message terminator. */
  const LF: byte := 0x0A

  predicate IsAscii(s: string) {
    forall i :: 0 <= i < |s| ==> s[i] as int < 0x80
  }

  function EncodeChar(c: char): (b: byte)
    requires c as int < 0x80
    ensures b as int == c as int
  {
    c as int as byte
  }

  /** `GetBytes` on ASCII text: one byte per character, same code. */
  function Encode(s: string): (bs: seq<byte>)
    requires IsAscii(s)
    ensures |bs| == |s|
    ensures forall i :: 0 <= i < |s| ==> bs[i] as int == s[i] as int
  {
    seq(|s|, i requires 0 <= i < |s| => EncodeChar(s[i]))
  }

  function DecodeByte(b: byte): (c: char)
    ensures b < 0x80 ==> c as int == b as int
    ensures b >= 0x80 ==> c == '?'
  {
    if b < 0x80 then b as int as char else '?'
  }

  /** `GetString`: one character per byte. */
  function Decode(bs: seq<byte>): (s: string)
    ensures |s| == |bs| && IsAscii(s)
    ensures forall i :: 0 <= i < |bs| ==> s[i] == DecodeByte(bs[i])
  {
    seq(|bs|, i requires 0 <= i < |bs| => DecodeByte(bs[i]))
  }

  /** Decoding an encoded ASCII string gives the string back. */
  lemma DecodeEncode(s: string)
    requires IsAscii(s)
    ensures Decode(Encode(s)) == s
  {
    var r := Decode(Encode(s));
    assert |r| == |s|;
    forall i | 0 <= i < |s| ensures r[i] == s[i] {
      assert r[i] as int == s[i] as int;
    }
  }

  /** Decoding works byte by byte, so it distributes over concatenation. */
  lemma DecodeAppend(a: seq<byte>, b: seq<byte>)
    ensures Decode(a + b) == Decode(a) + Decode(b)
  {
    var l, r := Decode(a + b), Decode(a) + Decode(b);
    assert |l| == |r|;
    forall i | 0 <= i < |l| ensures l[i] == r[i] {
      if i < |a| {
        assert (a + b)[i] == a[i];
      } else {
        assert (a + b)[i] == b[i - |a|];
      }
    }
  }
}
