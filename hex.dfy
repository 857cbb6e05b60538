/** Go's encoding/hex: lower-case hexadecimal text for bytes. */
module Hex {
  import opened Wrappers

  function Nibble(v: int): char
    requires 0 <= v < 16
  {
    if v < 10 then ('0' as int + v) as char else ('a' as int + v - 10) as char
  }

  predicate IsHexDigit(c: char) {
    '0' <= c <= '9' || 'a' <= c <= 'f'
  }

  function NibbleValue(c: char): (v: int)
    requires IsHexDigit(c)
    ensures 0 <= v < 16 && Nibble(v) == c
  {
    if c <= '9' then c as int - '0' as int else c as int - 'a' as int + 10
  }

  /** hex.EncodeToString: two lower-case digits per byte, high nibble first. */
  function EncodeToString(data: seq<byte>): (s: string)
    ensures |s| == 2 * |data|
    ensures forall i :: 0 <= i < |s| ==> IsHexDigit(s[i])
    decreases |data|
  {
    if |data| == 0 then ""
    else [Nibble(data[0] / 16), Nibble(data[0] % 16)] + EncodeToString(data[1..])
  }

  /** hex.DecodeString on well-formed input: the reference inverse of EncodeToString. */
  function DecodeString(s: string): (r: Option<seq<byte>>)
    ensures r.Some? ==> 2 * |r.value| == |s|
    decreases |s|
  {
    if |s| == 0 then Some([])
    else if |s| == 1 || !IsHexDigit(s[0]) || !IsHexDigit(s[1]) then None
    else match DecodeString(s[2..])
      case None => None
      case Some(rest) => Some([NibbleValue(s[0]) * 16 + NibbleValue(s[1])] + rest)
  }

  /** Decoding the hexadecimal text of some bytes gives those bytes back. */
  lemma {:induction false} DecodeEncode(data: seq<byte>)
    ensures DecodeString(EncodeToString(data)) == Some(data)
    decreases |data|
  {
    if |data| > 0 {
      DecodeEncode(data[1..]);
      var s := EncodeToString(data);
      assert s[2..] == EncodeToString(data[1..]);
      assert NibbleValue(s[0]) == data[0] / 16 by { NibbleInjective(NibbleValue(s[0]), data[0] / 16); }
      assert NibbleValue(s[1]) == data[0] % 16 by { NibbleInjective(NibbleValue(s[1]), data[0] % 16); }
      assert data == [data[0]] + data[1..];
    }
  }

  lemma NibbleInjective(u: int, v: int)
    requires 0 <= u < 16 && 0 <= v < 16 && Nibble(u) == Nibble(v)
    ensures u == v
  {
  }

  /** Different bytes give different text, so distinct random values give distinct tokens. */
  lemma EncodeInjective(a: seq<byte>, b: seq<byte>)
    requires EncodeToString(a) == EncodeToString(b)
    ensures a == b
  {
    DecodeEncode(a);
    DecodeEncode(b);
  }
}
