/** Go's encoding/base64 (RFC 4648, sections 4 and 5) as the server uses it:
    the standard and URL-safe alphabets, with and without '=' padding.

    Decoding follows Go's decoder rather than the RFC's strictest reading:
    carriage returns and line feeds are skipped anywhere in the input, the
    unused low bits of a final partial quantum are not checked, and on an
    error the bytes of the complete quanta before the offending one are still
    returned (Go's `DecodeString` returns `dbuf[:n], err`). */
module Base64 {
  import opened Wrappers
  import opened GoStrings

  datatype Alphabet = Std | Url

  /** One of Go's four encodings: StdEncoding, URLEncoding, RawStdEncoding, RawURLEncoding. */
  datatype Encoding = Encoding(alphabet: Alphabet, padded: bool)

  const StdEncoding := Encoding(Std, true)
  const URLEncoding := Encoding(Url, true)
  const RawStdEncoding := Encoding(Std, false)
  const RawURLEncoding := Encoding(Url, false)

  const Pad: char := '='

  /** The character that encodes the 6-bit value `v`. */
  function Symbol(a: Alphabet, v: int): char
    requires 0 <= v < 64
  {
    if v < 26 then ('A' as int + v) as char
    else if v < 52 then ('a' as int + v - 26) as char
    else if v < 62 then ('0' as int + v - 52) as char
    else if v == 62 then (if a == Std then '+' else '-')
    else (if a == Std then '/' else '_')
  }

  /** The decoder's table: the 6-bit value of `c`, or -1 when `c` is not in the alphabet. */
  function Value(a: Alphabet, c: char): (v: int)
    ensures -1 <= v < 64
    ensures v >= 0 ==> Symbol(a, v) == c
  {
    if 'A' <= c <= 'Z' then c as int - 'A' as int
    else if 'a' <= c <= 'z' then c as int - 'a' as int + 26
    else if '0' <= c <= '9' then c as int - '0' as int + 52
    else if c == (if a == Std then '+' else '-') then 62
    else if c == (if a == Std then '/' else '_') then 63
    else -1
  }

  predicate IsSymbol(a: Alphabet, c: char) {
    Value(a, c) >= 0
  }

  lemma ValueOfSymbol(a: Alphabet, v: int)
    requires 0 <= v < 64
    ensures Value(a, Symbol(a, v)) == v
  {
  }

  /** The two alphabets agree everywhere except on the values 62 and 63. */
  lemma SymbolAcrossAlphabets(c: char)
    requires IsSymbol(Url, c)
    ensures IsSymbol(Std, c) <==> c != '-' && c != '_'
    ensures IsSymbol(Std, c) ==> Value(Std, c) == Value(Url, c)
  {
  }

  /** Four characters for three bytes. */
  function Quad(a: Alphabet, b0: byte, b1: byte, b2: byte): string {
    [Symbol(a, b0 / 4), Symbol(a, (b0 % 4) * 16 + b1 / 16), Symbol(a, (b1 % 16) * 4 + b2 / 64), Symbol(a, b2 % 64)]
  }

  /** Encoding.EncodeToString. */
  function Encode(e: Encoding, data: seq<byte>): string
    decreases |data|
  {
    var a := e.alphabet;
    if |data| == 0 then ""
    else if |data| == 1 then
      [Symbol(a, data[0] / 4), Symbol(a, (data[0] % 4) * 16)] + (if e.padded then [Pad, Pad] else [])
    else if |data| == 2 then
      [Symbol(a, data[0] / 4), Symbol(a, (data[0] % 4) * 16 + data[1] / 16), Symbol(a, (data[1] % 16) * 4)]
      + (if e.padded then [Pad] else [])
    else
      Quad(a, data[0], data[1], data[2]) + Encode(e, data[3..])
  }

  /** Encoding.EncodedLen. */
  function EncodedLen(e: Encoding, n: nat): nat {
    if e.padded then (n + 2) / 3 * 4 else n / 3 * 4 + (n % 3 * 8 + 5) / 6
  }

  /** Encoding.DecodedLen: the capacity of the buffer DecodeString allocates. */
  function DecodedLen(e: Encoding, n: nat): nat {
    if e.padded then n / 4 * 3 else n / 4 * 3 + n % 4 * 6 / 8
  }

  /** The bytes of one quantum of four 6-bit values; a short final quantum
      uses a prefix of it with the missing values taken as zero. */
  function Bytes3(v0: int, v1: int, v2: int, v3: int): seq<byte>
    requires 0 <= v0 < 64 && 0 <= v1 < 64 && 0 <= v2 < 64 && 0 <= v3 < 64
  {
    [v0 * 4 + v1 / 16, (v1 % 16) * 16 + v2 / 4, (v2 % 4) * 64 + v3]
  }

  /** What DecodeString returns: the bytes written so far, and whether no error occurred. */
  datatype Decoded = Decoded(data: seq<byte>, ok: bool)

  function StripNewlines(s: string): (r: string)
    ensures '\n' !in r && '\r' !in r
    decreases |s|
  {
    if |s| == 0 then ""
    else (if s[0] == '\n' || s[0] == '\r' then "" else [s[0]]) + StripNewlines(s[1..])
  }

  /** Encoding.DecodeString. */
  function DecodeString(e: Encoding, s: string): Decoded {
    DecodeQuanta(e, StripNewlines(s))
  }

  function DecodeQuanta(e: Encoding, s: string): Decoded
    decreases |s|
  {
    var a := e.alphabet;
    if |s| == 0 then Decoded([], true)
    else if |s| >= 4 && IsSymbol(a, s[0]) && IsSymbol(a, s[1]) && IsSymbol(a, s[2]) && IsSymbol(a, s[3]) then
      var rest := DecodeQuanta(e, s[4..]);
      Decoded(Bytes3(Value(a, s[0]), Value(a, s[1]), Value(a, s[2]), Value(a, s[3])) + rest.data, rest.ok)
    else
      DecodeFinal(e, s)
  }

  /** The last quantum: padding, a short unpadded tail, or an error. */
  function DecodeFinal(e: Encoding, s: string): Decoded
    requires |s| > 0
    requires !(|s| >= 4 && IsSymbol(e.alphabet, s[0]) && IsSymbol(e.alphabet, s[1])
                        && IsSymbol(e.alphabet, s[2]) && IsSymbol(e.alphabet, s[3]))
  {
    var a := e.alphabet;
    var j := if !IsSymbol(a, s[0]) then 0
             else if |s| == 1 || !IsSymbol(a, s[1]) then 1
             else if |s| == 2 || !IsSymbol(a, s[2]) then 2
             else 3;
    if j < |s| then
      // s[j] is outside the alphabet: only correct padding is accepted
      if !e.padded || s[j] != Pad || j < 2 then Decoded([], false)
      else if j == 2 then
        if |s| == 3 || s[3] != Pad then Decoded([], false)
        else Decoded(Bytes3(Value(a, s[0]), Value(a, s[1]), 0, 0)[..1], |s| == 4)
      else Decoded(Bytes3(Value(a, s[0]), Value(a, s[1]), Value(a, s[2]), 0)[..2], |s| == 4)
    else
      // the input ends inside the quantum
      if j == 1 || e.padded then Decoded([], false)
      else if j == 2 then Decoded(Bytes3(Value(a, s[0]), Value(a, s[1]), 0, 0)[..1], true)
      else Decoded(Bytes3(Value(a, s[0]), Value(a, s[1]), Value(a, s[2]), 0)[..2], true)
  }

  // ---- Properties ----

  lemma GroupRoundTrip(b0: byte, b1: byte, b2: byte)
    ensures Bytes3(b0 / 4, (b0 % 4) * 16 + b1 / 16, (b1 % 16) * 4 + b2 / 64, b2 % 64) == [b0, b1, b2]
  {
  }

  /** Every character of an encoding is in the alphabet, or is padding of a padded encoding. */
  lemma {:induction false} EncodeAlphabet(e: Encoding, data: seq<byte>)
    ensures forall i :: 0 <= i < |Encode(e, data)| ==>
      IsSymbol(e.alphabet, Encode(e, data)[i]) || (e.padded && Encode(e, data)[i] == Pad)
    decreases |data|
  {
    var a := e.alphabet;
    if |data| >= 3 {
      EncodeAlphabet(e, data[3..]);
      ValueOfSymbol(a, data[0] / 4);
      ValueOfSymbol(a, (data[0] % 4) * 16 + data[1] / 16);
      ValueOfSymbol(a, (data[1] % 16) * 4 + data[2] / 64);
      ValueOfSymbol(a, data[2] % 64);
    } else if |data| == 2 {
      ValueOfSymbol(a, data[0] / 4);
      ValueOfSymbol(a, (data[0] % 4) * 16 + data[1] / 16);
      ValueOfSymbol(a, (data[1] % 16) * 4);
    } else if |data| == 1 {
      ValueOfSymbol(a, data[0] / 4);
      ValueOfSymbol(a, (data[0] % 4) * 16);
    }
  }

  /** The length of an encoding is EncodedLen of the input length. */
  lemma {:induction false} EncodeLength(e: Encoding, data: seq<byte>)
    ensures |Encode(e, data)| == EncodedLen(e, |data|)
    decreases |data|
  {
    if |data| >= 3 {
      EncodeLength(e, data[3..]);
      EncodedLenStep(e, |data| - 3);
    }
  }

  lemma EncodedLenStep(e: Encoding, n: nat)
    ensures EncodedLen(e, n + 3) == EncodedLen(e, n) + 4
  {
  }

  /** An encoding contains no line breaks, so the decoder sees it unchanged. */
  lemma NoNewlines(e: Encoding, data: seq<byte>)
    ensures StripNewlines(Encode(e, data)) == Encode(e, data)
  {
    EncodeAlphabet(e, data);
    StripNothing(Encode(e, data));
  }

  lemma {:induction false} StripNothing(s: string)
    requires '\n' !in s && '\r' !in s
    ensures StripNewlines(s) == s
    decreases |s|
  {
    if |s| > 0 {
      StripNothing(s[1..]);
      assert s == [s[0]] + s[1..];
    }
  }

  /** The decoded bytes always fit the buffer DecodeString allocates for the text. */
  lemma DecodedFits(e: Encoding, s: string)
    ensures |DecodeString(e, s).data| <= DecodedLen(e, |s|)
  {
    StripShortens(s);
    DecodeQuantaFits(e, StripNewlines(s));
    DecodedLenMonotone(e, |StripNewlines(s)|, |s|);
  }

  lemma {:induction false} StripShortens(s: string)
    ensures |StripNewlines(s)| <= |s|
    decreases |s|
  {
    if |s| > 0 {
      StripShortens(s[1..]);
    }
  }

  lemma {:induction false} DecodeQuantaFits(e: Encoding, s: string)
    ensures |DecodeQuanta(e, s).data| <= DecodedLen(e, |s|)
    decreases |s|
  {
    var a := e.alphabet;
    if |s| >= 4 && IsSymbol(a, s[0]) && IsSymbol(a, s[1]) && IsSymbol(a, s[2]) && IsSymbol(a, s[3]) {
      DecodeQuantaFits(e, s[4..]);
      assert DecodedLen(e, |s|) == DecodedLen(e, |s| - 4) + 3;
    }
  }

  lemma {:induction false} DecodedLenMonotone(e: Encoding, m: nat, n: nat)
    requires m <= n
    ensures DecodedLen(e, m) <= DecodedLen(e, n)
    decreases n - m
  {
    if m < n {
      DecodedLenMonotone(e, m + 1, n);
    }
  }

  /** Round trip: decoding an encoding with the same encoding gives the bytes back, without error. */
  lemma DecodeEncode(e: Encoding, data: seq<byte>)
    ensures DecodeString(e, Encode(e, data)) == Decoded(data, true)
  {
    NoNewlines(e, data);
    DecodeQuantaEncode(e, data);
  }

  /** A quantum of four symbols decodes to its three bytes, and decoding goes on after it. */
  lemma DecodeQuad(e: Encoding, b0: byte, b1: byte, b2: byte, rest: string)
    ensures var r := DecodeQuanta(e, rest);
      DecodeQuanta(e, Quad(e.alphabet, b0, b1, b2) + rest) == Decoded([b0, b1, b2] + r.data, r.ok)
  {
    var a := e.alphabet;
    var q := Quad(a, b0, b1, b2);
    var s := q + rest;
    ValueOfSymbol(a, b0 / 4);
    ValueOfSymbol(a, (b0 % 4) * 16 + b1 / 16);
    ValueOfSymbol(a, (b1 % 16) * 4 + b2 / 64);
    ValueOfSymbol(a, b2 % 64);
    GroupRoundTrip(b0, b1, b2);
    assert s[0] == q[0] && s[1] == q[1] && s[2] == q[2] && s[3] == q[3];
    assert s[4..] == rest;
  }

  lemma DecodeShortTail(e: Encoding, data: seq<byte>)
    requires 1 <= |data| <= 2
    ensures DecodeQuanta(e, Encode(e, data)) == Decoded(data, true)
  {
    if |data| == 2 {
      DecodeTailTwo(e, data[0], data[1]);
      assert data == [data[0], data[1]];
    } else {
      DecodeTailOne(e, data[0]);
      assert data == [data[0]];
    }
  }

  lemma DecodeTailTwo(e: Encoding, b0: byte, b1: byte)
    ensures DecodeQuanta(e, Encode(e, [b0, b1])) == Decoded([b0, b1], true)
  {
    var a := e.alphabet;
    var v0, v1, v2 := b0 / 4, (b0 % 4) * 16 + b1 / 16, (b1 % 16) * 4;
    ValueOfSymbol(a, v0);
    ValueOfSymbol(a, v1);
    ValueOfSymbol(a, v2);
    var s := Encode(e, [b0, b1]);
    assert s[..3] == [Symbol(a, v0), Symbol(a, v1), Symbol(a, v2)];
    assert e.padded ==> |s| == 4 && s[3] == Pad;
    assert !e.padded ==> |s| == 3;
    GroupRoundTrip(b0, b1, 0);
    assert Bytes3(v0, v1, v2, 0)[..2] == [b0, b1];
  }

  lemma DecodeTailOne(e: Encoding, b0: byte)
    ensures DecodeQuanta(e, Encode(e, [b0])) == Decoded([b0], true)
  {
    var a := e.alphabet;
    ValueOfSymbol(a, b0 / 4);
    ValueOfSymbol(a, (b0 % 4) * 16);
    GroupRoundTrip(b0, 0, 0);
  }

  lemma {:induction false} DecodeQuantaEncode(e: Encoding, data: seq<byte>)
    ensures DecodeQuanta(e, Encode(e, data)) == Decoded(data, true)
    decreases |data|
  {
    if |data| >= 3 {
      DecodeQuantaEncode(e, data[3..]);
      DecodeQuad(e, data[0], data[1], data[2], Encode(e, data[3..]));
      assert data == [data[0], data[1], data[2]] + data[3..];
    } else if |data| > 0 {
      DecodeShortTail(e, data);
    }
  }

  /** The unpadded encoding is the padded one without its trailing '=' characters. */
  lemma {:induction false} PaddedIsRawPlusPadding(a: Alphabet, data: seq<byte>)
    ensures Encode(Encoding(a, true), data)
         == Encode(Encoding(a, false), data) + seq((3 - |data| % 3) % 3, _ => Pad)
    decreases |data|
  {
    var padded, raw := Encoding(a, true), Encoding(a, false);
    if |data| >= 3 {
      var q, rest := Quad(a, data[0], data[1], data[2]), data[3..];
      ThreeLess(|data|);
      PaddedIsRawPlusPadding(a, rest);
      assert Encode(padded, data) == q + Encode(padded, rest);
      assert Encode(raw, data) == q + Encode(raw, rest);
    } else if |data| == 2 {
      assert seq(1, _ => Pad) == [Pad];
    } else if |data| == 1 {
      assert seq(2, _ => Pad) == [Pad, Pad];
    } else {
      assert seq(0, _ => Pad) == [];
    }
  }

  /** Dropping three from a length keeps its remainder modulo three. */
  lemma ThreeLess(n: nat)
    requires n >= 3
    ensures (n - 3) % 3 == n % 3
  {
  }

  lemma {:induction false} TrimPads(x: string, k: nat)
    requires |x| == 0 || x[|x| - 1] != Pad
    ensures TrimRightRune(x + seq(k, _ => Pad), Pad) == x
    decreases k
  {
    if k > 0 {
      var s := x + seq(k, _ => Pad);
      assert s[..|s| - 1] == x + seq(k - 1, _ => Pad);
      TrimPads(x, k - 1);
    } else {
      assert x + seq(k, _ => Pad) == x;
    }
  }

  /** Trimming '=' from the right of a padded encoding gives the unpadded encoding. */
  lemma TrimmedIsRaw(a: Alphabet, data: seq<byte>)
    ensures TrimRightRune(Encode(Encoding(a, true), data), Pad) == Encode(Encoding(a, false), data)
  {
    PaddedIsRawPlusPadding(a, data);
    var raw := Encode(Encoding(a, false), data);
    EncodeAlphabet(Encoding(a, false), data);
    assert |raw| > 0 ==> IsSymbol(a, raw[|raw| - 1]);
    TrimPads(raw, (3 - |data| % 3) % 3);
  }

  /** Decoding an unpadded encoding with the padded decoder of the same alphabet keeps
      the complete quanta and fails on a short final quantum. */
  lemma {:induction false} PaddedDecodeOfRaw(a: Alphabet, data: seq<byte>)
    ensures DecodeString(Encoding(a, true), Encode(Encoding(a, false), data))
         == Decoded(data[..|data| - |data| % 3], |data| % 3 == 0)
  {
    NoNewlines(Encoding(a, false), data);
    PaddedQuantaOfRaw(a, data);
  }

  /** A short unpadded tail is an error for the padded decoder. */
  lemma PaddedShortTail(a: Alphabet, data: seq<byte>)
    requires 1 <= |data| <= 2
    ensures DecodeQuanta(Encoding(a, true), Encode(Encoding(a, false), data)) == Decoded([], false)
  {
    if |data| == 2 {
      ValueOfSymbol(a, data[0] / 4);
      ValueOfSymbol(a, (data[0] % 4) * 16 + data[1] / 16);
      ValueOfSymbol(a, (data[1] % 16) * 4);
    } else {
      ValueOfSymbol(a, data[0] / 4);
      ValueOfSymbol(a, (data[0] % 4) * 16);
    }
  }

  lemma {:induction false} PaddedQuantaOfRaw(a: Alphabet, data: seq<byte>)
    ensures DecodeQuanta(Encoding(a, true), Encode(Encoding(a, false), data))
         == Decoded(data[..|data| - |data| % 3], |data| % 3 == 0)
    decreases |data|
  {
    if |data| >= 3 {
      var tail := Encode(Encoding(a, false), data[3..]);
      PaddedQuantaOfRaw(a, data[3..]);
      EncodeStep(Encoding(a, false), data);
      DecodeQuad(Encoding(a, true), data[0], data[1], data[2], tail);
      PaddedQuantaStep(data, DecodeQuanta(Encoding(a, true), tail),
        DecodeQuanta(Encoding(a, true), Encode(Encoding(a, false), data)));
    } else if |data| > 0 {
      PaddedShortTail(a, data);
    }
  }

  /** The bytes of a first quantum followed by the complete quanta of the rest are
      the complete quanta of the whole. */
  lemma PaddedQuantaStep(data: seq<byte>, r: Decoded, whole: Decoded)
    requires |data| >= 3
    requires r == Decoded(data[3..][..|data[3..]| - |data[3..]| % 3], |data[3..]| % 3 == 0)
    requires whole == Decoded([data[0], data[1], data[2]] + r.data, r.ok)
    ensures whole == Decoded(data[..|data| - |data| % 3], |data| % 3 == 0)
  {
    ThreeLess(|data|);
    PrefixAfterThree(data, |data| % 3);
  }

  /** An encoding of three or more bytes starts with the quantum of the first three. */
  lemma EncodeStep(e: Encoding, data: seq<byte>)
    requires |data| >= 3
    ensures Encode(e, data) == Quad(e.alphabet, data[0], data[1], data[2]) + Encode(e, data[3..])
  {
  }

  lemma PrefixAfterThree(data: seq<byte>, k: nat)
    requires |data| >= 3 + k
    ensures data[..|data| - k] == [data[0], data[1], data[2]] + data[3..][..|data| - 3 - k]
  {
  }

  /** Decoding unpadded URL-alphabet text with the unpadded standard decoder: it
      succeeds, with the original bytes, exactly when the text holds no '-' and
      no '_'; otherwise it fails and what it returns is a proper prefix of the bytes. */
  lemma {:induction false} StdDecodeOfUrl(data: seq<byte>)
    ensures var r := DecodeString(RawStdEncoding, Encode(RawURLEncoding, data));
      && (r.ok <==> '-' !in Encode(RawURLEncoding, data) && '_' !in Encode(RawURLEncoding, data))
      && (r.ok ==> r.data == data)
      && (!r.ok ==> |r.data| < |data| && r.data == data[..|r.data|])
  {
    NoNewlines(RawURLEncoding, data);
    StdQuantaOfUrl(data);
  }

  predicate UrlOnly(s: string) {
    '-' in s || '_' in s
  }

  /** Four URL-alphabet characters read by the unpadded standard decoder: the
      same values when none is '-' or '_', an error with nothing from this
      quantum otherwise. */
  lemma QuadAsStd(q: string, rest: string)
    requires |q| == 4 && IsSymbol(Url, q[0]) && IsSymbol(Url, q[1]) && IsSymbol(Url, q[2]) && IsSymbol(Url, q[3])
    ensures var r := DecodeQuanta(RawStdEncoding, rest);
      DecodeQuanta(RawStdEncoding, q + rest)
        == if UrlOnly(q) then Decoded([], false)
           else Decoded(Bytes3(Value(Url, q[0]), Value(Url, q[1]), Value(Url, q[2]), Value(Url, q[3])) + r.data, r.ok)
  {
    var s := q + rest;
    SymbolAcrossAlphabets(q[0]);
    SymbolAcrossAlphabets(q[1]);
    SymbolAcrossAlphabets(q[2]);
    SymbolAcrossAlphabets(q[3]);
    assert s[0] == q[0] && s[1] == q[1] && s[2] == q[2] && s[3] == q[3];
    if UrlOnly(q) {
      var i :| 0 <= i < 4 && (q[i] == '-' || q[i] == '_');
    } else {
      assert s[4..] == rest;
    }
  }

  lemma UrlQuadAsStd(b0: byte, b1: byte, b2: byte, rest: string)
    ensures var q := Quad(Url, b0, b1, b2);
      var r := DecodeQuanta(RawStdEncoding, rest);
      DecodeQuanta(RawStdEncoding, q + rest)
        == if UrlOnly(q) then Decoded([], false) else Decoded([b0, b1, b2] + r.data, r.ok)
  {
    ValueOfSymbol(Url, b0 / 4);
    ValueOfSymbol(Url, (b0 % 4) * 16 + b1 / 16);
    ValueOfSymbol(Url, (b1 % 16) * 4 + b2 / 64);
    ValueOfSymbol(Url, b2 % 64);
    QuadAsStd(Quad(Url, b0, b1, b2), rest);
    GroupRoundTrip(b0, b1, b2);
  }

  /** The same for a final quantum of two or three characters. */
  lemma TailAsStd(s: string)
    requires 2 <= |s| <= 3 && IsSymbol(Url, s[0]) && IsSymbol(Url, s[1]) && (|s| == 3 ==> IsSymbol(Url, s[2]))
    ensures DecodeQuanta(RawStdEncoding, s)
        == if UrlOnly(s) then Decoded([], false)
           else if |s| == 2 then Decoded(Bytes3(Value(Url, s[0]), Value(Url, s[1]), 0, 0)[..1], true)
           else Decoded(Bytes3(Value(Url, s[0]), Value(Url, s[1]), Value(Url, s[2]), 0)[..2], true)
  {
    SymbolAcrossAlphabets(s[0]);
    SymbolAcrossAlphabets(s[1]);
    if |s| == 3 {
      SymbolAcrossAlphabets(s[2]);
    }
    if UrlOnly(s) {
      var i :| 0 <= i < |s| && (s[i] == '-' || s[i] == '_');
    }
  }

  lemma UrlTailAsStd(data: seq<byte>)
    requires 1 <= |data| <= 2
    ensures var s := Encode(RawURLEncoding, data);
      DecodeQuanta(RawStdEncoding, s) == if UrlOnly(s) then Decoded([], false) else Decoded(data, true)
  {
    if |data| == 2 {
      UrlTailTwoAsStd(data[0], data[1]);
      assert data == [data[0], data[1]];
    } else {
      UrlTailOneAsStd(data[0]);
      assert data == [data[0]];
    }
  }

  lemma UrlTailTwoAsStd(b0: byte, b1: byte)
    ensures var s := Encode(RawURLEncoding, [b0, b1]);
      DecodeQuanta(RawStdEncoding, s) == if UrlOnly(s) then Decoded([], false) else Decoded([b0, b1], true)
  {
    ValueOfSymbol(Url, b0 / 4);
    ValueOfSymbol(Url, (b0 % 4) * 16 + b1 / 16);
    ValueOfSymbol(Url, (b1 % 16) * 4);
    TailAsStd(Encode(RawURLEncoding, [b0, b1]));
    GroupRoundTrip(b0, b1, 0);
  }

  lemma UrlTailOneAsStd(b0: byte)
    ensures var s := Encode(RawURLEncoding, [b0]);
      DecodeQuanta(RawStdEncoding, s) == if UrlOnly(s) then Decoded([], false) else Decoded([b0], true)
  {
    ValueOfSymbol(Url, b0 / 4);
    ValueOfSymbol(Url, (b0 % 4) * 16);
    TailAsStd(Encode(RawURLEncoding, [b0]));
    GroupRoundTrip(b0, 0, 0);
  }

  lemma {:induction false} StdQuantaOfUrl(data: seq<byte>)
    ensures var r := DecodeQuanta(RawStdEncoding, Encode(RawURLEncoding, data));
      && (r.ok <==> !UrlOnly(Encode(RawURLEncoding, data)))
      && (r.ok ==> r.data == data)
      && (!r.ok ==> |r.data| < |data| && r.data == data[..|r.data|])
    decreases |data|
  {
    if |data| >= 3 {
      var q := Quad(Url, data[0], data[1], data[2]);
      var tail := Encode(RawURLEncoding, data[3..]);
      EncodeStep(RawURLEncoding, data);
      UrlQuadAsStd(data[0], data[1], data[2], tail);
      StdQuantaOfUrl(data[3..]);
      assert UrlOnly(q + tail) <==> UrlOnly(q) || UrlOnly(tail);
      UrlQuantaStep(data, UrlOnly(q), UrlOnly(tail), DecodeQuanta(RawStdEncoding, tail),
        DecodeQuanta(RawStdEncoding, Encode(RawURLEncoding, data)));
    } else if |data| > 0 {
      UrlTailAsStd(data);
    }
  }

  /** A first quantum read with or without error, followed by the rest: an error
      anywhere leaves a proper prefix of the bytes. */
  lemma UrlQuantaStep(data: seq<byte>, quadUrl: bool, tailUrl: bool, r: Decoded, whole: Decoded)
    requires |data| >= 3
    requires (r.ok <==> !tailUrl) && (r.ok ==> r.data == data[3..])
    requires !r.ok ==> |r.data| < |data| - 3 && r.data == data[3..][..|r.data|]
    requires whole == if quadUrl then Decoded([], false) else Decoded([data[0], data[1], data[2]] + r.data, r.ok)
    ensures (whole.ok <==> !(quadUrl || tailUrl)) && (whole.ok ==> whole.data == data)
    ensures !whole.ok ==> |whole.data| < |data| && whole.data == data[..|whole.data|]
  {
    assert data == [data[0], data[1], data[2]] + data[3..];
    if !quadUrl && !r.ok {
      assert data[..3 + |r.data|] == [data[0], data[1], data[2]] + data[3..][..|r.data|];
    }
  }
}
