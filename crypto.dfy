/** The primitives the server calls but does not implement: SHA-256, RSASSA-PKCS1-v1_5
    signatures (section 8.2 of RFC 8017), HMAC-SHA256 (RFC 2104), scrypt (RFC 7914)
    and JSON marshalling. Each is a parameter of the model: a record of functions
    together with a predicate stating the only facts the server relies on. Also
    the UTF-8 encoding that Go's `[]byte(s)` applies to a string. */
module Crypto {
  import opened Wrappers

  /** A key as the bytes of its encoding; its inner structure plays no part here. */
  type Key = seq<byte>

  datatype Primitives = Primitives(
    sha256: seq<byte> -> seq<byte>,
    publicOf: Key -> Key,
    signPKCS1v15: (Key, seq<byte>) -> seq<byte>,
    verifyPKCS1v15: (Key, seq<byte>, seq<byte>) -> bool,
    hmacSha256: (Key, seq<byte>) -> seq<byte>,
    scryptKey: (seq<byte>, seq<byte>, int, int, int, int) -> Result<seq<byte>, string>)
  {
    /** What the model assumes of the primitives: a signature made with a private key
        verifies under its public key, and scrypt yields a key of the requested length
        and never fails for the parameters the server passes. */
    ghost predicate Sound() {
      && (forall k: Key, m: seq<byte> :: verifyPKCS1v15(publicOf(k), m, signPKCS1v15(k, m)))
      && (forall pw: seq<byte>, salt: seq<byte>, n: int, r: int, p: int, len: int
            {:trigger scryptKey(pw, salt, n, r, p, len)} ::
            scryptKey(pw, salt, n, r, p, len).Success? ==> |scryptKey(pw, salt, n, r, p, len).value| == len)
      && (forall pw: seq<byte>, salt: seq<byte> :: scryptKey(pw, salt, ScryptN, ScryptR, ScryptP, ScryptKeyLen).Success?)
    }
  }

  /** The cost parameters the server passes to scrypt.Key. */
  const ScryptN := 32768
  const ScryptR := 8
  const ScryptP := 1
  const ScryptKeyLen := 32

  /** A JSON codec for values of type T, as encoding/json treats a struct. */
  datatype Json<!T(!new)> = Json(marshal: T -> seq<byte>, unmarshal: seq<byte> -> T)
  {
    /** Unmarshalling the marshalled text gives the value back, and a strict prefix
        of marshalled text (an unterminated object) is a syntax error, which leaves
        the target at `zero`. */
    ghost predicate Sound(zero: T) {
      && (forall v: T :: unmarshal(marshal(v)) == v)
      && (forall v: T, n: nat :: n < |marshal(v)| ==> unmarshal(marshal(v)[..n]) == zero)
    }
  }

  /** The UTF-8 encoding of one code point. */
  function Utf8Char(c: char): (b: seq<byte>)
    ensures 1 <= |b| <= 4
    ensures (c as int < 0x80) <==> |b| == 1
    ensures |b| == 1 ==> b[0] == c as int
  {
    var n := c as int;
    if n < 0x80 then [n]
    else if n < 0x800 then [0xC0 + n / 64, 0x80 + n % 64]
    else if n < 0x10000 then [0xE0 + n / 4096, 0x80 + (n / 64) % 64, 0x80 + n % 64]
    else [0xF0 + n / 262144, 0x80 + (n / 4096) % 64, 0x80 + (n / 64) % 64, 0x80 + n % 64]
  }

  /** Go's conversion `[]byte(s)`. */
  function Utf8(s: string): seq<byte>
    decreases |s|
  {
    if |s| == 0 then [] else Utf8Char(s[0]) + Utf8(s[1..])
  }

  predicate IsAscii(s: string) {
    forall i :: 0 <= i < |s| ==> s[i] as int < 0x80
  }

  /** Text made only of ASCII characters, such as base64 or hexadecimal text,
      converts byte for byte. */
  lemma {:induction false} Utf8Ascii(s: string)
    requires IsAscii(s)
    ensures |Utf8(s)| == |s|
    ensures forall i :: 0 <= i < |s| ==> Utf8(s)[i] == s[i] as int
    decreases |s|
  {
    if |s| > 0 {
      Utf8Ascii(s[1..]);
    }
  }

  lemma {:induction false} Utf8Append(a: string, b: string)
    ensures Utf8(a + b) == Utf8(a) + Utf8(b)
    decreases |a|
  {
    if |a| > 0 {
      assert (a + b)[1..] == a[1..] + b;
      assert (a + b)[0] == a[0];
      Utf8Append(a[1..], b);
    } else {
      assert a + b == b;
    }
  }
}
