/** The parts of Go's `strings` and `strconv` packages that the authentication
    server relies on: Index, Split, Join, TrimSpace, TrimRight with a one-rune
    cutset, Itoa and Atoi. Go strings are modelled as sequences of Unicode
    code points. */
module GoStrings {
  import opened Wrappers

  /** `sep` occurs in `s` starting at position `j`. */
  predicate OccursAt(s: string, sep: string, j: int) {
    0 <= j && j + |sep| <= |s| && s[j..j + |sep|] == sep
  }

  /** Occurrences in `s` after the first position are the occurrences in `s[1..]`, shifted by one. */
  lemma OccursAtTail(s: string, sep: string)
    requires |s| > 0
    ensures forall k {:trigger OccursAt(s, sep, k)} :: 1 <= k ==> (OccursAt(s, sep, k) <==> OccursAt(s[1..], sep, k - 1))
  {
    forall k | 1 <= k && k + |sep| <= |s|
      ensures OccursAt(s, sep, k) <==> OccursAt(s[1..], sep, k - 1)
    {
      assert s[1..][k - 1..k - 1 + |sep|] == s[k..k + |sep|];
    }
  }

  /** strings.Index: the position of the first occurrence of `sep`, or -1. */
  function Index(s: string, sep: string): (i: int)
    requires |sep| > 0
    ensures i >= -1
    ensures i >= 0 ==> OccursAt(s, sep, i)
    ensures forall j :: 0 <= j < (if i < 0 then |s| + 1 else i) ==> !OccursAt(s, sep, j)
    decreases |s|
  {
    if |s| < |sep| then -1
    else if s[..|sep|] == sep then 0
    else
      var j := Index(s[1..], sep);
      OccursAtTail(s, sep);
      if j >= 0 then j + 1 else -1
  }

  /** strings.Split for a non-empty separator (every call site in the server
      passes a non-empty literal): the pieces between successive leftmost,
      non-overlapping occurrences of `sep`. */
  function Split(s: string, sep: string): (parts: seq<string>)
    requires |sep| > 0
    ensures |parts| >= 1
    decreases |s|
  {
    var i := Index(s, sep);
    if i < 0 then [s] else [s[..i]] + Split(s[i + |sep|..], sep)
  }

  /** strings.Join. */
  function Join(parts: seq<string>, sep: string): string
    decreases |parts|
  {
    if |parts| == 0 then ""
    else if |parts| == 1 then parts[0]
    else parts[0] + sep + Join(parts[1..], sep)
  }

  /** Splitting loses nothing: joining the pieces with the separator gives the input back. */
  lemma JoinCons(a: string, rest: seq<string>, sep: string)
    requires |rest| >= 1
    ensures Join([a] + rest, sep) == a + sep + Join(rest, sep)
  {
    assert ([a] + rest)[1..] == rest;
  }

  lemma Reassemble(s: string, sep: string, i: int)
    requires OccursAt(s, sep, i)
    ensures s[..i] + sep + s[i + |sep|..] == s
  {
    assert s == s[..i] + s[i..i + |sep|] + s[i + |sep|..];
  }

  lemma {:induction false} JoinSplit(s: string, sep: string)
    requires |sep| > 0
    ensures Join(Split(s, sep), sep) == s
    decreases |s|
  {
    var i := Index(s, sep);
    if i >= 0 {
      var rest := s[i + |sep|..];
      var tail := Split(rest, sep);
      calc {
        Join(Split(s, sep), sep);
        { assert Split(s, sep) == [s[..i]] + tail; }
        Join([s[..i]] + tail, sep);
        { JoinCons(s[..i], tail, sep); }
        s[..i] + sep + Join(tail, sep);
        { JoinSplit(rest, sep); }
        s[..i] + sep + rest;
        { Reassemble(s, sep, i); }
        s;
      }
    } else {
      assert Split(s, sep) == [s];
    }
  }

  /** No piece of a split contains the separator. */
  lemma {:induction false} SplitPiecesFree(s: string, sep: string, k: int)
    requires |sep| > 0
    requires 0 <= k < |Split(s, sep)|
    ensures forall j :: !OccursAt(Split(s, sep)[k], sep, j)
    decreases |s|
  {
    var i := Index(s, sep);
    if i < 0 {
    } else if k == 0 {
      forall j | OccursAt(s[..i], sep, j) ensures false {
        assert s[..i][j..j + |sep|] == s[j..j + |sep|];
        assert OccursAt(s, sep, j);
      }
    } else {
      SplitPiecesFree(s[i + |sep|..], sep, k - 1);
    }
  }

  /** A one-character separator that does not occur in `a` ends the first piece right after `a`. */
  lemma SplitAfter(a: string, c: char, rest: string)
    requires c !in a
    ensures Split(a + [c] + rest, [c]) == [a] + Split(rest, [c])
  {
    var s := a + [c] + rest;
    forall j | 0 <= j < |a| ensures !OccursAt(s, [c], j) {
      assert s[j..j + 1] == [a[j]];
    }
    assert OccursAt(s, [c], |a|) by { assert s[|a|..|a| + 1] == [c]; }
    assert Index(s, [c]) == |a|;
    assert s[..|a|] == a;
    assert s[|a| + 1..] == rest;
  }

  /** A string without the one-character separator splits into itself. */
  lemma SplitNone(s: string, c: char)
    requires c !in s
    ensures Split(s, [c]) == [s]
  {
    forall j | 0 <= j < |s| ensures !OccursAt(s, [c], j) {
      assert s[j..j + 1] == [s[j]];
    }
  }

  /** The position of the first `c` in `s`, or -1. */
  function FirstOf(s: string, c: char): (i: int)
    ensures -1 <= i < |s|
    ensures i < 0 ==> c !in s
    ensures i >= 0 ==> s[i] == c && c !in s[..i]
    decreases |s|
  {
    if |s| == 0 then -1
    else if s[0] == c then 0
    else
      var j := FirstOf(s[1..], c);
      assert j >= 0 ==> s[..j + 1] == [s[0]] + s[1..][..j];
      if j < 0 then -1 else j + 1
  }

  /** Splitting on a one-character separator distributes over that separator. */
  lemma {:induction false} SplitConcat(s: string, c: char, t: string)
    ensures Split(s + [c] + t, [c]) == Split(s, [c]) + Split(t, [c])
    decreases |s|
  {
    var i := FirstOf(s, c);
    if i < 0 {
      SplitAfter(s, c, t);
      SplitNone(s, c);
    } else {
      var a, rest := s[..i], s[i + 1..];
      assert s == a + [c] + rest;
      SplitConcat(rest, c, t);
      SplitConcatStep(a, rest, c, t);
    }
  }

  lemma SplitConcatStep(a: string, rest: string, c: char, t: string)
    requires c !in a
    requires Split(rest + [c] + t, [c]) == Split(rest, [c]) + Split(t, [c])
    ensures Split(a + [c] + rest + [c] + t, [c]) == Split(a + [c] + rest, [c]) + Split(t, [c])
  {
    calc {
      Split(a + [c] + rest + [c] + t, [c]);
      { assert a + [c] + rest + [c] + t == a + [c] + (rest + [c] + t); }
      Split(a + [c] + (rest + [c] + t), [c]);
      { SplitAfter(a, c, rest + [c] + t); }
      [a] + Split(rest + [c] + t, [c]);
      [a] + Split(rest, [c]) + Split(t, [c]);
      { SplitAfter(a, c, rest); }
      Split(a + [c] + rest, [c]) + Split(t, [c]);
    }
  }

  /** Three pieces free of the separator, joined by it, split back into those pieces. */
  lemma SplitThree(a: string, b: string, d: string, c: char)
    requires c !in a && c !in b && c !in d
    ensures Split(a + [c] + b + [c] + d, [c]) == [a, b, d]
  {
    SplitConcat(a + [c] + b, c, d);
    SplitConcat(a, c, b);
    SplitNone(a, c);
    SplitNone(b, c);
    SplitNone(d, c);
  }

  /** The first piece of a split runs at least up to the first occurrence of the separator. */
  lemma FirstPieceReaches(s: string, sep: string, k: int)
    requires |sep| > 0
    requires 0 <= k <= |s|
    requires forall j :: 0 <= j < k ==> !OccursAt(s, sep, j)
    ensures |Split(s, sep)[0]| >= k
    ensures Split(s, sep)[0] == s[..|Split(s, sep)[0]|]
  {
  }

  /** unicode.IsSpace. */
  predicate IsSpace(c: char) {
    var n := c as int;
    n == 0x09 || n == 0x0A || n == 0x0B || n == 0x0C || n == 0x0D || n == 0x20
    || n == 0x85 || n == 0xA0 || n == 0x1680 || (0x2000 <= n <= 0x200A)
    || n == 0x2028 || n == 0x2029 || n == 0x202F || n == 0x205F || n == 0x3000
  }

  function TrimLeftSpace(s: string): string
    decreases |s|
  {
    if |s| > 0 && IsSpace(s[0]) then TrimLeftSpace(s[1..]) else s
  }

  function TrimRightSpace(s: string): string
    decreases |s|
  {
    if |s| > 0 && IsSpace(s[|s| - 1]) then TrimRightSpace(s[..|s| - 1]) else s
  }

  /** strings.TrimSpace. */
  function TrimSpace(s: string): string {
    TrimRightSpace(TrimLeftSpace(s))
  }

  /** A string that neither starts nor ends with white space is left as it is. */
  lemma TrimSpaceKeeps(s: string)
    requires |s| > 0 && !IsSpace(s[0]) && !IsSpace(s[|s| - 1])
    ensures TrimSpace(s) == s
  {
  }

  /** strings.TrimRight with a cutset of the single rune `c`. */
  function TrimRightRune(s: string, c: char): (r: string)
    ensures |r| <= |s| && r == s[..|r|]
    ensures |r| > 0 ==> r[|r| - 1] != c
    ensures forall j :: |r| <= j < |s| ==> s[j] == c
    decreases |s|
  {
    if |s| > 0 && s[|s| - 1] == c then TrimRightRune(s[..|s| - 1], c) else s
  }

  function DigitChar(d: int): char
    requires 0 <= d < 10
  {
    ('0' as int + d) as char
  }

  /** strconv.Itoa for the non-negative numbers the server formats. */
  function Itoa(n: nat): (r: string)
    ensures |r| >= 1 && forall j :: 0 <= j < |r| ==> '0' <= r[j] <= '9'
    decreases n
  {
    if n < 10 then [DigitChar(n)] else Itoa(n / 10) + [DigitChar(n % 10)]
  }

  /** The value of a string of decimal digits. */
  function DigitsValue(s: string): nat
    requires forall j :: 0 <= j < |s| ==> '0' <= s[j] <= '9'
    decreases |s|
  {
    if |s| == 0 then 0 else DigitsValue(s[..|s| - 1]) * 10 + (s[|s| - 1] as int - '0' as int)
  }

  const MaxInt64: int := 0x7FFF_FFFF_FFFF_FFFF
  const MinInt64: int := -0x8000_0000_0000_0000

  /** strconv.Atoi on a 64-bit platform: an optional sign followed by at least
      one decimal digit, within the range of int; anything else is an error. */
  function Atoi(s: string): (r: Option<int>)
    ensures r.Some? ==> MinInt64 <= r.value <= MaxInt64
  {
    var neg := |s| > 0 && s[0] == '-';
    var digits := if |s| > 0 && (s[0] == '-' || s[0] == '+') then s[1..] else s;
    if |digits| == 0 || exists j :: 0 <= j < |digits| && !('0' <= digits[j] <= '9') then None
    else
      var d: int := DigitsValue(digits);
      var v := if neg then -d else d;
      if MinInt64 <= v <= MaxInt64 then Some(v) else None
  }

  lemma {:induction false} DigitsValueItoa(n: nat)
    ensures DigitsValue(Itoa(n)) == n
    decreases n
  {
    if n >= 10 {
      DigitsValueItoa(n / 10);
      var r := Itoa(n);
      assert r[..|r| - 1] == Itoa(n / 10);
    }
  }

  /** Formatting a user id and parsing it back gives the same id. */
  lemma AtoiItoa(n: nat)
    requires n <= MaxInt64
    ensures Atoi(Itoa(n)) == Some(n)
  {
    DigitsValueItoa(n);
  }
}
