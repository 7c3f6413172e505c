/** Shared vocabulary: an Option type, the string operations the log engine
    relies on (Rust's `trim`, ASCII case mapping, `find`/`contains`) and the
    decimal conversions behind Rust's `str::parse` and `to_string` on integers. */
module Common {

  datatype Option<+T> = None | Some(value: T) {
    function GetOr(default: T): T {
      match this
      case Some(v) => v
      case None => default
    }

    /** Rust's `Option::or`: this value if present, else `other`. */
    function Or(other: Option<T>): Option<T> {
      if Some? then this else other
    }
  }

  /** Strictly increasing, hence also free of repetitions. */
  predicate Increasing(s: seq<nat>) {
    forall i, j :: 0 <= i < j < |s| ==> s[i] < s[j]
  }

  lemma IncreasingCons(x: nat, s: seq<nat>)
    ensures Increasing(s) && (forall y :: y in s ==> x < y) ==> Increasing([x] + s)
  {
    if Increasing(s) && (forall y :: y in s ==> x < y) {
      forall i, j | 0 <= i < j < |[x] + s|
        ensures ([x] + s)[i] < ([x] + s)[j]
      {
        assert ([x] + s)[j] == s[j - 1] && s[j - 1] in s;
        if i > 0 {
          assert ([x] + s)[i] == s[i - 1];
        }
      }
    }
  }

  function Min(a: int, b: int): int { if a <= b then a else b }
  function Max(a: int, b: int): int { if a >= b then a else b }

  /** Rust's `usize::saturating_sub` on naturals. */
  function SatSub(a: nat, b: nat): (r: nat)
    ensures r == if a >= b then a - b else 0
  {
    if a >= b then a - b else 0
  }

  // ---------------------------------------------------------------------------
  // Whitespace and trimming
  // ---------------------------------------------------------------------------

  /** The Unicode White_Space property, used by Rust's `str::trim` and by the
      regex class `\s`. */
  predicate IsWhitespace(c: char) {
    var k := c as int;
    (0x09 <= k <= 0x0D) || k == 0x20 || k == 0x85 || k == 0xA0 || k == 0x1680
    || (0x2000 <= k <= 0x200A) || k == 0x2028 || k == 0x2029 || k == 0x202F
    || k == 0x205F || k == 0x3000
  }

  function TrimStart(s: string): (r: string)
    ensures |r| <= |s|
  {
    if s != [] && IsWhitespace(s[0]) then TrimStart(s[1..]) else s
  }

  /** `TrimStart` drops exactly the leading whitespace. */
  lemma {:induction false} TrimStartSpec(s: string)
    ensures var r := TrimStart(s);
            && r == s[|s| - |r|..]
            && (forall i :: 0 <= i < |s| - |r| ==> IsWhitespace(s[i]))
            && (r != [] ==> !IsWhitespace(r[0]))
  {
    if s != [] && IsWhitespace(s[0]) {
      TrimStartSpec(s[1..]);
      assert forall i :: 1 <= i < |s| ==> s[i] == s[1..][i - 1];
    }
  }

  function TrimEnd(s: string): (r: string)
    ensures |r| <= |s|
  {
    if s != [] && IsWhitespace(s[|s| - 1]) then TrimEnd(s[..|s| - 1]) else s
  }

  /** `TrimEnd` drops exactly the trailing whitespace. */
  lemma {:induction false} TrimEndSpec(s: string)
    ensures var r := TrimEnd(s);
            && r == s[..|r|]
            && (forall i :: |r| <= i < |s| ==> IsWhitespace(s[i]))
            && (r != [] ==> !IsWhitespace(r[|r| - 1]))
  {
    if s != [] && IsWhitespace(s[|s| - 1]) {
      TrimEndSpec(s[..|s| - 1]);
    }
  }

  /** Rust's `str::trim`. */
  function Trim(s: string): string {
    TrimEnd(TrimStart(s))
  }

  /** `Trim` yields the empty string exactly when the input is all whitespace. */
  lemma TrimEmptyIffBlank(s: string)
    ensures Trim(s) == [] <==> forall i :: 0 <= i < |s| ==> IsWhitespace(s[i])
  {
    var t := TrimStart(s);
    TrimStartSpec(s);
    TrimEndSpec(t);
    if Trim(s) != [] {
      var k := |s| - |t|;
      assert !IsWhitespace(t[0]) && t[0] == s[k];
    }
  }

  /** Rust's `trim_end_matches('\n')`. */
  function TrimEndNewlines(s: string): (r: string)
    ensures |r| <= |s| && r == s[..|r|]
    ensures r != [] ==> r[|r| - 1] != '\n'
    ensures forall i :: |r| <= i < |s| ==> s[i] == '\n'
  {
    if s != [] && s[|s| - 1] == '\n' then TrimEndNewlines(s[..|s| - 1]) else s
  }

  // ---------------------------------------------------------------------------
  // ASCII case mapping
  // ---------------------------------------------------------------------------

  function LowerChar(c: char): char {
    if 'A' <= c <= 'Z' then (c as int + 32) as char else c
  }

  function UpperChar(c: char): char {
    if 'a' <= c <= 'z' then (c as int - 32) as char else c
  }

  /** ASCII lower-casing, standing for Rust's `to_lowercase`. */
  function Lower(s: string): (r: string)
    ensures |r| == |s| && forall i :: 0 <= i < |s| ==> r[i] == LowerChar(s[i])
  {
    seq(|s|, i requires 0 <= i < |s| => LowerChar(s[i]))
  }

  /** ASCII upper-casing, standing for Rust's `to_uppercase`. */
  function Upper(s: string): (r: string)
    ensures |r| == |s| && forall i :: 0 <= i < |s| ==> r[i] == UpperChar(s[i])
  {
    seq(|s|, i requires 0 <= i < |s| => UpperChar(s[i]))
  }

  /** Upper-casing forgets any earlier case mapping. */
  lemma UpperOfLower(s: string)
    ensures Upper(Lower(s)) == Upper(s)
  {
    assert forall i :: 0 <= i < |s| ==> UpperChar(LowerChar(s[i])) == UpperChar(s[i]);
  }

  // ---------------------------------------------------------------------------
  // Substring search
  // ---------------------------------------------------------------------------

  predicate OccursAt(s: string, p: string, k: nat) {
    k + |p| <= |s| && s[k..k + |p|] == p
  }

  /** The first occurrence of `p` in `s` at or after `from`. */
  function FindFrom(s: string, p: string, from: nat): (r: Option<nat>)
    requires from <= |s|
    ensures r.Some? ==> from <= r.value && OccursAt(s, p, r.value)
    ensures forall j: nat :: from <= j && (r.None? || j < r.value) ==> !OccursAt(s, p, j)
    decreases |s| - from
  {
    if OccursAt(s, p, from) then Some(from)
    else if from == |s| then None
    else FindFrom(s, p, from + 1)
  }

  /** Rust's `str::find`: the index of the first occurrence of `p` in `s`. */
  function Find(s: string, p: string): (r: Option<nat>)
    ensures r.Some? ==> OccursAt(s, p, r.value) && r.value + |p| <= |s|
    ensures forall j: nat :: (r.None? || j < r.value) ==> !OccursAt(s, p, j)
  {
    FindFrom(s, p, 0)
  }

  /** Rust's `str::contains`. */
  predicate Contains(s: string, p: string) {
    Find(s, p).Some?
  }

  lemma ContainsEmpty(s: string)
    ensures Contains(s, [])
  {
    assert OccursAt(s, [], 0);
  }

  // ---------------------------------------------------------------------------
  // Decimal numbers
  // ---------------------------------------------------------------------------

  predicate IsDigitCode(c: int) { '0' as int <= c <= '9' as int }

  function Codes(s: string): (r: seq<int>)
    ensures |r| == |s| && forall i :: 0 <= i < |s| ==> r[i] == s[i] as int
  {
    seq(|s|, i requires 0 <= i < |s| => s[i] as int)
  }

  /** The value of a run of ASCII digit codes (left to right). */
  function DigitsValue(d: seq<int>): nat
    requires forall i :: 0 <= i < |d| ==> IsDigitCode(d[i])
  {
    if d == [] then 0
    else
      assert IsDigitCode(d[|d| - 1]);
      DigitsValue(d[..|d| - 1]) * 10 + (d[|d| - 1] - '0' as int)
  }

  /** Rust's `str::parse` for an unsigned type whose values are `< bound`: an
      optional `+`, then at least one ASCII digit. */
  function ParseUnsigned(c: seq<int>, bound: nat): (r: Option<nat>)
    ensures r.Some? ==> r.value < bound
    ensures r.Some? ==> c != [] && (IsDigitCode(c[0]) || c[0] == '+' as int)
    ensures r.Some? ==> forall i :: 1 <= i < |c| ==> IsDigitCode(c[i])
  {
    var d := if c != [] && c[0] == '+' as int then c[1..] else c;
    if d != [] && (forall i :: 0 <= i < |d| ==> IsDigitCode(d[i])) && DigitsValue(d) < bound
    then Some(DigitsValue(d)) else None
  }

  predicate AllDigitCodes(d: seq<int>) {
    forall i :: 0 <= i < |d| ==> IsDigitCode(d[i])
  }

  /** Rust's `str::parse::<i64>`: an optional sign, then at least one ASCII digit,
      the value within the 64-bit range. */
  function ParseI64(c: seq<int>): (r: Option<int>)
    ensures r.Some? ==> -0x8000_0000_0000_0000 <= r.value < 0x8000_0000_0000_0000
  {
    var neg := c != [] && c[0] == '-' as int;
    var d := if c != [] && (c[0] == '-' as int || c[0] == '+' as int) then c[1..] else c;
    if d == [] || !AllDigitCodes(d) then None
    else
      var v: int := if neg then -(DigitsValue(d) as int) else DigitsValue(d);
      if -0x8000_0000_0000_0000 <= v < 0x8000_0000_0000_0000 then Some(v) else None
  }

  function DigitChar(d: nat): (r: char)
    requires d < 10
    ensures r as int == '0' as int + d
  {
    ('0' as int + d) as char
  }

  /** Decimal rendering of a natural number (Rust's `Display` for integers). */
  function NatToString(n: nat): (r: string)
    ensures r != [] && forall i :: 0 <= i < |r| ==> '0' <= r[i] <= '9'
    ensures |r| > 1 ==> r[0] != '0'
  {
    if n < 10 then [DigitChar(n)] else NatToString(n / 10) + [DigitChar(n % 10)]
  }

  lemma {:induction false} DigitsValuePositive(d: seq<int>)
    requires d != [] && forall i :: 0 <= i < |d| ==> IsDigitCode(d[i])
    requires d[0] != '0' as int
    ensures DigitsValue(d) >= 1
  {
    if |d| > 1 {
      DigitsValuePositive(d[..|d| - 1]);
    }
  }

  /** Rendering the value of a canonical digit string (no leading zero) gives
      that string back. */
  lemma {:induction false} NatToStringOfDigits(s: string)
    requires s != [] && forall i :: 0 <= i < |s| ==> '0' <= s[i] <= '9'
    requires |s| > 1 ==> s[0] != '0'
    ensures NatToString(DigitsValue(Codes(s))) == s
  {
    var c := Codes(s);
    var init := s[..|s| - 1];
    assert Codes(init) == c[..|c| - 1];
    var n := DigitsValue(c);
    if |s| == 1 {
      assert n == s[0] as int - '0' as int;
    } else {
      DigitsValuePositive(Codes(init));
      NatToStringOfDigits(init);
      assert n / 10 == DigitsValue(Codes(init)) && n % 10 == s[|s| - 1] as int - '0' as int;
      assert s == init + [s[|s| - 1]];
    }
  }

  /** Parsing the rendering of a number gives the number back. */
  lemma {:induction false} ParseNatToString(n: nat, bound: nat)
    requires n < bound
    ensures ParseUnsigned(Codes(NatToString(n)), bound) == Some(n)
  {
    NatToStringValue(n);
  }

  lemma {:induction false} NatToStringValue(n: nat)
    ensures forall i :: 0 <= i < |Codes(NatToString(n))| ==> IsDigitCode(Codes(NatToString(n))[i])
    ensures DigitsValue(Codes(NatToString(n))) == n
  {
    var c := Codes(NatToString(n));
    if n >= 10 {
      NatToStringValue(n / 10);
      var prefix := NatToString(n / 10);
      assert Codes(prefix) == c[..|c| - 1];
    }
  }
  // ---------------------------------------------------------------------------
  // UTF-8
  // ---------------------------------------------------------------------------

  type byte = b: int | 0 <= b < 256

  predicate IsContinuation(b: byte) { 0x80 <= b < 0xC0 }

  /** The UTF-8 encoding of one scalar value. */
  function Utf8Char(c: char): (r: seq<byte>)
    ensures 1 <= |r| <= 4 && !IsContinuation(r[0])
    ensures forall i :: 1 <= i < |r| ==> IsContinuation(r[i])
    ensures |r| == 1 <==> c as int < 0x80
    ensures |r| == 1 ==> r[0] == c as int
  {
    var k := c as int;
    if k < 0x80 then [k]
    else if k < 0x800 then [0xC0 + k / 64, 0x80 + k % 64]
    else if k < 0x10000 then [0xE0 + k / 4096, 0x80 + (k / 64) % 64, 0x80 + k % 64]
    else [0xF0 + (k / 262144) % 8, 0x80 + (k / 4096) % 64, 0x80 + (k / 64) % 64, 0x80 + k % 64]
  }

  /** The bytes of a Rust `&str` holding `s`. */
  function Utf8(s: string): seq<byte> {
    if s == [] then [] else Utf8Char(s[0]) + Utf8(s[1..])
  }

  lemma {:induction false} Utf8Append(s: string, t: string)
    ensures Utf8(s + t) == Utf8(s) + Utf8(t)
  {
    if s == [] {
      assert s + t == t;
    } else {
      assert (s + t)[0] == s[0] && (s + t)[1..] == s[1..] + t;
      Utf8Append(s[1..], t);
    }
  }

  predicate IsAscii(s: string) { forall i :: 0 <= i < |s| ==> s[i] as int < 0x80 }

  /** A one-character string encodes as that character. */
  lemma Utf8One(c: char)
    ensures Utf8([c]) == Utf8Char(c)
  {
    assert [c][1..] == [];
  }

  /** An ASCII string is encoded byte for byte. */
  lemma {:induction false} Utf8Ascii(s: string)
    requires IsAscii(s)
    ensures Utf8(s) == Codes(s)
  {
    if s != [] {
      Utf8Ascii(s[1..]);
      assert Codes(s) == [s[0] as int] + Codes(s[1..]);
    }
  }

  /** The byte length of the white-space character the bytes start with (the
      UTF-8 encodings of the characters `IsWhitespace` accepts), or 0. */
  function WhitespaceWidth(b: seq<byte>): (w: nat)
    ensures w <= |b|
  {
    if b == [] then 0
    else if 0x09 <= b[0] <= 0x0D || b[0] == 0x20 then 1
    else if |b| >= 2 && b[0] == 0xC2 && (b[1] == 0x85 || b[1] == 0xA0) then 2
    else if |b| >= 3 && (|| (b[0] == 0xE1 && b[1] == 0x9A && b[2] == 0x80)
                         || (b[0] == 0xE2 && b[1] == 0x80 && (0x80 <= b[2] <= 0x8A || b[2] == 0xA8 || b[2] == 0xA9 || b[2] == 0xAF))
                         || (b[0] == 0xE2 && b[1] == 0x81 && b[2] == 0x9F)
                         || (b[0] == 0xE3 && b[1] == 0x80 && b[2] == 0x80)) then 3
    else 0
  }

  /** `str::trim_start` on the bytes of a string. */
  function TrimStartBytes(b: seq<byte>): (r: seq<byte>)
    ensures |r| <= |b| && r == b[|b| - |r|..]
    decreases |b|
  {
    var w := WhitespaceWidth(b);
    if w == 0 then b else TrimStartBytes(b[w..])
  }

  /** A character's encoding starts with a white-space encoding exactly when
      the character is white space, and then the whole encoding is it. */
  lemma WhitespaceWidthOfChar(c: char, rest: seq<byte>)
    ensures WhitespaceWidth(Utf8Char(c) + rest) == (if IsWhitespace(c) then |Utf8Char(c)| else 0)
  {
    var k := c as int;
    var b := Utf8Char(c) + rest;
    if k < 0x80 {
    } else if k < 0x800 {
      assert k == 64 * (k / 64) + k % 64;
      assert b[0] == 0xC0 + k / 64 && b[1] == 0x80 + k % 64;
    } else if k < 0x10000 {
      assert k == 4096 * (k / 4096) + 64 * ((k / 64) % 64) + k % 64;
      assert b[0] == 0xE0 + k / 4096 && b[1] == 0x80 + (k / 64) % 64 && b[2] == 0x80 + k % 64;
    } else {
      assert b[0] >= 0xF0;
    }
  }

  /** Trimming the bytes trims the string. */
  lemma {:induction false} TrimStartBytesUtf8(s: string)
    ensures TrimStartBytes(Utf8(s)) == Utf8(TrimStart(s))
  {
    if s != [] {
      WhitespaceWidthOfChar(s[0], Utf8(s[1..]));
      if IsWhitespace(s[0]) {
        assert Utf8(s)[|Utf8Char(s[0])|..] == Utf8(s[1..]);
        TrimStartBytesUtf8(s[1..]);
      }
    }
  }

  /** Rust's `str::is_char_boundary` on the bytes of a string: slicing a `&str`
      at any other offset panics. */
  predicate CharBoundary(b: seq<byte>, i: nat) {
    i == 0 || i == |b| || (i < |b| && !IsContinuation(b[i]))
  }
}
