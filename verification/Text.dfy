/** Strings as the relay sees them: hex, decimal and UTF-8 lengths. */
module Text {

  datatype Option<+T> = None | Some(value: T)

  /** Largest value of Rust's `u64`. */
  const U64_MAX: nat := 0xFFFF_FFFF_FFFF_FFFF

  /** Largest value of an SQLite INTEGER. */
  const I64_MAX: nat := 0x7FFF_FFFF_FFFF_FFFF

  type U64 = n: nat | n <= U64_MAX

  type Byte = n: nat | n < 256

  type Blob = seq<Byte>

  // ----- hex -----

  predicate IsDigit(c: char) {
    '0' <= c <= '9'
  }

  predicate IsUpperHexLetter(c: char) {
    'A' <= c <= 'F'
  }

  function HexVal(c: char): (v: Option<nat>)
    ensures v.Some? ==> v.value < 16
  {
    if IsDigit(c) then Some((c as int) - ('0' as int))
    else if 'a' <= c <= 'f' then Some((c as int) - ('a' as int) + 10)
    else if IsUpperHexLetter(c) then Some((c as int) - ('A' as int) + 10)
    else None
  }

  predicate IsHex(s: string) {
    forall i :: 0 <= i < |s| ==> HexVal(s[i]).Some?
  }

  /** No upper-case hex digit occurs. */
  predicate IsLower(s: string) {
    forall i :: 0 <= i < |s| ==> !IsUpperHexLetter(s[i])
  }

  /** A 32-byte value as 64 hex digits of either case. */
  predicate IsHex64(s: string) {
    |s| == 64 && IsHex(s)
  }

  /** A 32-byte value in the form `format!("{:x}")` prints it. */
  predicate IsFullHex(s: string) {
    IsHex64(s) && IsLower(s)
  }

  function LowerChar(c: char): char {
    if IsUpperHexLetter(c) then ((c as int) - ('A' as int) + ('a' as int)) as char else c
  }

  function Lower(s: string): (r: string)
    ensures |r| == |s|
    ensures forall i :: 0 <= i < |s| ==> r[i] == LowerChar(s[i])
  {
    seq(|s|, i requires 0 <= i < |s| => LowerChar(s[i]))
  }

  /** `hex::decode`: both cases accepted, odd lengths and foreign characters refused. */
  function HexDecode(s: string): (r: Option<Blob>)
    ensures r.Some? <==> |s| % 2 == 0 && IsHex(s)
    ensures r.Some? ==> 2 * |r.value| == |s|
  {
    if s == "" then Some([])
    else if |s| == 1 then None
    else
      var hi, lo, rest := HexVal(s[0]), HexVal(s[1]), HexDecode(s[2..]);
      if hi.Some? && lo.Some? && rest.Some? then
        assert forall i :: 2 <= i < |s| ==> s[i] == s[2..][i - 2];
        Some([16 * hi.value + lo.value] + rest.value)
      else
        assert hi.Some? && lo.Some? ==> !(|s[2..]| % 2 == 0 && IsHex(s[2..]));
        None
  }

  function HexByte(hi: char, lo: char): int
    requires HexVal(hi).Some? && HexVal(lo).Some?
  {
    16 * HexVal(hi).value + HexVal(lo).value
  }

  lemma {:induction false} HexDecodeAt(s: string, i: nat)
    requires HexDecode(s).Some? && 2 * i + 1 < |s|
    ensures HexVal(s[2 * i]).Some? && HexVal(s[2 * i + 1]).Some?
    ensures HexDecode(s).value[i] == HexByte(s[2 * i], s[2 * i + 1])
  {
    if i == 0 {
    } else {
      HexDecodeAt(s[2..], i - 1);
      var j := 2 * (i - 1);
      assert s[2..][j] == s[2 * i] && s[2..][j + 1] == s[2 * i + 1];
    }
  }

  lemma SameByteSameDigits(a: char, b: char, c: char, d: char)
    requires HexVal(a).Some? && HexVal(b).Some? && HexVal(c).Some? && HexVal(d).Some?
    requires HexByte(a, b) == HexByte(c, d)
    requires !IsUpperHexLetter(a) && !IsUpperHexLetter(b) && !IsUpperHexLetter(c) && !IsUpperHexLetter(d)
    ensures a == c && b == d
  {
  }

  /** On lower-case text, decoding loses nothing. */
  lemma {:induction false} HexDecodeInjective(a: string, b: string)
    requires HexDecode(a).Some? && HexDecode(a) == HexDecode(b)
    requires IsLower(a) && IsLower(b)
    ensures a == b
  {
    forall k | 0 <= k < |a|
      ensures a[k] == b[k]
    {
      var i := k / 2;
      HexDecodeAt(a, i);
      HexDecodeAt(b, i);
      SameByteSameDigits(a[2 * i], a[2 * i + 1], b[2 * i], b[2 * i + 1]);
      assert k == 2 * i || k == 2 * i + 1;
    }
  }

  /** Decoding ignores the case of the digits. */
  lemma {:induction false} HexDecodeIgnoresCase(s: string)
    ensures HexDecode(Lower(s)) == HexDecode(s)
    ensures IsLower(Lower(s))
  {
    var l := Lower(s);
    assert forall i :: 0 <= i < |s| ==> HexVal(l[i]) == HexVal(s[i]);
    if HexDecode(s).Some? {
      var x, y := HexDecode(l).value, HexDecode(s).value;
      forall i | 0 <= i < |x|
        ensures x[i] == y[i]
      {
        HexDecodeAt(l, i);
        HexDecodeAt(s, i);
      }
      assert x == y;
    }
  }

  const HEX_DIGITS := "0123456789abcdef"

  /** Two lower-case digits per byte, as `format!("{:x}")` and `hex::encode` print. */
  function HexEncode(b: Blob): string {
    if b == [] then "" else [HEX_DIGITS[b[0] / 16], HEX_DIGITS[b[0] % 16]] + HexEncode(b[1..])
  }

  lemma {:induction false} HexRoundTrip(b: Blob)
    ensures HexDecode(HexEncode(b)) == Some(b)
  {
    if b == [] {
    } else {
      HexRoundTrip(b[1..]);
      ByteRoundTrip(b[0]);
      DecodeCons(HEX_DIGITS[b[0] / 16], HEX_DIGITS[b[0] % 16], HexEncode(b[1..]), b[1..]);
      assert b == [b[0]] + b[1..];
    }
  }

  lemma ByteRoundTrip(n: Byte)
    ensures
      var hi, lo := HEX_DIGITS[n / 16], HEX_DIGITS[n % 16];
      HexVal(hi).Some? && HexVal(lo).Some? && HexByte(hi, lo) == n
  {
    DigitRoundTrip(n / 16);
    DigitRoundTrip(n % 16);
  }

  lemma DecodeCons(hi: char, lo: char, rest: string, b: Blob)
    requires HexVal(hi).Some? && HexVal(lo).Some? && HexDecode(rest) == Some(b)
    ensures HexDecode([hi, lo] + rest) == Some([HexByte(hi, lo)] + b)
  {
    assert ([hi, lo] + rest)[2..] == rest;
  }

  const UPPER_HEX_DIGITS := "0123456789ABCDEF"

  /** A character reads as n exactly if it is the nth digit of either case. */
  lemma HexValExactly(c: char, n: nat)
    requires n < 16
    ensures HexVal(c) == Some(n) <==> c == HEX_DIGITS[n] || c == UPPER_HEX_DIGITS[n]
  {
    var upper := "ABCDEF";
    if n >= 10 {
      assert UPPER_HEX_DIGITS[n] == upper[n - 10];
    }
  }

  lemma DigitRoundTrip(n: nat)
    requires n < 16
    ensures HexVal(HEX_DIGITS[n]) == Some(n)
  {
  }

  // ----- decimal -----

  function DigitVal(c: char): nat
    requires IsDigit(c)
  {
    (c as int) - ('0' as int)
  }

  predicate AllDigits(s: string) {
    forall i :: 0 <= i < |s| ==> IsDigit(s[i])
  }

  /** Value of a digit string, most significant digit first. */
  function Decimal(s: string): nat
    requires AllDigits(s)
  {
    if s == "" then 0 else 10 * Decimal(s[..|s| - 1]) + DigitVal(s[|s| - 1])
  }

  /** Rust's `str::parse::<u64>`: an optional `+`, at least one digit, no overflow. */
  function ParseU64(s: string): (r: Option<U64>) {
    var digits := if s != "" && s[0] == '+' then s[1..] else s;
    if digits != "" && AllDigits(digits) && Decimal(digits) <= U64_MAX
    then Some(Decimal(digits))
    else None
  }

  /** Exactly the digit strings that fit, with or without a leading `+`. */
  lemma ParseU64Exactly(s: string)
    ensures s != "" && AllDigits(s) ==>
              ParseU64(s) == ParseU64("+" + s) == if Decimal(s) < 0x1_0000_0000_0000_0000 then Some(Decimal(s)) else None
    ensures ParseU64(s).Some? ==>
              (s != "" && AllDigits(s)) || (|s| > 1 && s[0] == '+' && AllDigits(s[1..]))
  {
    assert ("+" + s)[1..] == s;
  }

  /** Rust's `u64::to_string`. */
  function PrintNat(n: nat): (s: string)
    ensures s != "" && AllDigits(s) && Decimal(s) == n
  {
    var digit := ((n % 10) + ('0' as int)) as char;
    if n < 10 then [digit]
    else
      var rest := PrintNat(n / 10);
      assert (rest + [digit])[..|rest|] == rest;
      rest + [digit]
  }

  // ----- UTF-8 -----

  /** Bytes of a character in UTF-8, as `str::len` counts them. */
  function Utf8Size(c: char): nat {
    if c as int < 0x80 then 1
    else if c as int < 0x800 then 2
    else if c as int < 0x1_0000 then 3
    else 4
  }

  function Utf8Len(s: string): nat {
    if s == "" then 0 else Utf8Size(s[0]) + Utf8Len(s[1..])
  }

  /** The UTF-8 bytes of a character. */
  function Utf8Encode(c: char): seq<int> {
    var n := c as int;
    var q1 := n / 64;
    var q2 := q1 / 64;
    if n < 0x80 then [n]
    else if n < 0x800 then [0xC0 + q1, 0x80 + n % 64]
    else if n < 0x1_0000 then [0xE0 + q2, 0x80 + q1 % 64, 0x80 + n % 64]
    else [0xF0 + q2 / 64, 0x80 + q2 % 64, 0x80 + q1 % 64, 0x80 + n % 64]
  }

  /** Reading UTF-8: the first byte says how many follow, each of those holds six bits. */
  function Utf8Decode(b: seq<int>): int {
    if |b| == 1 && b[0] < 0x80 then b[0]
    else if |b| == 2 && 0xC0 <= b[0] < 0xE0 then (b[0] - 0xC0) * 64 + (b[1] - 0x80)
    else if |b| == 3 && 0xE0 <= b[0] < 0xF0 then ((b[0] - 0xE0) * 64 + (b[1] - 0x80)) * 64 + (b[2] - 0x80)
    else if |b| == 4 && 0xF0 <= b[0] < 0x100 then
      (((b[0] - 0xF0) * 64 + (b[1] - 0x80)) * 64 + (b[2] - 0x80)) * 64 + (b[3] - 0x80)
    else -1
  }

  lemma Utf8RoundTrip(c: char)
    ensures Utf8Decode(Utf8Encode(c)) == c as int && |Utf8Encode(c)| == Utf8Size(c)
  {
    var n := c as int;
    assert 0 <= n < 0x11_0000;
  }

  function Utf8EncodeAll(s: string): seq<int> {
    if s == "" then [] else Utf8Encode(s[0]) + Utf8EncodeAll(s[1..])
  }

  /** `str::len` counts the bytes of the encoding. */
  lemma {:induction false} Utf8LenCountsBytes(s: string)
    ensures Utf8Len(s) == |Utf8EncodeAll(s)|
  {
    if s == "" {
    } else {
      Utf8RoundTrip(s[0]);
      Utf8LenCountsBytes(s[1..]);
    }
  }
}
