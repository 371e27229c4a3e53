/** The few JavaScript string operations the index builder and the catalog
    page rely on, written over `seq<char>`. */
module Strings {
  import opened Options

  // ---------------------------------------------------------------------------
  // Searching

  /** `s.indexOf(c)`: the first position holding `c`, if any. */
  function IndexOf(s: string, c: char): (r: Option<nat>)
    ensures r.None? <==> c !in s
    ensures r.Some? ==> r.value < |s| && s[r.value] == c && c !in s[..r.value]
  {
    if s == [] then None
    else if s[0] == c then Some(0)
    else
      match IndexOf(s[1..], c)
      case None => None
      case Some(i) => assert s[1..][..i] == s[1..i + 1]; Some(i + 1)
  }

  predicate StartsWith(s: string, prefix: string) {
    |prefix| <= |s| && s[..|prefix|] == prefix
  }

  /** `s.endsWith(suffix)` */
  predicate EndsWith(s: string, suffix: string) {
    |suffix| <= |s| && s[|s| - |suffix|..] == suffix
  }

  /** `needle` occurs in `hay` starting at position `i`. */
  ghost predicate OccursAt(hay: string, needle: string, i: int) {
    0 <= i && i + |needle| <= |hay| && hay[i..i + |needle|] == needle
  }

  /** `needle` occurs somewhere in `hay`. */
  ghost predicate Occurs(hay: string, needle: string) {
    exists i :: OccursAt(hay, needle, i)
  }

  /** `hay.includes(needle)`, by trying each start position in turn. */
  predicate Includes(hay: string, needle: string)
    decreases |hay|
  {
    StartsWith(hay, needle) || (|hay| > 0 && Includes(hay[1..], needle))
  }

  /** `Includes` holds exactly when the needle occurs at some position. */
  lemma {:induction false} IncludesIff(hay: string, needle: string)
    ensures Includes(hay, needle) <==> exists i :: OccursAt(hay, needle, i)
    decreases |hay|
  {
    if StartsWith(hay, needle) {
      assert OccursAt(hay, needle, 0);
    } else if |hay| > 0 {
      IncludesIff(hay[1..], needle);
      if Includes(hay[1..], needle) {
        var i :| OccursAt(hay[1..], needle, i);
        assert hay[1..][i..i + |needle|] == hay[i + 1..i + 1 + |needle|];
        assert OccursAt(hay, needle, i + 1);
      }
      if i :| OccursAt(hay, needle, i) {
        assert i != 0;
        assert hay[1..][i - 1..i - 1 + |needle|] == hay[i..i + |needle|];
        assert OccursAt(hay[1..], needle, i - 1);
      }
    }
  }

  /** The empty string is included in every string. */
  lemma IncludesEmpty(hay: string)
    ensures Includes(hay, "")
  {
    assert StartsWith(hay, "");
  }

  // ---------------------------------------------------------------------------
  // Rewriting

  /** `s.replace(from, to)` with a one-character string pattern: only the
      first occurrence is replaced. */
  function ReplaceFirst(s: string, from: char, to: char): (r: string)
    ensures IndexOf(s, from).None? ==> r == s
    ensures IndexOf(s, from).Some? ==>
      var i := IndexOf(s, from).value; r == s[..i] + [to] + s[i + 1..]
  {
    if s == [] then []
    else if s[0] == from then [to] + s[1..]
    else
      var t := ReplaceFirst(s[1..], from, to);
      assert IndexOf(s[1..], from).Some? ==>
        var i := IndexOf(s[1..], from).value;
        [s[0]] + (s[1..][..i] + [to] + s[1..][i + 1..]) == s[..i + 1] + [to] + s[i + 2..];
      [s[0]] + t
  }

  /** `s.split(sep)[1]`: the text between the first and second separator, or
      absent (`undefined`) when `s` has no separator. */
  function SecondSegment(s: string, sep: char): (r: Option<string>)
    ensures r.None? <==> sep !in s
    ensures r.Some? ==> sep !in r.value
    ensures r.Some? ==>
      var k := IndexOf(s, sep).value + 1;
      && k + |r.value| <= |s| && s[k..k + |r.value|] == r.value
      && (k + |r.value| == |s| || s[k + |r.value|] == sep)
  {
    match IndexOf(s, sep)
    case None => None
    case Some(i) =>
      var rest := s[i + 1..];
      match IndexOf(rest, sep)
      case None => Some(rest)
      case Some(j) => Some(rest[..j])
  }

  /** `s.split('\n')[0]`: everything before the first line break. */
  function FirstLine(s: string): (r: string)
    ensures StartsWith(s, r) && '\n' !in r
    ensures '\n' !in s ==> r == s
    ensures '\n' in s ==> |r| < |s| && s[|r|] == '\n'
  {
    match IndexOf(s, '\n')
    case None => s
    case Some(i) => s[..i]
  }

  /** `s.toLowerCase()` restricted to ASCII letters. */
  function LowerChar(c: char): char {
    if 'A' <= c <= 'Z' then (c as int + 32) as char else c
  }

  function ToLower(s: string): (r: string)
    ensures |r| == |s| && forall i :: 0 <= i < |s| ==> r[i] == LowerChar(s[i])
  {
    if s == [] then [] else [LowerChar(s[0])] + ToLower(s[1..])
  }

  // ---------------------------------------------------------------------------
  // Decimal and hexadecimal numerals

  predicate IsDigit(c: char) {
    '0' <= c <= '9'
  }

  predicate AllDigits(s: string) {
    forall i :: 0 <= i < |s| ==> IsDigit(s[i])
  }

  function DigitValue(c: char): nat
    requires IsDigit(c)
  {
    c as int - '0' as int
  }

  function DigitChar(d: nat): (c: char)
    requires d < 10
    ensures IsDigit(c) && DigitValue(c) == d
  {
    ('0' as int + d) as char
  }

  /** The length of the run of decimal digits at the start of `s` (what the
      greedy `\d+` of a regular expression consumes). */
  function LeadingDigits(s: string): (n: nat)
    ensures n <= |s| && AllDigits(s[..n])
    ensures n == |s| || !IsDigit(s[n])
  {
    if s != [] && IsDigit(s[0]) then
      var m := LeadingDigits(s[1..]);
      assert s[..m + 1] == [s[0]] + s[1..][..m];
      m + 1
    else 0
  }

  /** A digit string followed by a non-digit is taken whole. */
  lemma {:induction false} LeadingDigitsOf(d: string, rest: string)
    requires AllDigits(d)
    requires rest != [] && !IsDigit(rest[0])
    ensures LeadingDigits(d + rest) == |d|
  {
    var s := d + rest;
    assert forall k :: 0 <= k < |d| ==> s[k] == d[k];
    assert s[|d|] == rest[0];
  }

  /** A string of digits is taken whole. */
  lemma {:induction false} AllDigitsTaken(d: string)
    requires AllDigits(d)
    ensures LeadingDigits(d) == |d|
  {
  }

  /** `parseInt(s)` for a string of decimal digits. */
  function ParseDecimal(s: string): nat
    requires AllDigits(s)
  {
    if s == [] then 0
    else 10 * ParseDecimal(s[..|s| - 1]) + DigitValue(s[|s| - 1])
  }

  /** `n.toString()` for a non-negative integer. */
  function Decimal(n: nat): (s: string)
    ensures |s| > 0 && AllDigits(s)
  {
    if n < 10 then [DigitChar(n)] else Decimal(n / 10) + [DigitChar(n % 10)]
  }

  /** Printing a number and parsing it back gives the number. */
  lemma {:induction false} ParseDecimalOfDecimal(n: nat)
    ensures ParseDecimal(Decimal(n)) == n
  {
    var s := Decimal(n);
    if n >= 10 {
      ParseDecimalOfDecimal(n / 10);
      assert s[..|s| - 1] == Decimal(n / 10);
    }
  }

  predicate IsLowerHexDigit(c: char) {
    '0' <= c <= '9' || 'a' <= c <= 'f'
  }

  function HexDigitChar(d: nat): (c: char)
    requires d < 16
    ensures IsLowerHexDigit(c) && HexDigitValue(c) == d
  {
    if d < 10 then DigitChar(d) else ('a' as int + d - 10) as char
  }

  function HexDigitValue(c: char): nat
    requires IsLowerHexDigit(c)
  {
    if IsDigit(c) then DigitValue(c) else c as int - 'a' as int + 10
  }

  /** `n.toString(16)`: lowercase base-16 digits, no leading zeros. */
  function Hex(n: nat): (s: string)
    ensures |s| > 0 && forall i :: 0 <= i < |s| ==> IsLowerHexDigit(s[i])
  {
    if n < 16 then [HexDigitChar(n)] else Hex(n / 16) + [HexDigitChar(n % 16)]
  }

  /** The value of a string of lowercase hexadecimal digits. */
  function ParseHex(s: string): nat
    requires forall i :: 0 <= i < |s| ==> IsLowerHexDigit(s[i])
  {
    if s == [] then 0
    else 16 * ParseHex(s[..|s| - 1]) + HexDigitValue(s[|s| - 1])
  }

  /** `s.padStart(2, '0')` */
  function PadStart2(s: string): (r: string)
    ensures |r| >= 2
  {
    if |s| >= 2 then s else if |s| == 1 then "0" + s else "00"
  }

  /** For a component in 0..255 the padded hexadecimal form is exactly two
      lowercase digits whose value is the component. */
  lemma HexByte(n: nat)
    requires n < 256
    ensures var h := PadStart2(Hex(n));
      |h| == 2 && IsLowerHexDigit(h[0]) && IsLowerHexDigit(h[1]) && ParseHex(h) == n
  {
    var h := PadStart2(Hex(n));
    if n < 16 {
      assert h == ['0', HexDigitChar(n)];
      assert h[..1] == "0";
    } else {
      assert Hex(n / 16) == [HexDigitChar(n / 16)];
      assert h == [HexDigitChar(n / 16), HexDigitChar(n % 16)];
      assert h[..1] == [HexDigitChar(n / 16)];
      assert ParseHex(h[..1]) == n / 16;
    }
  }
}
