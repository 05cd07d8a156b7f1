/** The java.lang.String and java.lang.Integer operations the core relies on,
    each with the JDK behaviour the core observes. Three different notions of
    "space" appear in the JDK and are kept apart here: String.trim() strips every
    code point up to U+0020, the regex class \s is [ \t\n\x0B\f\r], and
    String.isBlank() uses Character.isWhitespace. */
module Text {
  import opened Errors

  // ---------------------------------------------------------------- characters

  /** Removed by String.trim(). */
  predicate IsTrimmable(c: char) {
    c <= ' '
  }

  /** The regex class \s (no UNICODE_CHARACTER_CLASS flag). */
  predicate IsRegexSpace(c: char) {
    c == ' ' || c == '\t' || c == '\n' || c == '\r' || c as int == 0x0B || c as int == 0x0C
  }

  /** The characters the regex `.` does not match (no DOTALL flag). */
  predicate IsLineTerminator(c: char) {
    c == '\n' || c == '\r' || c as int == 0x85 || c as int == 0x2028 || c as int == 0x2029
  }

  /** Character.isWhitespace: the space, line and paragraph separators other than
      the no-break spaces, and U+0009..U+000D, U+001C..U+001F. */
  predicate IsJavaWhitespace(c: char) {
    (0x09 <= c as int <= 0x0D) || (0x1C <= c as int <= 0x20) || c as int == 0x1680
    || (0x2000 <= c as int <= 0x2006) || (0x2008 <= c as int <= 0x200A)
    || c as int == 0x2028 || c as int == 0x2029 || c as int == 0x205F || c as int == 0x3000
  }

  lemma RegexSpaceIsTrimmable(c: char)
    requires IsRegexSpace(c)
    ensures IsTrimmable(c) && IsJavaWhitespace(c)
  {
  }

  /** String.isBlank(). */
  predicate IsBlank(s: string) {
    forall k :: 0 <= k < |s| ==> IsJavaWhitespace(s[k])
  }

  // ---------------------------------------------------------------- substrings

  ghost predicate OccursAt(s: string, sub: string, k: int) {
    0 <= k && k + |sub| <= |s| && s[k..k + |sub|] == sub
  }

  /** String.contains. */
  function Contains(s: string, sub: string): (r: bool)
    ensures r <==> exists k :: OccursAt(s, sub, k)
    decreases |s|
  {
    if |sub| > |s| then
      false
    else if s[..|sub|] == sub then
      assert OccursAt(s, sub, 0);
      true
    else
      var r := Contains(s[1..], sub);
      assert r ==> exists k :: OccursAt(s, sub, k) by {
        if r {
          var k :| OccursAt(s[1..], sub, k);
          assert s[k + 1..k + 1 + |sub|] == s[1..][k..k + |sub|];
          assert OccursAt(s, sub, k + 1);
        }
      }
      assert (exists k :: OccursAt(s, sub, k)) ==> r by {
        if exists k :: OccursAt(s, sub, k) {
          var k :| OccursAt(s, sub, k);
          assert k != 0;
          assert s[1..][k - 1..k - 1 + |sub|] == s[k..k + |sub|];
          assert OccursAt(s[1..], sub, k - 1);
        }
      }
      r
  }

  /** String.toLowerCase(), on the ASCII letters. */
  function LowerChar(c: char): char {
    if 'A' <= c <= 'Z' then (c as int + 32) as char else c
  }

  function ToLower(s: string): (r: string)
    ensures |r| == |s|
  {
    seq(|s|, k requires 0 <= k < |s| => LowerChar(s[k]))
  }

  // ---------------------------------------------------------------- trim

  /** The first index at or after i that String.trim() keeps, or |s|. */
  function SkipTrimmable(s: string, i: nat): (a: nat)
    requires i <= |s|
    ensures i <= a <= |s|
    ensures forall k :: i <= k < a ==> IsTrimmable(s[k])
    ensures a < |s| ==> !IsTrimmable(s[a])
    decreases |s| - i
  {
    if i == |s| || !IsTrimmable(s[i]) then i else SkipTrimmable(s, i + 1)
  }

  /** The end of s[a..b] once its trailing trimmable characters are dropped. */
  function DropTrailing(s: string, a: nat, b: nat): (e: nat)
    requires a <= b <= |s|
    ensures a <= e <= b
    ensures forall k :: e <= k < b ==> IsTrimmable(s[k])
    ensures e > a ==> !IsTrimmable(s[e - 1])
    decreases b
  {
    if b == a || !IsTrimmable(s[b - 1]) then b else DropTrailing(s, a, b - 1)
  }

  /** String.trim(): the slice of s left once every leading and trailing code
      point up to U+0020 is removed. */
  function Trim(s: string): (r: string)
    ensures exists a :: OccursAt(s, r, a)
                        && (forall k :: 0 <= k < a ==> IsTrimmable(s[k]))
                        && (forall k :: a + |r| <= k < |s| ==> IsTrimmable(s[k]))
    ensures r == "" <==> forall k :: 0 <= k < |s| ==> IsTrimmable(s[k])
    ensures r != "" ==> !IsTrimmable(r[0]) && !IsTrimmable(r[|r| - 1])
    ensures s == "" || (!IsTrimmable(s[0]) && !IsTrimmable(s[|s| - 1])) ==> r == s
  {
    var a := SkipTrimmable(s, 0);
    var e := DropTrailing(s, a, |s|);
    assert OccursAt(s, s[a..e], a);
    s[a..e]
  }

  // ---------------------------------------------------------------- regex \s runs

  /** The end of the run of \s characters that starts at i. */
  function SpaceEnd(s: string, i: nat): (j: nat)
    requires i <= |s|
    ensures i <= j <= |s|
    ensures forall k :: i <= k < j ==> IsRegexSpace(s[k])
    ensures j < |s| ==> !IsRegexSpace(s[j])
    decreases |s| - i
  {
    if i == |s| || !IsRegexSpace(s[i]) then i else SpaceEnd(s, i + 1)
  }

  /** The first \s character at or after i, or |s|. */
  function NextSpace(s: string, i: nat): (j: nat)
    requires i <= |s|
    ensures i <= j <= |s|
    ensures forall k :: i <= k < j ==> !IsRegexSpace(s[k])
    ensures j < |s| ==> IsRegexSpace(s[j])
    decreases |s| - i
  {
    if i == |s| || IsRegexSpace(s[i]) then i else NextSpace(s, i + 1)
  }

  // ---------------------------------------------------------------- integers

  const MinInt: int := -0x8000_0000
  const MaxInt: int := 0x7FFF_FFFF

  predicate IsDigit(c: char) {
    '0' <= c <= '9'
  }

  predicate AllDigits(s: string) {
    forall k :: 0 <= k < |s| ==> IsDigit(s[k])
  }

  /** At least one decimal digit. */
  predicate Numeral(s: string) {
    s != "" && AllDigits(s)
  }

  /** The value of a string of decimal digits. */
  function DigitsValue(s: string): nat
    requires AllDigits(s)
    decreases |s|
  {
    if s == "" then 0 else DigitsValue(s[..|s| - 1]) * 10 + (s[|s| - 1] as int - '0' as int)
  }

  function DigitChar(d: nat): (c: char)
    requires d < 10
    ensures IsDigit(c) && c as int - '0' as int == d
  {
    ('0' as int + d) as char
  }

  /** The decimal digits of n, without leading zeros. */
  function NatToString(n: nat): (r: string)
    ensures r != "" && AllDigits(r) && DigitsValue(r) == n
    ensures r[0] == '0' ==> n == 0
    decreases n
  {
    if n < 10 then
      [DigitChar(n)]
    else
      var r := NatToString(n / 10) + [DigitChar(n % 10)];
      assert r[..|r| - 1] == NatToString(n / 10);
      r
  }

  /** Integer.toString / string concatenation of an int. */
  function IntToString(n: int): string {
    if n < 0 then "-" + NatToString(-n) else NatToString(n)
  }

  /** Integer.parseInt: an optional sign and at least one decimal digit, with a
      value in the 32-bit range; anything else is a NumberFormatException. */
  function ParseInt(s: string): (r: Option<int>)
    ensures r.Some? ==> MinInt <= r.value <= MaxInt
    ensures s == "" ==> r.None?
    // a leading '-': the digits after it, negated, down to -2^31
    ensures s != "" && s[0] == '-' ==>
              && (r.Some? <==> Numeral(s[1..]) && DigitsValue(s[1..]) <= -MinInt)
              && (r.Some? ==> r.value == -(DigitsValue(s[1..]) as int))
    // a leading '+': the digits after it, up to 2^31 - 1
    ensures s != "" && s[0] == '+' ==>
              && (r.Some? <==> Numeral(s[1..]) && DigitsValue(s[1..]) <= MaxInt)
              && (r.Some? ==> r.value == DigitsValue(s[1..]))
    // no sign: all of s is the digits
    ensures s != "" && s[0] != '-' && s[0] != '+' ==>
              && (r.Some? <==> AllDigits(s) && DigitsValue(s) <= MaxInt)
              && (r.Some? ==> r.value == DigitsValue(s))
  {
    if s == "" then
      None
    else
      var digits := if s[0] == '-' || s[0] == '+' then s[1..] else s;
      if digits == "" || !AllDigits(digits) then
        None
      else
        var v: int := if s[0] == '-' then 0 - DigitsValue(digits) as int else DigitsValue(digits) as int;
        if MinInt <= v <= MaxInt then Some(v) else None
  }

  /** Integer.parseInt reads back what Integer.toString writes. */
  lemma ParseIntOfIntToString(n: int)
    requires MinInt <= n <= MaxInt
    ensures ParseInt(IntToString(n)) == Some(n)
  {
    var s := IntToString(n);
    if n < 0 {
      assert s[1..] == NatToString(-n);
    } else {
      assert IsDigit(s[0]);
    }
  }

  /** Integer.parseInt accepts an explicit plus sign, leading zeros and a
      negative zero. */
  lemma ParseIntAcceptsNonCanonical()
    ensures ParseInt("+2") == Some(2)
    ensures ParseInt("007") == Some(7)
    ensures ParseInt("-0") == Some(0)
    ensures ParseInt("-") == None && ParseInt("1a") == None
  {
    assert "+2"[1..] == "2";
    assert "-0"[1..] == "0";
    assert "-"[1..] == "";
    assert !IsDigit("1a"[1]);
    assert "007"[..2] == "00" && "00"[..1] == "0" && "0"[..0] == "";
    assert DigitsValue("00") == 0;
  }

  /** A numeral never contains a separator character. */
  lemma IntToStringHasNoSpace(n: int)
    ensures forall k :: 0 <= k < |IntToString(n)| ==> !IsTrimmable(IntToString(n)[k])
  {
    var s := IntToString(n);
    if n < 0 {
      assert forall k :: 1 <= k < |s| ==> s[k] == NatToString(-n)[k - 1];
    }
  }

  // ---------------------------------------------------------------- split and join

  /** Every field of s between occurrences of sep, empty fields included. */
  function SplitOn(s: string, sep: char): (r: seq<string>)
    ensures |r| >= 1
    decreases |s|
  {
    if s == [] then
      [""]
    else
      var rest := SplitOn(s[1..], sep);
      if s[0] == sep then [""] + rest else [[s[0]] + rest[0]] + rest[1..]
  }

  /** String.join(sep, fields). */
  function Join(fs: seq<string>, sep: char): string
    requires |fs| >= 1
    decreases |fs|
  {
    if |fs| == 1 then fs[0] else fs[0] + [sep] + Join(fs[1..], sep)
  }

  lemma {:induction false} SplitWithoutSep(x: string, sep: char)
    requires sep !in x
    ensures SplitOn(x, sep) == [x]
    decreases |x|
  {
    if x != [] {
      SplitWithoutSep(x[1..], sep);
      assert [x[0]] + x[1..] == x;
    }
  }

  lemma {:induction false} SplitAfterField(x: string, sep: char, y: string)
    requires sep !in x
    ensures SplitOn(x + [sep] + y, sep) == [x] + SplitOn(y, sep)
    decreases |x|
  {
    var s := x + [sep] + y;
    if x == [] {
      assert s[1..] == y;
    } else {
      assert s[1..] == x[1..] + [sep] + y;
      SplitAfterField(x[1..], sep, y);
      assert [x[0]] + x[1..] == x;
    }
  }

  /** Splitting undoes joining when no field holds the separator. */
  lemma {:induction false} SplitOfJoin(fs: seq<string>, sep: char)
    requires |fs| >= 1
    requires forall i :: 0 <= i < |fs| ==> sep !in fs[i]
    ensures SplitOn(Join(fs, sep), sep) == fs
    decreases |fs|
  {
    if |fs| == 1 {
      SplitWithoutSep(fs[0], sep);
    } else {
      SplitAfterField(fs[0], sep, Join(fs[1..], sep));
      SplitOfJoin(fs[1..], sep);
      assert [fs[0]] + fs[1..] == fs;
    }
  }

  /** Joining undoes splitting: no character is lost or added. */
  lemma {:induction false} JoinOfSplit(s: string, sep: char)
    ensures Join(SplitOn(s, sep), sep) == s
    decreases |s|
  {
    if s != [] {
      var rest := SplitOn(s[1..], sep);
      JoinOfSplit(s[1..], sep);
      if s[0] == sep {
        assert Join([""] + rest, sep) == "" + [sep] + Join(rest, sep) by {
          assert ([""] + rest)[1..] == rest;
        }
      } else {
        var fs := [[s[0]] + rest[0]] + rest[1..];
        if |rest| == 1 {
        } else {
          assert fs[1..] == rest[1..];
          assert Join(rest, sep) == rest[0] + [sep] + Join(rest[1..], sep);
        }
      }
    }
  }

  /** The trailing empty strings String.split(regex) discards. */
  function DropTrailingEmpty(fs: seq<string>): (r: seq<string>)
    ensures |r| <= |fs| && r == fs[..|r|]
    ensures r == [] || r[|r| - 1] != ""
    ensures forall i :: |r| <= i < |fs| ==> fs[i] == ""
    decreases |fs|
  {
    if |fs| > 0 && fs[|fs| - 1] == "" then DropTrailingEmpty(fs[..|fs| - 1]) else fs
  }

  /** line.split("\\|") for a one-character separator: the whole line when the
      separator does not occur, otherwise the fields with trailing empty ones
      removed. */
  function JavaSplit(s: string, sep: char): seq<string> {
    if sep !in s then [s] else DropTrailingEmpty(SplitOn(s, sep))
  }

  /** Java's split reads back a join of at least two separator-free fields
      whose last field is not empty. */
  lemma JavaSplitOfJoin(fs: seq<string>, sep: char)
    requires |fs| >= 2 && fs[|fs| - 1] != ""
    requires forall i :: 0 <= i < |fs| ==> sep !in fs[i]
    ensures JavaSplit(Join(fs, sep), sep) == fs
  {
    var s := Join(fs, sep);
    assert s[|fs[0]|] == sep;
    SplitOfJoin(fs, sep);
  }
}
