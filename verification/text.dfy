/** Character-level helpers: Python's whitespace set, `str.strip`, ASCII
    lower-casing, and fixed-width decimal rendering and parsing. */
module Text {

  /** Python's `str.isspace` for a single code point: the characters that
      `str.strip()` with no argument removes. */
  predicate IsSpace(c: char) {
    || c == ' '
    || ('\t' <= c <= '\r')
    || ('\U{1C}' <= c <= '\U{1F}')
    || c == '\U{85}'
    || c == '\U{A0}'
    || c == '\U{1680}'
    || ('\U{2000}' <= c <= '\U{200A}')
    || c == '\U{2028}'
    || c == '\U{2029}'
    || c == '\U{202F}'
    || c == '\U{205F}'
    || c == '\U{3000}'
  }

  predicate AllSpace(s: string) {
    forall i :: 0 <= i < |s| ==> IsSpace(s[i])
  }

  /** Number of whitespace characters at the front of `s`. */
  function LeadingSpace(s: string): (n: nat)
    ensures n <= |s|
    ensures AllSpace(s[..n])
    ensures n < |s| ==> !IsSpace(s[n])
  {
    if |s| > 0 && IsSpace(s[0]) then
      var k := LeadingSpace(s[1..]);
      assert s[..k + 1] == [s[0]] + s[1..][..k];
      k + 1
    else
      0
  }

  /** Number of whitespace characters at the back of `s`. */
  function TrailingSpace(s: string): (n: nat)
    ensures n <= |s|
    ensures AllSpace(s[|s| - n..])
    ensures n < |s| ==> !IsSpace(s[|s| - n - 1])
  {
    if |s| > 0 && IsSpace(s[|s| - 1]) then
      var t := s[..|s| - 1];
      var k := TrailingSpace(t);
      forall i | |s| - (k + 1) <= i < |s| ensures IsSpace(s[i]) {
        if i < |s| - 1 {
          assert s[i] == t[|t| - k..][i - (|t| - k)];
        }
      }
      k + 1
    else
      0
  }

  /** Python's `s.strip()`: `s` without its leading and trailing whitespace. */
  function Strip(s: string): (r: string)
    ensures |r| <= |s|
    ensures exists i :: 0 <= i && i + |r| <= |s| && r == s[i..i + |r|]
                        && AllSpace(s[..i]) && AllSpace(s[i + |r|..])
    ensures r != [] ==> !IsSpace(r[0]) && !IsSpace(r[|r| - 1])
  {
    var i := LeadingSpace(s);
    var rest := s[i..];
    var j := TrailingSpace(rest);
    var r := rest[..|rest| - j];
    assert r == s[i..i + |r|];
    assert s[i + |r|..] == rest[|rest| - j..];
    r
  }

  /** A cell is blank when it holds whitespace only, which is when nothing
      is left of it after `strip()` (see `StripEmptyIffBlank`). */
  predicate IsBlank(s: string) {
    AllSpace(s)
  }

  /** `s.strip()` is empty exactly when `s` is blank. */
  lemma StripEmptyIffBlank(s: string)
    ensures Strip(s) == [] <==> IsBlank(s)
  {
    var r := Strip(s);
    var i :| 0 <= i && i + |r| <= |s| && r == s[i..i + |r|]
             && AllSpace(s[..i]) && AllSpace(s[i + |r|..]);
    if r == [] {
      forall k | 0 <= k < |s| ensures IsSpace(s[k]) {
        if k < i {
          assert s[..i][k] == s[k];
        } else {
          assert s[i..][k - i] == s[k];
        }
      }
    } else {
      assert s[i] == r[0];
    }
  }

  /** ASCII lower-casing of one character; every other character is kept. */
  function LowerChar(c: char): char {
    if 'A' <= c <= 'Z' then (c as int + 32) as char else c
  }

  /** `s.lower()` on the ASCII letters. */
  function Lower(s: string): (r: string)
    ensures |r| == |s|
    ensures forall i :: 0 <= i < |s| ==> r[i] == LowerChar(s[i])
  {
    seq(|s|, i requires 0 <= i < |s| => LowerChar(s[i]))
  }

  /** `" ".join(parts)`. */
  function JoinWithSpace(parts: seq<string>): string {
    if |parts| == 0 then []
    else if |parts| == 1 then parts[0]
    else parts[0] + " " + JoinWithSpace(parts[1..])
  }

  /** The ASCII digits that Python's `\d` and `int()` accept here. */
  predicate IsDigit(c: char) {
    '0' <= c <= '9'
  }

  predicate AllDigits(s: string) {
    forall i :: 0 <= i < |s| ==> IsDigit(s[i])
  }

  function DigitChar(n: int): (c: char)
    requires 0 <= n < 10
    ensures IsDigit(c)
  {
    (n + '0' as int) as char
  }

  /** `int(s)` for a string of ASCII digits. */
  function DecimalValue(s: string): (n: nat)
    requires AllDigits(s)
  {
    if |s| == 0 then 0
    else DecimalValue(s[..|s| - 1]) * 10 + (s[|s| - 1] as int - '0' as int)
  }

  /** `%02d`: a number below 100 as exactly two digits. */
  function Pad2(n: int): (s: string)
    requires 0 <= n < 100
    ensures |s| == 2 && AllDigits(s)
  {
    [DigitChar(n / 10), DigitChar(n % 10)]
  }

  /** `%04d`: a number below 10000 as exactly four digits. */
  function Pad4(n: int): (s: string)
    requires 0 <= n < 10000
    ensures |s| == 4 && AllDigits(s)
  {
    Pad2(n / 100) + Pad2(n % 100)
  }

  lemma DecimalValuePad2(n: int)
    requires 0 <= n < 100
    ensures DecimalValue(Pad2(n)) == n
  {
    var s := Pad2(n);
    assert s[..1][..0] == [];
    assert DecimalValue(s[..1]) == n / 10;
  }

  /** The value of one digit followed by another. */
  lemma DecimalValueTwoDigits(s: string)
    requires |s| == 2 && AllDigits(s)
    ensures DecimalValue(s) == (s[0] as int - '0' as int) * 10 + (s[1] as int - '0' as int)
  {
    var s1 := s[..1];
    assert s1[..0] == [];
    assert DecimalValue(s1) == s[0] as int - '0' as int;
    assert s[..|s| - 1] == s1;
  }

  /** The value of a concatenation of digit strings, for a two-digit suffix. */
  lemma DecimalValueAppend2(a: string, b: string)
    requires AllDigits(a) && AllDigits(b) && |b| == 2
    ensures AllDigits(a + b)
    ensures DecimalValue(a + b) == DecimalValue(a) * 100 + DecimalValue(b)
  {
    var ab := a + b;
    var a1 := a + [b[0]];
    var d0 := b[0] as int - '0' as int;
    var d1 := b[1] as int - '0' as int;
    assert ab[..|ab| - 1] == a1;
    assert a1[..|a1| - 1] == a;
    assert DecimalValue(a1) == DecimalValue(a) * 10 + d0;
    assert DecimalValue(ab) == DecimalValue(a1) * 10 + d1;
    DecimalValueTwoDigits(b);
  }

  lemma DecimalValuePad4(n: int)
    requires 0 <= n < 10000
    ensures DecimalValue(Pad4(n)) == n
  {
    DecimalValuePad2(n / 100);
    DecimalValuePad2(n % 100);
    DecimalValueAppend2(Pad2(n / 100), Pad2(n % 100));
  }

  /** Decoding a two-digit field and rendering it again gives the field back. */
  lemma Pad2DecimalValue(s: string)
    requires |s| == 2 && AllDigits(s)
    ensures DecimalValue(s) < 100
    ensures Pad2(DecimalValue(s)) == s
  {
    DecimalValueTwoDigits(s);
    var d0 := s[0] as int - '0' as int;
    var d1 := s[1] as int - '0' as int;
    assert 0 <= d0 < 10 && 0 <= d1 < 10;
    var n := d0 * 10 + d1;
    assert n / 10 == d0 && n % 10 == d1;
  }

  lemma Pad4DecimalValue(s: string)
    requires |s| == 4 && AllDigits(s)
    ensures DecimalValue(s) < 10000
    ensures Pad4(DecimalValue(s)) == s
  {
    var a, b := s[..2], s[2..];
    assert s == a + b;
    DecimalValueAppend2(a, b);
    Pad2DecimalValue(a);
    Pad2DecimalValue(b);
    var hi, lo := DecimalValue(a), DecimalValue(b);
    var n := hi * 100 + lo;
    assert n / 100 == hi && n % 100 == lo;
    assert DecimalValue(s) == n;
  }
}
