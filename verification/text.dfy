/** The pieces of .NET text handling the program relies on: decimal
    formatting of integers (`ToString()` and the custom format "00"),
    `string.Split` on one character, `long.TryParse` with the default
    number style, and `string.IsNullOrWhiteSpace`. Each formatter comes with
    a reader and a round-trip lemma. */
module Text {
  import opened Common

  predicate IsDigit(c: char)
  {
    '0' <= c <= '9'
  }

  predicate AllDigits(s: string)
  {
    forall i :: 0 <= i < |s| ==> IsDigit(s[i])
  }

  function DigitChar(d: int): (c: char)
    requires 0 <= d < 10
    ensures IsDigit(c)
  {
    ('0' as int + d) as char
  }

  function DigitValue(c: char): int
    requires IsDigit(c)
  {
    c as int - '0' as int
  }

  /** The decimal digits of n without leading zeros, as `n.ToString()` prints them. */
  function NatText(n: nat): (s: string)
    ensures AllDigits(s)
    ensures n < 10 ==> |s| == 1
    ensures 10 <= n < 100 ==> |s| == 2
    ensures n >= 10 ==> |s| >= 2
    decreases n
  {
    if n < 10 then [DigitChar(n)] else NatText(n / 10) + [DigitChar(n % 10)]
  }

  /** Reads a string of decimal digits. */
  function DigitsValue(s: string): nat
    requires AllDigits(s)
    decreases |s|
  {
    if s == [] then 0 else DigitsValue(s[..|s| - 1]) * 10 + DigitValue(s[|s| - 1])
  }

  lemma {:induction false} NatTextRoundTrip(n: nat)
    ensures DigitsValue(NatText(n)) == n
    decreases n
  {
    if n >= 10 {
      var s := NatText(n / 10) + [DigitChar(n % 10)];
      assert s[..|s| - 1] == NatText(n / 10);
      NatTextRoundTrip(n / 10);
    }
  }

  /** `n.ToString()` for any integer: a minus sign, then the digits of |n|. */
  function IntText(n: int): string
  {
    if n < 0 then "-" + NatText(-n) else NatText(n)
  }

  /** Two digits at least, zero-padded: the custom format "00" for n >= 0. */
  function Pad2(n: nat): (s: string)
    ensures AllDigits(s) && |s| >= 2
    ensures n < 100 ==> |s| == 2
    ensures DigitsValue(s) == n
  {
    NatTextRoundTrip(n);
    if n < 10 then
      var s := "0" + NatText(n);
      assert s[..|s| - 1] == "0";
      assert DigitsValue("0") == 0 by { assert "0"[..0] == ""; }
      s
    else NatText(n)
  }

  /** `n.ToString("00")`: a negative number keeps its minus sign in front of the padded digits. */
  function Format00(n: int): (s: string)
    ensures n >= 0 ==> s == Pad2(n)
    ensures n < 0 ==> s == "-" + Pad2(-n)
  {
    if n < 0 then "-" + Pad2(-n) else Pad2(n)
  }

  // ---------------------------------------------------------------- Split

  /** `s.Split(d)`: the pieces between the occurrences of d; never empty. */
  function Split(s: string, d: char): (parts: seq<string>)
    ensures |parts| >= 1
    ensures forall k :: 0 <= k < |parts| ==> d !in parts[k]
    ensures |parts| >= 2 <==> d in s
    ensures Join(parts, d) == s
    decreases |s|
  {
    if s == [] then [""]
    else
      var rest := Split(s[1..], d);
      if s[0] == d then
        assert s == [d] + s[1..];
        [""] + rest
      else
        var parts := [[s[0]] + rest[0]] + rest[1..];
        assert parts[1..] == rest[1..];
        assert s == [s[0]] + s[1..];
        JoinCons(s[0], rest, d);
        parts
  }

  /** The pieces glued back together with d between them. */
  function Join(parts: seq<string>, d: char): string
    requires |parts| >= 1
    decreases |parts|
  {
    if |parts| == 1 then parts[0] else parts[0] + [d] + Join(parts[1..], d)
  }

  lemma JoinCons(c: char, parts: seq<string>, d: char)
    requires |parts| >= 1
    ensures Join([[c] + parts[0]] + parts[1..], d) == [c] + Join(parts, d)
  {
    var ps := [[c] + parts[0]] + parts[1..];
    assert ps[1..] == parts[1..];
  }

  /** Splitting text that does not contain the separator gives the text itself. */
  lemma {:induction false} SplitWithout(a: string, d: char)
    requires d !in a
    ensures Split(a, d) == [a]
    decreases |a|
  {
    if a != [] {
      assert d !in a[1..];
      SplitWithout(a[1..], d);
    }
  }

  /** The first piece ends at the first separator. */
  lemma {:induction false} SplitAt(a: string, b: string, d: char)
    requires d !in a
    ensures Split(a + [d] + b, d) == [a] + Split(b, d)
    decreases |a|
  {
    var s := a + [d] + b;
    if a == [] {
      assert s[1..] == b;
    } else {
      assert s[1..] == a[1..] + [d] + b;
      assert d !in a[1..];
      SplitAt(a[1..], b, d);
      assert [a[0]] + a[1..] == a;
    }
  }

  /** The text before the first d, or all of it when there is none. */
  function Before(s: string, d: char): string
    decreases |s|
  {
    if s == [] || s[0] == d then [] else [s[0]] + Before(s[1..], d)
  }

  /** The text after the first d, or nothing when there is none. */
  function After(s: string, d: char): string
    decreases |s|
  {
    if s == [] then [] else if s[0] == d then s[1..] else After(s[1..], d)
  }

  /** Cutting at the first separator recovers both sides of it. */
  lemma {:induction false} BeforeAfter(p: string, q: string, d: char)
    requires d !in p
    ensures Before(p + [d] + q, d) == p && After(p + [d] + q, d) == q
    decreases |p|
  {
    var s := p + [d] + q;
    if p == [] {
      assert s == [d] + q;
    } else {
      assert s[0] == p[0];
      assert s[1..] == p[1..] + [d] + q;
      BeforeAfter(p[1..], q, d);
    }
  }

  // ------------------------------------------------------------ long.TryParse

  const LongMin: int := -0x8000_0000_0000_0000
  const LongMax: int := 0x7FFF_FFFF_FFFF_FFFF

  /** The range of a C# `long`. */
  predicate InLong(n: int)
  {
    LongMin <= n <= LongMax
  }

  /** The characters `long.TryParse` skips before and after the number: U+0009 to U+000D and the space. */
  predicate IsParseWhite(c: char)
  {
    c == ' ' || '\t' <= c <= '\r'
  }

  function TrimLeadingWhite(s: string): (r: string)
    ensures |r| <= |s| && r == s[|s| - |r|..]
    ensures |r| > 0 ==> !IsParseWhite(r[0])
    ensures |s| > 0 && !IsParseWhite(s[0]) ==> r == s
    decreases |s|
  {
    if |s| > 0 && IsParseWhite(s[0]) then TrimLeadingWhite(s[1..]) else s
  }

  function TrimTrailingWhite(s: string): (r: string)
    ensures |r| <= |s| && r == s[..|r|]
    ensures |r| > 0 ==> !IsParseWhite(r[|r| - 1])
    ensures |s| > 0 && !IsParseWhite(s[|s| - 1]) ==> r == s
    decreases |s|
  {
    if |s| > 0 && IsParseWhite(s[|s| - 1]) then TrimTrailingWhite(s[..|s| - 1]) else s
  }

  /** `long.TryParse(s, out v)` with NumberStyles.Integer, for a current culture whose sign
      strings are "-" and "+": optional surrounding white space, an optional sign, at least one
      ASCII digit, and a value that fits. */
  function TryParseLong(s: string): (r: Option<int>)
    ensures r.Some? ==> InLong(r.value)
  {
    var t := TrimTrailingWhite(TrimLeadingWhite(s));
    if |t| == 0 then None
    else
      var body := if t[0] == '-' || t[0] == '+' then t[1..] else t;
      if |body| == 0 || !AllDigits(body) then None
      else
        var v: int := if t[0] == '-' then -(DigitsValue(body) as int) else DigitsValue(body) as int;
        if InLong(v) then Some(v) else None
  }

  /** Whatever `ToString()` prints for a long, `long.TryParse` reads back. */
  lemma IntTextParses(n: int)
    requires InLong(n)
    ensures TryParseLong(IntText(n)) == Some(n)
  {
    var s := IntText(n);
    var m: nat := if n < 0 then -n else n;
    NatTextRoundTrip(m);
    var digits := NatText(m);
    assert IsDigit(digits[0]) && IsDigit(digits[|digits| - 1]);
    if n < 0 {
      assert s == "-" + digits;
      assert s[0] == '-' && s[|s| - 1] == digits[|digits| - 1];
    } else {
      assert s == digits;
    }
    assert !IsParseWhite(s[0]) && !IsParseWhite(s[|s| - 1]);
    var t := TrimTrailingWhite(TrimLeadingWhite(s));
    assert t == s;
    if n < 0 {
      assert t[1..] == digits;
    } else {
      assert t[0] != '-' && t[0] != '+';
    }
  }

  /** ffmpeg writes "N/A" before the first frame; it is not a number. */
  lemma NotANumber()
    ensures TryParseLong("N/A") == None
  {
    assert TrimLeadingWhite("N/A") == "N/A";
    assert TrimTrailingWhite("N/A") == "N/A";
    assert !IsDigit("N/A"[0]);
  }

  // ------------------------------------------------------- IsNullOrWhiteSpace

  /** `char.IsWhiteSpace`: the Unicode space, line and paragraph separators, U+0009 to U+000D, U+0085. */
  predicate IsUnicodeWhite(c: char)
  {
    || ('\t' <= c <= '\r')
    || c == ' '
    || c == '\U{85}'
    || c == '\U{A0}'
    || c == '\U{1680}'
    || ('\U{2000}' <= c <= '\U{200A}')
    || c == '\U{2028}'
    || c == '\U{2029}'
    || c == '\U{202F}'
    || c == '\U{205F}'
    || c == '\U{3000}'
  }

  /** `string.IsNullOrWhiteSpace` on a string that is present: empty or white space only. */
  predicate IsBlankText(s: string)
  {
    forall i :: 0 <= i < |s| ==> IsUnicodeWhite(s[i])
  }
}
