/**
 * The string operations the pages rely on: `toLowerCase`, `includes`, `split`, `join` and `parseInt`.
 * Characters are compared as code points; upper/lower case is the ASCII mapping.
 */
module Text {
  import opened Wrappers

  /** `c.toLowerCase()` on the ASCII letters; every other character is unchanged. */
  function LowerChar(c: char): char {
    if 'A' <= c <= 'Z' then (c as int + 32) as char else c
  }

  /** `s.toLowerCase()`, character by character. */
  function Lower(s: string): (r: string)
    ensures |r| == |s|
    ensures forall i :: 0 <= i < |s| ==> r[i] == LowerChar(s[i])
  {
    seq(|s|, i requires 0 <= i < |s| => LowerChar(s[i]))
  }

  predicate StartsWith(s: string, prefix: string) {
    |prefix| <= |s| && s[..|prefix|] == prefix
  }

  /** `s.includes(needle)`: `needle` occurs at some position of `s`. */
  predicate Contains(s: string, needle: string)
    decreases |s|
  {
    StartsWith(s, needle) || (|s| > 0 && Contains(s[1..], needle))
  }

  /** `needle` occurs in `s` starting at offset `k`. */
  predicate OccursAt(s: string, needle: string, k: int) {
    0 <= k <= |s| - |needle| && s[k..k + |needle|] == needle
  }

  /** The recursive test agrees with "there is an offset where `needle` starts", in both directions. */
  lemma {:induction false} ContainsIffOccurs(s: string, needle: string)
    ensures Contains(s, needle) <==> exists k :: OccursAt(s, needle, k)
    decreases |s|
  {
    if StartsWith(s, needle) {
      assert OccursAt(s, needle, 0);
    }
    if |s| > 0 {
      ContainsIffOccurs(s[1..], needle);
      if Contains(s[1..], needle) {
        var k :| OccursAt(s[1..], needle, k);
        assert s[k + 1..k + 1 + |needle|] == s[1..][k..k + |needle|];
        assert OccursAt(s, needle, k + 1);
      }
      if k :| OccursAt(s, needle, k) {
        if k > 0 {
          assert s[1..][k - 1..k - 1 + |needle|] == s[k..k + |needle|];
          assert OccursAt(s[1..], needle, k - 1);
        }
      }
    }
  }

  /** A needle whose first character never appears in `s` does not occur in `s`. */
  lemma {:induction false} FirstCharAbsent(s: string, needle: string)
    requires needle != [] && needle[0] !in s
    ensures !Contains(s, needle)
    decreases |s|
  {
    if |s| > 0 {
      assert s[0] in s;
      FirstCharAbsent(s[1..], needle);
    }
  }

  /** `s.split(sep)` for a one-character separator: always at least one part, possibly empty ones. */
  function Split(s: string, sep: char): (parts: seq<string>)
    ensures |parts| >= 1
    ensures forall i :: 0 <= i < |parts| ==> sep !in parts[i]
    decreases |s|
  {
    if s == [] then [[]]
    else
      var rest := Split(s[1..], sep);
      if s[0] == sep then [[]] + rest else [[s[0]] + rest[0]] + rest[1..]
  }

  /** `parts.join(sep)`. */
  function Join(parts: seq<string>, sep: string): string
    decreases |parts|
  {
    if parts == [] then []
    else if |parts| == 1 then parts[0]
    else parts[0] + sep + Join(parts[1..], sep)
  }

  /** Joining the parts of a split with the same separator gives back the string. */
  lemma {:induction false} JoinSplit(s: string, sep: char)
    ensures Join(Split(s, sep), [sep]) == s
    decreases |s|
  {
    if s != [] {
      var rest := Split(s[1..], sep);
      JoinSplit(s[1..], sep);
      if s[0] != sep {
        if |rest| == 1 {
          assert Split(s, sep) == [[s[0]] + rest[0]];
        } else {
          assert rest == [rest[0]] + rest[1..];
          assert Join(rest, [sep]) == rest[0] + [sep] + Join(rest[1..], [sep]);
          assert Split(s, sep)[1..] == rest[1..];
        }
      }
    }
  }

  /** Splitting `a + [sep] + b`, where `a` has no separator, gives `a` followed by the parts of `b`. */
  lemma {:induction false} SplitAtFirst(a: string, b: string, sep: char)
    requires sep !in a
    ensures Split(a + [sep] + b, sep) == [a] + Split(b, sep)
    decreases |a|
  {
    if a == [] {
      assert a + [sep] + b == [sep] + b;
      assert ([sep] + b)[1..] == b;
    } else {
      assert (a + [sep] + b)[1..] == a[1..] + [sep] + b;
      SplitAtFirst(a[1..], b, sep);
      assert [a[0]] + a[1..] == a;
    }
  }

  /** A string without the separator splits into itself alone. */
  lemma {:induction false} SplitNoSep(s: string, sep: char)
    requires sep !in s
    ensures Split(s, sep) == [s]
    decreases |s|
  {
    if s != [] {
      SplitNoSep(s[1..], sep);
      assert [s[0]] + s[1..] == s;
    }
  }

  predicate IsDigit(c: char) {
    '0' <= c <= '9'
  }

  /**
   * The white space `parseInt` skips before the number: the WhiteSpace and LineTerminator code points
   * of ECMAScript (section 7.2 and 7.3 of ECMA-262), the space separators of Unicode category Zs included.
   */
  predicate IsSpace(c: char) {
    var n := c as int;
    (9 <= n <= 13) || n == 0x20 || n == 0xA0 || n == 0x1680 || (0x2000 <= n <= 0x200A)
    || n == 0x2028 || n == 0x2029 || n == 0x202F || n == 0x205F || n == 0x3000 || n == 0xFEFF
  }

  /** `s` without its leading white space: everything removed is white space, and what is left starts with none. */
  function TrimStart(s: string): (r: string)
    ensures |r| <= |s| && r == s[|s| - |r|..]
    ensures forall i :: 0 <= i < |s| - |r| ==> IsSpace(s[i])
    ensures r == [] || !IsSpace(r[0])
    decreases |s|
  {
    if s != [] && IsSpace(s[0]) then TrimStart(s[1..]) else s
  }

  /** The longest prefix of `s` made of decimal digits. */
  function DigitPrefix(s: string): (r: string)
    ensures StartsWith(s, r)
    ensures forall i :: 0 <= i < |r| ==> IsDigit(r[i])
    ensures |r| < |s| ==> !IsDigit(s[|r|])
    decreases |s|
  {
    if s != [] && IsDigit(s[0]) then [s[0]] + DigitPrefix(s[1..]) else []
  }

  /** The value of a string of decimal digits, most significant first. */
  function DigitsValue(d: string): nat
    requires forall i :: 0 <= i < |d| ==> IsDigit(d[i])
    decreases |d|
  {
    if d == [] then 0
    else
      assert IsDigit(d[|d| - 1]);
      DigitsValue(d[..|d| - 1]) * 10 + (d[|d| - 1] as int - '0' as int)
  }

  /** The text `parseInt` and `parseFloat` read after skipping white space and an optional sign. */
  function Unsigned(s: string): (body: string)
    ensures |body| <= |s|
  {
    var t := TrimStart(s);
    if t != [] && (t[0] == '+' || t[0] == '-') then t[1..] else t
  }

  /** Whether the number text begins, after white space, with a minus sign. */
  predicate Negative(s: string) {
    var t := TrimStart(s);
    t != [] && t[0] == '-'
  }

  /**
   * `parseInt(s)` with no radix: skip leading white space, read an optional sign and then the longest
   * run of decimal digits; `None` stands for `NaN` (no digit at all).
   */
  function ParseInt(s: string): (r: Option<int>)
    ensures r.None? <==> DigitPrefix(Unsigned(s)) == []
    ensures r.Some? ==> (r.value < 0 ==> Negative(s))
  {
    var d := DigitPrefix(Unsigned(s));
    if d == [] then None
    else if Negative(s) then Some(-(DigitsValue(d) as int))
    else Some(DigitsValue(d))
  }

  /** The digits after a leading '.', if there is one. */
  function FractionDigits(rest: string): (f: string)
    ensures forall i :: 0 <= i < |f| ==> IsDigit(f[i])
  {
    if rest != [] && rest[0] == '.' then DigitPrefix(rest[1..]) else []
  }

  /** The value of the digits `frac` written after a decimal point: `0.frac`. */
  function FractionValue(frac: string): (v: real)
    requires forall i :: 0 <= i < |frac| ==> IsDigit(frac[i])
    ensures 0.0 <= v < 1.0
    decreases |frac|
  {
    if frac == [] then 0.0
    else
      assert IsDigit(frac[0]);
      ((frac[0] as int - '0' as int) as real + FractionValue(frac[1..])) / 10.0
  }

  /** The value of `whole.frac` written in decimal. */
  function DecimalValue(whole: string, frac: string): (v: real)
    requires forall i :: 0 <= i < |whole| ==> IsDigit(whole[i])
    requires forall i :: 0 <= i < |frac| ==> IsDigit(frac[i])
    ensures DigitsValue(whole) as real <= v < DigitsValue(whole) as real + 1.0
  {
    DigitsValue(whole) as real + FractionValue(frac)
  }

  /** `x.trunc()`: the integer part, rounding toward zero. */
  function Trunc(x: real): int {
    if x >= 0.0 then x.Floor else -((-x).Floor)
  }

  /**
   * `parseFloat(s)` for decimal notation: skip leading white space, read an optional sign, the integer
   * digits and an optional '.' followed by fraction digits; `None` stands for `NaN` (no digit on either
   * side of the point).
   */
  function ParseFloat(s: string): (r: Option<real>)
    ensures r.None? <==> DigitPrefix(Unsigned(s)) == [] && FractionDigits(Unsigned(s)) == []
  {
    var body := Unsigned(s);
    var whole := DigitPrefix(body);
    var frac := FractionDigits(body[|whole|..]);
    if whole == [] && frac == [] then None
    else if Negative(s) then Some(-DecimalValue(whole, frac))
    else Some(DecimalValue(whole, frac))
  }

  /** Whenever `parseInt` reads a number, `parseFloat` reads one too, and its integer part is that number. */
  lemma ParseFloatTruncatesToParseInt(s: string)
    requires ParseInt(s).Some?
    ensures ParseFloat(s).Some? && Trunc(ParseFloat(s).value) == ParseInt(s).value
  {
  }

  /** `parseFloat` reads back a natural number written in decimal. */
  lemma {:induction false} ParseFloatOfNatToString(n: nat)
    ensures ParseFloat(NatToString(n)) == Some(n as real)
  {
    var s := NatToString(n);
    assert !IsSpace(s[0]) && s[0] != '+' && s[0] != '-';
    assert TrimStart(s) == s;
    assert Unsigned(s) == s;
    DigitPrefixOfDigits(s, []);
    assert s + [] == s;
    assert s[|s|..] == [];
    DigitsValueOfNatToString(n);
  }

  function DigitChar(n: nat): (c: char)
    requires n < 10
    ensures IsDigit(c)
  {
    ('0' as int + n) as char
  }

  /** `String(n)` for a natural number: its decimal digits, without leading zeros. */
  function NatToString(n: nat): (r: string)
    ensures |r| >= 1
    ensures forall i :: 0 <= i < |r| ==> IsDigit(r[i])
  {
    if n < 10 then [DigitChar(n)] else NatToString(n / 10) + [DigitChar(n % 10)]
  }

  /** Reading back the digits of `NatToString(n)` gives `n`. */
  lemma {:induction false} DigitsValueOfNatToString(n: nat)
    ensures DigitsValue(NatToString(n)) == n
  {
    if n >= 10 {
      var r := NatToString(n);
      assert r[..|r| - 1] == NatToString(n / 10);
      DigitsValueOfNatToString(n / 10);
    }
  }

  /** The digit prefix of a digit string followed by a non-digit (or nothing) is that digit string. */
  lemma {:induction false} DigitPrefixOfDigits(d: string, rest: string)
    requires forall i :: 0 <= i < |d| ==> IsDigit(d[i])
    requires rest == [] || !IsDigit(rest[0])
    ensures DigitPrefix(d + rest) == d
    decreases |d|
  {
    if d == [] {
      assert d + rest == rest;
    } else {
      assert (d + rest)[1..] == d[1..] + rest;
      DigitPrefixOfDigits(d[1..], rest);
      assert [d[0]] + d[1..] == d;
    }
  }

  /** `parseInt` reads back a natural number written in decimal, whatever non-digit text follows it. */
  lemma {:induction false} ParseIntOfNatToString(n: nat, rest: string)
    requires rest == [] || !IsDigit(rest[0])
    ensures ParseInt(NatToString(n) + rest) == Some(n)
  {
    var s := NatToString(n) + rest;
    assert !IsSpace(s[0]) && s[0] != '+' && s[0] != '-';
    assert TrimStart(s) == s;
    assert Unsigned(s) == s;
    DigitPrefixOfDigits(NatToString(n), rest);
    DigitsValueOfNatToString(n);
  }

  /**
   * `a.localeCompare(b)` modelled as code-point lexicographic order: negative when `a` sorts first,
   * zero when equal, positive when `b` sorts first.
   */
  function CompareText(a: string, b: string): (r: int)
    ensures r == 0 <==> a == b
    ensures -1 <= r <= 1
    decreases |a|
  {
    if a == [] && b == [] then 0
    else if a == [] then -1
    else if b == [] then 1
    else if a[0] < b[0] then -1
    else if a[0] > b[0] then 1
    else
      var r := CompareText(a[1..], b[1..]);
      assert r == 0 ==> a == [a[0]] + a[1..] == [b[0]] + b[1..] == b;
      assert a == b ==> a[1..] == b[1..];
      r
  }

  /** Swapping the arguments negates the comparison. */
  lemma {:induction false} CompareTextAntisymmetric(a: string, b: string)
    ensures CompareText(b, a) == -CompareText(a, b)
    decreases |a|
  {
    if a != [] && b != [] && a[0] == b[0] {
      CompareTextAntisymmetric(a[1..], b[1..]);
    }
  }

  /** "Sorts no later than" is transitive. */
  lemma {:induction false} CompareTextTransitive(a: string, b: string, c: string)
    requires CompareText(a, b) <= 0 && CompareText(b, c) <= 0
    ensures CompareText(a, c) <= 0
    decreases |a|
  {
    if a != [] && b != [] && c != [] && a[0] == b[0] && b[0] == c[0] {
      CompareTextTransitive(a[1..], b[1..], c[1..]);
    }
  }
}
