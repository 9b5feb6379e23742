/**
 * The JavaScript/Java string built-ins the core relies on, stated over
 * `seq<char>`: ASCII digits, the `\s` / `trim()` whitespace class,
 * lower-casing (ASCII and Czech letters), `indexOf`, `lastIndexOf`,
 * `split(c)[0]`, `parseInt(s, 10)` and number-to-string conversion.
 */
module Strings {
  import opened Wrappers

  predicate IsDigit(c: char) { '0' <= c <= '9' }

  predicate AllDigits(s: string) { forall i :: 0 <= i < |s| ==> IsDigit(s[i]) }

  /** The `\s` class of ECMAScript regular expressions, which is also the set `trim()` and `parseInt` skip. */
  predicate IsSpace(c: char)
  {
    var n := c as int;
    (9 <= n <= 13) || n == 0x20 || n == 0xA0 || n == 0x1680 || (0x2000 <= n <= 0x200A)
    || n == 0x2028 || n == 0x2029 || n == 0x202F || n == 0x205F || n == 0x3000 || n == 0xFEFF
  }

  /** Upper-case letters whose lower-case form the model knows: ASCII and the Czech alphabet. */
  predicate IsUpper(c: char)
  {
    ('A' <= c <= 'Z') || c in {'Á', 'Č', 'Ď', 'É', 'Ě', 'Í', 'Ň', 'Ó', 'Ř', 'Š', 'Ť', 'Ú', 'Ů', 'Ý', 'Ž'}
  }

  /** `toLowerCase` of one character; characters outside ASCII and Czech are left unchanged. */
  function LowerChar(c: char): char
  {
    match c
    case 'Á' => 'á'
    case 'Č' => 'č'
    case 'Ď' => 'ď'
    case 'É' => 'é'
    case 'Ě' => 'ě'
    case 'Í' => 'í'
    case 'Ň' => 'ň'
    case 'Ó' => 'ó'
    case 'Ř' => 'ř'
    case 'Š' => 'š'
    case 'Ť' => 'ť'
    case 'Ú' => 'ú'
    case 'Ů' => 'ů'
    case 'Ý' => 'ý'
    case 'Ž' => 'ž'
    case _ => if 'A' <= c <= 'Z' then (c as int + 32) as char else c
  }

  /** Lower-casing leaves other characters alone and never yields an upper-case letter. */
  lemma LowerCharFacts(c: char)
    ensures !IsUpper(c) ==> LowerChar(c) == c
    ensures !IsUpper(LowerChar(c))
  {
  }

  /** `toLowerCase` of a string, character by character. */
  function Lower(s: string): (r: string)
    ensures |r| == |s|
  {
    seq(|s|, i requires 0 <= i < |s| => LowerChar(s[i]))
  }

  predicate IsLower(s: string) { forall i :: 0 <= i < |s| ==> !IsUpper(s[i]) }

  lemma LowerIsLower(s: string)
    ensures IsLower(Lower(s))
    ensures Lower(Lower(s)) == Lower(s)
  {
    forall i | 0 <= i < |s| ensures !IsUpper(Lower(s)[i]) && LowerChar(Lower(s)[i]) == Lower(s)[i] {
      LowerCharFacts(s[i]);
      LowerCharFacts(LowerChar(s[i]));
    }
  }

  lemma LowerOfLower(s: string)
    requires IsLower(s)
    ensures Lower(s) == s
  {
    forall i | 0 <= i < |s| ensures Lower(s)[i] == s[i] {
      LowerCharFacts(s[i]);
    }
  }

  /** Lower-casing never creates or removes a '/', a '.' or a ' '. */
  lemma LowerCharSeparator(x: char, c: char)
    requires c == '/' || c == '.' || c == ' '
    ensures LowerChar(x) == c <==> x == c
  {
  }

  lemma SeparatorLower(t: string, c: char)
    requires c == '/' || c == '.' || c == ' '
    ensures c in Lower(t) <==> c in t
  {
    forall i | 0 <= i < |t| ensures Lower(t)[i] == c <==> t[i] == c {
      LowerCharSeparator(t[i], c);
    }
  }

  lemma LowerConcat(a: string, b: string)
    ensures Lower(a + b) == Lower(a) + Lower(b)
  {
  }

  /** Case-insensitive comparison against a pattern literal that is already lower case. */
  predicate StartsWithCi(s: string, lit: string)
  {
    lit == [] || (|s| > 0 && LowerChar(s[0]) == lit[0] && StartsWithCi(s[1..], lit[1..]))
  }

  lemma {:induction false} StartsWithCiLength(s: string, lit: string)
    requires StartsWithCi(s, lit)
    ensures |lit| <= |s|
  {
    if lit != [] {
      StartsWithCiLength(s[1..], lit[1..]);
    }
  }

  /** `s.indexOf(c)`: the first index of `c`, or -1. */
  function IndexOf(s: string, c: char): (i: int)
    ensures -1 <= i < |s|
    ensures i >= 0 ==> s[i] == c && c !in s[..i]
    ensures i == -1 <==> c !in s
  {
    if |s| == 0 then -1
    else if s[0] == c then 0
    else
      var j := IndexOf(s[1..], c);
      assert s == [s[0]] + s[1..];
      if j == -1 then -1 else j + 1
  }

  /** `s.lastIndexOf(c)`: the last index of `c`, or -1. */
  function LastIndexOf(s: string, c: char): (i: int)
    ensures -1 <= i < |s|
    ensures i >= 0 ==> s[i] == c && c !in s[i + 1..]
    ensures i == -1 <==> c !in s
  {
    if |s| == 0 then -1
    else if s[|s| - 1] == c then |s| - 1
    else
      var j := LastIndexOf(s[..|s| - 1], c);
      assert s == s[..|s| - 1] + [s[|s| - 1]];
      j
  }

  /** `s.split(c)[0]`: the text before the first `c`, or all of `s`. */
  function BeforeFirst(s: string, c: char): (r: string)
    ensures c !in r
    ensures r == s || (|r| < |s| && s[|r|] == c)
    ensures r <= s
  {
    var i := IndexOf(s, c);
    if i == -1 then s else s[..i]
  }

  /** `s.split(c).pop()`: the text after the last `c`, or all of `s`. */
  function AfterLast(s: string, c: char): (r: string)
    ensures |r| <= |s| && r == s[|s| - |r|..]
    ensures c !in r
    ensures r == s || s[|s| - |r| - 1] == c
  {
    var i := LastIndexOf(s, c);
    assert |s[i + 1..]| == |s| - (i + 1);
    s[i + 1..]
  }

  /** The length of the greedy `\s*` run starting at `i`. */
  function SpaceRun(s: string, i: nat): (n: nat)
    requires i <= |s|
    ensures i + n <= |s|
    ensures i + n == |s| || !IsSpace(s[i + n])
    decreases |s| - i
  {
    if i < |s| && IsSpace(s[i]) then 1 + SpaceRun(s, i + 1) else 0
  }

  /** Every character of the run is white space. */
  lemma {:induction false} SpaceRunSpaces(s: string, i: nat)
    requires i <= |s|
    ensures forall p :: i <= p < i + SpaceRun(s, i) ==> IsSpace(s[p])
    decreases |s| - i
  {
    if i < |s| && IsSpace(s[i]) {
      SpaceRunSpaces(s, i + 1);
    }
  }

  /** The greedy run of spaces from `i` ends at the first non-space. */
  lemma {:induction false} SpaceRunExact(t: string, i: nat, m: nat)
    requires i <= m <= |t| && (m == |t| || !IsSpace(t[m]))
    requires forall j :: i <= j < m ==> IsSpace(t[j])
    ensures SpaceRun(t, i) == m - i
    decreases m - i
  {
    if i < m {
      SpaceRunExact(t, i + 1, m);
    }
  }

  /** `s.trimStart()`: drops the leading run of white space. */
  function TrimStart(s: string): (r: string)
    ensures |r| <= |s| && r == s[|s| - |r|..]
    ensures r == [] || !IsSpace(r[0])
  {
    s[SpaceRun(s, 0)..]
  }

  /** `s.trim()`: drops white space at both ends, one character at a time. */
  function Trim(s: string): (r: string)
    ensures |r| <= |s|
    decreases |s|
  {
    if |s| > 0 && IsSpace(s[0]) then Trim(s[1..])
    else if |s| > 0 && IsSpace(s[|s| - 1]) then Trim(s[..|s| - 1])
    else s
  }

  function DigitChar(d: nat): (c: char)
    requires d < 10
    ensures IsDigit(c)
  {
    ('0' as int + d) as char
  }

  /** Decimal form of a natural number, as `String(n)` prints it. */
  function NatToString(n: nat): (r: string)
    ensures |r| >= 1 && AllDigits(r)
  {
    if n < 10 then [DigitChar(n)] else NatToString(n / 10) + [DigitChar(n % 10)]
  }

  /** Decimal form of an integer, with a leading '-' when it is negative. */
  function IntToString(i: int): (r: string)
    ensures |r| >= 1
    ensures ' ' !in r && '/' !in r
    ensures IsLower(r)
  {
    if i < 0 then "-" + NatToString(-i) else NatToString(i)
  }

  function DigitValue(c: char): nat
    requires IsDigit(c)
  {
    c as int - '0' as int
  }

  /** The longest prefix of `s` made of digits. */
  function DigitPrefix(s: string): (r: string)
    ensures r <= s && AllDigits(r)
    ensures r == s || !IsDigit(s[|r|])
  {
    if |s| > 0 && IsDigit(s[0]) then [s[0]] + DigitPrefix(s[1..]) else []
  }

  function DigitsValue(d: string): nat
    requires AllDigits(d)
  {
    if d == [] then 0 else DigitsValue(d[..|d| - 1]) * 10 + DigitValue(d[|d| - 1])
  }

  /**
   * `parseInt(s, 10)`: leading whitespace is skipped, then an optional sign,
   * then the longest run of digits; `None` stands for NaN.
   */
  function ParseInt(s: string): Option<int>
  {
    var t := TrimStart(s);
    var negative := |t| > 0 && t[0] == '-';
    var u := if |t| > 0 && (t[0] == '-' || t[0] == '+') then t[1..] else t;
    var d := DigitPrefix(u);
    if d == [] then None
    else
      var n: int := DigitsValue(d);
      Some(if negative then -n else n)
  }

  /** Number of occurrences of `c` in `s`. */
  function CountChar(s: string, c: char): nat
  {
    if s == [] then 0 else (if s[0] == c then 1 else 0) + CountChar(s[1..], c)
  }

  lemma {:induction false} CountCharConcat(a: string, b: string, c: char)
    ensures CountChar(a + b, c) == CountChar(a, c) + CountChar(b, c)
    decreases |a|
  {
    if a == [] {
      assert a + b == b;
    } else {
      assert (a + b)[0] == a[0];
      assert (a + b)[1..] == a[1..] + b;
      CountCharConcat(a[1..], b, c);
    }
  }

  lemma {:induction false} CountCharAbsent(s: string, c: char)
    requires c !in s
    ensures CountChar(s, c) == 0
    decreases |s|
  {
    if s != [] {
      assert c !in s[1..];
      CountCharAbsent(s[1..], c);
    }
  }
}
