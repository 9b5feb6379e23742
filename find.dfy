/**
 * The find page: `normalizeYear`, which widens the two-digit year of a key
 * (the 70 pivot), and `onInputChange`, which rescans the search text for
 * bare citation numbers and rewrites their keys.
 */
module Find {
  import opened Wrappers
  import opened Strings
  import opened Lines
  import opened NumberTokens
  import opened RegulationPatterns

  /** `standardized.substring(slashIndex + 1).split(' ')[0]`: the year token of a key. */
  function YearPart(s: string): (y: string)
    requires '/' in s
    ensures ' ' !in y && IndexOf(s, '/') + 1 + |y| <= |s|
  {
    var t := s[IndexOf(s, '/') + 1..];
    BeforeFirst(t, ' ')
  }

  /**
   * The four-digit form of a two-character year token: `19${year}` above
   * 70 and `20${year}` otherwise, where `year = parseInt(yearPart, 10)`
   * (so a leading zero is lost) and NaN prints as "NaN".
   */
  function ExpandedYear(yearPart: string): (r: string)
    ensures |r| >= 3 && ' ' !in r && '/' !in r
  {
    match ParseInt(yearPart)
    case None => "20NaN"
    case Some(y) => if y > 70 then "19" + IntToString(y) else "20" + IntToString(y)
  }

  /**
   * `normalizeYear`: a key without '/' comes back unchanged; a key whose
   * year token has two characters gets the expanded year in its place;
   * every other key is only lower-cased.
   */
  function NormalizeYear(s: string): string
  {
    var slashIndex := IndexOf(s, '/');
    if slashIndex == -1 then s
    else
      var yearPart := YearPart(s);
      if |yearPart| == 4 then Lower(s)
      else if |yearPart| == 2 then WidenYear(s, slashIndex, yearPart)
      else Lower(s)
  }

  /** The two-character branch of `normalizeYear`: the expanded year replaces the token. */
  function WidenYear(s: string, slashIndex: nat, yearPart: string): string
    requires slashIndex + 1 + |yearPart| <= |s|
  {
    var prefix := s[..slashIndex + 1];
    var suffix := Lower(s[slashIndex + 1 + |yearPart|..]);
    Lower(prefix + ExpandedYear(yearPart) + suffix)
  }

  /**
   * A key laid out as `p` + "/" + `y` + `q`, with no '/' in `p`, no ' ' in
   * `y` and `q` empty or starting with ' ', has its first '/' right after
   * `p` and `y` as its year token.
   */
  lemma YearPartSplit(w: string, p: string, y: string, q: string)
    requires w == p + ['/'] + y + q
    requires '/' !in p && ' ' !in y && (q == [] || q[0] == ' ')
    ensures '/' in w && IndexOf(w, '/') == |p|
    ensures YearPart(w) == y
    ensures w[..|p|] == p && w[|p| + 1 + |y|..] == q
  {
    assert w[|p|] == '/';
    assert w[..|p|] == p;
    var t := w[|p| + 1..];
    assert t == y + q;
    var r := BeforeFirst(t, ' ');
    assert r == t[..|y|] == y;
  }

  /** Every key with a '/' is laid out as in `YearPartSplit` around its year token. */
  lemma YearPartParts(s: string, i: int, y: string)
    requires '/' in s && i == IndexOf(s, '/') && y == YearPart(s)
    ensures i + 1 + |y| <= |s| && s[i] == '/' && '/' !in s[..i]
    ensures y == s[i + 1..i + 1 + |y|] && ' ' !in y
    ensures i + 1 + |y| == |s| || s[i + 1 + |y|] == ' '
  {
    AfterSlashParts(s, i, s[i + 1..], y);
  }

  lemma AfterSlashParts(s: string, i: nat, t: string, y: string)
    requires i < |s| && t == s[i + 1..] && y == BeforeFirst(t, ' ')
    ensures i + 1 + |y| <= |s| && y == s[i + 1..i + 1 + |y|]
    ensures i + 1 + |y| == |s| || s[i + 1 + |y|] == ' '
  {
    BeforeFirstParts(t, y);
    assert t[..|y|] == s[i + 1..i + 1 + |y|];
    if |y| < |t| {
      assert s[i + 1 + |y|] == t[|y|];
    }
  }

  lemma BeforeFirstParts(t: string, y: string)
    requires y == BeforeFirst(t, ' ')
    ensures y == t[..|y|] && (|y| == |t| || t[|y|] == ' ')
  {
  }

  lemma SplitAround(s: string, i: int, k: int)
    requires 0 <= i < k <= |s|
    ensures s == s[..i] + [s[i]] + s[i + 1..k] + s[k..]
  {
  }

  /**
   * With a two-character year token, the '/' stays where it was and the
   * lower-cased expanded year becomes the year token of the result.
   */
  lemma NormalizeYearTwoChars(s: string)
    requires '/' in s && |YearPart(s)| == 2
    ensures var e := Lower(ExpandedYear(YearPart(s)));
      '/' in NormalizeYear(s) && IndexOf(NormalizeYear(s), '/') == IndexOf(s, '/')
      && YearPart(NormalizeYear(s)) == e
  {
    var i := IndexOf(s, '/');
    var y := YearPart(s);
    YearPartParts(s, i, y);
    var p, q, ey := s[..i], s[i + 3..], ExpandedYear(y);
    var w := p + ['/'] + ey + Lower(q);
    TwoCharsShape(p, ey, q, w);
    NormalizeYearTwoCharsDef(s, i, y, p, q, ey);
    assert NormalizeYear(s) == Lower(w);
  }

  /**
   * With a two-character year token, the text before the '/' and the text
   * after the year are kept, lower-cased, around the lower-cased expanded
   * year.
   */
  lemma NormalizeYearTwoCharsForm(s: string, i: int, y: string, p: string, q: string)
    requires '/' in s && i == IndexOf(s, '/') && y == YearPart(s) && |y| == 2
    requires p == s[..i] && q == s[i + 3..]
    ensures NormalizeYear(s) == Lower(p) + ['/'] + Lower(ExpandedYear(y)) + Lower(q)
  {
    var ey := ExpandedYear(y);
    NormalizeYearTwoCharsDef(s, i, y, p, q, ey);
    LowerAroundSlash(p, ey, q);
  }

  /** The lower-cased key rebuilt around an expanded year keeps its '/' and year token in place. */
  lemma TwoCharsShape(p: string, ey: string, q: string, w: string)
    requires '/' !in p && ' ' !in ey && '/' !in ey && (q == [] || q[0] == ' ')
    requires w == p + ['/'] + ey + Lower(q)
    ensures '/' in Lower(w) && IndexOf(Lower(w), '/') == |p| && YearPart(Lower(w)) == Lower(ey)
    ensures Lower(w) == Lower(p) + ['/'] + Lower(ey) + Lower(q)
  {
    LowerLeadingSpace(q);
    YearPartSplit(w, p, ey, Lower(q));
    YearPartLower(w);
    LowerAroundSlash(p, ey, q);
  }

  /** The two-character branch of `normalizeYear`, with its parts named. */
  lemma NormalizeYearTwoCharsDef(s: string, i: int, y: string, p: string, q: string, ey: string)
    requires '/' in s && i == IndexOf(s, '/') && y == YearPart(s) && |y| == 2
    requires p == s[..i] && q == s[i + 3..] && ey == ExpandedYear(y)
    ensures NormalizeYear(s) == Lower(p + ['/'] + ey + Lower(q))
  {
    assert NormalizeYear(s) == WidenYear(s, i, y);
    WidenYearParts(s, i, y, p, q, ey);
  }

  lemma WidenYearParts(s: string, i: nat, y: string, p: string, q: string, ey: string)
    requires i + 1 + |y| <= |s| && s[i] == '/'
    requires p == s[..i] && q == s[i + 1 + |y|..] && ey == ExpandedYear(y)
    ensures WidenYear(s, i, y) == Lower(p + ['/'] + ey + Lower(q))
  {
    assert s[..i + 1] == p + ['/'];
  }

  lemma LowerAroundSlash(p: string, e: string, q: string)
    ensures Lower(p + ['/'] + e + Lower(q)) == Lower(p) + ['/'] + Lower(e) + Lower(q)
  {
    LowerConcat(p + ['/'] + e, Lower(q));
    LowerConcat(p + ['/'], e);
    LowerConcat(p, ['/']);
    LowerIsLower(q);
    assert Lower(['/']) == ['/'];
  }

  lemma LowerLeadingSpace(q: string)
    requires q == [] || q[0] == ' '
    ensures Lower(q) == [] || Lower(q)[0] == ' '
  {
    if q != [] {
      assert Lower(q)[0] == LowerChar(q[0]);
    }
  }

  /** A key that starts with a space still starts with one after `normalizeYear`. */
  lemma NormalizeYearLeadingSpace(s: string)
    requires |s| > 0 && s[0] == ' '
    ensures |NormalizeYear(s)| > 0 && NormalizeYear(s)[0] == ' '
  {
    if '/' in s {
      var i := IndexOf(s, '/');
      var y := YearPart(s);
      if |y| == 2 {
        var p := s[..i];
        YearPartParts(s, i, y);
        NormalizeYearTwoCharsForm(s, i, y, p, s[i + 3..]);
        assert |p| > 0 && p[0] == ' ';
        LowerHead(p);
      } else {
        NormalizeYearOtherwise(s);
        LowerHead(s);
      }
    }
  }

  /** A key without '/' comes back as it is, not even lower-cased. */
  lemma NormalizeYearNoSlash(s: string)
    requires '/' !in s
    ensures NormalizeYear(s) == s
  {
  }

  /** A key whose year token does not have two characters is only lower-cased. */
  lemma NormalizeYearOtherwise(s: string)
    requires '/' in s && |YearPart(s)| != 2
    ensures NormalizeYear(s) == Lower(s)
  {
  }

  lemma LowerHead(t: string)
    requires |t| > 0 && t[0] == ' '
    ensures Lower(t)[0] == ' '
  {
    assert Lower(t)[0] == LowerChar(t[0]);
  }

  /** Applying `normalizeYear` twice gives what applying it once does. */
  lemma NormalizeYearIdempotent(s: string)
    ensures NormalizeYear(NormalizeYear(s)) == NormalizeYear(s)
  {
    if '/' in s {
      var r := NormalizeYear(s);
      if |YearPart(s)| == 2 {
        var i := IndexOf(s, '/');
        var y := YearPart(s);
        var ey := ExpandedYear(y);
        NormalizeYearTwoChars(s);
        assert |YearPart(r)| == |ey| != 2;
        NormalizeYearOtherwise(r);
        NormalizeYearTwoCharsDef(s, i, y, s[..i], s[i + 3..], ey);
        LowerIsLower(s[..i] + ['/'] + ey + Lower(s[i + 3..]));
      } else {
        NormalizeYearOtherwise(s);
        YearPartLower(s);
        NormalizeYearOtherwise(r);
        LowerIsLower(s);
      }
    }
  }

  /** Lower-casing a key does not move its '/' and lower-cases its year token. */
  lemma YearPartLower(s: string)
    requires '/' in s
    ensures '/' in Lower(s) && IndexOf(Lower(s), '/') == IndexOf(s, '/')
    ensures YearPart(Lower(s)) == Lower(YearPart(s))
  {
    SeparatorLower(s, '/');
    IndexOfLower(s, '/');
    var i := IndexOf(s, '/');
    var t := s[i + 1..];
    LowerSlice(s, i + 1);
    BeforeSpaceLower(t);
  }

  /** The text before the first ' ' of a lower-cased text is the lower-cased text before it. */
  lemma BeforeSpaceLower(t: string)
    ensures BeforeFirst(Lower(t), ' ') == Lower(BeforeFirst(t, ' '))
  {
    IndexOfLower(t, ' ');
    var j := IndexOf(t, ' ');
    if j != -1 {
      LowerPrefix(t, j);
    }
  }

  /** The first '/' or ' ' of a lower-cased text is where it was. */
  lemma IndexOfLower(s: string, c: char)
    requires c == '/' || c == ' '
    ensures IndexOf(Lower(s), c) == IndexOf(s, c)
  {
    var a, b := IndexOf(s, c), IndexOf(Lower(s), c);
    SeparatorLower(s, c);
    if a != -1 {
      LowerCharSeparator(s[a], c);
      assert Lower(s)[a] == c;
    }
  }

  lemma LowerSlice(s: string, k: nat)
    requires k <= |s|
    ensures Lower(s)[k..] == Lower(s[k..])
  {
  }

  lemma LowerPrefix(s: string, k: nat)
    requires k <= |s|
    ensures Lower(s)[..k] == Lower(s[..k])
  {
  }

  lemma NatToStringSmall(n: nat)
    requires n < 100
    ensures |NatToString(n)| == (if n < 10 then 1 else 2)
  {
    if n >= 10 {
      assert NatToString(n) == NatToString(n / 10) + [DigitChar(n % 10)];
    }
  }

  /** `parseInt` of a run of digits is its decimal value. */
  lemma ParseIntDigits(y: string)
    requires |y| >= 1 && AllDigits(y)
    ensures ParseInt(y) == Some(DigitsValue(y) as int)
  {
    TrimStartDigits(y);
    DigitPrefixDigits(y);
  }

  lemma TrimStartDigits(y: string)
    requires |y| >= 1 && AllDigits(y)
    ensures TrimStart(y) == y
  {
    assert !IsSpace(y[0]);
    assert SpaceRun(y, 0) == 0;
  }

  lemma {:induction false} DigitPrefixDigits(y: string)
    requires AllDigits(y)
    ensures DigitPrefix(y) == y
  {
    if y != [] {
      DigitPrefixDigits(y[1..]);
    }
  }

  /**
   * For a year token of two digits `d1 d2` with value `v`, the expanded
   * year is "19" or "20" (the pivot is 70) followed by `v` in decimal; it
   * has four digits exactly when `d1` is not '0', so "05" becomes "205".
   */
  lemma ExpandedTwoDigits(y: string)
    requires |y| == 2 && AllDigits(y)
    ensures var v := DigitsValue(y);
      ExpandedYear(y) == (if v > 70 then "19" else "20") + NatToString(v)
      && (|ExpandedYear(y)| == 4 <==> y[0] != '0')
  {
    ParseIntDigits(y);
    DigitsValueTwo(y);
    var v := DigitsValue(y);
    NatToStringSmall(v);
    var e := ExpandedYear(y);
    assert e == (if v > 70 then "19" else "20") + NatToString(v);
    assert |e| == 2 + |NatToString(v)|;
    assert y[0] == '0' <==> DigitValue(y[0]) == 0;
  }

  lemma DigitsValueTwo(y: string)
    requires |y| == 2 && AllDigits(y)
    ensures DigitsValue(y) == 10 * DigitValue(y[0]) + DigitValue(y[1])
  {
    var h := y[..1];
    assert h[..0] == [];
    assert DigitsValue(h) == DigitValue(y[0]);
  }

  /** `normalizeYear` of a key laid out as in `YearPartSplit` with a two-character year. */
  lemma NormalizeYearOfParts(s: string, p: string, y: string, q: string)
    requires s == p + ['/'] + y + q && |y| == 2
    requires '/' !in p && ' ' !in y && (q == [] || q[0] == ' ')
    ensures NormalizeYear(s) == Lower(p) + ['/'] + Lower(ExpandedYear(y)) + Lower(q)
  {
    YearPartSplit(s, p, y, q);
    NormalizeYearTwoCharsForm(s, |p|, y, p, q);
  }

  lemma NormalizeYearExample99()
    ensures NormalizeYear(" c. 1/99 sb.") == " c. 1/1999 sb."
  {
    var s := " c. 1/99 sb.";
    var p, y, q := " c. 1", "99", " sb.";
    ExampleJoin(p, "1999", q, " c. 1/1999 sb.");
    ExampleKey(s, p, y, q);
    ExampleKeyLower(p, q);
    NormalizeYearOfParts(s, p, y, q);
    ExpandedYear99(y);
  }

  lemma NormalizeYearExample05()
    ensures NormalizeYear(" c. 1/05 sb.") == " c. 1/205 sb."
  {
    var s := " c. 1/05 sb.";
    var p, y, q := " c. 1", "05", " sb.";
    ExampleJoin(p, "205", q, " c. 1/205 sb.");
    ExampleKey(s, p, y, q);
    ExampleKeyLower(p, q);
    NormalizeYearOfParts(s, p, y, q);
    ExpandedYear05(y);
  }

  lemma ExampleKey(s: string, p: string, y: string, q: string)
    requires s == " c. 1/" + y + " sb." && |y| == 2 && ' ' !in y
    requires p == " c. 1" && q == " sb."
    ensures s == p + ['/'] + y + q && '/' !in p && (q == [] || q[0] == ' ')
  {
  }

  lemma ExampleKeyLower(p: string, q: string)
    requires p == " c. 1" && q == " sb."
    ensures Lower(p) == p && Lower(q) == q
  {
  }

  lemma ExampleJoin(p: string, e: string, q: string, r: string)
    requires p == " c. 1" && q == " sb." && r == " c. 1/" + e + " sb."
    ensures p + ['/'] + e + q == r
  {
  }

  lemma LowerDigits(t: string)
    requires AllDigits(t)
    ensures Lower(t) == t
  {
    forall i | 0 <= i < |t| ensures Lower(t)[i] == t[i] {
      LowerCharFacts(t[i]);
    }
  }

  lemma ExpandedYear99(y: string)
    requires y == "99"
    ensures Lower(ExpandedYear(y)) == "1999"
  {
    LowerDigits("1999");
    DigitsValueTwo(y);
    var v := DigitsValue(y);
    assert v == 99;
    NatToString99(v);
    ExpandedTwoDigits(y);
  }

  lemma NatToString99(v: nat)
    requires v == 99
    ensures NatToString(v) == "99"
  {
    assert NatToString(v / 10) == "9";
  }

  lemma ExpandedYear05(y: string)
    requires y == "05"
    ensures Lower(ExpandedYear(y)) == "205"
  {
    LowerDigits("205");
    DigitsValueTwo(y);
    var v := DigitsValue(y);
    assert v == 5;
    assert NatToString(v) == "5";
    ExpandedTwoDigits(y);
  }

  /** `{ ...match, standardized: normalizeYear(match.standardized) }` when the key is non-empty. */
  function NormalizeMatch(m: RegulationMatch): (n: RegulationMatch)
    ensures n.text == m.text && n.start == m.start && n.end == m.end
  {
    if m.standardized != "" then m.(standardized := NormalizeYear(m.standardized)) else m
  }

  /** What `onInputChange` leaves in `matches` for the search text `text`. */
  function InputMatches(text: string): (ms: seq<RegulationMatch>)
  {
    if Trim(text) == "" then [] else MapSeq(NormalizeMatch, LawNumbers(text))
  }

  /**
   * Blank text gives no matches. Otherwise the matches are those of
   * `findLawNumbers`, with the same text and offsets, each a citation
   * number `n/y` of the normalised text, keyed " c. n/y sb." with the year
   * widened by `normalizeYear`.
   */
  lemma InputMatchesSound(text: string)
    ensures Trim(text) == "" ==> InputMatches(text) == []
    ensures Trim(text) != "" ==> |InputMatches(text)| == |LawNumbers(text)|
    ensures var ms := InputMatches(text); var n := NormalizeNewlines(text);
      (forall i :: 0 <= i < |ms| ==>
        ms[i].text == LawNumbers(text)[i].text && ms[i].start == LawNumbers(text)[i].start
        && ms[i].end == LawNumbers(text)[i].end
        && ms[i].start < ms[i].end <= |n| && ms[i].text == n[ms[i].start..ms[i].end]
        && IsNumberToken(ms[i].text) && ms[i].standardized == NormalizeYear(" c. " + ms[i].text + " sb."))
      && (forall i, j :: 0 <= i < j < |ms| ==> ms[i].end <= ms[j].start)
  {
    if Trim(text) != "" {
      var n := NormalizeNewlines(text);
      var ls := LawNumbers(text);
      LawNumbersSound(text);
      NormalizedKeys(n, ls, MapSeq(NormalizeMatch, ls));
    }
  }

  lemma NormalizedKeys(n: string, ls: seq<RegulationMatch>, ms: seq<RegulationMatch>)
    requires ms == MapSeq(NormalizeMatch, ls)
    requires (forall i :: 0 <= i < |ls| ==>
        ls[i].start < ls[i].end <= |n| && ls[i].text == n[ls[i].start..ls[i].end]
        && ls[i].end == ls[i].start + |ls[i].text| && '\n' !in ls[i].text
        && IsNumberToken(ls[i].text) && ls[i].standardized == " c. " + ls[i].text + " sb.")
      && (forall i, j :: 0 <= i < j < |ls| ==> ls[i].end <= ls[j].start)
    ensures |ms| == |ls|
    ensures (forall i :: 0 <= i < |ms| ==>
        ms[i].text == ls[i].text && ms[i].start == ls[i].start && ms[i].end == ls[i].end
        && ms[i].start < ms[i].end <= |n| && ms[i].text == n[ms[i].start..ms[i].end]
        && IsNumberToken(ms[i].text) && ms[i].standardized == NormalizeYear(" c. " + ms[i].text + " sb."))
      && (forall i, j :: 0 <= i < j < |ms| ==> ms[i].end <= ms[j].start)
  {
    forall i | 0 <= i < |ms|
      ensures ms[i] == NormalizeMatch(ls[i])
      ensures ms[i].standardized == NormalizeYear(" c. " + ms[i].text + " sb.")
    {
      NormalizeKey(ls[i]);
    }
  }

  lemma NormalizeKey(m: RegulationMatch)
    requires m.standardized == " c. " + m.text + " sb."
    ensures NormalizeMatch(m) == m.(standardized := NormalizeYear(" c. " + m.text + " sb."))
  {
  }

  /**
   * The page state. `text` is bound to the search bar; `matches` is what the
   * page lists under it.
   */
  class FindPage {
    var text: string
    var matches: seq<RegulationMatch>

    constructor()
      ensures text == "" && matches == []
    {
      text := "";
      matches := [];
    }

    /** `onInputChange`: rescans `text` and replaces `matches`. */
    method OnInputChange()
      modifies this
      ensures text == old(text)
      ensures matches == InputMatches(text)
    {
      matches := [];
      if Trim(text) != "" {
        matches := FindLawNumbers(text);
        matches := MapSeq(NormalizeMatch, matches);
      }
    }
  }
}
