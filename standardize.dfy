/**
 * `standardizeRegulation`: the canonical key "<prefix> c. <number> sb." of a
 * matched citation span.
 */
module Standardize {
  import opened Wrappers
  import opened Strings
  import opened NumberTokens

  /*
   * The alternatives of the four anchored, case-insensitive classification
   * patterns. An optional trailing `\.?` or `(?:\s+[A-Z...]{2,})?` never
   * decides whether an anchored pattern matches, so it is dropped here.
   */
  const GovernmentTokens: seq<string> := ["nař", "n", "nařízení", "narizeni", "nv", "n.v."]
  const DecreeTokens: seq<string> := ["vyhl", "v", "vyhláška", "vyhlaska"]
  const StatuteTokens: seq<string> := ["zák", "z", "zákon", "zakon"]
  const NoticeTokens: seq<string> := ["sdělení"]

  /** The text starts, ignoring case, with one of the alternatives. */
  predicate StartsWithAnyCi(text: string, alternatives: seq<string>)
  {
    alternatives != [] && (StartsWithCi(text, alternatives[0]) || StartsWithAnyCi(text, alternatives[1..]))
  }

  /** The key prefix chosen by the first classification pattern that matches, in source order. */
  function KindPrefix(text: string): string
  {
    if StartsWithAnyCi(text, GovernmentTokens) then "n.v."
    else if StartsWithAnyCi(text, DecreeTokens) then "v."
    else if StartsWithAnyCi(text, StatuteTokens) then "z."
    else if StartsWithAnyCi(text, NoticeTokens) then "s."
    else ""
  }

  predicate FirstLetterIs(text: string, c: char)
  {
    |text| > 0 && LowerChar(text[0]) == c
  }

  lemma {:induction false} FirstLetterAlternatives(text: string, alternatives: seq<string>, c: char)
    requires forall k :: 0 <= k < |alternatives| ==> |alternatives[k]| > 0 && alternatives[k][0] == c
    ensures StartsWithAnyCi(text, alternatives) ==> FirstLetterIs(text, c)
    ensures [c] in alternatives && FirstLetterIs(text, c) ==> StartsWithAnyCi(text, alternatives)
    decreases |alternatives|
  {
    if alternatives != [] {
      FirstLetterAlternatives(text, alternatives[1..], c);
      if alternatives[0] == [c] && FirstLetterIs(text, c) {
        assert StartsWithCi(text[1..], []);
      }
      if [c] in alternatives && alternatives[0] != [c] {
        assert [c] in alternatives[1..];
      }
    }
  }

  /**
   * Because every pattern has a one-letter alternative (`n\.?`, `v\.?`,
   * `z\.?`), classification is decided by the first letter alone, in the
   * order n, v, z; only a span starting with none of them can be a notice.
   * An OCR variant starting with "y" therefore gets the empty prefix.
   */
  lemma {:induction false} KindPrefixByFirstLetter(text: string)
    ensures KindPrefix(text) ==
      if FirstLetterIs(text, 'n') then "n.v."
      else if FirstLetterIs(text, 'v') then "v."
      else if FirstLetterIs(text, 'z') then "z."
      else if StartsWithCi(text, "sdělení") then "s."
      else ""
  {
    FirstLetterAlternatives(text, GovernmentTokens, 'n');
    FirstLetterAlternatives(text, DecreeTokens, 'v');
    FirstLetterAlternatives(text, StatuteTokens, 'z');
    assert StartsWithAnyCi(text, NoticeTokens) == StartsWithCi(text, "sdělení");
  }

  lemma NumberTokenIsLower(t: string)
    requires IsNumberToken(t)
    ensures IsLower(t)
  {
    var k := IndexOf(t, '/');
    forall i | 0 <= i < |t| ensures !IsUpper(t[i]) {
      if i < k { assert t[..k][i] == t[i]; }
      else if i > k { assert t[k + 1..][i - k - 1] == t[i]; }
    }
  }

  /**
   * The key is the kind prefix, " c. ", the first citation number of the
   * span (or nothing when it has none) and " sb."; lower-casing the whole
   * key, as the source does, leaves it unchanged.
   */
  function StandardizeRegulation(text: string): (r: string)
    ensures r == KindPrefix(text) + " c. " + FirstNumber(text) + " sb."
  {
    var key := KindPrefix(text) + " c. " + FirstNumber(text) + " sb.";
    assert IsLower(KindPrefix(text));
    assert IsLower(FirstNumber(text)) by {
      if ContainsNumber(text) {
        FirstNumberToken(text);
        NumberTokenIsLower(FirstNumber(text));
      }
    }
    LowerOfLower(key);
    Lower(key)
  }

  /** A bare citation number gets the empty prefix, so its key starts with a space. */
  lemma StandardizeBareNumber(t: string)
    requires IsNumberToken(t)
    ensures StandardizeRegulation(t) == " c. " + t + " sb."
  {
    TokenSelfMatch(t);
    assert IsDigit(t[0]);
    KindPrefixByFirstLetter(t);
    assert !StartsWithCi(t, "sdělení");
  }
}
