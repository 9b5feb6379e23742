/**
 * The number pattern `\d{1,4}\/\d{2,4}` of the regulation-pattern service,
 * executed as an ECMAScript regular expression would: leftmost start first,
 * greedy digit runs, backtracking where it can help.
 */
module NumberTokens {
  import opened Wrappers
  import opened Strings

  /** A match found by a regular-expression execution: its index and its length. */
  datatype Span = Span(start: nat, len: nat)
  {
    function End(): nat { start + len }
  }

  /** A citation number: 1 to 4 digits, '/', 2 to 4 digits. */
  predicate IsNumberToken(t: string)
  {
    var k := IndexOf(t, '/');
    1 <= k <= 4 && k + 3 <= |t| <= k + 5 && AllDigits(t[..k]) && AllDigits(t[k + 1..])
  }

  /** Some substring of `t` is a citation number. */
  ghost predicate HasNumberToken(t: string)
  {
    exists i, j :: 0 <= i <= j <= |t| && IsNumberToken(t[i..j])
  }

  function Min(a: nat, b: nat): nat { if a <= b then a else b }

  /** Length of the run of digits that starts at `i`. */
  function DigitRun(s: string, i: nat): (n: nat)
    requires i <= |s|
    ensures i + n <= |s|
    ensures i + n == |s| || !IsDigit(s[i + n])
    decreases |s| - i
  {
    if i < |s| && IsDigit(s[i]) then 1 + DigitRun(s, i + 1) else 0
  }

  /** Every character of the run is a digit. */
  lemma {:induction false} DigitRunDigits(s: string, i: nat)
    requires i <= |s|
    ensures forall p :: i <= p < i + DigitRun(s, i) ==> IsDigit(s[p])
    decreases |s| - i
  {
    if i < |s| && IsDigit(s[i]) {
      DigitRunDigits(s, i + 1);
    }
  }

  /**
   * The length of the match of `\d{1,4}\/\d{2,4}` anchored at `i`, if there
   * is one. A first run longer than four digits cannot be followed by '/'
   * at any shorter length, so it fails; the second run is taken greedily.
   */
  function NumberMatchAt(s: string, i: nat): Option<nat>
    requires i <= |s|
  {
    var a := DigitRun(s, i);
    if 1 <= a <= 4 && i + a < |s| && s[i + a] == '/' then
      var b := DigitRun(s, i + a + 1);
      if b >= 2 then Some(a + 1 + Min(b, 4)) else None
    else None
  }

  lemma TokenParts(t: string, k: nat)
    requires 1 <= k <= 4 && k + 3 <= |t| <= k + 5 && t[k] == '/'
    requires AllDigits(t[..k]) && AllDigits(t[k + 1..])
    ensures IsNumberToken(t)
  {
    assert '/' !in t[..k] by {
      forall p | 0 <= p < k ensures t[p] != '/' { assert t[..k][p] == t[p]; }
    }
  }

  /** A citation number `s[i..e]` forces the anchored match, at least as long as it. */
  lemma TokenAt(s: string, i: nat, e: nat)
    requires i <= e <= |s| && IsNumberToken(s[i..e])
    ensures NumberMatchAt(s, i).Some? && i + NumberMatchAt(s, i).value >= e
  {
    var t := s[i..e];
    var k := IndexOf(t, '/');
    var a := DigitRun(s, i);
    DigitRunDigits(s, i);
    forall q | i <= q < i + k ensures IsDigit(s[q]) { assert t[..k][q - i] == s[q]; }
    assert s[i + k] == t[k] == '/';
    assert a == k;
    forall q | i + k + 1 <= q < e ensures IsDigit(s[q]) { assert t[k + 1..][q - i - k - 1] == s[q]; }
    var b := DigitRun(s, i + a + 1);
    assert b >= e - i - k - 1;
  }

  /** What the anchored regex matches is a citation number. */
  lemma MatchIsToken(s: string, i: nat, e: nat)
    requires i <= e <= |s| && NumberMatchAt(s, i) == Some(e - i)
    ensures IsNumberToken(s[i..e])
  {
    var a := DigitRun(s, i);
    var b := DigitRun(s, i + a + 1);
    DigitRunDigits(s, i);
    DigitRunDigits(s, i + a + 1);
    var t := s[i..e];
    assert AllDigits(t[..a]) by {
      forall p | 0 <= p < a ensures IsDigit(t[..a][p]) { assert t[..a][p] == s[i + p]; }
    }
    assert AllDigits(t[a + 1..]) by {
      assert t[a + 1..] == s[i + a + 1..e];
    }
    TokenParts(t, a);
  }

  /** No citation number starting at `i` is longer than the anchored match. */
  lemma MatchIsLongest(s: string, i: nat, e': nat)
    requires i <= e' <= |s| && NumberMatchAt(s, i).Some? && i + NumberMatchAt(s, i).value < e'
    ensures !IsNumberToken(s[i..e'])
  {
    if IsNumberToken(s[i..e']) { TokenAt(s, i, e'); }
  }

  /** `s[i..e]` is a citation number and no longer one starts at `i`. */
  ghost predicate LongestTokenAt(s: string, i: nat, e: nat)
    requires i <= e <= |s|
  {
    IsNumberToken(s[i..e]) && forall e' :: e < e' <= |s| ==> !IsNumberToken(s[i..e'])
  }

  lemma MatchIsLongestToken(s: string, i: nat, e: nat)
    requires i <= e <= |s| && NumberMatchAt(s, i) == Some(e - i)
    ensures LongestTokenAt(s, i, e)
  {
    MatchIsToken(s, i, e);
    forall e' | e < e' <= |s| ensures !IsNumberToken(s[i..e']) {
      MatchIsLongest(s, i, e');
    }
  }

  lemma LongestTokenIsMatch(s: string, i: nat, e: nat)
    requires i <= e <= |s| && LongestTokenAt(s, i, e)
    ensures NumberMatchAt(s, i) == Some(e - i)
  {
    TokenAt(s, i, e);
    MatchIsToken(s, i, i + NumberMatchAt(s, i).value);
  }

  /**
   * The regex semantics agree with the declarative grammar: the anchored
   * match ends at `e` exactly when `s[i..e]` is a citation number and no
   * longer substring starting at `i` is one (greedy).
   */
  lemma NumberMatchAtIsLongestToken(s: string, i: nat, e: nat)
    requires i <= e <= |s|
    ensures NumberMatchAt(s, i) == Some(e - i) <==> LongestTokenAt(s, i, e)
  {
    if NumberMatchAt(s, i) == Some(e - i) {
      MatchIsLongestToken(s, i, e);
    } else if LongestTokenAt(s, i, e) {
      LongestTokenIsMatch(s, i, e);
    }
  }

  /**
   * `exec` of the global number regex from position `from` (its `lastIndex`):
   * the leftmost position at or after `from` where the pattern matches.
   */
  function ExecNumber(s: string, from: nat): (r: Option<Span>)
    requires from <= |s|
    ensures r.Some? ==> from <= r.value.start && 0 < r.value.len && r.value.End() <= |s|
    ensures r.Some? ==> NumberMatchAt(s, r.value.start) == Some(r.value.len)
    decreases |s| - from
  {
    if from == |s| then None
    else
      match NumberMatchAt(s, from)
      case Some(n) => Some(Span(from, n))
      case None => ExecNumber(s, from + 1)
  }

  /** The execution is leftmost: the pattern matches nowhere between `from` and what it returns. */
  lemma {:induction false} ExecNumberLeftmost(s: string, from: nat)
    requires from <= |s|
    ensures ExecNumber(s, from).Some? ==>
      forall p :: from <= p < ExecNumber(s, from).value.start ==> NumberMatchAt(s, p).None?
    ensures ExecNumber(s, from).None? ==> forall p :: from <= p <= |s| ==> NumberMatchAt(s, p).None?
    decreases |s| - from
  {
    if from < |s| && NumberMatchAt(s, from).None? {
      ExecNumberLeftmost(s, from + 1);
      assert ExecNumber(s, from) == ExecNumber(s, from + 1);
    } else if from == |s| {
      assert DigitRun(s, from) == 0;
    }
  }

  /** `s.match(/(\d{1,4}\/\d{2,4})/)`: the first citation number in `s`, or "" when there is none. */
  function FirstNumber(s: string): (r: string)
  {
    match ExecNumber(s, 0)
    case None => ""
    case Some(sp) => s[sp.start..sp.End()]
  }

  predicate ContainsNumber(s: string) { ExecNumber(s, 0).Some? }

  /** A match of the number regex is always a citation number lying in the searched text. */
  lemma ExecNumberToken(s: string, from: nat)
    requires from <= |s| && ExecNumber(s, from).Some?
    ensures IsNumberToken(s[ExecNumber(s, from).value.start..ExecNumber(s, from).value.End()])
  {
    var sp := ExecNumber(s, from).value;
    MatchIsToken(s, sp.start, sp.End());
  }

  lemma TokenWitness(s: string, i: nat, j: nat, t: string)
    requires i <= j <= |s| && t == s[i..j] && IsNumberToken(t)
    ensures HasNumberToken(s)
  {
  }

  /** When the scan from 0 finds nothing, no citation number starts anywhere. */
  lemma NoMatchNoToken(s: string, i: nat, j: nat)
    requires i <= j <= |s| && ExecNumber(s, 0).None?
    ensures !IsNumberToken(s[i..j])
  {
    if IsNumberToken(s[i..j]) {
      TokenAt(s, i, j);
      ExecNumberLeftmost(s, 0);
    }
  }

  /** The scan finds a number exactly when the text holds one somewhere (both directions). */
  lemma ContainsNumberIff(s: string)
    ensures ContainsNumber(s) <==> HasNumberToken(s)
  {
    if ContainsNumber(s) {
      var sp := ExecNumber(s, 0).value;
      ExecNumberToken(s, 0);
      TokenWitness(s, sp.start, sp.End(), s[sp.start..sp.End()]);
    } else {
      forall i, j | 0 <= i <= j <= |s| ensures !IsNumberToken(s[i..j]) {
        NoMatchNoToken(s, i, j);
      }
    }
  }

  /** The first number of a text that contains one is a citation number of it. */
  lemma FirstNumberToken(s: string)
    requires ContainsNumber(s)
    ensures IsNumberToken(FirstNumber(s)) && FirstNumber(s) != ""
  {
    ExecNumberToken(s, 0);
  }

  /** A bare citation number is matched by the number pattern from its start to its end. */
  lemma TokenSelfMatch(t: string)
    requires IsNumberToken(t)
    ensures NumberMatchAt(t, 0) == Some(|t|)
  {
    assert t[0..|t|] == t;
    LongestTokenIsMatch(t, 0, |t|);
  }

}
