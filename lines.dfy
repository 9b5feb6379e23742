/**
 * Line handling shared by both scanners of the regulation-pattern service:
 * `text.replace(/\r\n|\r/g, '\n')` followed by `split('\n')`.
 */
module Lines {
  import opened Strings

  /** Number of "\r\n" pairs the newline normalisation collapses to one character. */
  function CountCrlf(t: string): nat
  {
    if |t| < 2 then 0
    else if t[0] == '\r' && t[1] == '\n' then 1 + CountCrlf(t[2..])
    else CountCrlf(t[1..])
  }

  /** `text.replace(/\r\n|\r/g, '\n')`: every CRLF pair and every lone CR becomes one LF. */
  function NormalizeNewlines(t: string): (r: string)
  {
    if |t| == 0 then []
    else if t[0] == '\r' && |t| > 1 && t[1] == '\n' then "\n" + NormalizeNewlines(t[2..])
    else if t[0] == '\r' then "\n" + NormalizeNewlines(t[1..])
    else [t[0]] + NormalizeNewlines(t[1..])
  }

  /**
   * The normalised text holds no CR, and it is shorter than the raw text by
   * exactly the number of CRLF pairs: offsets computed on it lag the raw
   * positions by one for every CRLF that precedes them.
   */
  lemma {:induction false} NormalizeNewlinesShape(t: string)
    ensures '\r' !in NormalizeNewlines(t)
    ensures |NormalizeNewlines(t)| + CountCrlf(t) == |t|
    decreases |t|
  {
    if |t| == 0 {
    } else if t[0] == '\r' && |t| > 1 && t[1] == '\n' {
      NormalizeNewlinesShape(t[2..]);
    } else {
      NormalizeNewlinesShape(t[1..]);
      if |t| >= 2 {
        assert CountCrlf(t) == CountCrlf(t[1..]);
      } else {
        assert t[1..] == [];
      }
    }
  }

  /** A text without CR is left unchanged by the normalisation. */
  lemma {:induction false} NormalizeNewlinesNoCr(t: string)
    requires '\r' !in t
    ensures NormalizeNewlines(t) == t
    decreases |t|
  {
    if |t| > 0 {
      assert '\r' !in t[1..];
      NormalizeNewlinesNoCr(t[1..]);
      assert t == [t[0]] + t[1..];
    }
  }

  /** Index `p` falls between the '\r' and the '\n' of a CRLF pair. */
  predicate SplitsCrlf(t: string, p: nat)
  {
    0 < p < |t| && t[p - 1] == '\r' && t[p] == '\n'
  }

  /** How many raw characters the first normalised character comes from: 2 for a CRLF pair, else 1. */
  function HeadLength(t: string): (k: nat)
    requires t != []
    ensures 1 <= k <= 2 && k <= |t|
  {
    if t[0] == '\r' && |t| > 1 && t[1] == '\n' then 2 else 1
  }

  /** The first normalised character: LF for a CRLF pair or a lone CR, otherwise the raw character. */
  function HeadOutput(t: string): (c: string)
    requires t != []
    ensures |c| == 1
  {
    if t[0] == '\r' then "\n" else [t[0]]
  }

  /** The normalised text is the first normalised character followed by the rest, normalised. */
  lemma NormalizeFirst(t: string)
    requires t != []
    ensures NormalizeNewlines(t) == HeadOutput(t) + NormalizeNewlines(t[HeadLength(t)..])
    ensures CountCrlf(t) == HeadLength(t) - 1 + CountCrlf(t[HeadLength(t)..])
  {
  }

  /** A raw prefix that keeps the first normalised character's raw characters. */
  lemma HeadOfPrefix(t: string, p: nat, h: string)
    requires t != [] && HeadLength(t) <= p <= |t| && h == t[..p]
    ensures h != [] && HeadLength(h) == HeadLength(t) && HeadOutput(h) == HeadOutput(t)
    ensures h[HeadLength(t)..] == t[HeadLength(t)..][..p - HeadLength(t)]
  {
    assert h[0] == t[0] && (|h| > 1 ==> h[1] == t[1]);
  }

  /** Normalising the first `p` raw characters starts with the first normalised character. */
  lemma NormalizeHead(t: string, p: nat)
    requires t != [] && HeadLength(t) <= p <= |t|
    ensures var k := HeadLength(t); var r := t[k..];
      NormalizeNewlines(t) == HeadOutput(t) + NormalizeNewlines(r)
      && NormalizeNewlines(t[..p]) == HeadOutput(t) + NormalizeNewlines(r[..p - k])
      && t[p..] == r[p - k..]
      && CountCrlf(t[..p]) == k - 1 + CountCrlf(r[..p - k])
      && (SplitsCrlf(t, p) <==> SplitsCrlf(r, p - k))
  {
    var h := t[..p];
    HeadOfPrefix(t, p, h);
    NormalizeFirst(t);
    NormalizeFirst(h);
  }

  /** Normalising a text cut anywhere but inside a CRLF pair normalises the two parts separately. */
  lemma {:induction false} NormalizeNewlinesSplit(t: string, p: nat)
    requires p <= |t| && !SplitsCrlf(t, p)
    ensures NormalizeNewlines(t) == NormalizeNewlines(t[..p]) + NormalizeNewlines(t[p..])
    decreases p
  {
    if p == 0 {
      assert t[..0] == [] && t[0..] == t;
    } else {
      var k := HeadLength(t);
      var r := t[k..];
      NormalizeHead(t, p);
      NormalizeNewlinesSplit(r, p - k);
    }
  }

  /**
   * The index of the raw text that index `s` of the normalised text comes
   * from: `s` plus the CRLF pairs before it. Normalising the raw text up to
   * there gives the normalised text up to `s`.
   */
  function RawOffset(t: string, s: nat): (p: nat)
    requires s <= |NormalizeNewlines(t)|
    ensures p <= |t| && !SplitsCrlf(t, p)
    ensures NormalizeNewlines(t[..p]) == NormalizeNewlines(t)[..s]
    ensures p == s + CountCrlf(t[..p])
    decreases |t|
  {
    if s == 0 then
      assert t[..0] == [];
      0
    else
      var k := HeadLength(t);
      NormalizeHead(t, k);
      var q := RawOffset(t[k..], s - 1);
      NormalizeHead(t, k + q);
      k + q
  }

  /** A normalised text that starts with a piece holding no LF: the raw text starts with the same piece. */
  lemma {:induction false} NormalizedHeadIsRaw(u: string, w: string)
    requires '\n' !in w && |w| <= |NormalizeNewlines(u)| && NormalizeNewlines(u)[..|w|] == w
    ensures |w| <= |u| && u[..|w|] == w
    decreases |w|
  {
    if w != [] {
      assert NormalizeNewlines(u)[0] == w[0];
      NormalizedHeadIsRaw(u[1..], w[1..]);
    }
  }

  /**
   * A piece of the normalised text that holds no LF stands unchanged in the
   * raw text, at its normalised index plus the CRLF pairs before it.
   */
  lemma NormalizedSpanIsRaw(t: string, s: nat, w: string)
    requires s + |w| <= |NormalizeNewlines(t)| && NormalizeNewlines(t)[s..s + |w|] == w && '\n' !in w
    ensures var p := RawOffset(t, s);
      p + |w| <= |t| && t[p..p + |w|] == w && p == s + CountCrlf(t[..p])
  {
    var p := RawOffset(t, s);
    NormalizeNewlinesSplit(t, p);
    PieceAfterPrefix(NormalizeNewlines(t), NormalizeNewlines(t[..p]), NormalizeNewlines(t[p..]), w);
    NormalizedHeadIsRaw(t[p..], w);
  }

  lemma PieceAfterPrefix(n: string, a: string, rest: string, w: string)
    requires n == a + rest && |a| + |w| <= |n| && n[|a|..|a| + |w|] == w
    ensures |w| <= |rest| && rest[..|w|] == w
  {
    assert rest[..|w|] == n[|a|..|a| + |w|];
  }

  /**
   * `w`, found at index `s` of the normalised text, stands unchanged in the
   * raw text `t` at `s` plus the CRLF pairs before it.
   */
  ghost predicate StandsInRaw(t: string, s: nat, w: string)
  {
    s <= |NormalizeNewlines(t)|
    && var p := RawOffset(t, s);
    p + |w| <= |t| && t[p..p + |w|] == w && p == s + CountCrlf(t[..p])
  }

  /** `lines.join('\n')`. */
  function JoinLines(lines: seq<string>): string
  {
    if |lines| == 0 then ""
    else if |lines| == 1 then lines[0]
    else lines[0] + "\n" + JoinLines(lines[1..])
  }

  /** `s.split('\n')`: never empty, no piece holds '\n', and joining the pieces gives `s` back. */
  function SplitLines(s: string): (lines: seq<string>)
    ensures |lines| >= 1
    ensures forall k :: 0 <= k < |lines| ==> '\n' !in lines[k]
    ensures JoinLines(lines) == s
    decreases |s|
  {
    var i := IndexOf(s, '\n');
    if i == -1 then [s]
    else
      var rest := SplitLines(s[i + 1..]);
      JoinCons(s[..i], rest);
      assert s == s[..i] + "\n" + s[i + 1..];
      [s[..i]] + rest
  }

  lemma JoinCons(head: string, rest: seq<string>)
    requires |rest| >= 1
    ensures JoinLines([head] + rest) == head + "\n" + JoinLines(rest)
  {
    assert ([head] + rest)[1..] == rest;
  }

  /** The number of lines is one more than the number of LF characters. */
  lemma {:induction false} SplitLinesCount(s: string)
    ensures |SplitLines(s)| == 1 + CountChar(s, '\n')
    decreases |s|
  {
    var i := IndexOf(s, '\n');
    if i == -1 {
      CountCharAbsent(s, '\n');
    } else {
      var head, rest := s[..i], s[i + 1..];
      SplitLinesCount(rest);
      assert SplitLines(s) == [head] + SplitLines(rest);
      assert s == head + ("\n" + rest);
      CountCharConcat(head, "\n" + rest, '\n');
      CountCharAbsent(head, '\n');
      assert ("\n" + rest)[1..] == rest;
      assert CountChar("\n" + rest, '\n') == 1 + CountChar(rest, '\n');
    }
  }
}
