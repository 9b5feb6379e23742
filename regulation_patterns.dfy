/**
 * The regulation-pattern service: two scanners that split the
 * newline-normalised text into lines, run a global pattern over each line
 * from `lastIndex = 0`, and report every match with its offsets in the
 * normalised text and its canonical key.
 */
module RegulationPatterns {
  import opened Wrappers
  import opened Strings
  import opened Lines
  import opened NumberTokens
  import opened Standardize

  /** One reported citation: its text, its half-open range `[start, end)` and its canonical key. */
  datatype RegulationMatch = RegulationMatch(text: string, start: nat, end: nat, standardized: string)

  /** A span a scanner reports, before its key is attached. */
  datatype Found = Found(text: string, start: nat, end: nat)

  /** A found span with its canonical key attached. */
  function Key(f: Found): (m: RegulationMatch)
    ensures m.text == f.text && m.start == f.start && m.end == f.end
  {
    RegulationMatch(f.text, f.start, f.end, StandardizeRegulation(f.text))
  }

  /** `s.map(f)`. */
  function MapSeq<A, B>(f: A -> B, s: seq<A>): (r: seq<B>)
    ensures |r| == |s|
  {
    seq(|s|, i requires 0 <= i < |s| => f(s[i]))
  }

  lemma MapSeqAppend<A, B>(f: A -> B, a: seq<A>, b: seq<A>)
    ensures MapSeq(f, a + b) == MapSeq(f, a) + MapSeq(f, b)
  {
    forall i | 0 <= i < |a + b| ensures MapSeq(f, a + b)[i] == (MapSeq(f, a) + MapSeq(f, b))[i] {
      if i < |a| {
        assert (a + b)[i] == a[i];
      } else {
        assert (a + b)[i] == b[i - |a|];
      }
    }
  }

  /** The found spans with their keys, in the order the scanners push them. */
  function Keyed(fs: seq<Found>): (ms: seq<RegulationMatch>)
    ensures |ms| == |fs|
  {
    MapSeq(Key, fs)
  }

  lemma KeyedAt(fs: seq<Found>)
    ensures forall i :: 0 <= i < |fs| ==> Keyed(fs)[i] == Key(fs[i])
  {
  }

  lemma KeyedAppend(a: seq<Found>, b: seq<Found>)
    ensures Keyed(a + b) == Keyed(a) + Keyed(b)
  {
    MapSeqAppend(Key, a, b);
  }

  lemma KeyedPush(ms: seq<RegulationMatch>, fs: seq<Found>, f: Found, key: string)
    requires ms == Keyed(fs) && key == StandardizeRegulation(f.text)
    ensures ms + [RegulationMatch(f.text, f.start, f.end, key)] == Keyed(fs + [f])
  {
    MapSeqAppend(Key, fs, [f]);
    assert MapSeq(Key, [f]) == [Key(f)];
  }

  lemma ConcatAssoc<T>(a: seq<T>, b: seq<T>, c: seq<T>)
    ensures a + (b + c) == a + b + c
  {
  }

  /**
   * Spans placed in `w`, whose first character sits at offset `off`: each
   * is a non-empty slice of `w` at the offsets it reports, and each ends no
   * later than the next one starts (so starts strictly increase).
   */
  ghost predicate WellPlaced(w: string, off: nat, fs: seq<Found>)
  {
    (forall i :: 0 <= i < |fs| ==>
      off <= fs[i].start < fs[i].end <= off + |w| && fs[i].text == w[fs[i].start - off..fs[i].end - off])
    && (forall i, j :: 0 <= i < j < |fs| ==> fs[i].end <= fs[j].start)
  }

  /** Placing the spans of one line before those of the lines after its '\n'. */
  lemma WellPlacedAppend(line: string, rest: string, off: nat, a: seq<Found>, b: seq<Found>)
    requires WellPlaced(line, off, a) && WellPlaced(rest, off + |line| + 1, b)
    ensures WellPlaced(line + "\n" + rest, off, a + b)
  {
    var w := line + "\n" + rest;
    forall i | 0 <= i < |a + b|
      ensures off <= (a + b)[i].start < (a + b)[i].end <= off + |w|
      ensures (a + b)[i].text == w[(a + b)[i].start - off..(a + b)[i].end - off]
    {
      if i < |a| {
        assert (a + b)[i] == a[i];
        assert w[a[i].start - off..a[i].end - off] == line[a[i].start - off..a[i].end - off];
      } else {
        var m := b[i - |a|];
        assert (a + b)[i] == m;
        assert w[m.start - off..m.end - off] == rest[m.start - off - |line| - 1..m.end - off - |line| - 1];
      }
    }
  }

  lemma WellPlacedPrepend(w: string, off: nat, f: Found, fs: seq<Found>)
    requires WellPlaced(w, off, fs)
    requires off <= f.start < f.end <= off + |w| && f.text == w[f.start - off..f.end - off]
    requires forall i :: 0 <= i < |fs| ==> f.end <= fs[i].start
    ensures WellPlaced(w, off, [f] + fs)
  {
    var r := [f] + fs;
    forall i, j | 0 <= i < j < |r| ensures r[i].end <= r[j].start {
      if i > 0 { assert r[i] == fs[i - 1] && r[j] == fs[j - 1]; }
    }
  }

  lemma SliceKeepsAbsent(s: string, i: nat, j: nat, c: char)
    requires i <= j <= |s| && c !in s
    ensures c !in s[i..j]
  {
  }

  /** Spans placed in a text lie inside one line of it when they hold no '\n'. */
  ghost predicate InOneLine(fs: seq<Found>)
  {
    forall i :: 0 <= i < |fs| ==> '\n' !in fs[i].text
  }

  // ---------------------------------------------------------------------
  // findLawNumbers
  // ---------------------------------------------------------------------

  /** The spans of the number pattern in one line, from `lastIndex = from`, at offset `off`. */
  function LawNumberFindsInLine(line: string, from: nat, off: nat): seq<Found>
    requires from <= |line|
    decreases |line| - from, 1
  {
    match ExecNumber(line, from)
    case None => []
    case Some(sp) => LawNumberFindsFromMatch(line, sp, off)
  }

  /** The span of the match `sp`, then the spans found from its end. */
  function LawNumberFindsFromMatch(line: string, sp: Span, off: nat): seq<Found>
    requires 0 < sp.len && sp.End() <= |line|
    decreases |line| - sp.start, 0
  {
    [Found(line[sp.start..sp.End()], off + sp.start, off + sp.End())] + LawNumberFindsInLine(line, sp.End(), off)
  }

  /** The spans of the number pattern in consecutive lines, the first at offset `off`. */
  function LawNumberFindsInLines(lines: seq<string>, off: nat): seq<Found>
  {
    if lines == [] then []
    else LawNumberFindsInLine(lines[0], 0, off) + LawNumberFindsInLines(lines[1..], off + |lines[0]| + 1)
  }

  function LawNumberFinds(text: string): seq<Found>
  {
    LawNumberFindsInLines(SplitLines(NormalizeNewlines(text)), 0)
  }

  /** What `findLawNumbers(text)` returns. */
  function LawNumbers(text: string): seq<RegulationMatch>
  {
    Keyed(LawNumberFinds(text))
  }

  lemma {:induction false} LawNumberFindsInLineAfter(line: string, from: nat, off: nat)
    requires from <= |line|
    ensures forall i :: 0 <= i < |LawNumberFindsInLine(line, from, off)| ==>
      off + from <= LawNumberFindsInLine(line, from, off)[i].start
    decreases |line| - from
  {
    var r := ExecNumber(line, from);
    if r.Some? {
      var sp := r.value;
      LawNumberFindsInLineAfter(line, sp.End(), off);
      LawNumberFindsInLineStep(line, from, off, Found(line[sp.start..sp.End()], off + sp.start, off + sp.End()));
    } else {
      assert LawNumberFindsInLine(line, from, off) == [];
    }
  }

  lemma {:induction false} LawNumberFindsInLinePlaced(line: string, from: nat, off: nat)
    requires from <= |line|
    ensures WellPlaced(line, off, LawNumberFindsInLine(line, from, off))
    decreases |line| - from
  {
    var r := ExecNumber(line, from);
    if r.Some? {
      var sp := r.value;
      var f := Found(line[sp.start..sp.End()], off + sp.start, off + sp.End());
      var rest := LawNumberFindsInLine(line, sp.End(), off);
      LawNumberFindsInLineStep(line, from, off, f);
      LawNumberFindsInLinePlaced(line, sp.End(), off);
      LawNumberFindsInLineAfter(line, sp.End(), off);
      WellPlacedPrepend(line, off, f, rest);
    } else {
      assert LawNumberFindsInLine(line, from, off) == [];
    }
  }

  lemma {:induction false} LawNumberFindsInLineTokens(line: string, from: nat, off: nat)
    requires from <= |line|
    ensures AllTokens(LawNumberFindsInLine(line, from, off))
    decreases |line| - from
  {
    var r := ExecNumber(line, from);
    if r.Some? {
      var sp := r.value;
      LawNumberFindsInLineTokens(line, sp.End(), off);
      MatchIsToken(line, sp.start, sp.End());
      LawNumberFindsInLineStep(line, from, off, Found(line[sp.start..sp.End()], off + sp.start, off + sp.End()));
    } else {
      assert LawNumberFindsInLine(line, from, off) == [];
    }
  }

  /** Every span holds a citation number. */
  ghost predicate AllTokens(fs: seq<Found>)
  {
    forall i :: 0 <= i < |fs| ==> IsNumberToken(fs[i].text)
  }

  lemma AllTokensAppend(a: seq<Found>, b: seq<Found>)
    requires AllTokens(a) && AllTokens(b)
    ensures AllTokens(a + b)
  {
    forall i | 0 <= i < |a + b| ensures IsNumberToken((a + b)[i].text) {
      if i < |a| { assert (a + b)[i] == a[i]; } else { assert (a + b)[i] == b[i - |a|]; }
    }
  }

  lemma InOneLineAppend(a: seq<Found>, b: seq<Found>)
    requires InOneLine(a) && InOneLine(b)
    ensures InOneLine(a + b)
  {
    forall i | 0 <= i < |a + b| ensures '\n' !in (a + b)[i].text {
      if i < |a| { assert (a + b)[i] == a[i]; } else { assert (a + b)[i] == b[i - |a|]; }
    }
  }

  /** Spans placed in a line without '\n' lie inside that line. */
  lemma PlacedInOneLine(line: string, off: nat, a: seq<Found>)
    requires '\n' !in line && WellPlaced(line, off, a)
    ensures InOneLine(a)
  {
    forall i | 0 <= i < |a| ensures '\n' !in a[i].text {
      SliceKeepsAbsent(line, a[i].start - off, a[i].end - off, '\n');
    }
  }

  /** The spans of the first line, placed before those of the later lines. */
  lemma PlacedLinesStep(lines: seq<string>, off: nat, a: seq<Found>, b: seq<Found>, whole: seq<Found>)
    requires lines != [] && '\n' !in lines[0] && whole == a + b
    requires WellPlaced(lines[0], off, a) && WellPlaced(JoinLines(lines[1..]), off + |lines[0]| + 1, b)
    requires InOneLine(b) && (|lines| == 1 ==> b == [])
    ensures WellPlaced(JoinLines(lines), off, whole) && InOneLine(whole)
  {
    PlacedInOneLine(lines[0], off, a);
    InOneLineAppend(a, b);
    if |lines| == 1 {
      assert a + b == a;
    } else {
      WellPlacedAppend(lines[0], JoinLines(lines[1..]), off, a, b);
    }
  }

  lemma LawNumberFindsInLinesCons(lines: seq<string>, off: nat)
    requires lines != []
    ensures LawNumberFindsInLines(lines, off)
      == LawNumberFindsInLine(lines[0], 0, off) + LawNumberFindsInLines(lines[1..], off + |lines[0]| + 1)
  {
  }

  lemma {:induction false} LawNumberFindsInLinesPlaced(lines: seq<string>, off: nat)
    requires forall k :: 0 <= k < |lines| ==> '\n' !in lines[k]
    ensures WellPlaced(JoinLines(lines), off, LawNumberFindsInLines(lines, off))
    ensures InOneLine(LawNumberFindsInLines(lines, off))
    ensures AllTokens(LawNumberFindsInLines(lines, off))
    decreases |lines|
  {
    if lines != [] {
      var a := LawNumberFindsInLine(lines[0], 0, off);
      var b := LawNumberFindsInLines(lines[1..], off + |lines[0]| + 1);
      LawNumberFindsInLinesPlaced(lines[1..], off + |lines[0]| + 1);
      LawNumberFindsInLinePlaced(lines[0], 0, off);
      LawNumberFindsInLinesCons(lines, off);
      PlacedLinesStep(lines, off, a, b, LawNumberFindsInLines(lines, off));
      LawNumberFindsInLineTokens(lines[0], 0, off);
      AllTokensAppend(a, b);
    }
  }

  /** Keyed spans placed in the normalised text, one line each. */
  lemma KeyedPlaced(n: string, fs: seq<Found>)
    requires WellPlaced(n, 0, fs) && InOneLine(fs)
    ensures var ms := Keyed(fs);
      (forall i :: 0 <= i < |ms| ==>
        ms[i].text == fs[i].text && ms[i].standardized == StandardizeRegulation(fs[i].text)
        && ms[i].start < ms[i].end <= |n| && ms[i].text == n[ms[i].start..ms[i].end]
        && ms[i].end == ms[i].start + |ms[i].text| && '\n' !in ms[i].text)
      && (forall i, j :: 0 <= i < j < |ms| ==> ms[i].end <= ms[j].start)
  {
    KeyedAt(fs);
  }

  /**
   * Every `findLawNumbers` result is a citation number (1-4 digits, '/',
   * 2-4 digits) equal to the normalised text between its offsets, with
   * `end = start + |text|`, inside one line, keyed " c. <text> sb.", and the
   * results are ordered and do not overlap.
   */
  lemma LawNumbersSound(text: string)
    ensures var n := NormalizeNewlines(text); var ms := LawNumbers(text);
      (forall i :: 0 <= i < |ms| ==>
        ms[i].start < ms[i].end <= |n| && ms[i].text == n[ms[i].start..ms[i].end]
        && ms[i].end == ms[i].start + |ms[i].text| && '\n' !in ms[i].text
        && IsNumberToken(ms[i].text) && ms[i].standardized == " c. " + ms[i].text + " sb.")
      && (forall i, j :: 0 <= i < j < |ms| ==> ms[i].end <= ms[j].start)
  {
    var n := NormalizeNewlines(text);
    var fs := LawNumberFinds(text);
    LawNumberFindsInLinesPlaced(SplitLines(n), 0);
    KeyedPlaced(n, fs);
    forall i | 0 <= i < |fs| ensures StandardizeRegulation(fs[i].text) == " c. " + fs[i].text + " sb." {
      StandardizeBareNumber(fs[i].text);
    }
  }

  /** Records that are LF-free pieces of the normalised text stand unchanged in the raw text. */
  lemma RecordsStandInRaw(text: string, ms: seq<RegulationMatch>)
    requires var n := NormalizeNewlines(text);
      forall i :: 0 <= i < |ms| ==>
        ms[i].start < ms[i].end <= |n| && ms[i].text == n[ms[i].start..ms[i].end]
        && ms[i].end == ms[i].start + |ms[i].text| && '\n' !in ms[i].text
    ensures forall i :: 0 <= i < |ms| ==> StandsInRaw(text, ms[i].start, ms[i].text)
  {
    forall i | 0 <= i < |ms| ensures StandsInRaw(text, ms[i].start, ms[i].text) {
      RecordStandsInRaw(text, NormalizeNewlines(text), ms[i]);
    }
  }

  lemma RecordStandsInRaw(text: string, n: string, m: RegulationMatch)
    requires n == NormalizeNewlines(text)
    requires m.start < m.end <= |n| && m.text == n[m.start..m.end] && m.end == m.start + |m.text| && '\n' !in m.text
    ensures StandsInRaw(text, m.start, m.text)
  {
    NormalizedSpanIsRaw(text, m.start, m.text);
  }

  /**
   * Every `findLawNumbers` result stands unchanged in the raw text, at its
   * reported start plus the CRLF pairs before it.
   */
  lemma LawNumbersRaw(text: string)
    ensures var ms := LawNumbers(text);
      forall i :: 0 <= i < |ms| ==> StandsInRaw(text, ms[i].start, ms[i].text)
  {
    LawNumbersSound(text);
    RecordsStandInRaw(text, LawNumbers(text));
  }

  /**
   * The scan is leftmost-first and greedy, and resumes where the previous
   * match ended: the first span of a line is the match `sp` that `exec`
   * finds from `lastIndex`; the pattern matches nowhere between
   * `lastIndex` and `sp`, `sp` is the longest citation number starting
   * where it starts, and the remaining spans are those found from its end.
   */
  lemma LawNumbersLeftmostLongest(line: string, from: nat, off: nat)
    requires from <= |line| && LawNumberFindsInLine(line, from, off) != []
    ensures ExecNumber(line, from).Some?
    ensures var sp := ExecNumber(line, from).value; var fs := LawNumberFindsInLine(line, from, off);
      fs[0] == Found(line[sp.start..sp.End()], off + sp.start, off + sp.End())
      && (forall p :: from <= p < sp.start ==> NumberMatchAt(line, p).None?)
      && LongestTokenAt(line, sp.start, sp.End())
      && fs[1..] == LawNumberFindsInLine(line, sp.End(), off)
  {
    var sp := ExecNumber(line, from).value;
    var f := Found(line[sp.start..sp.End()], off + sp.start, off + sp.End());
    var rest := LawNumberFindsInLine(line, sp.End(), off);
    LawNumberFindsInLineStep(line, from, off, f);
    assert LawNumberFindsInLine(line, from, off)[0] == f;
    assert LawNumberFindsInLine(line, from, off)[1..] == rest;
    MatchIsLongestToken(line, sp.start, sp.End());
    ExecNumberLeftmost(line, from);
  }

  lemma LawNumberFindsInLineStep(line: string, from: nat, off: nat, f: Found)
    requires from <= |line| && ExecNumber(line, from).Some?
    requires var sp := ExecNumber(line, from).value;
      f.text == line[sp.start..sp.End()] && f.start == off + sp.start && f.end == f.start + |f.text|
    ensures LawNumberFindsInLine(line, from, off) == [f] + LawNumberFindsInLine(line, ExecNumber(line, from).value.End(), off)
  {
    assert LawNumberFindsInLine(line, from, off) == LawNumberFindsFromMatch(line, ExecNumber(line, from).value, off);
  }

  lemma LawNumberFindsInLinesStep(lines: seq<string>, k: nat, off: nat)
    requires k < |lines|
    ensures LawNumberFindsInLines(lines[k..], off)
      == LawNumberFindsInLine(lines[k], 0, off) + LawNumberFindsInLines(lines[k + 1..], off + |lines[k]| + 1)
  {
    assert lines[k..][1..] == lines[k + 1..];
  }

  /** Results exist only when the normalised text holds a citation number. */
  lemma LawNumbersNone(text: string)
    ensures LawNumbers(text) != [] ==> HasNumberToken(NormalizeNewlines(text))
  {
    var ms := LawNumbers(text);
    if ms != [] {
      LawNumbersSound(text);
      TokenWitness(NormalizeNewlines(text), ms[0].start, ms[0].end, ms[0].text);
    }
  }

  /** A text of one line, without CR, is scanned as that one line at offset 0. */
  lemma LawNumberFindsOneLine(text: string)
    requires '\r' !in text && '\n' !in text
    ensures LawNumberFinds(text) == LawNumberFindsInLine(text, 0, 0)
  {
    NormalizeNewlinesNoCr(text);
    assert SplitLines(text) == [text];
    assert LawNumberFindsInLines([text], 0) == LawNumberFindsInLine(text, 0, 0) + [];
  }

  /**
   * A first digit run longer than four cannot precede '/': in "12345/67"
   * the match starts one digit later, at offset 1.
   */
  lemma LawNumbersExampleLongFirstRun()
    ensures LawNumberFinds("12345/67") == [Found("2345/67", 1, 8)]
  {
    var s := "12345/67";
    assert DigitRun(s, 8) == 0;
    assert DigitRun(s, 7) == 1;
    assert DigitRun(s, 6) == 2;
    assert DigitRun(s, 5) == 0;
    assert DigitRun(s, 4) == 1;
    assert DigitRun(s, 3) == 2;
    assert DigitRun(s, 2) == 3;
    assert DigitRun(s, 1) == 4;
    assert DigitRun(s, 0) == 5;
    assert NumberMatchAt(s, 0).None?;
    assert ExecNumber(s, 0) == Some(Span(1, 7));
    assert s[1..8] == "2345/67";
    LawNumberFindsOneLine(s);
  }

  /** The second digit run is cut at four digits: "1/20201" yields "1/2020". */
  lemma LawNumbersExampleLongYear()
    ensures LawNumberFinds("1/20201") == [Found("1/2020", 0, 6)]
  {
    var s := "1/20201";
    assert DigitRun(s, 7) == 0;
    assert DigitRun(s, 6) == 1;
    assert DigitRun(s, 5) == 2;
    assert DigitRun(s, 4) == 3;
    assert DigitRun(s, 3) == 4;
    assert DigitRun(s, 2) == 5;
    assert DigitRun(s, 1) == 0;
    assert DigitRun(s, 0) == 1;
    assert ExecNumber(s, 0) == Some(Span(0, 6));
    assert NumberMatchAt(s, 6).None?;
    assert s[0..6] == "1/2020";
    LawNumberFindsOneLine(s);
  }

  lemma LineExampleShort(off: nat)
    ensures LawNumberFindsInLine("1/20", 0, off) == [Found("1/20", off, off + 4)]
  {
    var l := "1/20";
    assert DigitRun(l, 4) == 0;
    assert DigitRun(l, 3) == 1;
    assert DigitRun(l, 2) == 2;
    assert DigitRun(l, 1) == 0;
    assert DigitRun(l, 0) == 1;
    assert ExecNumber(l, 0) == Some(Span(0, 4));
    assert l[0..4] == l;
  }

  lemma LawNumberFindsTwoLines(a: string, b: string, off: nat)
    ensures LawNumberFindsInLines([a, b], off) == LawNumberFindsInLine(a, 0, off) + LawNumberFindsInLine(b, 0, off + |a| + 1)
  {
    assert [a, b][1..] == [b];
    assert LawNumberFindsInLines([b], off + |a| + 1) == LawNumberFindsInLine(b, 0, off + |a| + 1) + [];
  }

  lemma NormalizeExampleCrlf()
    ensures NormalizeNewlines("a\r\n1/20") == "a\n1/20"
  {
  }

  lemma SplitExampleCrlf()
    ensures SplitLines("a\n1/20") == ["a", "1/20"]
  {
    var n := "a\n1/20";
    assert IndexOf(n, '\n') == 1;
    assert n[..1] == "a" && n[2..] == "1/20";
    assert IndexOf("1/20", '\n') == -1;
  }

  lemma LinesExampleCrlf()
    ensures LawNumberFindsInLines(["a", "1/20"], 0) == [Found("1/20", 2, 6)]
  {
    LawNumberFindsTwoLines("a", "1/20", 0);
    assert ExecNumber("a", 0).None?;
    LineExampleShort(2);
  }

  /**
   * Offsets index the normalised text: in "a\r\n1/20" the number sits at
   * raw offset 3 but is reported at 2, because the CRLF became one LF.
   */
  lemma LawNumbersExampleCrlf()
    ensures LawNumberFinds("a\r\n1/20") == [Found("1/20", 2, 6)]
  {
    NormalizeExampleCrlf();
    SplitExampleCrlf();
    LinesExampleCrlf();
  }

  /** In "a\r\n1/20" the number reported at 2 stands at raw index 3. */
  lemma RawOffsetExampleCrlf()
    ensures |NormalizeNewlines("a\r\n1/20")| >= 2 && RawOffset("a\r\n1/20", 2) == 3
  {
    var t := "a\r\n1/20";
    var u := t[1..];
    assert HeadLength(t) == 1 && HeadLength(u) == 2;
    NormalizeFirst(t);
    NormalizeFirst(u);
    assert RawOffset(u, 1) == 2 + RawOffset(u[2..], 0);
  }

  lemma LawNumbersExampleEmpty()
    ensures LawNumbers("") == []
  {
    assert SplitLines("") == [""];
  }

  /**
   * The inner loop of `findLawNumbers` over one line: `exec` from
   * `lastIndex = 0` until it fails, pushing each match with the running
   * offset of the line added and its key.
   */
  method LawNumbersInLine(line: string, currentOffset: nat) returns (matches: seq<RegulationMatch>)
    ensures matches == Keyed(LawNumberFindsInLine(line, 0, currentOffset))
  {
    matches := [];
    ghost var found: seq<Found> := [];
    var lastIndex := 0;
    while true
      invariant lastIndex <= |line|
      invariant matches == Keyed(found)
      invariant found + LawNumberFindsInLine(line, lastIndex, currentOffset) == LawNumberFindsInLine(line, 0, currentOffset)
      decreases |line| - lastIndex
    {
      var match_ := ExecNumber(line, lastIndex);
      if match_.None? {
        assert found + LawNumberFindsInLine(line, lastIndex, currentOffset) == found;
        break;
      }
      var lawText := line[match_.value.start..match_.value.End()];
      var startInLine := match_.value.start;
      var endInLine := startInLine + |lawText|;
      var start := currentOffset + startInLine;
      var end := currentOffset + endInLine;
      var standardized := StandardizeRegulation(lawText);
      ghost var f := Found(lawText, start, end);
      LawNumberFindsInLineStep(line, lastIndex, currentOffset, f);
      ConcatAssoc(found, [f], LawNumberFindsInLine(line, match_.value.End(), currentOffset));
      KeyedPush(matches, found, f, standardized);
      matches := matches + [RegulationMatch(lawText, start, end, standardized)];
      found := found + [f];
      lastIndex := match_.value.End();
    }
  }

  /** One line of the outer loop of `findLawNumbers`. */
  lemma LawNumberLinesAdvance(lines: seq<string>, k: nat, off: nat,
                              matches: seq<RegulationMatch>, lineMatches: seq<RegulationMatch>, all: seq<RegulationMatch>)
    requires k < |lines|
    requires matches + Keyed(LawNumberFindsInLines(lines[k..], off)) == all
    requires lineMatches == Keyed(LawNumberFindsInLine(lines[k], 0, off))
    ensures matches + lineMatches + Keyed(LawNumberFindsInLines(lines[k + 1..], off + |lines[k]| + 1)) == all
  {
    var rest := LawNumberFindsInLines(lines[k + 1..], off + |lines[k]| + 1);
    LawNumberFindsInLinesStep(lines, k, off);
    KeyedAppend(LawNumberFindsInLine(lines[k], 0, off), rest);
    ConcatAssoc(matches, lineMatches, Keyed(rest));
  }

  /**
   * `findLawNumbers`: CR/CRLF become LF, the text is split into lines, and
   * the lines are scanned.
   */
  method FindLawNumbers(text: string) returns (matches: seq<RegulationMatch>)
    ensures matches == LawNumbers(text)
  {
    var normalizedText := NormalizeNewlines(text);
    var lines := SplitLines(normalizedText);
    matches := LawNumbersInLines(lines);
  }

  /**
   * The loop of `findLawNumbers` over the lines: each line is scanned, and
   * the running offset adds `|line| + 1` per line.
   */
  method LawNumbersInLines(lines: seq<string>) returns (matches: seq<RegulationMatch>)
    ensures matches == Keyed(LawNumberFindsInLines(lines, 0))
  {
    matches := [];
    var currentOffset: nat := 0;
    ghost var all := Keyed(LawNumberFindsInLines(lines, 0));
    assert lines[0..] == lines;
    for k := 0 to |lines|
      invariant matches + Keyed(LawNumberFindsInLines(lines[k..], currentOffset)) == all
    {
      var line := lines[k];
      var lineMatches := LawNumbersInLine(line, currentOffset);
      LawNumberLinesAdvance(lines, k, currentOffset, matches, lineMatches, all);
      matches := matches + lineMatches;
      currentOffset := currentOffset + |line| + 1;
    }
    assert lines[|lines|..] == [];
    assert matches + [] == matches;
  }

  // ---------------------------------------------------------------------
  // findRegulationPatterns
  // ---------------------------------------------------------------------

  /**
   * One execution of the global full-name pattern over `s` with
   * `lastIndex = from`: the span of the match it finds, or None.
   */
  type Matcher = (string, nat) -> Option<Span>

  /**
   * Where an execution of the full-name pattern may find a match: a
   * non-empty span of `s` at or after `from`.
   */
  ghost predicate ExecResultOk(s: string, from: nat, r: Option<Span>)
  {
    r.Some? ==> (from <= r.value.start && 0 < r.value.len && r.value.End() <= |s|)
  }

  ghost predicate MatcherContract(exec: Matcher)
  {
    forall s: string, from: nat :: from <= |s| ==> ExecResultOk(s, from, exec(s, from))
  }

  /** The text of the span found in `s`, if any, holds a citation number. */
  ghost predicate HoldsNumber(s: string, r: Option<Span>)
  {
    r.Some? && r.value.End() <= |s| ==> ContainsNumber(s[r.value.start..r.value.End()])
  }

  /**
   * The full-name pattern requires `\d{1,4}\/\d{2,4}` before its closing
   * "Sb", so the text of every match holds a citation number.
   */
  ghost predicate MatcherFindsNumbers(exec: Matcher)
  {
    forall s: string, from: nat :: from <= |s| ==> HoldsNumber(s, exec(s, from))
  }

  /** `regex.exec(s)` with `regex.lastIndex = from`. */
  function Exec(exec: Matcher, s: string, from: nat): (r: Option<Span>)
    requires MatcherContract(exec) && from <= |s|
    ensures ExecResultOk(s, from, r)
  {
    exec(s, from)
  }

  /** A literal phrase: letters compared case-insensitively, and `\s+` between words. */
  datatype Phrase = End | Letter(c: char, rest: Phrase) | Spaces(rest: Phrase)

  /**
   * Where `p` ends when matched at index `i` of `t`, or None. `\s+` takes
   * the whole run of spaces: in the phrases used here a letter follows it,
   * so giving spaces back never helps.
   */
  function MatchPhrase(t: string, i: nat, p: Phrase): (r: Option<nat>)
    requires i <= |t|
    ensures r.Some? ==> i <= r.value <= |t|
    decreases p
  {
    match p
    case End => Some(i)
    case Letter(c, rest) =>
      if i < |t| && LowerChar(t[i]) == c then MatchPhrase(t, i + 1, rest) else None
    case Spaces(rest) =>
      var n := SpaceRun(t, i);
      if n > 0 then MatchPhrase(t, i + n, rest) else None
  }

  /** The letters of `w`, compared case-insensitively, followed by `rest`. */
  function Letters(w: string, rest: Phrase): Phrase
  {
    if w == [] then rest else Letter(w[0], Letters(w[1..], rest))
  }

  /** `ve\s+znění` */
  const VeZneni: Phrase := Letters("ve", Spaces(Zneni))
  /** `znění` */
  const Zneni: Phrase := Letters("znění", End)
  /** `zařízení` */
  const Zarizeni: Phrase := Letters("zařízení", End)

  /**
   * Where `ve\s+znění|znění|zařízení` ends when matched at index 0 of `t`,
   * the alternatives tried in this order, or 0 when none of them starts `t`.
   */
  function UnwantedPhrase(t: string): (n: nat)
    ensures n <= |t|
  {
    match MatchPhrase(t, 0, VeZneni)
    case Some(e) => e
    case None =>
      match MatchPhrase(t, 0, Zneni)
      case Some(e) => e
      case None =>
        match MatchPhrase(t, 0, Zarizeni)
        case Some(e) => e
        case None => 0
  }

  /**
   * The length of the match of `/\b(?:ve\s+znění|znění|zařízení)\s*\/iu`
   * when it sits at index 0 of `t` (the phrase and every space after it),
   * and 0 otherwise. Every phrase starts with a letter, so `\b` holds at
   * index 0. What follows the cut is empty or starts with a non-space.
   */
  function UnwantedLength(t: string): (u: nat)
    ensures u <= |t|
    ensures u > 0 ==> u == |t| || !IsSpace(t[u])
  {
    var p := UnwantedPhrase(t);
    if p == 0 then 0 else p + SpaceRun(t, p)
  }

  /** `t` holds the lower-case letters `w` from index `i` on, compared after lower-casing. */
  ghost predicate CiAt(t: string, i: nat, w: string)
  {
    i + |w| <= |t| && forall j :: 0 <= j < |w| ==> LowerChar(t[i + j]) == w[j]
  }

  /**
   * `t` starts with one of the unwanted phrases, `k` characters long:
   * "znění" (k = 5), "zařízení" (k = 8), or "ve", one or more spaces and
   * "znění" (k = 7 plus the spaces), each compared case-insensitively.
   */
  ghost predicate UnwantedPrefix(t: string, k: nat)
  {
    (k == 5 && CiAt(t, 0, "znění"))
    || (k == 8 && CiAt(t, 0, "zařízení"))
    || (k >= 8 && CiAt(t, 0, "ve") && CiAt(t, k - 5, "znění") && forall j :: 2 <= j < k - 5 ==> IsSpace(t[j]))
  }

  /** `t` starts with an unwanted phrase. */
  ghost predicate StartsWithUnwanted(t: string)
  {
    exists k :: UnwantedPrefix(t, k)
  }

  /** A letter phrase matches exactly where its letters stand, and the match goes on after them. */
  lemma {:induction false} MatchLetters(t: string, i: nat, w: string, rest: Phrase)
    requires i <= |t|
    ensures CiAt(t, i, w) ==> MatchPhrase(t, i, Letters(w, rest)) == MatchPhrase(t, i + |w|, rest)
    ensures !CiAt(t, i, w) ==> MatchPhrase(t, i, Letters(w, rest)).None?
    decreases |w|
  {
    if w != [] && i < |t| && LowerChar(t[i]) == w[0] {
      MatchLetters(t, i + 1, w[1..], rest);
      if CiAt(t, i + 1, w[1..]) {
        forall j | 0 <= j < |w| ensures LowerChar(t[i + j]) == w[j] {
          if j > 0 {
            assert LowerChar(t[i + 1 + (j - 1)]) == w[1..][j - 1];
          }
        }
      } else if i + |w| <= |t| {
        var j :| 0 <= j < |w[1..]| && LowerChar(t[i + 1 + j]) != w[1..][j];
        assert LowerChar(t[i + (j + 1)]) != w[j + 1];
      }
    } else if w != [] && i < |t| {
      assert LowerChar(t[i + 0]) != w[0];
    }
  }

  lemma CiAtFirst(t: string, i: nat, w: string)
    requires CiAt(t, i, w) && w != []
    ensures LowerChar(t[i]) == w[0]
  {
    assert LowerChar(t[i + 0]) == w[0];
  }

  /** A character that lower-cases to a letter is not white space. */
  lemma LetterNotSpace(c: char, x: char)
    requires LowerChar(c) == x && 'a' <= x <= 'z'
    ensures !IsSpace(c)
  {
    LowerCharFacts(c);
  }

  /** The unwanted-phrase alternation stops exactly at the end of the phrase that starts `t`. */
  lemma UnwantedPhraseOfPrefix(t: string, k: nat)
    requires UnwantedPrefix(t, k)
    ensures UnwantedPhrase(t) == k
  {
    if k == 5 && CiAt(t, 0, "znění") {
      PhraseZneni(t);
    } else if k == 8 && CiAt(t, 0, "zařízení") {
      PhraseZarizeni(t);
    } else {
      PhraseVeZneni(t, k);
    }
  }

  lemma PhraseVeZneni(t: string, k: nat)
    requires k >= 8 && CiAt(t, 0, "ve") && CiAt(t, k - 5, "znění")
    requires forall j :: 2 <= j < k - 5 ==> IsSpace(t[j])
    ensures UnwantedPhrase(t) == k
  {
    MatchLetters(t, 0, "ve", Spaces(Zneni));
    SpacesThenZneni(t, k);
  }

  lemma SpacesThenZneni(t: string, k: nat)
    requires k >= 8 && CiAt(t, k - 5, "znění")
    requires forall j :: 2 <= j < k - 5 ==> IsSpace(t[j])
    ensures MatchPhrase(t, 2, Spaces(Zneni)) == Some(k)
  {
    CiAtFirst(t, k - 5, "znění");
    LetterNotSpace(t[k - 5], 'z');
    SpaceRunExact(t, 2, k - 5);
    MatchLetters(t, k - 5, "znění", End);
  }

  lemma PhraseZneni(t: string)
    requires CiAt(t, 0, "znění")
    ensures UnwantedPhrase(t) == 5
  {
    MatchLetters(t, 0, "ve", Spaces(Zneni));
    MatchLetters(t, 0, "znění", End);
  }

  lemma PhraseZarizeni(t: string)
    requires CiAt(t, 0, "zařízení")
    ensures UnwantedPhrase(t) == 8
  {
    MatchLetters(t, 0, "ve", Spaces(Zneni));
    MatchLetters(t, 0, "znění", End);
    MatchLetters(t, 0, "zařízení", End);
    assert LowerChar(t[1]) == 'a';
  }

  /**
   * A match that starts with an unwanted phrase `k` characters long loses
   * at least those `k` characters, and the rest of the cut is white space.
   */
  lemma UnwantedLengthOfPrefix(t: string, k: nat)
    requires UnwantedPrefix(t, k)
    ensures k <= UnwantedLength(t)
    ensures forall j :: k <= j < UnwantedLength(t) ==> IsSpace(t[j])
  {
    UnwantedPhraseOfPrefix(t, k);
    SpaceRunSpaces(t, k);
  }

  /** Some phrase ends where the alternation stops, when it stops past index 0. */
  lemma PrefixOfUnwantedPhrase(t: string)
    requires UnwantedPhrase(t) > 0
    ensures UnwantedPrefix(t, UnwantedPhrase(t))
  {
    if MatchPhrase(t, 0, VeZneni).Some? {
      PrefixVeZneni(t);
    } else if MatchPhrase(t, 0, Zneni).Some? {
      MatchLetters(t, 0, "znění", End);
    } else {
      MatchLetters(t, 0, "zařízení", End);
    }
  }

  lemma PrefixVeZneni(t: string)
    requires MatchPhrase(t, 0, VeZneni).Some?
    ensures UnwantedPrefix(t, MatchPhrase(t, 0, VeZneni).value)
  {
    MatchLetters(t, 0, "ve", Spaces(Zneni));
    assert CiAt(t, 0, "ve");
    var n := SpaceRun(t, 2);
    assert MatchPhrase(t, 0, VeZneni) == MatchPhrase(t, 2 + n, Zneni);
    MatchLetters(t, 2 + n, "znění", End);
    assert CiAt(t, 2 + n, "znění");
    SpaceRunSpaces(t, 2);
    ZnenMatchLength(t, 2 + n);
    VeSpacesZneni(t, n);
  }

  lemma VeSpacesZneni(t: string, n: nat)
    requires n > 0 && CiAt(t, 0, "ve") && CiAt(t, 2 + n, "znění")
    requires forall j :: 2 <= j < 2 + n ==> IsSpace(t[j])
    ensures UnwantedPrefix(t, 7 + n)
  {
  }

  lemma ZnenMatchLength(t: string, i: nat)
    requires i <= |t| && CiAt(t, i, "znění")
    ensures MatchPhrase(t, i, Zneni) == Some(i + 5)
  {
    MatchLetters(t, i, "znění", End);
  }

  /** A match is cut exactly when it starts with an unwanted phrase. */
  lemma UnwantedLengthIff(t: string)
    ensures UnwantedLength(t) > 0 <==> StartsWithUnwanted(t)
  {
    if UnwantedLength(t) > 0 {
      PrefixOfUnwantedPhrase(t);
    }
    if StartsWithUnwanted(t) {
      var k :| UnwantedPrefix(t, k);
      UnwantedLengthOfPrefix(t, k);
    }
  }

  /** "Ve  Znění x" loses "Ve  Znění " (ten characters). */
  lemma UnwantedLengthExampleVeZneni()
    ensures UnwantedLength("Ve  Znění x") == 10
  {
    var t := "Ve  Znění x";
    PhraseExampleVeZneni(t);
    UnwantedPhraseOfPrefix(t, 9);
    SpaceRunExact(t, 9, 10);
  }

  lemma PhraseExampleVeZneni(t: string)
    requires t == "Ve  Znění x"
    ensures UnwantedPrefix(t, 9)
  {
    assert LowerChar(t[0]) == 'v' && LowerChar(t[1]) == 'e';
    assert IsSpace(t[2]) && IsSpace(t[3]);
    assert LowerChar(t[4]) == 'z' && LowerChar(t[5]) == 'n' && LowerChar(t[6]) == 'ě';
    assert LowerChar(t[7]) == 'n' && LowerChar(t[8]) == 'í';
  }

  /** "Vyhláška" starts with no unwanted phrase and loses nothing. */
  lemma UnwantedLengthExampleVyhlaska()
    ensures UnwantedLength("Vyhláška") == 0
  {
    var v := "Vyhláška";
    assert LowerChar(v[0]) == 'v' && LowerChar(v[1]) == 'y';
    MatchLetters(v, 0, "ve", Spaces(Zneni));
    MatchLetters(v, 0, "znění", End);
    MatchLetters(v, 0, "zařízení", End);
  }

  /** `trim()` of a text that does not start with a space only drops trailing spaces. */
  lemma {:induction false} TrimAfterSpaces(x: string)
    requires x == [] || !IsSpace(x[0])
    ensures Trim(x) == x[..|Trim(x)|]
    decreases |x|
  {
    if |x| > 0 && IsSpace(x[|x| - 1]) {
      var y := x[..|x| - 1];
      TrimAfterSpaces(y);
      assert y[..|Trim(y)|] == x[..|Trim(y)|];
    }
  }

  /** A slice of a slice is a slice. */
  lemma SubSlice(s: string, c: nat, d: nat, a: nat, b: nat)
    requires c <= d <= |s| && a <= b <= d - c
    ensures s[c..d][a..b] == s[c + a..c + b]
  {
    forall k | 0 <= k < b - a ensures s[c..d][a..b][k] == s[c + a..c + b][k] {
      assert s[c..d][a + k] == s[c + a + k];
    }
  }

  /**
   * A cut of `u` characters from the start of the match `sp`: it stays
   * inside the match, and what follows a non-empty cut is empty or starts
   * with a non-space.
   */
  ghost predicate CutOk(line: string, sp: Span, u: nat)
  {
    sp.End() <= |line| && u <= sp.len && (0 < u < sp.len ==> !IsSpace(line[sp.start + u]))
  }

  /** The unwanted-phrase cut of a match is such a cut. */
  lemma UnwantedCutOk(line: string, sp: Span)
    requires sp.End() <= |line|
    ensures CutOk(line, sp, UnwantedLength(line[sp.start..sp.End()]))
  {
    var t := line[sp.start..sp.End()];
    var u := UnwantedLength(t);
    assert |t| == sp.len;
    if 0 < u < sp.len {
      assert t[u] == line[sp.start + u];
    }
  }

  /**
   * What the loop body makes of one match `sp` of the full-name pattern in
   * `line`, whose first character sits at offset `off`, given the length
   * `u` of the unwanted phrase (and its spaces) that starts it: the match
   * itself when `u` is 0; otherwise the rest after the cut is trimmed and
   * matched again from index 0, and the span of that second match is
   * reported, or nothing when there is none.
   */
  function Refine(exec: Matcher, line: string, sp: Span, u: nat, off: nat): (r: Option<Found>)
    requires MatcherContract(exec) && ExecResultOk(line, 0, Some(sp)) && u <= sp.len
  {
    var matched := line[sp.start..sp.End()];
    if u == 0 then Some(Found(matched, off + sp.start, off + sp.End()))
    else Revalidate(exec, Trim(matched[u..]), off + sp.start + u)
  }

  /**
   * The second match over the trimmed rest `trimmed` of a cut match, whose
   * first character sits at offset `at`: the span it finds, at its own
   * offsets, or nothing.
   */
  function Revalidate(exec: Matcher, trimmed: string, at: nat): (r: Option<Found>)
    requires MatcherContract(exec)
  {
    match Exec(exec, trimmed, 0)
    case None => None
    case Some(m) => Some(Found(trimmed[m.start..m.End()], at + m.start, at + m.End()))
  }

  /**
   * `f` lies inside `line[lo..hi]`, whose first character sits at offset
   * `off`, and is the text of the line at its offsets.
   */
  ghost predicate Inside(line: string, off: nat, lo: nat, hi: nat, f: Found)
  {
    off + lo <= f.start < f.end <= off + hi <= off + |line|
    && f.text == line[f.start - off..f.end - off]
  }

  /** A cut of length 0 reports the match whole, at its own offsets. */
  lemma RefineUncut(exec: Matcher, line: string, sp: Span, off: nat)
    requires MatcherContract(exec) && ExecResultOk(line, 0, Some(sp))
    ensures Refine(exec, line, sp, 0, off) == Some(Found(line[sp.start..sp.End()], off + sp.start, off + sp.End()))
    ensures Inside(line, off, sp.start, sp.End(), Refine(exec, line, sp, 0, off).value)
  {
    var f := Found(line[sp.start..sp.End()], off + sp.start, off + sp.End());
    assert f.start - off == sp.start && f.end - off == sp.End();
  }

  /** What remains after a cut, trimmed, is the text of the line right after the cut. */
  lemma CutRest(line: string, sp: Span, u: nat)
    requires CutOk(line, sp, u) && u > 0
    ensures var t := Trim(line[sp.start..sp.End()][u..]);
      sp.start + u + |t| <= sp.End() && t == line[sp.start + u..sp.start + u + |t|]
  {
    var x := line[sp.start..sp.End()][u..];
    SubSlice(line, sp.start, sp.End(), u, sp.len);
    assert x == line[sp.start + u..sp.End()];
    if u < sp.len {
      assert x[0] == line[sp.start + u];
    }
    TrimAfterSpaces(x);
    var t := Trim(x);
    SubSlice(line, sp.start + u, sp.End(), 0, |t|);
    assert x[..|t|] == x[0..|t|];
  }

  /**
   * The span of a second match `m` inside `t`, which is the text of the
   * line from `c` on, is reported inside `line[c..hi]` at its own offsets.
   */
  lemma SecondMatchInside(line: string, off: nat, c: nat, hi: nat, t: string, m: Span)
    requires c + |t| <= hi <= |line| && t == line[c..c + |t|]
    requires ExecResultOk(t, 0, Some(m))
    ensures Inside(line, off, c, hi, Found(t[m.start..m.End()], off + c + m.start, off + c + m.End()))
  {
    SubSlice(line, c, c + |t|, m.start, m.End());
    var f := Found(t[m.start..m.End()], off + c + m.start, off + c + m.End());
    assert f.start - off == c + m.start && f.end - off == c + m.End();
  }

  /** The span of a second match is reported inside the line it was cut from. */
  lemma RevalidateInside(exec: Matcher, line: string, off: nat, c: nat, hi: nat, t: string)
    requires MatcherContract(exec)
    requires c + |t| <= hi <= |line| && t == line[c..c + |t|]
    ensures Revalidate(exec, t, off + c).Some? ==> Inside(line, off, c, hi, Revalidate(exec, t, off + c).value)
  {
    var e := Exec(exec, t, 0);
    if e.Some? {
      SecondMatchInside(line, off, c, hi, t, e.value);
    }
  }

  /**
   * After a cut of `u` characters, what is reported lies inside the match
   * after the cut and is the text of the line at its offsets.
   */
  lemma RefineCut(exec: Matcher, line: string, sp: Span, u: nat, off: nat)
    requires MatcherContract(exec) && ExecResultOk(line, 0, Some(sp)) && CutOk(line, sp, u) && u > 0
    ensures Refine(exec, line, sp, u, off).Some? ==> Inside(line, off, sp.start + u, sp.End(), Refine(exec, line, sp, u, off).value)
  {
    var t := Trim(line[sp.start..sp.End()][u..]);
    var c := sp.start + u;
    CutRest(line, sp, u);
    RevalidateInside(exec, line, off, c, sp.End(), t);
    assert Refine(exec, line, sp, u, off) == Revalidate(exec, t, off + c);
  }

  /**
   * Whatever one match yields lies inside that match, after any cut, and
   * is the text of the line at its offsets.
   */
  lemma RefineInside(exec: Matcher, line: string, sp: Span, u: nat, off: nat)
    requires MatcherContract(exec) && ExecResultOk(line, 0, Some(sp)) && CutOk(line, sp, u)
    ensures Refine(exec, line, sp, u, off).Some? ==> Inside(line, off, sp.start + u, sp.End(), Refine(exec, line, sp, u, off).value)
  {
    if u == 0 {
      RefineUncut(exec, line, sp, off);
    } else {
      RefineCut(exec, line, sp, u, off);
    }
  }

  /**
   * A match that does not start with an unwanted phrase is reported whole:
   * its own text, at the line's offset plus its index.
   */
  lemma RefineWhole(exec: Matcher, line: string, sp: Span, off: nat)
    requires MatcherContract(exec) && ExecResultOk(line, 0, Some(sp))
    requires !StartsWithUnwanted(line[sp.start..sp.End()])
    ensures Refine(exec, line, sp, UnwantedLength(line[sp.start..sp.End()]), off)
      == Some(Found(line[sp.start..sp.End()], off + sp.start, off + sp.End()))
  {
    UnwantedLengthIff(line[sp.start..sp.End()]);
  }

  /**
   * A match that starts with an unwanted phrase `k` characters long is
   * dropped, or reported at its own offsets inside the match with its start
   * moved forward by at least `k`.
   */
  lemma RefinePhraseCut(exec: Matcher, line: string, sp: Span, k: nat, off: nat)
    requires MatcherContract(exec) && ExecResultOk(line, 0, Some(sp))
    requires UnwantedPrefix(line[sp.start..sp.End()], k)
    ensures var r := Refine(exec, line, sp, UnwantedLength(line[sp.start..sp.End()]), off);
      r.Some? ==> Inside(line, off, sp.start + k, sp.End(), r.value)
  {
    var t := line[sp.start..sp.End()];
    var u := UnwantedLength(t);
    UnwantedLengthOfPrefix(t, k);
    UnwantedCutOk(line, sp);
    assert k > 0;
    RefineCut(exec, line, sp, u, off);
  }

  /** Whatever one match yields holds a citation number. */
  lemma RefineHoldsNumber(exec: Matcher, line: string, sp: Span, u: nat, off: nat)
    requires MatcherContract(exec) && MatcherFindsNumbers(exec)
    requires ExecResultOk(line, 0, Some(sp)) && HoldsNumber(line, Some(sp)) && u <= sp.len
    ensures Refine(exec, line, sp, u, off).Some? ==> ContainsNumber(Refine(exec, line, sp, u, off).value.text)
  {
    if u > 0 {
      var t := Trim(line[sp.start..sp.End()][u..]);
      assert HoldsNumber(t, exec(t, 0));
    }
  }

  function AsSeq(r: Option<Found>): (fs: seq<Found>)
    ensures |fs| <= 1
  {
    match r
    case None => []
    case Some(f) => [f]
  }

  /** The spans `findRegulationPatterns` reports for one line, from `lastIndex = from`, at offset `off`. */
  function FullNameFindsInLine(exec: Matcher, line: string, from: nat, off: nat): seq<Found>
    requires MatcherContract(exec) && from <= |line|
    decreases |line| - from, 1
  {
    match Exec(exec, line, from)
    case None => []
    case Some(sp) => FullNameFindsFromMatch(exec, line, sp, off)
  }

  /** What the match `sp` yields, followed by the spans of the scan that resumes at its end. */
  function FullNameFindsFromMatch(exec: Matcher, line: string, sp: Span, off: nat): seq<Found>
    requires MatcherContract(exec) && ExecResultOk(line, 0, Some(sp))
    decreases |line| - sp.start, 0
  {
    AsSeq(Refine(exec, line, sp, UnwantedLength(line[sp.start..sp.End()]), off))
      + FullNameFindsInLine(exec, line, sp.End(), off)
  }

  function FullNameFindsInLines(exec: Matcher, lines: seq<string>, off: nat): seq<Found>
    requires MatcherContract(exec)
  {
    if lines == [] then []
    else FullNameFindsInLine(exec, lines[0], 0, off) + FullNameFindsInLines(exec, lines[1..], off + |lines[0]| + 1)
  }

  function FullNameFinds(exec: Matcher, text: string): seq<Found>
    requires MatcherContract(exec)
  {
    FullNameFindsInLines(exec, SplitLines(NormalizeNewlines(text)), 0)
  }

  /** What `findRegulationPatterns(text)` returns, for the full-name pattern `exec`. */
  function RegulationPatterns(exec: Matcher, text: string): seq<RegulationMatch>
    requires MatcherContract(exec)
  {
    Keyed(FullNameFinds(exec, text))
  }

  lemma FullNameFindsInLineStep(exec: Matcher, line: string, from: nat, off: nat, r: Option<Found>)
    requires MatcherContract(exec) && from <= |line| && Exec(exec, line, from).Some?
    requires var sp := Exec(exec, line, from).value;
      r == Refine(exec, line, sp, UnwantedLength(line[sp.start..sp.End()]), off)
    ensures FullNameFindsInLine(exec, line, from, off)
      == AsSeq(r) + FullNameFindsInLine(exec, line, Exec(exec, line, from).value.End(), off)
  {
    assert FullNameFindsInLine(exec, line, from, off) == FullNameFindsFromMatch(exec, line, Exec(exec, line, from).value, off);
  }

  lemma {:induction false} FullNameFindsInLineAfter(exec: Matcher, line: string, from: nat, off: nat)
    requires MatcherContract(exec) && from <= |line|
    ensures forall i :: 0 <= i < |FullNameFindsInLine(exec, line, from, off)| ==>
      off + from <= FullNameFindsInLine(exec, line, from, off)[i].start
    decreases |line| - from
  {
    var e := Exec(exec, line, from);
    if e.Some? {
      var sp := e.value;
      var u := UnwantedLength(line[sp.start..sp.End()]);
      var r := Refine(exec, line, sp, u, off);
      var rest := FullNameFindsInLine(exec, line, sp.End(), off);
      UnwantedCutOk(line, sp);
      RefineInside(exec, line, sp, u, off);
      FullNameFindsInLineAfter(exec, line, sp.End(), off);
      FullNameFindsInLineStep(exec, line, from, off, r);
      if r.Some? {
        assert FullNameFindsInLine(exec, line, from, off) == [r.value] + rest;
      } else {
        assert FullNameFindsInLine(exec, line, from, off) == rest;
      }
    }
  }

  /** A span inside `line[lo..hi]` placed before spans that start at or after `hi`. */
  lemma InsidePrepend(line: string, off: nat, lo: nat, hi: nat, f: Found, fs: seq<Found>)
    requires Inside(line, off, lo, hi, f) && WellPlaced(line, off, fs)
    requires forall i :: 0 <= i < |fs| ==> off + hi <= fs[i].start
    ensures WellPlaced(line, off, [f] + fs)
  {
    WellPlacedPrepend(line, off, f, fs);
  }

  lemma {:induction false} FullNameFindsInLinePlaced(exec: Matcher, line: string, from: nat, off: nat)
    requires MatcherContract(exec) && from <= |line|
    ensures WellPlaced(line, off, FullNameFindsInLine(exec, line, from, off))
    decreases |line| - from
  {
    var e := Exec(exec, line, from);
    if e.Some? {
      var sp := e.value;
      var u := UnwantedLength(line[sp.start..sp.End()]);
      var r := Refine(exec, line, sp, u, off);
      var rest := FullNameFindsInLine(exec, line, sp.End(), off);
      UnwantedCutOk(line, sp);
      RefineInside(exec, line, sp, u, off);
      FullNameFindsInLinePlaced(exec, line, sp.End(), off);
      FullNameFindsInLineAfter(exec, line, sp.End(), off);
      FullNameFindsInLineStep(exec, line, from, off, r);
      if r.Some? {
        assert FullNameFindsInLine(exec, line, from, off) == [r.value] + rest;
        InsidePrepend(line, off, sp.start + u, sp.End(), r.value, rest);
      } else {
        assert FullNameFindsInLine(exec, line, from, off) == rest;
      }
    } else {
      assert FullNameFindsInLine(exec, line, from, off) == [];
    }
  }

  lemma {:induction false} FullNameFindsInLineNumbers(exec: Matcher, line: string, from: nat, off: nat)
    requires MatcherContract(exec) && MatcherFindsNumbers(exec) && from <= |line|
    ensures AllHoldNumbers(FullNameFindsInLine(exec, line, from, off))
    decreases |line| - from
  {
    var e := Exec(exec, line, from);
    if e.Some? {
      var sp := e.value;
      var u := UnwantedLength(line[sp.start..sp.End()]);
      var r := Refine(exec, line, sp, u, off);
      assert HoldsNumber(line, exec(line, from));
      var rest := FullNameFindsInLine(exec, line, sp.End(), off);
      RefineHoldsNumber(exec, line, sp, u, off);
      FullNameFindsInLineNumbers(exec, line, sp.End(), off);
      FullNameFindsInLineStep(exec, line, from, off, r);
      if r.Some? {
        assert FullNameFindsInLine(exec, line, from, off) == [r.value] + rest;
      } else {
        assert FullNameFindsInLine(exec, line, from, off) == rest;
      }
    }
  }

  /** Every span holds a citation number somewhere in its text. */
  ghost predicate AllHoldNumbers(fs: seq<Found>)
  {
    forall i :: 0 <= i < |fs| ==> ContainsNumber(fs[i].text)
  }

  lemma AllHoldNumbersAppend(a: seq<Found>, b: seq<Found>)
    requires AllHoldNumbers(a) && AllHoldNumbers(b)
    ensures AllHoldNumbers(a + b)
  {
    forall i | 0 <= i < |a + b| ensures ContainsNumber((a + b)[i].text) {
      if i < |a| { assert (a + b)[i] == a[i]; } else { assert (a + b)[i] == b[i - |a|]; }
    }
  }

  lemma FullNameFindsInLinesCons(exec: Matcher, lines: seq<string>, off: nat)
    requires MatcherContract(exec) && lines != []
    ensures FullNameFindsInLines(exec, lines, off)
      == FullNameFindsInLine(exec, lines[0], 0, off) + FullNameFindsInLines(exec, lines[1..], off + |lines[0]| + 1)
  {
  }

  lemma {:induction false} FullNameFindsInLinesPlaced(exec: Matcher, lines: seq<string>, off: nat)
    requires MatcherContract(exec) && MatcherFindsNumbers(exec)
    requires forall k :: 0 <= k < |lines| ==> '\n' !in lines[k]
    ensures WellPlaced(JoinLines(lines), off, FullNameFindsInLines(exec, lines, off))
    ensures InOneLine(FullNameFindsInLines(exec, lines, off))
    ensures AllHoldNumbers(FullNameFindsInLines(exec, lines, off))
    decreases |lines|
  {
    if lines != [] {
      var a := FullNameFindsInLine(exec, lines[0], 0, off);
      var b := FullNameFindsInLines(exec, lines[1..], off + |lines[0]| + 1);
      FullNameFindsInLinesPlaced(exec, lines[1..], off + |lines[0]| + 1);
      FullNameFindsInLinePlaced(exec, lines[0], 0, off);
      FullNameFindsInLinesCons(exec, lines, off);
      PlacedLinesStep(lines, off, a, b, FullNameFindsInLines(exec, lines, off));
      FullNameFindsInLineNumbers(exec, lines[0], 0, off);
      AllHoldNumbersAppend(a, b);
    }
  }

  /**
   * Every `findRegulationPatterns` result is the normalised text between
   * its offsets, with `end = start + |text|`, inside one line; it holds a
   * citation number and is keyed by its kind prefix and its first citation
   * number; the results are ordered and do not overlap.
   */
  lemma RegulationPatternsSound(exec: Matcher, text: string)
    requires MatcherContract(exec) && MatcherFindsNumbers(exec)
    ensures var n := NormalizeNewlines(text); var ms := RegulationPatterns(exec, text);
      (forall i :: 0 <= i < |ms| ==>
        ms[i].start < ms[i].end <= |n| && ms[i].text == n[ms[i].start..ms[i].end]
        && ms[i].end == ms[i].start + |ms[i].text| && '\n' !in ms[i].text
        && HasNumberToken(ms[i].text) && IsNumberToken(FirstNumber(ms[i].text))
        && ms[i].standardized == KindPrefix(ms[i].text) + " c. " + FirstNumber(ms[i].text) + " sb.")
      && (forall i, j :: 0 <= i < j < |ms| ==> ms[i].end <= ms[j].start)
  {
    var n := NormalizeNewlines(text);
    var fs := FullNameFinds(exec, text);
    FullNameFindsInLinesPlaced(exec, SplitLines(n), 0);
    KeyedPlaced(n, fs);
    forall i | 0 <= i < |fs| ensures HasNumberToken(fs[i].text) && IsNumberToken(FirstNumber(fs[i].text)) {
      ContainsNumberIff(fs[i].text);
      FirstNumberToken(fs[i].text);
    }
  }

  /**
   * Every `findRegulationPatterns` result stands unchanged in the raw text,
   * at its reported start plus the CRLF pairs before it.
   */
  lemma RegulationPatternsRaw(exec: Matcher, text: string)
    requires MatcherContract(exec) && MatcherFindsNumbers(exec)
    ensures var ms := RegulationPatterns(exec, text);
      forall i :: 0 <= i < |ms| ==> StandsInRaw(text, ms[i].start, ms[i].text)
  {
    RegulationPatternsSound(exec, text);
    RecordsStandInRaw(text, RegulationPatterns(exec, text));
  }

  lemma TokenInSlice(s: string, a: nat, b: nat, i: nat, j: nat)
    requires a <= b <= |s| && i <= j <= b - a
    requires IsNumberToken(s[a..b][i..j])
    ensures HasNumberToken(s)
  {
    SubSlice(s, a, b, i, j);
    TokenWitness(s, a + i, a + j, s[a..b][i..j]);
  }

  /** A citation number inside a slice is one of the whole text. */
  lemma HasNumberTokenSlice(s: string, a: nat, b: nat)
    requires a <= b <= |s| && HasNumberToken(s[a..b])
    ensures HasNumberToken(s)
  {
    var t := s[a..b];
    var i, j :| 0 <= i <= j <= |t| && IsNumberToken(t[i..j]);
    TokenInSlice(s, a, b, i, j);
  }

  /** Results exist only when the normalised text holds a citation number. */
  lemma RegulationPatternsNone(exec: Matcher, text: string)
    requires MatcherContract(exec) && MatcherFindsNumbers(exec)
    ensures RegulationPatterns(exec, text) != [] ==> HasNumberToken(NormalizeNewlines(text))
  {
    var ms := RegulationPatterns(exec, text);
    if ms != [] {
      RegulationPatternsSound(exec, text);
      HasNumberTokenSlice(NormalizeNewlines(text), ms[0].start, ms[0].end);
    }
  }

  /** One match of the inner loop of `findRegulationPatterns`: what it yields is appended. */
  lemma FullNameLineAdvance(exec: Matcher, line: string, from: nat, off: nat, found: seq<Found>, all: seq<Found>)
    requires MatcherContract(exec) && from <= |line| && Exec(exec, line, from).Some?
    requires found + FullNameFindsInLine(exec, line, from, off) == all
    ensures var sp := Exec(exec, line, from).value;
      var r := Refine(exec, line, sp, UnwantedLength(line[sp.start..sp.End()]), off);
      found + AsSeq(r) + FullNameFindsInLine(exec, line, sp.End(), off) == all
  {
    var sp := Exec(exec, line, from).value;
    var r := Refine(exec, line, sp, UnwantedLength(line[sp.start..sp.End()]), off);
    FullNameFindsInLineStep(exec, line, from, off, r);
    ConcatAssoc(found, AsSeq(r), FullNameFindsInLine(exec, line, sp.End(), off));
  }

  /**
   * The inner loop of `findRegulationPatterns` over one line. `exec` moves
   * `lastIndex` to the end of the match before the body runs, so a cut
   * match that fails revalidation is skipped and the scan resumes after it.
   */
  method RegulationPatternsInLine(exec: Matcher, line: string, currentOffset: nat) returns (matches: seq<RegulationMatch>)
    requires MatcherContract(exec)
    ensures matches == Keyed(FullNameFindsInLine(exec, line, 0, currentOffset))
  {
    matches := [];
    ghost var found: seq<Found> := [];
    var lastIndex := 0;
    while true
      invariant lastIndex <= |line|
      invariant matches == Keyed(found)
      invariant found + FullNameFindsInLine(exec, line, lastIndex, currentOffset) == FullNameFindsInLine(exec, line, 0, currentOffset)
      decreases |line| - lastIndex
    {
      var match_ := Exec(exec, line, lastIndex);
      if match_.None? {
        assert found + FullNameFindsInLine(exec, line, lastIndex, currentOffset) == found;
        break;
      }
      var sp := match_.value;
      var matchedText := line[sp.start..sp.End()];
      var refined := Refine(exec, line, sp, UnwantedLength(matchedText), currentOffset);
      FullNameLineAdvance(exec, line, lastIndex, currentOffset, found, FullNameFindsInLine(exec, line, 0, currentOffset));
      lastIndex := sp.End();
      if refined.None? {
        assert found + AsSeq(refined) == found;
        continue;
      }
      var f := refined.value;
      var standardized := StandardizeRegulation(f.text);
      KeyedPush(matches, found, f, standardized);
      matches := matches + [RegulationMatch(f.text, f.start, f.end, standardized)];
      found := found + [f];
    }
  }

  /** Where line `k` starts in `JoinLines(lines)`, counted from the start of the first line. */
  function LineOffset(lines: seq<string>, k: nat): nat
    requires k <= |lines|
  {
    if k == 0 then 0 else LineOffset(lines, k - 1) + |lines[k - 1]| + 1
  }

  lemma {:induction false} LineOffsetTail(lines: seq<string>, k: nat)
    requires 0 < |lines| && k < |lines|
    ensures LineOffset(lines, k + 1) == |lines[0]| + 1 + LineOffset(lines[1..], k)
  {
    if k > 0 {
      LineOffsetTail(lines, k - 1);
    }
  }

  /** The spans of every line, each scanned from `lastIndex = 0` at its own offset. */
  function PerLineFinds(exec: Matcher, lines: seq<string>, off: nat): (r: seq<seq<Found>>)
    requires MatcherContract(exec)
    ensures |r| == |lines|
  {
    seq(|lines|, k requires 0 <= k < |lines| => FullNameFindsInLine(exec, lines[k], 0, off + LineOffset(lines, k)))
  }

  function Flatten(ss: seq<seq<Found>>): seq<Found>
  {
    if ss == [] then [] else Flatten(ss[..|ss| - 1]) + ss[|ss| - 1]
  }

  lemma {:induction false} FlattenCons(a: seq<Found>, ss: seq<seq<Found>>)
    ensures Flatten([a] + ss) == a + Flatten(ss)
    decreases |ss|
  {
    if ss == [] {
      assert Flatten([a]) == Flatten([]) + a;
    } else {
      var init := ss[..|ss| - 1];
      FlattenCons(a, init);
      assert ([a] + ss)[..|ss|] == [a] + init;
    }
  }

  lemma PerLineShift(exec: Matcher, lines: seq<string>, off: nat, k: nat)
    requires MatcherContract(exec) && k + 1 < |lines|
    ensures PerLineFinds(exec, lines, off)[k + 1] == PerLineFinds(exec, lines[1..], off + |lines[0]| + 1)[k]
  {
    LineOffsetTail(lines, k);
    assert lines[1..][k] == lines[k + 1];
  }

  /** The first line is scanned at `off`, the others as the lines after it. */
  lemma PerLineTail(exec: Matcher, lines: seq<string>, off: nat)
    requires MatcherContract(exec) && lines != []
    ensures PerLineFinds(exec, lines, off)
      == [FullNameFindsInLine(exec, lines[0], 0, off)] + PerLineFinds(exec, lines[1..], off + |lines[0]| + 1)
  {
    var p := PerLineFinds(exec, lines, off);
    var r := [FullNameFindsInLine(exec, lines[0], 0, off)] + PerLineFinds(exec, lines[1..], off + |lines[0]| + 1);
    forall k | 0 <= k < |p| ensures p[k] == r[k] {
      if k > 0 {
        PerLineShift(exec, lines, off, k - 1);
      }
    }
  }

  lemma FlattenStep(p: seq<seq<Found>>, head: seq<Found>, q: seq<seq<Found>>, rest: seq<Found>, whole: seq<Found>)
    requires p == [head] + q && Flatten(q) == rest && whole == head + rest
    ensures Flatten(p) == whole
  {
    FlattenCons(head, q);
  }

  /** Scanning the lines one by one and concatenating gives the spans of all lines. */
  lemma {:induction false} FlattenPerLine(exec: Matcher, lines: seq<string>, off: nat)
    requires MatcherContract(exec)
    ensures Flatten(PerLineFinds(exec, lines, off)) == FullNameFindsInLines(exec, lines, off)
    decreases |lines|
  {
    if lines == [] {
      assert PerLineFinds(exec, lines, off) == [];
    } else {
      var off' := off + |lines[0]| + 1;
      var head := FullNameFindsInLine(exec, lines[0], 0, off);
      PerLineTail(exec, lines, off);
      FlattenPerLine(exec, lines[1..], off');
      assert FullNameFindsInLines(exec, lines, off) == head + FullNameFindsInLines(exec, lines[1..], off');
      FlattenStep(PerLineFinds(exec, lines, off), head, PerLineFinds(exec, lines[1..], off'),
                  FullNameFindsInLines(exec, lines[1..], off'), FullNameFindsInLines(exec, lines, off));
    }
  }

  /** One line of the outer loop: the keyed spans of line `k` are appended. */
  lemma FlattenAdvance(p: seq<seq<Found>>, k: nat, matches: seq<RegulationMatch>, lineMatches: seq<RegulationMatch>)
    requires k < |p| && matches == Keyed(Flatten(p[..k])) && lineMatches == Keyed(p[k])
    ensures matches + lineMatches == Keyed(Flatten(p[..k + 1]))
  {
    assert p[..k + 1][..k] == p[..k];
    assert Flatten(p[..k + 1]) == Flatten(p[..k]) + p[k];
    KeyedAppend(Flatten(p[..k]), p[k]);
  }

  /**
   * `findRegulationPatterns`: CR/CRLF become LF, the text is split into
   * lines, each line is scanned from `lastIndex = 0`, and the running offset
   * adds `|line| + 1` per line.
   */
  method FindRegulationPatterns(exec: Matcher, text: string) returns (matches: seq<RegulationMatch>)
    requires MatcherContract(exec)
    ensures matches == RegulationPatterns(exec, text)
  {
    var normalizedText := NormalizeNewlines(text);
    var lines := SplitLines(normalizedText);
    matches := [];
    var currentOffset: nat := 0;
    ghost var perLine := PerLineFinds(exec, lines, 0);
    for k := 0 to |lines|
      invariant currentOffset == LineOffset(lines, k)
      invariant matches == Keyed(Flatten(perLine[..k]))
    {
      var line := lines[k];
      var lineMatches := RegulationPatternsInLine(exec, line, currentOffset);
      PerLineFindsAt(exec, lines, k, perLine);
      FlattenAdvance(perLine, k, matches, lineMatches);
      matches := matches + lineMatches;
      currentOffset := currentOffset + |line| + 1;
    }
    FlattenPerLine(exec, lines, 0);
    assert perLine[..|lines|] == perLine;
  }

  lemma PerLineFindsAt(exec: Matcher, lines: seq<string>, k: nat, perLine: seq<seq<Found>>)
    requires MatcherContract(exec) && k < |lines| && perLine == PerLineFinds(exec, lines, 0)
    ensures perLine[k] == FullNameFindsInLine(exec, lines[k], 0, LineOffset(lines, k))
  {
  }
}
