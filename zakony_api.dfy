/**
 * The client of the zakonyprolidi.cz data API: `parseStandardizedText`, which
 * turns a canonical key into the `Collection`/`Document` request parameters,
 * and the two decisions over what comes back, `handleResponse` and the
 * message chosen by `handleError`.
 */
module ZakonyApi {
  import opened Wrappers
  import opened Strings
  import Standardize
  import RegulationPatterns
  import Find

  /** The request parameters for one document. */
  datatype DocRef = DocRef(collection: string, document: string)

  const InvalidFormat: string := "Invalid standardized format"

  /*
   * The key pattern `^(n\.v\.|z\.|v\.)\s*c\.\s*(\d{2,4}\/\d{2,4})\s*sb\.$`
   * with the `i` flag, cut into the pieces it matches. Each gap is a run of
   * `\s`; `prefix`, `c` and `sb` are the literal parts as written in the key,
   * in whatever case.
   */
  datatype KeyParts = KeyParts(
    prefix: string, gap1: string, c: string, gap2: string,
    num: string, year: string, gap3: string, sb: string)

  predicate AllSpace(s: string) { forall i :: 0 <= i < |s| ==> IsSpace(s[i]) }

  /** `x` is the literal `lit` up to ASCII case (`lit` is lower case). */
  predicate CiIs(x: string, lit: string) { |x| == |lit| && StartsWithCi(x, lit) }

  predicate IsKindPrefix(p: string) { CiIs(p, "n.v.") || CiIs(p, "z.") || CiIs(p, "v.") }

  /** The pieces fit the pattern: each group of digits has two to four digits. */
  predicate WellFormedKey(k: KeyParts)
  {
    IsKindPrefix(k.prefix) && AllSpace(k.gap1) && CiIs(k.c, "c.") && AllSpace(k.gap2)
    && AllDigits(k.num) && 2 <= |k.num| <= 4 && AllDigits(k.year) && 2 <= |k.year| <= 4
    && AllSpace(k.gap3) && CiIs(k.sb, "sb.")
  }

  /** The text the pieces spell, in order. */
  function RenderKey(k: KeyParts): string
  {
    k.prefix + (k.gap1 + (k.c + (k.gap2 + (k.num + (['/'] + (k.year + (k.gap3 + k.sb)))))))
  }

  /** The longest prefix of `s` made of white space (what a greedy `\s*` takes). */
  function Spaces(s: string): (r: string)
    ensures r <= s && AllSpace(r)
    ensures r == s || !IsSpace(s[|r|])
  {
    SpaceRunSpaces(s, 0);
    s[..SpaceRun(s, 0)]
  }

  /** The length of the alternative of `(n\.v\.|z\.|v\.)` that matches, tried in order, or 0. */
  function PrefixLength(s: string): (n: nat)
    ensures n == 0 || n == 2 || n == 4
    ensures n <= |s|
    ensures n > 0 ==> IsKindPrefix(s[..n])
  {
    if StartsWithCi(s, "n.v.") then CiPrefix(s, "n.v."); 4
    else if StartsWithCi(s, "z.") then CiPrefix(s, "z."); 2
    else if StartsWithCi(s, "v.") then CiPrefix(s, "v."); 2
    else 0
  }

  lemma {:induction false} CiPrefix(s: string, lit: string)
    requires StartsWithCi(s, lit)
    ensures |lit| <= |s| && CiIs(s[..|lit|], lit)
    decreases |lit|
  {
    StartsWithCiLength(s, lit);
    if lit != [] {
      CiPrefix(s[1..], lit[1..]);
      assert s[..|lit|][1..] == s[1..][..|lit| - 1];
    }
  }

  /*
   * The match, one piece at a time. Every quantifier in the pattern is
   * followed by a character it cannot take (a `\s*` by a letter or a digit,
   * a `\d{2,4}` by '/' or white space or 's'), so backtracking never changes
   * where a piece ends: each piece is the greedy run, and the match fails
   * exactly when that run has the wrong length or the wrong follower.
   */

  /** The key: a prefix alternative, then the rest. */
  function SplitKey(s: string): (r: Option<KeyParts>)
    ensures r.Some? ==> WellFormedKey(r.value) && RenderKey(r.value) == s
  {
    var n := PrefixLength(s);
    if n == 0 then None
    else
      assert s == s[..n] + s[n..];
      SplitAfterPrefix(s[..n], s[n..])
  }

  /** `\s*c\.` after the prefix. */
  function SplitAfterPrefix(p: string, t: string): (r: Option<KeyParts>)
    requires IsKindPrefix(p)
    ensures r.Some? ==> WellFormedKey(r.value) && RenderKey(r.value) == p + t
  {
    var g1 := Spaces(t);
    var u := t[|g1|..];
    if |u| >= 2 && StartsWithCi(u, "c.") then
      CiPrefix(u, "c.");
      assert t == g1 + (u[..2] + u[2..]);
      SplitAfterC(p, g1, u[..2], u[2..])
    else None
  }

  /** `\s*(\d{2,4}` up to the '/'. */
  function SplitAfterC(p: string, g1: string, c: string, t: string): (r: Option<KeyParts>)
    requires IsKindPrefix(p) && AllSpace(g1) && CiIs(c, "c.")
    ensures r.Some? ==> WellFormedKey(r.value) && RenderKey(r.value) == p + (g1 + (c + t))
  {
    var g2 := Spaces(t);
    var u := t[|g2|..];
    var num := DigitPrefix(u);
    var v := u[|num|..];
    if 2 <= |num| <= 4 && v != [] && v[0] == '/' then
      RejoinAtSlash(t, g2, u, num, v);
      SplitAfterSlash(p, g1, c, g2, num, v[1..])
    else None
  }

  lemma RejoinAtSlash(t: string, g2: string, u: string, num: string, v: string)
    requires g2 <= t && u == t[|g2|..] && num <= u && v == u[|num|..] && v != [] && v[0] == '/'
    ensures t == g2 + (num + (['/'] + v[1..]))
  {
    assert v == ['/'] + v[1..];
    assert u == num + v;
    assert t == g2 + u;
  }

  /** `\d{2,4})\s*sb\.$` after the '/'. */
  function SplitAfterSlash(p: string, g1: string, c: string, g2: string, num: string, t: string): (r: Option<KeyParts>)
    requires IsKindPrefix(p) && AllSpace(g1) && CiIs(c, "c.") && AllSpace(g2)
    requires AllDigits(num) && 2 <= |num| <= 4
    ensures r.Some? ==> WellFormedKey(r.value)
    ensures r.Some? ==> RenderKey(r.value) == p + (g1 + (c + (g2 + (num + (['/'] + t)))))
  {
    var year := DigitPrefix(t);
    var u := t[|year|..];
    var g3 := Spaces(u);
    var sb := u[|g3|..];
    if 2 <= |year| <= 4 && CiIs(sb, "sb.") then
      assert t == year + (g3 + sb);
      Some(KeyParts(p, g1, c, g2, num, year, g3, sb))
    else None
  }

  /** `switch (prefix.toLowerCase())`: every accepted prefix, and the default, give "cs". */
  function CollectionFor(prefix: string): (collection: string)
    ensures collection == "cs"
  {
    if prefix == "n.v." then "cs"
    else if prefix == "z." then "cs"
    else if prefix == "v." then "cs"
    else "cs"
  }

  /**
   * `parseStandardizedText`: a key that does not match the pattern is an
   * error; otherwise the collection comes from the prefix and the document
   * is "<year>-<number>", both copied from the key.
   */
  function ParseStandardizedText(s: string): (r: Result<DocRef, string>)
    ensures r.Failure? ==> r.error == InvalidFormat
    ensures r.Success? ==> r.value.collection == "cs"
  {
    match SplitKey(s)
    case None => Failure(InvalidFormat)
    case Some(k) => Success(DocRef(CollectionFor(Lower(k.prefix)), k.year + "-" + k.num))
  }

  /* The pattern matches exactly the keys `RenderKey` spells. */

  lemma CiFirst(x: string, lit: string)
    requires CiIs(x, lit) && |lit| > 0
    ensures |x| > 0 && LowerChar(x[0]) == lit[0]
  {
  }

  /** A character that lower-cases to an ASCII letter is neither white space, a digit nor '/'. */
  lemma LetterChar(x: char, l: char)
    requires 'a' <= l <= 'z' && LowerChar(x) == l
    ensures !IsSpace(x) && !IsDigit(x) && x != '/'
  {
    LowerCharFacts(x);
  }

  lemma {:induction false} CiConcat(x: string, rest: string, lit: string)
    requires CiIs(x, lit)
    ensures StartsWithCi(x + rest, lit)
    decreases |lit|
  {
    if lit != [] {
      assert (x + rest)[1..] == x[1..] + rest;
      CiConcat(x[1..], rest, lit[1..]);
    }
  }

  lemma SpacesOf(w: string, rest: string)
    requires AllSpace(w) && (rest == [] || !IsSpace(rest[0]))
    ensures Spaces(w + rest) == w
  {
    var t := w + rest;
    assert forall j :: 0 <= j < |w| ==> IsSpace(t[j]);
    assert |w| < |t| ==> t[|w|] == rest[0];
    SpaceRunExact(t, 0, |w|);
    assert t[..|w|] == w;
  }

  lemma {:induction false} DigitPrefixOf(d: string, rest: string)
    requires AllDigits(d) && (rest == [] || !IsDigit(rest[0]))
    ensures DigitPrefix(d + rest) == d
    decreases |d|
  {
    if d != [] {
      assert (d + rest)[1..] == d[1..] + rest;
      DigitPrefixOf(d[1..], rest);
    }
  }

  lemma SlashStage(p: string, g1: string, c: string, g2: string, num: string, year: string, g3: string, sb: string)
    requires IsKindPrefix(p) && AllSpace(g1) && CiIs(c, "c.") && AllSpace(g2)
    requires AllDigits(num) && 2 <= |num| <= 4
    requires AllDigits(year) && AllSpace(g3) && CiIs(sb, "sb.")
    ensures SplitAfterSlash(p, g1, c, g2, num, year + (g3 + sb))
      == if 2 <= |year| <= 4 then Some(KeyParts(p, g1, c, g2, num, year, g3, sb)) else None
  {
    CiFirst(sb, "sb.");
    LetterChar(sb[0], 's');
    DigitPrefixOf(year, g3 + sb);
    assert (year + (g3 + sb))[|year|..] == g3 + sb;
    SpacesOf(g3, sb);
    assert (g3 + sb)[|g3|..] == sb;
  }

  lemma CStage(p: string, g1: string, c: string, g2: string, num: string, rest: string)
    requires IsKindPrefix(p) && AllSpace(g1) && CiIs(c, "c.")
    requires AllSpace(g2) && AllDigits(num)
    ensures SplitAfterC(p, g1, c, g2 + (num + (['/'] + rest)))
      == if 2 <= |num| <= 4 then SplitAfterSlash(p, g1, c, g2, num, rest) else None
  {
    var t := num + (['/'] + rest);
    SpacesOf(g2, t);
    assert (g2 + t)[|g2|..] == t;
    DigitPrefixOf(num, ['/'] + rest);
    assert t[|num|..] == ['/'] + rest;
  }

  lemma PrefixStage(p: string, g1: string, c: string, rest: string)
    requires IsKindPrefix(p) && AllSpace(g1) && CiIs(c, "c.")
    ensures SplitAfterPrefix(p, g1 + (c + rest)) == SplitAfterC(p, g1, c, rest)
  {
    CiFirst(c, "c.");
    LetterChar(c[0], 'c');
    SpacesOf(g1, c + rest);
    assert (g1 + (c + rest))[|g1|..] == c + rest;
    CiConcat(c, rest, "c.");
    assert (c + rest)[..2] == c && (c + rest)[2..] == rest;
  }

  lemma KeyStage(p: string, rest: string)
    requires IsKindPrefix(p)
    ensures SplitKey(p + rest) == SplitAfterPrefix(p, rest)
  {
    var s := p + rest;
    if CiIs(p, "n.v.") {
      CiConcat(p, rest, "n.v.");
    } else if CiIs(p, "z.") {
      CiFirst(p, "z.");
      CiConcat(p, rest, "z.");
    } else {
      CiFirst(p, "v.");
      CiConcat(p, rest, "v.");
    }
    assert PrefixLength(s) == |p|;
    assert s[..|p|] == p && s[|p|..] == rest;
  }

  /** Splitting a key that fits the pattern gives back its pieces. */
  lemma SplitKeyRender(k: KeyParts)
    requires WellFormedKey(k)
    ensures SplitKey(RenderKey(k)) == Some(k)
  {
    var tail := k.num + (['/'] + (k.year + (k.gap3 + k.sb)));
    KeyStage(k.prefix, k.gap1 + (k.c + (k.gap2 + tail)));
    PrefixStage(k.prefix, k.gap1, k.c, k.gap2 + tail);
    CStage(k.prefix, k.gap1, k.c, k.gap2, k.num, k.year + (k.gap3 + k.sb));
    SlashStage(k.prefix, k.gap1, k.c, k.gap2, k.num, k.year, k.gap3, k.sb);
  }

  /** `parseStandardizedText` succeeds exactly on the texts the key pattern matches. */
  lemma ParseAcceptsExactlyKeys(s: string)
    ensures ParseStandardizedText(s).Success? <==> exists k :: WellFormedKey(k) && RenderKey(k) == s
  {
    if exists k :: WellFormedKey(k) && RenderKey(k) == s {
      var k :| WellFormedKey(k) && RenderKey(k) == s;
      SplitKeyRender(k);
    }
  }

  /**
   * The document is the year, '-' and the number, copied from the key as
   * written: the year is not widened and the number is not padded.
   */
  lemma ParseRoundTrip(k: KeyParts)
    requires WellFormedKey(k)
    ensures ParseStandardizedText(RenderKey(k)) == Success(DocRef("cs", k.year + "-" + k.num))
  {
    SplitKeyRender(k);
  }

  /**
   * For each of the three prefixes, the key "<prefix> c. <number>/<year> sb."
   * is accepted exactly when both groups have two to four digits, so a
   * one-digit sequence number is rejected.
   */
  lemma ParseCanonicalKey(p: string, num: string, year: string)
    requires p == "n.v." || p == "z." || p == "v."
    requires AllDigits(num) && AllDigits(year)
    ensures ParseStandardizedText(p + " c. " + num + "/" + year + " sb.")
      == if 2 <= |num| <= 4 && 2 <= |year| <= 4 then Success(DocRef("cs", year + "-" + num))
         else Failure(InvalidFormat)
  {
    var g, c, sb := " ", "c.", "sb.";
    CanonicalLiterals(p, g, c, sb);
    var tail := year + (g + sb);
    CanonicalShape(p, num, year, g, c, sb);
    KeyStage(p, g + (c + (g + (num + (['/'] + tail)))));
    PrefixStage(p, g, c, g + (num + (['/'] + tail)));
    CStage(p, g, c, g, num, tail);
    if 2 <= |num| <= 4 {
      SlashStage(p, g, c, g, num, year, g, sb);
    }
  }

  lemma CanonicalShape(p: string, num: string, year: string, g: string, c: string, sb: string)
    requires g == " " && c == "c." && sb == "sb."
    ensures p + " c. " + num + "/" + year + " sb."
      == p + (g + (c + (g + (num + (['/'] + (year + (g + sb)))))))
  {
    assert " c. " == g + c + g;
    assert " sb." == g + sb;
  }

  lemma CanonicalLiterals(p: string, g: string, c: string, sb: string)
    requires p == "n.v." || p == "z." || p == "v."
    requires g == " " && c == "c." && sb == "sb."
    ensures IsKindPrefix(p) && AllSpace(g) && CiIs(c, "c.") && CiIs(sb, "sb.")
  {
  }

  lemma ParseExample()
    ensures ParseStandardizedText("n.v. c. 589/2006 sb.") == Success(DocRef("cs", "2006-589"))
  {
    var s := "n.v. c. 589/2006 sb.";
    var p, num, year := "n.v.", "589", "2006";
    ExampleLiterals(s, p, num, year);
    ParseCanonicalKey(p, num, year);
  }

  lemma ExampleLiterals(s: string, p: string, num: string, year: string)
    requires s == "n.v. c. 589/2006 sb." && p == "n.v." && num == "589" && year == "2006"
    ensures s == p + " c. " + num + "/" + year + " sb."
    ensures AllDigits(num) && AllDigits(year) && |num| == 3 && |year| == 4
    ensures year + "-" + num == "2006-589"
  {
  }

  /** An accepted key starts with 'n', 'z' or 'v', in either case. */
  lemma ParseNeedsKindLetter(s: string)
    ensures ParseStandardizedText(s).Success? ==>
      |s| > 0 && (LowerChar(s[0]) == 'n' || LowerChar(s[0]) == 'z' || LowerChar(s[0]) == 'v')
  {
    if ParseStandardizedText(s).Success? {
      SplitKeyNeedsPrefix(s);
      var n := PrefixLength(s);
      var p := s[..n];
      if CiIs(p, "n.v.") {
        CiFirst(p, "n.v.");
      } else if CiIs(p, "z.") {
        CiFirst(p, "z.");
      } else {
        CiFirst(p, "v.");
      }
    }
  }

  lemma SplitKeyNeedsPrefix(s: string)
    requires ParseStandardizedText(s).Success?
    ensures PrefixLength(s) > 0
  {
    assert SplitKey(s).Some?;
  }

  /**
   * The keys of notices ("s. c. ...") and of unclassified spans (" c. ...",
   * empty prefix) are always rejected.
   */
  lemma ParseRejectsOtherPrefixes(s: string)
    requires |s| > 0 && (s[0] == ' ' || s[0] == 's')
    ensures ParseStandardizedText(s).Failure?
  {
    var x := s[0];
    assert LowerChar(x) == x by { LowerCharFacts(x); }
    ParseNeedsKindLetter(s);
  }

  /**
   * A span classified as a notice, or not classified at all, gets a key the
   * parser rejects.
   */
  lemma UnclassifiedKeyRejected(text: string)
    requires Standardize.KindPrefix(text) == "" || Standardize.KindPrefix(text) == "s."
    ensures ParseStandardizedText(Standardize.StandardizeRegulation(text)).Failure?
  {
    var key := Standardize.StandardizeRegulation(text);
    assert key[0] == (if Standardize.KindPrefix(text) == "" then ' ' else 's');
    ParseRejectsOtherPrefixes(key);
  }

  /**
   * The keys `findLawNumbers` gives bare citation numbers (" c. n/y sb.")
   * are all rejected by the parser, and so are the keys the find page shows
   * after `normalizeYear`.
   */
  lemma BareNumberKeysRejected(text: string)
    ensures var ms := RegulationPatterns.LawNumbers(text);
      forall i :: 0 <= i < |ms| ==> ParseStandardizedText(ms[i].standardized).Failure?
    ensures var ms := Find.InputMatches(text);
      forall i :: 0 <= i < |ms| ==> ParseStandardizedText(ms[i].standardized).Failure?
  {
    var ls := RegulationPatterns.LawNumbers(text);
    RegulationPatterns.LawNumbersSound(text);
    forall i | 0 <= i < |ls| ensures ParseStandardizedText(ls[i].standardized).Failure? {
      BareKeyRejected(ls[i].text, ls[i].standardized);
    }
    var ms := Find.InputMatches(text);
    Find.InputMatchesSound(text);
    forall i | 0 <= i < |ms| ensures ParseStandardizedText(ms[i].standardized).Failure? {
      BareKeyRejected(ms[i].text, " c. " + ms[i].text + " sb.");
      Find.NormalizeYearLeadingSpace(" c. " + ms[i].text + " sb.");
      ParseRejectsOtherPrefixes(ms[i].standardized);
    }
  }

  lemma BareKeyRejected(t: string, key: string)
    requires key == " c. " + t + " sb."
    ensures key[0] == ' ' && ParseStandardizedText(key).Failure?
  {
    ParseRejectsOtherPrefixes(key);
  }

  /* `handleResponse` and `handleError`. */

  /** A JSON value as far as JavaScript truthiness needs it (numbers are integers here). */
  datatype Json = Undefined | Null | Bool(b: bool) | Num(n: int) | Str(s: string)
                | Arr(items: seq<Json>) | Obj(fields: map<string, Json>)

  predicate Truthy(v: Json)
  {
    match v
    case Undefined => false
    case Null => false
    case Bool(b) => b
    case Num(n) => n != 0
    case Str(s) => s != ""
    case Arr(_) => true
    case Obj(_) => true
  }

  /** `Api1.Error`: the status code and the optional message. */
  datatype ApiError = ApiError(httpStatusCode: int, message: Option<string>)

  /** `response.Api1`: `DocHead` (possibly undefined) and the optional `Error`. */
  datatype Api1 = Api1(docHead: Json, error: Option<ApiError>)

  /** What `handleResponse` returns: `Api1.DocHead`, or the whole `Api1`. */
  datatype Payload = DocHead(value: Json) | WholeResult(result: Api1)

  /** `message || 'Unknown error'`: a missing or empty message reads "Unknown error". */
  function MessageOrUnknown(message: Option<string>): (m: string)
    ensures m != ""
    ensures message.Some? && message.value != "" ==> m == message.value
    ensures message.None? || message.value == "" ==> m == "Unknown error"
  {
    if message.Some? && message.value != "" then message.value else "Unknown error"
  }

  /** "API error: <message> (HTTP <code>)", shared by both handlers. */
  function ApiErrorMessage(e: ApiError): (m: string)
    ensures |m| > 11 && m[..11] == "API error: "
  {
    "API error: " + MessageOrUnknown(e.message) + " (HTTP " + IntToString(e.httpStatusCode) + ")"
  }

  /**
   * `handleResponse`: an `Error` with a status other than 200 is thrown as
   * an API error; otherwise the result is `DocHead` when it is truthy and the
   * whole `Api1` object when it is not.
   */
  function HandleResponse(api1: Api1): (r: Result<Payload, string>)
    ensures r.Failure? <==> api1.error.Some? && api1.error.value.httpStatusCode != 200
    ensures r.Failure? ==> r.error == ApiErrorMessage(api1.error.value)
  {
    if api1.error.Some? && api1.error.value.httpStatusCode != 200 then
      Failure(ApiErrorMessage(api1.error.value))
    else if Truthy(api1.docHead) then Success(DocHead(api1.docHead))
    else Success(WholeResult(api1))
  }

  /** An `Error` carrying status 200 is ignored: the result is the one without it. */
  lemma HandleResponseIgnoresOk(docHead: Json, message: Option<string>)
    ensures HandleResponse(Api1(docHead, Some(ApiError(200, message))))
      == match HandleResponse(Api1(docHead, None))
         case Success(DocHead(v)) => Success(DocHead(v))
         case Success(WholeResult(_)) => Success(WholeResult(Api1(docHead, Some(ApiError(200, message)))))
         case Failure(e) => Failure(e)
  {
  }

  /**
   * A successful result is never a falsy `DocHead`, and the whole object is
   * returned only when `DocHead` is falsy.
   */
  lemma HandleResponsePayload(api1: Api1)
    requires HandleResponse(api1).Success?
    ensures match HandleResponse(api1).value
      case DocHead(v) => v == api1.docHead && Truthy(v)
      case WholeResult(res) => res == api1 && !Truthy(api1.docHead)
  {
  }

  /** `HttpErrorResponse.error`: a client-side `ErrorEvent`, or a server body that may carry `Api1.Error`. */
  datatype ErrorBody = ClientEvent(eventMessage: string) | ServerBody(api1Error: Option<ApiError>)

  /**
   * What `catchError` hands `handleError`: an `HttpErrorResponse`, or a plain
   * `Error` thrown inside the pipe, which has no `status` (`None`) and no
   * `error` body (`ServerBody(None)`: not an `ErrorEvent`, no `Api1.Error`).
   */
  datatype HttpErrorResponse = HttpErrorResponse(status: Option<int>, message: string, error: ErrorBody)

  /** `${error.status}`: the number, or "undefined" when there is none. */
  function StatusText(status: Option<int>): (t: string)
    ensures status.None? ==> t == "undefined"
    ensures status.Some? ==> t == IntToString(status.value)
  {
    match status
    case None => "undefined"
    case Some(n) => IntToString(n)
  }

  /**
   * The message `handleError` throws: "Client error: ..." for an
   * `ErrorEvent`; for anything else "Server error: <status> - <message>",
   * replaced by the API error message when the body carries `Api1.Error`.
   */
  function HandleError(e: HttpErrorResponse): (m: string)
    ensures e.error.ClientEvent? ==> m == "Client error: " + e.error.eventMessage
    ensures e.error.ServerBody? && e.error.api1Error.None? ==>
      m == "Server error: " + StatusText(e.status) + " - " + e.message
    ensures e.error.ServerBody? && e.error.api1Error.Some? ==> m == ApiErrorMessage(e.error.api1Error.value)
  {
    var m := if e.error.ClientEvent? then "Client error: " + e.error.eventMessage
      else "Server error: " + StatusText(e.status) + " - " + e.message;
    if e.error.ServerBody? && e.error.api1Error.Some? then ApiErrorMessage(e.error.api1Error.value) else m
  }

  /** The three kinds of message are told apart by their first word. */
  lemma HandleErrorKinds(e: HttpErrorResponse)
    ensures var m := HandleError(e);
      (e.error.ClientEvent? <==> |m| >= 14 && m[..14] == "Client error: ")
      && (e.error.ServerBody? && e.error.api1Error.None? <==> |m| >= 14 && m[..14] == "Server error: ")
      && (e.error.ServerBody? && e.error.api1Error.Some? <==> |m| >= 11 && m[..11] == "API error: ")
  {
    var m := HandleError(e);
    if e.error.ClientEvent? {
      assert m[..14] == "Client error: " && m[0] == 'C';
    } else if e.error.api1Error.None? {
      assert m[..14] == "Server error: " && m[0] == 'S';
    } else {
      assert m[..11] == "API error: " && m[0] == 'A';
    }
  }

  /**
   * For an `Api1.Error` with a status other than 200, the two handlers build
   * the same string: `handleResponse` from a response body, `handleError`
   * from an HTTP error body.
   */
  lemma ApiErrorSameMessage(docHead: Json, err: ApiError, status: Option<int>, message: string)
    requires err.httpStatusCode != 200
    ensures HandleResponse(Api1(docHead, Some(err))).Failure?
    ensures HandleResponse(Api1(docHead, Some(err))).error
      == HandleError(HttpErrorResponse(status, message, ServerBody(Some(err))))
  {
  }

  /** What the HTTP request of `getDocHead` yields: a response, or an HTTP error. */
  datatype HttpOutcome = Response(api1: Api1) | HttpFailure(failure: HttpErrorResponse)

  /**
   * The pipe of `getDocHead` as written: `map(handleResponse)` and then
   * `catchError(handleError)`. An `Error` thrown by `handleResponse` reaches
   * `handleError` as a plain `Error`, without status and without body.
   */
  function DocHeadPipe(outcome: HttpOutcome): (r: Result<Payload, string>)
    ensures outcome.HttpFailure? ==> r == Failure(HandleError(outcome.failure))
    ensures outcome.Response? ==> (r.Success? <==> HandleResponse(outcome.api1).Success?)
    ensures outcome.Response? && r.Success? ==> r == HandleResponse(outcome.api1)
    ensures outcome.Response? && r.Failure? ==>
      r.error == "Server error: undefined - " + HandleResponse(outcome.api1).error
  {
    match outcome
    case HttpFailure(e) => Failure(HandleError(e))
    case Response(api1) =>
      match HandleResponse(api1)
      case Success(p) => Success(p)
      case Failure(thrown) => Failure(HandleError(HttpErrorResponse(None, thrown, ServerBody(None))))
  }

  /**
   * As written, one `Api1.Error` reaches the caller with two different
   * messages: in a response body it is re-wrapped as a server error with an
   * "undefined" status; in an HTTP error body it is the API error message.
   */
  lemma DocHeadPipeRewrapsApiError(docHead: Json, err: ApiError, status: Option<int>, message: string)
    requires err.httpStatusCode != 200
    ensures DocHeadPipe(Response(Api1(docHead, Some(err))))
      == Failure("Server error: undefined - " + ApiErrorMessage(err))
    ensures DocHeadPipe(HttpFailure(HttpErrorResponse(status, message, ServerBody(Some(err)))))
      == Failure(ApiErrorMessage(err))
    ensures DocHeadPipe(Response(Api1(docHead, Some(err))))
      != DocHeadPipe(HttpFailure(HttpErrorResponse(status, message, ServerBody(Some(err)))))
  {
  }

  /**
   * The pipe as evidently intended: `handleError` handles HTTP errors, and
   * an `Error` thrown by `handleResponse` passes through with its message.
   */
  function DocHeadPipeIntended(outcome: HttpOutcome): (r: Result<Payload, string>)
    ensures outcome.HttpFailure? ==> r == Failure(HandleError(outcome.failure))
    ensures outcome.Response? ==> r == HandleResponse(outcome.api1)
  {
    match outcome
    case HttpFailure(e) => Failure(HandleError(e))
    case Response(api1) => HandleResponse(api1)
  }

  /**
   * With the intended pipe, an `Api1.Error` with a status other than 200
   * reaches the caller with the same message whichever way it arrives.
   */
  lemma DocHeadPipeIntendedSameMessage(docHead: Json, err: ApiError, status: Option<int>, message: string)
    requires err.httpStatusCode != 200
    ensures DocHeadPipeIntended(Response(Api1(docHead, Some(err))))
      == DocHeadPipeIntended(HttpFailure(HttpErrorResponse(status, message, ServerBody(Some(err)))))
    ensures DocHeadPipeIntended(Response(Api1(docHead, Some(err)))) == Failure(ApiErrorMessage(err))
  {
  }
}
