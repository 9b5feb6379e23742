# Czech regulation citations: a Dafny model

This project models the citation pipeline of the PS-v2 app. The pipeline has five steps:

- It finds citations of Czech legal regulations in free text, e.g. "nařízení vlády č. 589/2006 Sb.".
- It turns each citation into a canonical key such as "n.v. c. 589/2006 sb.".
- The find page widens two-digit years in the keys, using a 70 pivot.
- The API service parses a key into the `{collection, document}` pair it looks up.
- It decides what a successful or failed API answer becomes.

The model also covers the small string decisions beside the pipeline:

- the scan page: a file URL's extension, its MIME type and its download name;
- the Android `MyFileUtils` plugin: a content URI's extension, and the text read from it.

Modules, one per source file plus shared pieces:

- `Wrappers`: `Option` and `Result`.
- `MimeTypes`: the MIME types of the scan page and the plugin, defined once for both.
- `Strings`: JavaScript's `indexOf`, `lastIndexOf`, `split(c)[0]` and `split(c).pop()`, `trim`, `toLowerCase`, `parseInt` and number printing, all over `seq<char>`.
- `Lines`: CR/CRLF normalisation, `split('\n')` and `join('\n')`.
- `NumberTokens`: the number pattern `\d{1,4}\/\d{2,4}`, modelled concretely as a leftmost, greedy `exec` from `lastIndex`.
- `Standardize`: `standardizeRegulation`.
- `RegulationPatterns`: both scanners of the regulation-pattern service.
  - Each scanner is a method with the source's loops: lines, then regex matches, with a running offset. Each method is proved equal to a specification function.
  - The lemmas about those functions state offsets, order, line containment and keys.
  - The full-name pattern is an abstract matcher: a function parameter with a stated contract.
- `Find`: `normalizeYear`, and the `FindPage` class whose `OnInputChange` replaces its `matches` field.
- `ZakonyApi`: `parseStandardizedText`, `handleResponse` and `handleError`.
- `Scan`: the scan page's extension, MIME-type and file-name decisions.
- `MyFileUtils`: the plugin's `getExtensionFromMimeType` and `getFileExtension` decisions, and `readFileContent` as a method with the source's read loop.

Platform answers are parameters of the model:

- the content resolver's MIME type;
- the URI's last path segment;
- the lines a `BufferedReader` yields;
- the URL a file chooser resolves to.

A plugin call that resolves is `Success`; a call that is rejected is `Failure`.

The scanners report `start` and `end` as positions in the CR/CRLF-normalised text, as the code computes them. `currentOffset` adds `line.length + 1` per normalised line. So each CRLF before a match puts the reported offset one lower than the match's position in the raw input. `LawNumbersRaw` and `RegulationPatternsRaw` state the correspondence for every record, and `LawNumbersExampleCrlf` shows it on "a\r\n1/20". The comment at src/app/services/regulation-pattern.service.ts:59 speaks of positions in the original text; the model follows the code.

A consequence across files: the find page's keys are built from bare numbers, so they have an empty kind prefix ("␣c. N/Y sb."). `parseStandardizedText` rejects every such key (`ZakonyApi.BareNumberKeysRejected`).

## Model

| member | source | states |
|---|---|---|
| Lines.NormalizeNewlines | src/app/services/regulation-pattern.service.ts:19 | the same replacement is made at line 85; no contract of its own; its properties are stated by `NormalizeNewlinesShape`, `NormalizeNewlinesNoCr`, `NormalizeNewlinesSplit`, `RawOffset` and `NormalizedSpanIsRaw` |
| Lines.NormalizeNewlinesSplit | src/app/services/regulation-pattern.service.ts:19 | normalising a text cut anywhere except inside a CRLF pair equals normalising the two parts and joining them |
| Lines.RawOffset | src/app/services/regulation-pattern.service.ts:19 | each index s of the normalised text comes from raw index s + (CRLF pairs before it), never inside a pair, and normalising the raw text up to there gives the normalised text up to s |
| Lines.NormalizedSpanIsRaw | src/app/services/regulation-pattern.service.ts:19 | a piece of the normalised text without LF stands unchanged in the raw text at `RawOffset` of its index |
| Lines.NormalizeNewlinesShape | src/app/services/regulation-pattern.service.ts:19 | the normalised text holds no CR and is shorter than the input by exactly one character per CRLF pair |
| Lines.NormalizeNewlinesNoCr | src/app/services/regulation-pattern.service.ts:85 | a text without CR is left unchanged by the newline normalisation |
| Lines.SplitLines | src/app/services/regulation-pattern.service.ts:22 | `split('\n')` gives at least one piece, no piece holds '\n', and joining the pieces with '\n' gives the text back |
| Lines.SplitLinesCount | src/app/services/regulation-pattern.service.ts:86 | the number of lines is one more than the number of '\n' in the text |
| NumberTokens.ExecNumber | src/app/services/regulation-pattern.service.ts:15 | a match of the number pattern from `lastIndex` is non-empty, lies in the line at or after `lastIndex`, and is the greedy match at its start |
| NumberTokens.ExecNumberLeftmost | src/app/services/regulation-pattern.service.ts:92 | no position between `lastIndex` and the reported match starts a match; when nothing is reported, no position from `lastIndex` on starts one |
| NumberTokens.NumberMatchAtIsLongestToken | src/app/services/regulation-pattern.service.ts:15 | the greedy match at a position is exactly the longest citation number (1–4 digits, '/', 2–4 digits) starting there, both directions |
| NumberTokens.ExecNumberToken | src/app/services/regulation-pattern.service.ts:15 | every reported match is a citation number |
| NumberTokens.ContainsNumberIff | src/app/services/regulation-pattern.service.ts:125 | the number pattern matches a text if and only if the text contains a citation number somewhere |
| NumberTokens.FirstNumberToken | src/app/services/regulation-pattern.service.ts:125-126 | when the text has a citation number, `numberMatch[0]` is a non-empty citation number |
| Standardize.KindPrefix | src/app/services/regulation-pattern.service.ts:114-123 | no contract of its own; its properties are stated by `KindPrefixByFirstLetter` and `StandardizeRegulation` |
| Standardize.KindPrefixByFirstLetter | src/app/services/regulation-pattern.service.ts:114-123 | the four anchored patterns are decided by the first letter in the order n → "n.v.", v → "v.", z → "z."; only then "sdělení" → "s."; otherwise "" (so "yyhl." gets "") |
| Standardize.StandardizeRegulation | src/app/services/regulation-pattern.service.ts:113-129 | the key is the kind prefix + " c. " + the first citation number (or "") + " sb.", and the final lower-casing changes nothing |
| Standardize.StandardizeBareNumber | src/app/services/regulation-pattern.service.ts:98 | a bare citation number N/Y gets the key " c. N/Y sb.", with a leading space |
| RegulationPatterns.LawNumbersInLine | src/app/services/regulation-pattern.service.ts:90-107 | the inner `while (exec)` loop over one line returns the keyed spans of the specification scan of that line from `lastIndex = 0` |
| RegulationPatterns.FindLawNumbers | src/app/services/regulation-pattern.service.ts:84-111 | normalising the newlines, splitting the lines and scanning them returns exactly the specification `LawNumbers(text)` |
| RegulationPatterns.LawNumbersInLines | src/app/services/regulation-pattern.service.ts:89-109 | the loop over the lines, with the running offset growing by the line length plus one and the inner loop per line, returns the keyed spans of the specification scan of the lines from offset 0 |
| RegulationPatterns.LawNumberFindsInLinesPlaced | src/app/services/regulation-pattern.service.ts:89-109 | over lines joined by '\n', every span is the joined text at its offsets, within one line, a citation number, and the spans do not overlap and come in order |
| RegulationPatterns.LawNumbers | src/app/services/regulation-pattern.service.ts:84-111 | no contract of its own; its properties are stated by `FindLawNumbers`, `LawNumbersSound`, `LawNumbersLeftmostLongest`, `LawNumbersNone`, `LawNumbersRaw` and the `LawNumbersExample` rows |
| RegulationPatterns.LawNumbersSound | src/app/services/regulation-pattern.service.ts:84-111 | every result has start < end ≤ the length of the normalised text, text = normalised[start..end), end = start + length of text, no '\n' in its text, is a citation number, has key " c. text sb."; results do not overlap and have increasing starts |
| RegulationPatterns.LawNumbersLeftmostLongest | src/app/services/regulation-pattern.service.ts:92-95 | the first span from `lastIndex` is the leftmost match, is the longest citation number at its start, and the scan resumes at its end |
| RegulationPatterns.LawNumbersNone | src/app/services/regulation-pattern.service.ts:92 | a text without any citation number yields no results |
| RegulationPatterns.LawNumbersExampleLongFirstRun | src/app/services/regulation-pattern.service.ts:15 | "12345/67" reports "2345/67" at [1, 8) |
| RegulationPatterns.LawNumbersExampleLongYear | src/app/services/regulation-pattern.service.ts:15 | "1/20201" reports "1/2020" at [0, 6) |
| RegulationPatterns.LawNumbersRaw | src/app/services/regulation-pattern.service.ts:85-97 | every `findLawNumbers` record stands unchanged in the raw text at its reported start plus the CRLF pairs before it |
| RegulationPatterns.RawOffsetExampleCrlf | src/app/services/regulation-pattern.service.ts:85-96 | in "a\r\n1/20" the number reported at 2 stands at raw index 3 |
| RegulationPatterns.LawNumbersExampleCrlf | src/app/services/regulation-pattern.service.ts:108 | in "a\r\n1/20" the match is reported at [2, 6), an offset in the normalised text |
| RegulationPatterns.LawNumbersExampleEmpty | src/app/services/regulation-pattern.service.ts:84-111 | the empty text yields no results |
| RegulationPatterns.LawNumberFindsTwoLines | src/app/services/regulation-pattern.service.ts:108 | the second line's spans are offset by the length of the first line plus one |
| RegulationPatterns.LawNumberFindsOneLine | src/app/services/regulation-pattern.service.ts:85-86 | a text without line breaks is scanned as one line at offset 0 |
| RegulationPatterns.Exec | src/app/services/regulation-pattern.service.ts:31 | a full-name match from `lastIndex` is non-empty and lies in the line at or after `lastIndex` |
| RegulationPatterns.UnwantedLength | src/app/services/regulation-pattern.service.ts:38-42 | the cut never exceeds the match, and when there is a cut it takes every space after the phrase: what follows it is empty or starts with a non-space |
| RegulationPatterns.UnwantedLengthIff | src/app/services/regulation-pattern.service.ts:38-41 | a match is cut exactly when it starts, case-insensitively, with "ve" + spaces + "znění", with "znění" or with "zařízení" (`StartsWithUnwanted`, stated letter by letter, apart from the phrase matcher) |
| RegulationPatterns.UnwantedLengthOfPrefix | src/app/services/regulation-pattern.service.ts:38-42 | a match that starts with such a phrase of k characters loses at least k characters, and everything cut after the phrase is white space |
| RegulationPatterns.UnwantedLengthExampleVeZneni | src/app/services/regulation-pattern.service.ts:38-42 | "Ve  Znění x" loses its first ten characters, the phrase and the space after it |
| RegulationPatterns.UnwantedLengthExampleVyhlaska | src/app/services/regulation-pattern.service.ts:38-41 | "Vyhláška" starts with no unwanted phrase and loses nothing |
| RegulationPatterns.UnwantedCutOk | src/app/services/regulation-pattern.service.ts:41-45 | the unwanted-phrase cut of a match satisfies the cut conditions the revalidation relies on |
| RegulationPatterns.Refine | src/app/services/regulation-pattern.service.ts:36-57 | no contract of its own; its properties are stated by `RefineWhole`, `RefinePhraseCut`, `RefineCut` and `RefineHoldsNumber` |
| RegulationPatterns.Revalidate | src/app/services/regulation-pattern.service.ts:46-56 | no contract of its own; its properties are stated by `RefineCut` and `RefineHoldsNumber` |
| RegulationPatterns.RefineWhole | src/app/services/regulation-pattern.service.ts:32-61 | a match that does not start with an unwanted phrase (`StartsWithUnwanted` false) is reported whole: its own text, at the line offset plus its index |
| RegulationPatterns.RefinePhraseCut | src/app/services/regulation-pattern.service.ts:38-57 | a match that starts with an unwanted phrase of k characters is dropped, or reported at its own offsets inside the match with its start moved forward by at least k |
| RegulationPatterns.RefineCut | src/app/services/regulation-pattern.service.ts:41-57 | when a phrase is cut, the match is dropped or reported with its start moved forward by at least the cut length, inside the raw span |
| RegulationPatterns.RefineHoldsNumber | src/app/services/regulation-pattern.service.ts:49-54 | a revalidated span still holds a citation number |
| RegulationPatterns.FullNameFindsInLinesPlaced | src/app/services/regulation-pattern.service.ts:27-79 | over lines joined by '\n', every reported span is the text at its offsets, lies within one line and holds a citation number, and spans do not overlap and come in order |
| RegulationPatterns.RegulationPatternsInLine | src/app/services/regulation-pattern.service.ts:28-75 | the inner loop over one line, with trimming and revalidation, returns the keyed spans of the specification scan of that line |
| RegulationPatterns.FindRegulationPatterns | src/app/services/regulation-pattern.service.ts:17-82 | the method returns exactly the specification `RegulationPatterns(exec, text)` |
| RegulationPatterns.RegulationPatterns | src/app/services/regulation-pattern.service.ts:17-82 | no contract of its own; its properties are stated by `FindRegulationPatterns`, `RegulationPatternsSound`, `RegulationPatternsNone`, `RegulationPatternsRaw` and `KeyedPlaced` |
| RegulationPatterns.RegulationPatternsSound | src/app/services/regulation-pattern.service.ts:17-82 | every result is normalised[start..end) with end = start + length of text, lies in one line, holds a citation number, and has key prefix + " c. " + first number + " sb."; results do not overlap and have increasing starts |
| RegulationPatterns.RegulationPatternsNone | src/app/services/regulation-pattern.service.ts:14 | a text without any citation number yields no results |
| RegulationPatterns.RegulationPatternsRaw | src/app/services/regulation-pattern.service.ts:19-61 | every `findRegulationPatterns` record stands unchanged in the raw text at its reported start plus the CRLF pairs before it |
| RegulationPatterns.KeyedPlaced | src/app/services/regulation-pattern.service.ts:60-71 | each record keeps the span's text and offsets and gets `standardizeRegulation(text)` as its key |
| Find.NormalizeYear | src/app/find/find.page.ts:78-93 | no contract of its own; its properties are stated by `NormalizeYearNoSlash`, `NormalizeYearOtherwise`, `NormalizeYearTwoChars`, `NormalizeYearTwoCharsForm`, `NormalizeYearOfParts`, `NormalizeYearIdempotent`, `NormalizeYearLeadingSpace` and the two `NormalizeYearExample` rows |
| Find.WidenYear | src/app/find/find.page.ts:86-89 | no contract of its own; its properties are stated by `NormalizeYearTwoChars`, `NormalizeYearTwoCharsForm` and `NormalizeYearOfParts` |
| Find.YearPart | src/app/find/find.page.ts:81 | the year token holds no space and lies after the first '/' |
| Find.ExpandedYear | src/app/find/find.page.ts:89 | the widened year has at least three characters and holds no space and no '/' |
| Find.ExpandedTwoDigits | src/app/find/find.page.ts:82-89 | for two digits with value v, the year is "19"+v when v > 70 and "20"+v otherwise, printed without a leading zero; it has four characters exactly when the first digit is not 0 |
| Strings.ParseInt | src/app/find/find.page.ts:82 | no contract of its own; its properties are stated by `Find.ParseIntDigits` and `Find.NormalizeYearExample05` |
| Find.ParseIntDigits | src/app/find/find.page.ts:82 | `parseInt` of a run of digits is its decimal value |
| Find.NormalizeYearNoSlash | src/app/find/find.page.ts:79-80 | a key without '/' comes back unchanged, not lower-cased |
| Find.NormalizeYearOtherwise | src/app/find/find.page.ts:83-92 | a key whose year token is not two characters long is only lower-cased |
| Find.NormalizeYearTwoChars | src/app/find/find.page.ts:85-90 | with a two-character year token, the '/' stays at its index and the lower-cased widened year becomes the new year token |
| Find.NormalizeYearTwoCharsForm | src/app/find/find.page.ts:85-90 | with a two-character year token, the result is the lower-cased text before the '/', '/', the lower-cased widened year, and the lower-cased text after the token |
| Find.NormalizeYearOfParts | src/app/find/find.page.ts:85-90 | a key laid out as p + '/' + two-character year + (empty or space-led) q becomes lower(p) + '/' + lower(widened year) + lower(q) |
| Find.NormalizeYearExample99 | src/app/find/find.page.ts:89 | " c. 1/99 sb." becomes " c. 1/1999 sb." |
| Find.NormalizeYearExample05 | src/app/find/find.page.ts:82-89 | " c. 1/05 sb." becomes " c. 1/205 sb.", because `parseInt` drops the leading zero |
| Find.YearPartLower | src/app/find/find.page.ts:81-84 | lower-casing a key keeps its '/' at the same index and lower-cases its year token |
| Find.NormalizeYearIdempotent | src/app/find/find.page.ts:78-93 | applying `normalizeYear` twice gives what applying it once gives |
| Find.NormalizeYearLeadingSpace | src/app/find/find.page.ts:87-90 | a key starting with a space (every bare-number key) still starts with one |
| Find.NormalizeMatch | src/app/find/find.page.ts:31-35 | rewriting a match's key keeps its text, start and end |
| Find.InputMatches | src/app/find/find.page.ts:25-40 | no contract of its own; its properties are stated by `InputMatchesSound` and `Find.FindPage.OnInputChange` |
| Find.InputMatchesSound | src/app/find/find.page.ts:25-40 | blank text gives no matches; otherwise the matches are the law-number matches with text and offsets unchanged, each key = `normalizeYear(" c. text sb.")`, each span in the normalised text, in order without overlap |
| Find.FindPage.constructor | src/app/find/find.page.ts:13-14 | the page starts with empty text and no matches |
| Find.FindPage.OnInputChange | src/app/find/find.page.ts:25-40 | the text is unchanged and `matches` becomes the rescan of the text, as `InputMatchesSound` describes it |
| ZakonyApi.SplitKey | src/app/services/zakony-api.service.ts:50 | a successful split yields pieces that fit the pattern and spell the key back exactly |
| ZakonyApi.CollectionFor | src/app/services/zakony-api.service.ts:59-72 | every prefix, including the default, maps to "cs" |
| ZakonyApi.ParseStandardizedText | src/app/services/zakony-api.service.ts:48-79 | a failure carries "Invalid standardized format"; a success has collection "cs" |
| ZakonyApi.ParseAcceptsExactlyKeys | src/app/services/zakony-api.service.ts:50-53 | parsing succeeds if and only if the key is spelled by pieces fitting the pattern: prefix n.v., z. or v., spaces, "c.", spaces, 2–4 digits, '/', 2–4 digits, spaces, "sb.", case-insensitively and with nothing before or after |
| ZakonyApi.ParseRoundTrip | src/app/services/zakony-api.service.ts:50-78 | parsing any key spelled from fitting pieces gives `{cs, year + "-" + number}`, digits copied unchanged |
| ZakonyApi.ParseCanonicalKey | src/app/services/zakony-api.service.ts:50-76 | for p ∈ {n.v., z., v.}, `p c. N/Y sb.` parses to `{cs, Y-N}` exactly when both groups have 2–4 digits; otherwise it fails |
| ZakonyApi.ParseExample | src/app/services/zakony-api.service.ts:74-76 | "n.v. c. 589/2006 sb." gives `{cs, 2006-589}` |
| ZakonyApi.ParseNeedsKindLetter | src/app/services/zakony-api.service.ts:50 | an accepted key starts with n, z or v in either case |
| ZakonyApi.ParseRejectsOtherPrefixes | src/app/services/zakony-api.service.ts:50-53 | a key starting with a space (empty prefix) or with 's' (the "s." prefix) is rejected |
| ZakonyApi.UnclassifiedKeyRejected | src/app/services/zakony-api.service.ts:50-53 | the key of a span classified "" or "s." is rejected |
| ZakonyApi.BareNumberKeysRejected | src/app/services/zakony-api.service.ts:50-53 | every key `findLawNumbers` produces, and every key the find page rewrites, is rejected |
| ZakonyApi.MessageOrUnknown | src/app/services/zakony-api.service.ts:89 | a missing or empty message reads "Unknown error"; any other message is kept |
| ZakonyApi.ApiErrorMessage | src/app/services/zakony-api.service.ts:89 | the API error message starts with "API error: " |
| ZakonyApi.HandleResponse | src/app/services/zakony-api.service.ts:86-92 | it fails exactly when `Api1.Error` exists with a status other than 200, with the API error message |
| ZakonyApi.HandleResponseIgnoresOk | src/app/services/zakony-api.service.ts:88 | an `Error` with status 200 changes nothing except the object returned as the whole result |
| ZakonyApi.HandleResponsePayload | src/app/services/zakony-api.service.ts:91 | a success is `DocHead` exactly when it is truthy, and otherwise the whole `Api1` object |
| ZakonyApi.HandleError | src/app/services/zakony-api.service.ts:99-113 | an `ErrorEvent` gives "Client error: " + message; a body with `Api1.Error` gives the API error message; otherwise "Server error: status - message", with "undefined" for a missing status |
| ZakonyApi.HandleErrorKinds | src/app/services/zakony-api.service.ts:101-110 | the three kinds of error are told apart by the message's first words, in both directions |
| ZakonyApi.ApiErrorSameMessage | src/app/services/zakony-api.service.ts:107-109 | for an `Api1.Error` with a status other than 200, `handleResponse` and `handleError` build the same string (what the caller of `getDocHead` sees is `DocHeadPipe`) |
| ZakonyApi.DocHeadPipe | src/app/services/zakony-api.service.ts:37-40 | an HTTP error is handled by `handleError`; a response passes through `handleResponse` when it succeeds, and its thrown message reaches the caller as "Server error: undefined - " + that message |
| ZakonyApi.DocHeadPipeRewrapsApiError | src/app/services/zakony-api.service.ts:37-40 | an `Api1.Error` with a status other than 200 reaches the caller as "Server error: undefined - API error: …" from a response body, and as "API error: …" from an HTTP error body; the two differ |
| ZakonyApi.DocHeadPipeIntended | src/app/services/zakony-api.service.ts:37-40 | an HTTP error is handled by `handleError`, and a response gives exactly what `handleResponse` gives, its failure message included |
| ZakonyApi.DocHeadPipeIntendedSameMessage | src/app/services/zakony-api.service.ts:37-40 | with the intended pipe, an `Api1.Error` with a status other than 200 reaches the caller as the same API error message both ways |
| Scan.GetFileExtension | src/app/scan/scan.page.ts:117-119 | a missing or empty URL has no extension; an extension is non-empty, holds no '.' and is lower case |
| Scan.ExtensionOfUrl | src/app/scan/scan.page.ts:118 | the extension is missing exactly when the URL ends in '.'; a URL without '.' is its own lower-cased extension; otherwise it is the lower-cased text after the last '.' |
| Scan.MimeTypeFor | src/app/scan/scan.page.ts:83-98 | pdf, and only pdf, gives "application/pdf"; txt, and only txt, "text/plain"; docx, and only docx, "application/vnd.openxmlformats-officedocument.wordprocessingml.document"; odt, and only odt, "application/vnd.oasis.opendocument.text"; no other extension has a MIME type |
| Scan.PickedFileAction | src/app/scan/scan.page.ts:79-98 | a file is opened, at its own URL, exactly when it has an extension with a MIME type, and it is opened with the MIME type of that extension |
| Scan.PickedPdfExample | src/app/scan/scan.page.ts:79-85 | "report.PDF" is opened as "application/pdf" |
| Scan.FileName | src/app/scan/scan.page.ts:105 | the name is the text after the last '/', or the whole URL when it has none |
| MyFileUtils.ExtensionFromMimeType | my-file-utils/android/src/main/java/com/example/myfileutils/MyFileUtilsPlugin.java:80-89 | compared after lower-casing: "application/pdf", and only it, gives pdf; "image/jpeg" jpg; "image/png" png; "text/plain" txt; the docx type docx; every other type gives "" |
| MyFileUtils.MimeTablesAgree | my-file-utils/android/src/main/java/com/example/myfileutils/MyFileUtilsPlugin.java:80-89 | the MIME types the scan page opens pdf, txt and docx with are read back by the plugin as pdf, txt and docx; its odt type is read back as "" |
| MyFileUtils.ExtensionFromName | my-file-utils/android/src/main/java/com/example/myfileutils/MyFileUtilsPlugin.java:34-40 | with a '.', the extension is the text after the last '.', case kept; without a name or a '.', it is "" |
| MyFileUtils.GetFileExtension | my-file-utils/android/src/main/java/com/example/myfileutils/MyFileUtilsPlugin.java:17-49 | the call is rejected with "URI not provided" exactly when the URI is missing |
| MyFileUtils.GetFileExtensionShape | my-file-utils/android/src/main/java/com/example/myfileutils/MyFileUtilsPlugin.java:30-45 | with a URI the call resolves with a non-null extension without '.'; a MIME type alone decides it, and otherwise the file name does |
| MyFileUtils.MimeTypeWins | my-file-utils/android/src/main/java/com/example/myfileutils/MyFileUtilsPlugin.java:31-32 | a file of type "IMAGE/PNG" named "scan.pdf" reports "png" |
| MyFileUtils.ReadFileContent | my-file-utils/android/src/main/java/com/example/myfileutils/MyFileUtilsPlugin.java:51-78 | a missing URI is rejected with "URI not provided"; otherwise the content is every line read, each followed by "\n" |
| MyFileUtils.Appended | my-file-utils/android/src/main/java/com/example/myfileutils/MyFileUtilsPlugin.java:66-69 | no contract of its own; its properties are stated by `ReadFileContent`, `AppendedCons`, `SplitAppended` and `AppendedNewlines` |
| MyFileUtils.AppendedCons | my-file-utils/android/src/main/java/com/example/myfileutils/MyFileUtilsPlugin.java:66-69 | the content is the first line, "\n", and the content of the remaining lines |
| MyFileUtils.SplitAppended | my-file-utils/android/src/main/java/com/example/myfileutils/MyFileUtilsPlugin.java:66-69 | splitting the content at '\n' gives the lines back, followed by one empty piece |
| MyFileUtils.AppendedNewlines | my-file-utils/android/src/main/java/com/example/myfileutils/MyFileUtilsPlugin.java:66-69 | the content holds exactly one '\n' per line read |

## Left out

- The full-name pattern (regulation-pattern.service.ts:14) is not modelled character by character. Its Unicode letter classes, lookbehind, `/iu` folding and OCR alternatives are left out. It is an abstract matcher:
  - its contract is `MatcherContract`: a match is non-empty and lies in the line at or after `lastIndex`;
  - `MatcherFindsNumbers` adds that a match holds a citation number, which the pattern's `\d{1,4}\/\d{2,4}` group guarantees.
- Characters are Unicode scalar values, while JavaScript strings count UTF-16 code units. Offsets differ for text outside the Basic Multilingual Plane.
- Lower-casing knows ASCII and the fifteen Czech upper-case letters. It leaves every other character unchanged, and so omits Unicode case mappings that change a string's length.
- Case-insensitive `/i` and `/iu` matching is modelled by the same lower-casing, not by Unicode simple case folding. This covers the kind-prefix anchors of `standardizeRegulation` (regulation-pattern.service.ts:115-121) and the unwanted-phrase test (regulation-pattern.service.ts:38). So characters that fold to a Latin letter without being its upper case are not matched: U+017F (long s) matches `s` under `/iu`, and for "ſdělení č. 1/2020 Sb." the source picks the "s." prefix where `KindPrefix` gives "".
- Java's `toLowerCase()` depends on the default locale (e.g. Turkish dotted i). The model lower-cases as above.
- `console.log` and `console.error` calls are not modelled.
- Thrown errors are `Failure` values. For `handleError`, the `throwError(...)` Observable is the message alone.
- `handleError`'s initial "An error occurred" is never returned, so it has no counterpart.
- JSON numbers in `Api1.DocHead` are integers. Floating-point values and NaN are not modelled.
- HTTP transport is not modelled: HttpClient, the request URL and parameters, and Observables. What the request yields is a parameter of `DocHeadPipe`. The synchronous `parseStandardizedText` call at the head of `getDocHead` is modelled on its own.
- `navigateToDetail` in find.page.ts is not modelled. It is router and network glue around `parseStandardizedText`.
- Device I/O is not modelled, and its results are parameters:
  - the camera, file chooser, file transfer, file opener and DOM file input of the scan page;
  - the content resolver and stream opening of the plugin.
- The plugin's exception paths are not modelled. These are "Error getting file extension: …" and "Failed to read file content: …", raised when the platform throws.
- `BufferedReader.readLine` splits on CR, LF and CRLF. The model takes the lines it yields as a parameter.
- The page components outside the pipeline are not part of this model. These are the document-detail, settings, user and tabs pages, the Angular modules and the configuration.

## Findings

| source | as written | input that shows it | evidently intended | confidence | as-written member | corrected member |
|---|---|---|---|---|---|---|
| src/app/services/zakony-api.service.ts:37-40 | `catchError(this.handleError)` also catches the `Error` that `handleResponse` throws inside `map`; that `Error` has no `status` and no `error` body, so it is re-wrapped as "Server error: undefined - API error: …" | a response whose `Api1.Error` has status 404 and message "x": the caller sees "Server error: undefined - API error: x (HTTP 404)", while the same `Error` in an HTTP error body gives "API error: x (HTTP 404)" | `handleError` handles HTTP errors only, and the API error from a response reaches the caller as "API error: …" | medium, not executed | ZakonyApi.DocHeadPipeRewrapsApiError | ZakonyApi.DocHeadPipeIntendedSameMessage |
