/**
 * The Android side of the MyFileUtils plugin: the extension reported for a
 * content URI and the text read from it. What the platform answers (the
 * resolver's MIME type, the URI's last path segment, the lines the reader
 * yields) comes in as parameters; a call resolves with `Success` or is
 * rejected with `Failure`.
 */
module MyFileUtils {
  import opened Wrappers
  import opened Strings
  import opened Lines
  import opened MimeTypes
  import Scan

  const UriNotProvided: string := "URI not provided"

  /**
   * `getExtensionFromMimeType`: five MIME types, compared after
   * lower-casing, have an extension; every other type has "".
   */
  function ExtensionFromMimeType(mimeType: string): (ext: string)
    ensures ext in ["pdf", "jpg", "png", "txt", "docx", ""]
    ensures ext == "" <==> Lower(mimeType) !in KnownMimeTypes
    ensures ext == "pdf" <==> Lower(mimeType) == PdfType
    ensures ext == "jpg" <==> Lower(mimeType) == JpegType
    ensures ext == "png" <==> Lower(mimeType) == PngType
    ensures ext == "txt" <==> Lower(mimeType) == TextType
    ensures ext == "docx" <==> Lower(mimeType) == DocxType
  {
    var m := Lower(mimeType);
    if m == PdfType then "pdf"
    else if m == JpegType then "jpg"
    else if m == PngType then "png"
    else if m == TextType then "txt"
    else if m == DocxType then "docx"
    else ""
  }

  const KnownMimeTypes: seq<string> := [PdfType, JpegType, PngType, TextType, DocxType]

  /**
   * The scan page's MIME types, read back by the plugin: pdf, txt and docx
   * come back as themselves; the plugin does not know the odt type.
   */
  lemma MimeTablesAgree()
    ensures forall e :: e in ["pdf", "txt", "docx"] ==>
      Scan.MimeTypeFor(e).Some? && ExtensionFromMimeType(Scan.MimeTypeFor(e).value) == e
    ensures Scan.MimeTypeFor("odt").Some? && ExtensionFromMimeType(Scan.MimeTypeFor("odt").value) == ""
  {
    OpenedTypesLower();
    assert |Lower(OdtType)| == |OdtType|;
  }

  /** `fileName.substring(fileName.lastIndexOf('.') + 1)` when there is a '.', else "". */
  function ExtensionFromName(fileName: Option<string>): (ext: string)
    ensures '.' !in ext
    ensures fileName.Some? && '.' in fileName.value ==>
      |ext| < |fileName.value| && ext == fileName.value[|fileName.value| - |ext|..]
      && fileName.value[|fileName.value| - |ext| - 1] == '.'
    ensures fileName.None? || '.' !in fileName.value ==> ext == ""
  {
    if fileName.None? then ""
    else
      var i := LastIndexOf(fileName.value, '.');
      if i == -1 then "" else fileName.value[i + 1..]
  }

  /**
   * `getFileExtension`: a missing URI is rejected; a MIME type, when the
   * resolver knows one, decides the extension on its own (with no fallback
   * to the file name, even when it maps to ""); without one the extension
   * comes from the last path segment, case kept.
   */
  function GetFileExtension(uri: Option<string>, mimeType: Option<string>, lastPathSegment: Option<string>)
    : (r: Result<string, string>)
    ensures r.Failure? <==> uri.None?
    ensures r.Failure? ==> r.error == UriNotProvided
  {
    if uri.None? then Failure(UriNotProvided)
    else
      var extension := if mimeType.Some? then ExtensionFromMimeType(mimeType.value) else ExtensionFromName(lastPathSegment);
      Success(extension)
  }

  /** The resolved extension is never null and never holds a '.'. */
  lemma GetFileExtensionShape(uri: string, mimeType: Option<string>, lastPathSegment: Option<string>)
    ensures var r := GetFileExtension(Some(uri), mimeType, lastPathSegment);
      r.Success? && '.' !in r.value
      && (mimeType.Some? ==> r.value == ExtensionFromMimeType(mimeType.value))
      && (mimeType.None? ==> r.value == ExtensionFromName(lastPathSegment))
  {
    var r := GetFileExtension(Some(uri), mimeType, lastPathSegment);
    if mimeType.Some? {
      var ext := ExtensionFromMimeType(mimeType.value);
      assert '.' !in ext;
    }
  }

  /** A known MIME type wins over the file name: a PNG named "scan.pdf" reports "png". */
  lemma MimeTypeWins(uri: string)
    ensures GetFileExtension(Some(uri), Some("IMAGE/PNG"), Some("scan.pdf")) == Success("png")
  {
    assert Lower("IMAGE/PNG") == PngType;
  }

  /** What the `StringBuilder` holds after the given lines: each line followed by "\n". */
  function Appended(lines: seq<string>): string
  {
    if lines == [] then "" else Appended(lines[..|lines| - 1]) + lines[|lines| - 1] + "\n"
  }

  /**
   * `readFileContent`: a missing URI is rejected; otherwise every line the
   * reader yields is appended followed by "\n", and the result is the text
   * built.
   */
  method ReadFileContent(uri: Option<string>, lines: seq<string>) returns (r: Result<string, string>)
    ensures uri.None? ==> r == Failure(UriNotProvided)
    ensures uri.Some? ==> r == Success(Appended(lines))
  {
    if uri.None? {
      return Failure(UriNotProvided);
    }
    var content := "";
    var i := 0;
    while i < |lines|
      invariant 0 <= i <= |lines|
      invariant content == Appended(lines[..i])
    {
      assert lines[..i + 1][..i] == lines[..i];
      content := content + lines[i] + "\n";
      i := i + 1;
    }
    assert lines[..i] == lines;
    return Success(content);
  }

  /** Reading the first line first: the text is that line, "\n", and the text of the rest. */
  lemma {:induction false} AppendedCons(lines: seq<string>)
    requires lines != []
    ensures Appended(lines) == lines[0] + "\n" + Appended(lines[1..])
    decreases |lines|
  {
    if |lines| > 1 {
      var init, last := lines[..|lines| - 1], lines[|lines| - 1];
      var tail := lines[1..];
      AppendedCons(init);
      assert tail[..|tail| - 1] == init[1..] && tail[|tail| - 1] == last && init[0] == lines[0];
      AppendedSnoc(lines, init, last);
      AppendedSnoc(tail, init[1..], last);
      ReassociateLine(lines[0], Appended(init[1..]), last);
    } else {
      assert lines[1..] == [];
      assert lines[..0] == [];
    }
  }

  lemma AppendedSnoc(lines: seq<string>, init: seq<string>, last: string)
    requires lines != [] && init == lines[..|lines| - 1] && last == lines[|lines| - 1]
    ensures Appended(lines) == Appended(init) + last + "\n"
  {
  }

  lemma ReassociateLine(a: string, b: string, c: string)
    ensures a + "\n" + b + c + "\n" == a + "\n" + (b + c + "\n")
  {
  }

  /** Splitting at the first '\n' of a text whose first line is `head`. */
  lemma SplitCons(head: string, rest: string)
    requires '\n' !in head
    ensures SplitLines(head + "\n" + rest) == [head] + SplitLines(rest)
  {
    var s := head + "\n" + rest;
    assert s[..|head|] == head && s[|head|] == '\n';
    assert IndexOf(s, '\n') == |head|;
    assert s[|head| + 1..] == rest;
  }

  /**
   * With lines that hold no '\n' (as a line reader yields them), splitting
   * the text at '\n' gives the lines back followed by the empty piece after
   * the last "\n".
   */
  lemma {:induction false} SplitAppended(lines: seq<string>)
    requires forall k :: 0 <= k < |lines| ==> '\n' !in lines[k]
    ensures SplitLines(Appended(lines)) == lines + [""]
    decreases |lines|
  {
    if lines == [] {
      assert SplitLines("") == [""];
    } else {
      AppendedCons(lines);
      SplitAppended(lines[1..]);
      SplitCons(lines[0], Appended(lines[1..]));
      assert lines + [""] == [lines[0]] + (lines[1..] + [""]);
    }
  }

  /** The text read holds exactly one '\n' per line. */
  lemma AppendedNewlines(lines: seq<string>)
    requires forall k :: 0 <= k < |lines| ==> '\n' !in lines[k]
    ensures CountChar(Appended(lines), '\n') == |lines|
  {
    SplitAppended(lines);
    SplitLinesCount(Appended(lines));
  }
}
