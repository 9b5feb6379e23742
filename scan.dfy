/**
 * The string decisions of the scan page: the extension of a picked file's
 * URL, the MIME type a supported extension is opened with, and the file
 * name the download is saved under.
 */
module Scan {
  import opened Wrappers
  import opened Strings
  import opened MimeTypes

  /**
   * `getFileExtension`: a missing or empty URL has no extension; otherwise
   * the extension is the lower-cased text after the last '.', and an empty
   * one (a URL ending in '.') counts as none.
   */
  function GetFileExtension(fileUrl: Option<string>): (r: Option<string>)
    ensures fileUrl.None? || fileUrl == Some("") ==> r.None?
    ensures r.Some? ==> r.value != "" && '.' !in r.value && IsLower(r.value)
  {
    if fileUrl.None? || fileUrl.value == "" then None
    else
      var last := AfterLast(fileUrl.value, '.');
      var ext := Lower(last);
      LowerIsLower(last);
      SeparatorLower(last, '.');
      if ext == "" then None else Some(ext)
  }

  /**
   * For a non-empty URL the extension is the lower-cased last '.'-separated
   * segment: a URL without '.' is its own extension, and a URL ending in '.'
   * has none.
   */
  lemma ExtensionOfUrl(url: string)
    requires url != ""
    ensures var r := GetFileExtension(Some(url));
      (r.None? <==> url[|url| - 1] == '.')
      && ('.' !in url ==> r == Some(Lower(url)))
      && (r.Some? ==> |r.value| < |url| ==> url[|url| - |r.value| - 1] == '.')
      && (r.Some? ==> r.value == Lower(url[|url| - |r.value|..]))
  {
    var last := AfterLast(url, '.');
    if last == [] {
      assert url[|url| - 1] == '.';
    } else {
      assert url[|url| - 1] == last[|last| - 1];
    }
  }

  /** `openFile(fileUrl, mimeType)`: the file to fetch and the type to open it as. */
  datatype OpenRequest = OpenRequest(fileUrl: string, mimeType: string)

  /** The `switch` of `nativeFilePicker`: the four supported extensions and their MIME types. */
  function MimeTypeFor(ext: string): (r: Option<string>)
    ensures r.Some? <==> ext == "pdf" || ext == "txt" || ext == "docx" || ext == "odt"
    ensures ext == "pdf" <==> r == Some(PdfType)
    ensures ext == "txt" <==> r == Some(TextType)
    ensures ext == "docx" <==> r == Some(DocxType)
    ensures ext == "odt" <==> r == Some(OdtType)
  {
    if ext == "pdf" then Some(PdfType)
    else if ext == "txt" then Some(TextType)
    else if ext == "docx" then Some(DocxType)
    else if ext == "odt" then Some(OdtType)
    else None
  }

  /**
   * What `nativeFilePicker` does with the resolved URL: nothing without an
   * extension or for an unsupported one, otherwise open the URL with the
   * MIME type of its extension.
   */
  function PickedFileAction(fileUrl: string): (r: Option<OpenRequest>)
    ensures r.Some? ==> r.value.fileUrl == fileUrl
    ensures r.Some? ==>
      (GetFileExtension(Some(fileUrl)).Some?
       && MimeTypeFor(GetFileExtension(Some(fileUrl)).value) == Some(r.value.mimeType))
    ensures r.Some? <==>
      (GetFileExtension(Some(fileUrl)).Some? && MimeTypeFor(GetFileExtension(Some(fileUrl)).value).Some?)
  {
    match GetFileExtension(Some(fileUrl))
    case None => None
    case Some(ext) =>
      match MimeTypeFor(ext)
      case None => None
      case Some(mime) => Some(OpenRequest(fileUrl, mime))
  }

  /** The extension is compared after lower-casing, so "report.PDF" opens as a PDF. */
  lemma PickedPdfExample()
    ensures PickedFileAction("report.PDF") == Some(OpenRequest("report.PDF", PdfType))
  {
    ReportExtension();
  }

  lemma ReportExtension()
    ensures GetFileExtension(Some("report.PDF")) == Some("pdf")
  {
    ExtensionOfUrl("report.PDF");
    AfterLastExample();
    LowerPdfName();
  }

  lemma LowerPdfName()
    ensures Lower("PDF") == "pdf"
  {
  }

  lemma AfterLastExample()
    ensures AfterLast("report.PDF", '.') == "PDF"
  {
    assert LastIndexOf("report.PDF", '.') == 6;
  }

  /** `fileUrl.substring(fileUrl.lastIndexOf('/') + 1)`: the name the download is saved under. */
  function FileName(fileUrl: string): (name: string)
    ensures '/' !in name && |name| <= |fileUrl| && name == fileUrl[|fileUrl| - |name|..]
    ensures '/' !in fileUrl ==> name == fileUrl
    ensures '/' in fileUrl ==> fileUrl[|fileUrl| - |name| - 1] == '/'
  {
    AfterLast(fileUrl, '/')
  }
}
