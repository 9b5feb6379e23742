/**
 * The MIME types of the app's documents: the ones the scan page opens
 * files with and the ones the MyFileUtils plugin recognises.
 */
module MimeTypes {
  import opened Strings

  const PdfType: string := "application/pdf"
  const JpegType: string := "image/jpeg"
  const PngType: string := "image/png"
  const TextType: string := "text/plain"
  /** "application/vnd.openxmlformats-officedocument.wordprocessingml.document", written in pieces. */
  const DocxType: string := "application/vnd." + "openxmlformats-" + "officedocument." + "wordprocessingml." + "document"
  const OdtType: string := "application/vnd.oasis.opendocument.text"

  /** The types the scan page opens files with are already lower case. */
  lemma OpenedTypesLower()
    ensures Lower(PdfType) == PdfType && Lower(TextType) == TextType && Lower(DocxType) == DocxType
  {
    LowerOfLower(PdfType);
    LowerOfLower(TextType);
    DocxTypeLower();
  }

  lemma DocxTypeLower()
    ensures Lower(DocxType) == DocxType
  {
    var a, b, c, d, e := "application/vnd.", "openxmlformats-", "officedocument.", "wordprocessingml.", "document";
    DocxPieceApplication();
    DocxPieceOpenXml();
    DocxPieceOffice();
    DocxPieceWord();
    DocxPieceDocument();
    LowerConcat(a, b);
    LowerConcat(a + b, c);
    LowerConcat(a + b + c, d);
    LowerConcat(a + b + c + d, e);
  }

  lemma DocxPieceApplication()
    ensures Lower("application/vnd.") == "application/vnd."
  {
    LowerOfLower("application/vnd.");
  }

  lemma DocxPieceOpenXml()
    ensures Lower("openxmlformats-") == "openxmlformats-"
  {
    LowerOfLower("openxmlformats-");
  }

  lemma DocxPieceOffice()
    ensures Lower("officedocument.") == "officedocument."
  {
    LowerOfLower("officedocument.");
  }

  lemma DocxPieceWord()
    ensures Lower("wordprocessingml.") == "wordprocessingml."
  {
    LowerOfLower("wordprocessingml.");
  }

  lemma DocxPieceDocument()
    ensures Lower("document") == "document"
  {
    LowerOfLower("document");
  }
}
