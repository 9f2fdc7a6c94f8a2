/**
 Text extraction by file format: `extract_text` looks the lowercased
 extension up in a table of four extractors and raises `ValueError` for any
 other extension. Plain text is decoded as UTF-8, falling back to Latin-1;
 Word and PDF documents are parsed by libraries (given here as functions
 from bytes to paragraphs or pages) and their non-blank parts joined with
 newlines.
 */
module Extraction {
  import opened Wrappers
  import opened Strings
  import opened Unicode

  /** The three extractors of the dispatch table. */
  datatype Format = PlainText | WordDocument | PdfDocument

  /** The dispatch table of `extract_text`, keyed by lowercased extension. */
  const Extractors: map<string, Format> :=
    map[".txt" := PlainText, ".md" := PlainText, ".docx" := WordDocument, ".pdf" := PdfDocument]

  /** The handler's filter list of extensions it will process. */
  const SupportedExtensions: seq<string> := [".txt", ".md", ".docx", ".pdf"]

  /** The handler's filter: the lowercased extension is in its list. */
  predicate IsSupported(ext: string) {
    AsciiLower(ext) in SupportedExtensions
  }

  /** The extractor `extract_text` picks for an extension, if any. */
  function FormatOf(ext: string): (f: Option<Format>)
    ensures f.Some? <==> AsciiLower(ext) in Extractors
  {
    var key := AsciiLower(ext);
    if key in Extractors then Some(Extractors[key]) else None
  }

  /**
   The handler's filter list and the dispatch table's keys are the same
   set, so a record that passes the filter is never rejected by dispatch.
   */
  lemma FilterMatchesDispatch(ext: string)
    ensures IsSupported(ext) <==> FormatOf(ext).Some?
    ensures forall e :: e in SupportedExtensions <==> e in Extractors
  {
  }

  /** Lowercasing twice is lowercasing once. */
  lemma AsciiLowerIdempotent(s: string)
    ensures AsciiLower(AsciiLower(s)) == AsciiLower(s)
  {
  }

  /**
   Dispatch ignores letter case, and `.txt` and `.md` select the same
   extractor, distinct from the Word and PDF ones.
   */
  lemma DispatchTable(ext: string)
    ensures FormatOf(ext) == FormatOf(AsciiLower(ext))
    ensures FormatOf(".txt") == FormatOf(".md") == Some(PlainText)
    ensures FormatOf(".docx") == Some(WordDocument) && FormatOf(".pdf") == Some(PdfDocument)
    ensures FormatOf(".TXT") == Some(PlainText) && FormatOf(".Pdf") == Some(PdfDocument)
    ensures FormatOf(".doc") == None && FormatOf(".markdown") == None && FormatOf("") == None
  {
    AsciiLowerIdempotent(ext);
    assert AsciiLower(".TXT") == ".txt";
    assert AsciiLower(".Pdf") == ".pdf";
    assert AsciiLower(".txt") == ".txt";
    assert AsciiLower(".md") == ".md";
    assert AsciiLower(".docx") == ".docx";
    assert AsciiLower(".pdf") == ".pdf";
    assert AsciiLower(".doc") == ".doc";
    assert AsciiLower(".markdown") == ".markdown";
  }

  /**
   `extract_text_from_txt`: strict UTF-8 when the bytes are valid UTF-8,
   otherwise Latin-1. Either way the text encodes back to the bytes under
   the codec chosen, so decoding never fails and loses nothing.
   */
  function DecodePlainText(content: seq<Byte>): (text: string)
    ensures Decode(content).Some? ==> Encode(text) == content
    ensures Decode(content).None? ==>
              && (forall i :: 0 <= i < |text| ==> text[i] as int < 256)
              && Latin1Encode(text) == content
  {
    match Decode(content)
    case Some(s) => s
    case None =>
      Latin1RoundTrip(content);
      Latin1Decode(content)
  }

  /** Valid UTF-8 decodes to the one string that encodes to it. */
  lemma PlainTextUtf8(content: seq<Byte>, s: string)
    requires Encode(s) == content
    ensures DecodePlainText(content) == s
  {
    DecodeIff(content, s);
  }

  /**
   Bytes that are not valid UTF-8 come back one character per byte, the
   i-th character having code point `content[i]`.
   */
  lemma PlainTextLatin1(content: seq<Byte>)
    requires forall s: string :: Encode(s) != content
    ensures |DecodePlainText(content)| == |content|
    ensures forall i :: 0 <= i < |content| ==> DecodePlainText(content)[i] as int == content[i]
  {
    if Decode(content).Some? {
      DecodeIff(content, Decode(content).value);
    }
  }

  /**
   The Word and PDF assembly: `'\n'.join` of the parts whose `strip()` is
   non-empty, in their original order.
   */
  function JoinNonBlank(parts: seq<string>): string {
    Join("\n", KeepNonBlank(parts))
  }

  /** The assembled text is empty exactly when every part is blank. */
  lemma JoinNonBlankEmptyIff(parts: seq<string>)
    ensures JoinNonBlank(parts) == "" <==> forall k :: 0 <= k < |parts| ==> IsBlank(parts[k])
  {
    var kept := KeepNonBlank(parts);
    KeepNonBlankEmptyIff(parts);
    forall k | 0 <= k < |parts|
      ensures NonBlank(parts[k]) <==> !IsBlank(parts[k])
    {
      NonBlankIff(parts[k]);
    }
    if kept != [] {
      KeptAreNonBlank(parts);
      assert NonBlank(kept[0]);
      assert |JoinNonBlank(parts)| >= |kept[0]| > 0;
    }
  }

  /**
   Whatever the parts hold, the assembled text is the non-blank parts laid end
   to end with one newline between neighbours: kept part j starts at
   `TotalLength(kept[..j]) + j`, right after a newline when j > 0, and the
   text is exactly as long as the kept parts and the newlines between them.
   */
  lemma JoinNonBlankPlacement(parts: seq<string>, j: nat)
    requires j < |KeepNonBlank(parts)|
    ensures var kept := KeepNonBlank(parts);
            var text := JoinNonBlank(parts);
            var o := TotalLength(kept[..j]) + j;
            && |text| == TotalLength(kept) + |kept| - 1
            && o + |kept[j]| <= |text| && text[o .. o + |kept[j]|] == kept[j]
            && (j > 0 ==> text[o - 1] == '\n')
  {
    var kept := KeepNonBlank(parts);
    JoinPlacement("\n", kept, j);
    JoinOffsetValue("\n", kept, j);
    if j > 0 {
      var o := TotalLength(kept[..j]) + j;
      assert JoinNonBlank(parts)[o - 1 .. o] == "\n";
    }
  }

  /**
   When no part contains a newline, splitting the assembled text at
   newlines gives back exactly the non-blank parts.
   */
  lemma JoinNonBlankSplits(parts: seq<string>)
    requires forall k, t :: 0 <= k < |parts| && 0 <= t < |parts[k]| ==> parts[k][t] != '\n'
    requires exists k :: 0 <= k < |parts| && NonBlank(parts[k])
    ensures Split(JoinNonBlank(parts), '\n') == KeepNonBlank(parts)
  {
    var kept := KeepNonBlank(parts);
    var idx := KeptIndices(parts);
    KeptIff(parts);
    KeptElements(parts);
    var k :| 0 <= k < |parts| && NonBlank(parts[k]);
    assert k in idx;
    forall j, t | 0 <= j < |kept| && 0 <= t < |kept[j]|
      ensures kept[j][t] != '\n'
    {
      assert kept[j] == parts[idx[j]];
    }
    SplitJoin(kept, '\n');
  }

  /** The library parsers: paragraphs of a Word document, text of each PDF page; None when the bytes do not parse. */
  datatype Parsers = Parsers(
    wordParagraphs: seq<Byte> -> Option<seq<string>>,
    pdfPages: seq<Byte> -> Option<seq<string>>)

  /** Why `extract_text` raised. */
  datatype ExtractError =
    | UnsupportedFileType(ext: string)
    | MalformedDocument(format: Format)

  /** `extract_text(file_content, file_extension)`. */
  function ExtractText(content: seq<Byte>, ext: string, parsers: Parsers): (r: Result<string, ExtractError>)
    ensures r == Failure(UnsupportedFileType(ext)) <==> !IsSupported(ext)
    ensures FormatOf(ext) == Some(PlainText) ==> r.Success?
    ensures r.Failure? && r.error.MalformedDocument? ==> FormatOf(ext) == Some(r.error.format) != Some(PlainText)
    ensures FormatOf(ext) == Some(PlainText) ==> r == Success(DecodePlainText(content))
    ensures FormatOf(ext) == Some(WordDocument) ==>
              r == match parsers.wordParagraphs(content)
                   case Some(paragraphs) => Success(JoinNonBlank(paragraphs))
                   case None => Failure(MalformedDocument(WordDocument))
    ensures FormatOf(ext) == Some(PdfDocument) ==>
              r == match parsers.pdfPages(content)
                   case Some(pages) => Success(JoinNonBlank(pages))
                   case None => Failure(MalformedDocument(PdfDocument))
  {
    FilterMatchesDispatch(ext);
    match FormatOf(ext)
    case None => Failure(UnsupportedFileType(ext))
    case Some(PlainText) => Success(DecodePlainText(content))
    case Some(WordDocument) =>
      (match parsers.wordParagraphs(content)
       case Some(paragraphs) => Success(JoinNonBlank(paragraphs))
       case None => Failure(MalformedDocument(WordDocument)))
    case Some(PdfDocument) =>
      (match parsers.pdfPages(content)
       case Some(pages) => Success(JoinNonBlank(pages))
       case None => Failure(MalformedDocument(PdfDocument)))
  }

  /** `.txt` and `.md` files, in any letter case, are extracted identically. */
  lemma TxtAndMdAgree(content: seq<Byte>, parsers: Parsers)
    ensures ExtractText(content, ".txt", parsers) == ExtractText(content, ".MD", parsers)
    ensures ExtractText(content, ".txt", parsers) == Success(DecodePlainText(content))
  {
    assert AsciiLower(".txt") == ".txt";
    assert AsciiLower(".MD") == ".md";
  }
}
