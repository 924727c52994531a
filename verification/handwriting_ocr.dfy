/** The handwriting processor of pdf_ocr_aliy.py: one recogniser call per page,
    a fixed precedence of fields to read the text from the vendor's `Data`
    object, and the page loop of `process_pdf`. */
module HandwritingOcr {
  import opened Wrappers
  import opened Text
  import opened Json
  import opened Aggregation

  /** Reads the recognised text from the decoded `Data` object: `content`
      verbatim; else the `word` of each `prism_paragraphsInfo` entry, one per
      line; else the `word` of each `prism_wordsInfo` entry, space separated;
      else "". A field that is present but not a list is passed over. */
  function HandwritingFields(data: Json): Result<Json, PyError> {
    var content :- Lookup(data, "content");
    if content.Some? then Success(content.value)
    else
      var paragraphs :- Lookup(data, "prism_paragraphsInfo");
      if paragraphs.Some? && paragraphs.value.JArray? then
        var words :- Collect(paragraphs.value.items, "word");
        var text :- JoinStrings("\n", words);
        Success(JString(text))
      else
        var wordsInfo :- Lookup(data, "prism_wordsInfo");
        if wordsInfo.Some? && wordsInfo.value.JArray? then
          var words :- Collect(wordsInfo.value.items, "word");
          var text :- JoinStrings(" ", words);
          Success(JString(text))
        else
          Success(JString(""))
  }

  /** What `recognize_handwriting_from_image_bytes` returns for a vendor reply:
      every failure (the call raising, no body, no Data, undecodable Data, an
      exception while reading it) becomes "". */
  function HandwritingText(response: Response): (r: Json)
    ensures !response.Parsed? ==> r == JString("")
  {
    match response
    case Parsed(data) => HandwritingFields(data).GetOr(JString(""))
    case _ => JString("")
  }

  /** A `content` field is returned as it is, whatever else the object holds. */
  lemma ContentTakesPrecedence(fields: map<string, Json>)
    requires "content" in fields
    ensures HandwritingText(Parsed(JObject(fields))) == fields["content"]
  {
  }

  /** Without `content`, a list-valued `prism_paragraphsInfo` yields the words of
      its entries that have one, in order, joined by newlines; if an entry
      cannot be read or a word is not a string, the result is "". */
  lemma ParagraphWordsJoinedByNewline(fields: map<string, Json>)
    requires "content" !in fields && "prism_paragraphsInfo" in fields && fields["prism_paragraphsInfo"].JArray?
    ensures var words := Collect(fields["prism_paragraphsInfo"].items, "word");
      HandwritingText(Parsed(JObject(fields))) ==
        if words.Success? && Strings(words.value).Success? then JString(Join("\n", Strings(words.value).value))
        else JString("")
  {
  }

  /** A list-valued `prism_paragraphsInfo` ends the search, even when it
      yields "": `prism_wordsInfo` is then never consulted. */
  lemma ParagraphsHideWordsInfo(fields: map<string, Json>, other: Json)
    requires "content" !in fields && "prism_paragraphsInfo" in fields && fields["prism_paragraphsInfo"].JArray?
    ensures HandwritingText(Parsed(JObject(fields["prism_wordsInfo" := other]))) == HandwritingText(Parsed(JObject(fields)))
    ensures HandwritingText(Parsed(JObject(fields - {"prism_wordsInfo"}))) == HandwritingText(Parsed(JObject(fields)))
  {
  }

  /** Without `content` and without a list-valued `prism_paragraphsInfo`, a
      list-valued `prism_wordsInfo` yields its words joined by single spaces. */
  lemma WordsJoinedBySpace(fields: map<string, Json>)
    requires "content" !in fields
    requires "prism_paragraphsInfo" !in fields || !fields["prism_paragraphsInfo"].JArray?
    requires "prism_wordsInfo" in fields && fields["prism_wordsInfo"].JArray?
    ensures var words := Collect(fields["prism_wordsInfo"].items, "word");
      HandwritingText(Parsed(JObject(fields))) ==
        if words.Success? && Strings(words.value).Success? then JString(Join(" ", Strings(words.value).value))
        else JString("")
  {
  }

  /** An object with no `content` and no list under either word field yields
      "": a field that is present but not a list is passed over. */
  lemma NoFieldGivesEmpty(fields: map<string, Json>)
    requires "content" !in fields
    requires "prism_paragraphsInfo" !in fields || !fields["prism_paragraphsInfo"].JArray?
    requires "prism_wordsInfo" !in fields || !fields["prism_wordsInfo"].JArray?
    ensures HandwritingText(Parsed(JObject(fields))) == JString("")
  {
  }

  /** A `Data` payload that decodes to something other than an object never
      yields text: every field test either fails or raises. */
  lemma NonObjectGivesEmpty(data: Json)
    requires !data.JObject?
    ensures HandwritingText(Parsed(data)) == JString("")
  {
  }

  /** The summary name ends in `y.txt`, whatever the stem. */
  lemma SummaryNameEnds(stem: string)
    ensures var s := OutputDir + "/" + stem + "_ocr_aliy.txt";
      |s| >= 5 && s[|s| - 5] == 'y' && s[|s| - 2] == 'x'
  {
  }

  /** The handwriting processor; `client` stands for the SDK client it builds
      at construction: the reply the vendor gives for a PNG image. */
  class AliyunOcrProcessor {
    const client: Png -> Response

    constructor (client: Png -> Response)
      ensures this.client == client
    {
      this.client := client;
    }

    /** The text the recogniser produces for each page, in page order. */
    function Recognitions(pages: seq<Png>): seq<Json> {
      seq(|pages|, k requires 0 <= k < |pages| => HandwritingText(client(pages[k])))
    }

    /** Calls the handwriting recogniser on one page image and reads its text. */
    method RecognizeHandwritingFromImageBytes(image: Png) returns (text: Json)
      ensures text == HandwritingText(client(image))
    {
      var response := client(image);
      if !response.Parsed? {
        return JString("");
      }
      var data := response.data;
      var content := Lookup(data, "content");
      if content.Failure? {
        return JString("");
      }
      if content.value.Some? {
        return content.value.value;
      }
      var paragraphs := Lookup(data, "prism_paragraphsInfo");
      if paragraphs.Failure? {
        return JString("");
      }
      if paragraphs.value.Some? && paragraphs.value.value.JArray? {
        var words := CollectEntries(paragraphs.value.value.items, "word");
        if words.Failure? {
          return JString("");
        }
        var joined := JoinStrings("\n", words.value);
        return if joined.Success? then JString(joined.value) else JString("");
      }
      var wordsInfo := Lookup(data, "prism_wordsInfo");
      if wordsInfo.Failure? {
        return JString("");
      }
      if wordsInfo.value.Some? && wordsInfo.value.value.JArray? {
        var words := CollectEntries(wordsInfo.value.value.items, "word");
        if words.Failure? {
          return JString("");
        }
        var joined := JoinStrings(" ", words.value);
        return if joined.Success? then JString(joined.value) else JString("");
      }
      return JString("");
    }

    /** `<stem>_ocr_aliy.txt` in the output directory. */
    function SummaryPath(pdfPath: string): string {
      OutputDir + "/" + Stem(pdfPath) + "_ocr_aliy.txt"
    }

    /** The summary never overwrites a page file or a page image: it ends in
        a letter before `.txt`, a page file in a digit. */
    lemma SummaryIsNotAPageFile(pdfPath: string, page: nat)
      ensures SummaryPath(pdfPath) != TextPath(page)
      ensures SummaryPath(pdfPath) != ImagePath(page)
    {
      SummaryNameEnds(Stem(pdfPath));
      NotAPageFile(SummaryPath(pdfPath), page);
    }

    /** Runs the page loop over `rendered` (None when the PDF could not be
        converted) and returns the files written, in order, and how the run
        ended. */
    method ProcessPdf(pdfPath: string, pdfExists: bool, rendered: Option<seq<Png>>)
      returns (writes: seq<FileWrite>, outcome: Outcome)
      ensures !pdfExists ==> writes == [] && outcome == PdfNotFound
      ensures pdfExists && rendered.None? ==> writes == [] && outcome == ConversionFailed
      ensures pdfExists && rendered.Some? ==>
        (writes, outcome) == Finish(Scan(rendered.value, Recognitions(rendered.value)), SummaryPath(pdfPath))
    {
      if !pdfExists {
        return [], PdfNotFound;
      }
      if rendered.None? {
        return [], ConversionFailed;
      }
      var pages := rendered.value;
      ghost var texts := Recognitions(pages);
      var kept: seq<string> := [];
      writes := [];
      var i := 0;
      while i < |pages|
        invariant 0 <= i <= |pages|
        invariant Scan(pages[..i], texts[..i]) == Progress(writes, kept, None)
      {
        ScanPrefixStep(pages, texts, i);
        var png := pages[i];
        writes := writes + [SaveImage(ImagePath(i + 1), png)];
        var text := RecognizeHandwritingFromImageBytes(png);
        if Truthy(text) {
          if !text.JString? {
            ScanStopsAtRejection(pages, texts, i + 1);
            return writes, WriteRaised(i + 1);
          }
          writes := writes + [WriteText(TextPath(i + 1), text.s)];
          kept := kept + [text.s];
        }
        i := i + 1;
      }
      assert pages[..i] == pages && texts[..i] == texts;
      if kept != [] {
        writes := writes + [WriteText(SummaryPath(pdfPath), Join(Separator, kept))];
      }
      outcome := Completed;
    }
  }
}
