/** The multi-language processor of pdf_ocr_aliyun_en.py: a language chosen by
    name with English as the fallback, one recogniser per language, a fixed
    precedence of fields to read the text from the vendor's `Data` object,
    and the page loop of `process_pdf`. */
module LanguageOcr {
  import opened Wrappers
  import opened Text
  import opened Json
  import opened Aggregation

  /** The `LanguageType` enumeration; each member's name is also its value. */
  datatype LanguageType = ENGLISH | JAPANESE | RUSSIAN | KOREAN | THAI | LATIN | MULTILANGUAGE

  /** `language.name`. */
  function Name(language: LanguageType): (r: string)
    ensures AllCapitals(r) && r != ""
  {
    match language
    case ENGLISH => "ENGLISH"
    case JAPANESE => "JAPANESE"
    case RUSSIAN => "RUSSIAN"
    case KOREAN => "KOREAN"
    case THAI => "THAI"
    case LATIN => "LATIN"
    case MULTILANGUAGE => "MULTILANGUAGE"
  }

  /** `LanguageType[name]`: the member with exactly this name, or None where
      Python raises KeyError. */
  function Member(name: string): (r: Option<LanguageType>)
    ensures r.Some? ==> Name(r.value) == name
    ensures r.None? ==> forall l: LanguageType :: Name(l) != name
  {
    if name == "ENGLISH" then Some(ENGLISH)
    else if name == "JAPANESE" then Some(JAPANESE)
    else if name == "RUSSIAN" then Some(RUSSIAN)
    else if name == "KOREAN" then Some(KOREAN)
    else if name == "THAI" then Some(THAI)
    else if name == "LATIN" then Some(LATIN)
    else if name == "MULTILANGUAGE" then Some(MULTILANGUAGE)
    else None
  }

  /** The language the constructor settles on: the member named by the
      upper-cased argument, or ENGLISH when there is none. */
  function SelectLanguage(language: string): LanguageType {
    Member(Upper(language)).GetOr(ENGLISH)
  }

  /** Selection in both directions: `l` is chosen exactly when the upper-cased
      name is `l`'s name, or `l` is ENGLISH and the name matches no member. */
  lemma SelectLanguageSpec(language: string, l: LanguageType)
    ensures SelectLanguage(language) == l <==>
      Upper(language) == Name(l) || (l == ENGLISH && forall m: LanguageType :: Name(m) != Upper(language))
  {
  }

  /** Case does not matter: any spelling of a member name that writes each
      letter in capitals or in small letters selects that member. */
  lemma SelectIgnoresCase(s: string, l: LanguageType)
    requires |s| == |Name(l)|
    requires forall k :: 0 <= k < |s| ==> s[k] == Name(l)[k] || s[k] == LowerChar(Name(l)[k])
    ensures SelectLanguage(s) == l
  {
    UpperOfCaseVariant(s, Name(l));
  }

  /** The suffix of the summary file name: the lower-cased member name. */
  function SummarySuffix(l: LanguageType): (r: string)
    ensures r != [] && forall k :: 0 <= k < |r| ==> 'a' <= r[k] <= 'z'
    ensures Upper(r) == Name(l)
  {
    UpperOfLower(Name(l));
    Lower(Name(l))
  }

  /** Each language has its own suffix, and the suffix names the language. */
  lemma SummarySuffixNamesLanguage(l: LanguageType, m: LanguageType)
    ensures SelectLanguage(SummarySuffix(l)) == l
    ensures SummarySuffix(l) == SummarySuffix(m) ==> l == m
  {
    var s, t := SummarySuffix(l), SummarySuffix(m);
    MemberOfName(l);
    MemberOfName(m);
    assert Member(Upper(s)) == Some(l);
    if s == t {
      assert Some(l) == Member(Upper(t)) == Some(m);
    }
  }

  /** Each member is found again under its own name. */
  lemma MemberOfName(l: LanguageType)
    ensures Member(Name(l)) == Some(l)
  {
    match l
    case ENGLISH =>
    case JAPANESE =>
    case RUSSIAN =>
    case KOREAN =>
    case THAI =>
    case LATIN =>
    case MULTILANGUAGE =>
  }

  /** The SDK request/call pairs, one per recogniser
      (`RecognizeEnglishRequest` with `recognize_english_with_options`, ...). */
  datatype Recognizer =
    | RecognizeEnglish
    | RecognizeJanpanese
    | RecognizeRussian
    | RecognizeKorean
    | RecognizeThai
    | RecognizeLatin
    | RecognizeMultiLanguage

  /** The recogniser the `if`/`elif` chain calls for a language. */
  function Dispatch(l: LanguageType): Recognizer {
    match l
    case ENGLISH => RecognizeEnglish
    case JAPANESE => RecognizeJanpanese
    case RUSSIAN => RecognizeRussian
    case KOREAN => RecognizeKorean
    case THAI => RecognizeThai
    case LATIN => RecognizeLatin
    case MULTILANGUAGE => RecognizeMultiLanguage
  }

  /** The language each recogniser reads. */
  function Reads(r: Recognizer): LanguageType {
    match r
    case RecognizeEnglish => ENGLISH
    case RecognizeJanpanese => JAPANESE
    case RecognizeRussian => RUSSIAN
    case RecognizeKorean => KOREAN
    case RecognizeThai => THAI
    case RecognizeLatin => LATIN
    case RecognizeMultiLanguage => MULTILANGUAGE
  }

  /** Every language reaches exactly one recogniser, and every recogniser is
      reached from exactly one language. */
  lemma DispatchIsOneToOne(l: LanguageType, r: Recognizer)
    ensures Reads(Dispatch(l)) == l
    ensures Dispatch(Reads(r)) == r
    ensures Dispatch(l) == r <==> Reads(r) == l
  {
  }

  /** Reads the recognised text from the decoded `Data` object: `content`
      verbatim; else `text`, if `prism_version` is present too; else the
      `word` of each `prism_wordsInfo` entry, space separated; else the
      `text` of each `lines` entry, one per line; else "". */
  function LanguageFields(data: Json): Result<Json, PyError> {
    var content :- Lookup(data, "content");
    if content.Some? then Success(content.value)
    else
      var versioned :- In(data, "prism_version");
      var text :- if versioned then Lookup(data, "text") else Success(None);
      if text.Some? then Success(text.value)
      else
        var wordsInfo :- Lookup(data, "prism_wordsInfo");
        if wordsInfo.Some? && wordsInfo.value.JArray? then
          var words :- Collect(wordsInfo.value.items, "word");
          var joined :- JoinStrings(" ", words);
          Success(JString(joined))
        else
          var lines :- Lookup(data, "lines");
          if lines.Some? && lines.value.JArray? then
            var texts :- Collect(lines.value.items, "text");
            var joined :- JoinStrings("\n", texts);
            Success(JString(joined))
          else
            Success(JString(""))
  }

  /** What `recognize_text_from_image_bytes` returns for a vendor reply: every
      failure becomes "". */
  function LanguageText(response: Response): (r: Json)
    ensures !response.Parsed? ==> r == JString("")
  {
    match response
    case Parsed(data) => LanguageFields(data).GetOr(JString(""))
    case _ => JString("")
  }

  /** `content` comes first. */
  lemma LanguageContentFirst(fields: map<string, Json>)
    requires "content" in fields
    ensures LanguageText(Parsed(JObject(fields))) == fields["content"]
  {
  }

  /** Then `text`, but only together with `prism_version`. */
  lemma VersionedTextSecond(fields: map<string, Json>)
    requires "content" !in fields && "prism_version" in fields && "text" in fields
    ensures LanguageText(Parsed(JObject(fields))) == fields["text"]
  {
  }

  /** `text` without `prism_version` is ignored. */
  lemma TextWithoutVersionIgnored(fields: map<string, Json>)
    requires "prism_version" !in fields
    ensures LanguageText(Parsed(JObject(fields - {"text"}))) == LanguageText(Parsed(JObject(fields)))
  {
    var without := fields - {"text"};
    assert forall k :: k != "text" ==> (k in without <==> k in fields);
  }

  /** A list-valued `prism_wordsInfo` ends the search: `lines` is then never
      consulted. */
  lemma WordsInfoHidesLines(fields: map<string, Json>, other: Json)
    requires "content" !in fields && !("prism_version" in fields && "text" in fields)
    requires "prism_wordsInfo" in fields && fields["prism_wordsInfo"].JArray?
    ensures LanguageText(Parsed(JObject(fields["lines" := other]))) == LanguageText(Parsed(JObject(fields)))
  {
  }

  /** A list-valued `prism_wordsInfo` yields its words joined by spaces. */
  lemma LanguageWordsJoinedBySpace(fields: map<string, Json>)
    requires "content" !in fields && !("prism_version" in fields && "text" in fields)
    requires "prism_wordsInfo" in fields && fields["prism_wordsInfo"].JArray?
    ensures var words := Collect(fields["prism_wordsInfo"].items, "word");
      LanguageText(Parsed(JObject(fields))) ==
        if words.Success? && Strings(words.value).Success? then JString(Join(" ", Strings(words.value).value))
        else JString("")
  {
  }

  /** Failing the first three, a list-valued `lines` yields the `text` of its
      entries joined by newlines. */
  lemma LinesJoinedByNewline(fields: map<string, Json>)
    requires "content" !in fields && !("prism_version" in fields && "text" in fields)
    requires "prism_wordsInfo" !in fields || !fields["prism_wordsInfo"].JArray?
    requires "lines" in fields && fields["lines"].JArray?
    ensures var texts := Collect(fields["lines"].items, "text");
      LanguageText(Parsed(JObject(fields))) ==
        if texts.Success? && Strings(texts.value).Success? then JString(Join("\n", Strings(texts.value).value))
        else JString("")
  {
  }

  /** An object with no `content`, no `text` beside `prism_version` and no
      list under `prism_wordsInfo` or `lines` yields "": a `prism_version`
      without `text`, and a field that is present but not a list, are passed
      over. */
  lemma LanguageNoFieldGivesEmpty(fields: map<string, Json>)
    requires "content" !in fields
    requires !("prism_version" in fields && "text" in fields)
    requires "prism_wordsInfo" !in fields || !fields["prism_wordsInfo"].JArray?
    requires "lines" !in fields || !fields["lines"].JArray?
    ensures LanguageText(Parsed(JObject(fields))) == JString("")
  {
  }

  /** A `Data` payload that decodes to something other than an object never
      yields text. */
  lemma LanguageNonObjectGivesEmpty(data: Json)
    requires !data.JObject?
    ensures LanguageText(Parsed(data)) == JString("")
  {
  }

  /** The summary name ends in the suffix's last letter and `.txt`, whatever
      the stem. */
  lemma SummaryNameEnds(stem: string, suffix: string)
    requires suffix != [] && 'a' <= suffix[|suffix| - 1] <= 'z'
    ensures var s := OutputDir + "/" + stem + "_ocr_" + suffix + ".txt";
      |s| >= 5 && !IsDigit(s[|s| - 5]) && s[|s| - 2] == 'x'
  {
    var s := OutputDir + "/" + stem + "_ocr_" + suffix + ".txt";
    assert s[|s| - 5] == suffix[|suffix| - 1];
  }

  /** The multi-language processor; `client` stands for the SDK client it
      builds at construction: the reply a recogniser gives for a PNG image. */
  class AliyunOcrProcessor {
    const client: (Recognizer, Png) -> Response
    const language: LanguageType

    /** Looks the language up by its upper-cased name; a name that is not a
        member falls back to ENGLISH. */
    constructor (client: (Recognizer, Png) -> Response, language: string)
      ensures this.client == client
      ensures this.language == SelectLanguage(language)
    {
      this.client := client;
      var member := Member(Upper(language));
      if member.Some? {
        this.language := member.value;
      } else {
        this.language := ENGLISH;
      }
    }

    /** The text the selected recogniser produces for each page, in order. */
    function Recognitions(pages: seq<Png>): seq<Json> {
      seq(|pages|, k requires 0 <= k < |pages| => LanguageText(client(Dispatch(language), pages[k])))
    }

    /** The if/elif chain of recognize_text_from_image_bytes: sends the
        image to the recogniser of the selected language. */
    method SendToRecognizer(image: Png) returns (response: Response)
      ensures response == client(Dispatch(language), image)
    {
      match language {
        case ENGLISH => response := client(RecognizeEnglish, image);
        case JAPANESE => response := client(RecognizeJanpanese, image);
        case RUSSIAN => response := client(RecognizeRussian, image);
        case KOREAN => response := client(RecognizeKorean, image);
        case THAI => response := client(RecognizeThai, image);
        case LATIN => response := client(RecognizeLatin, image);
        case MULTILANGUAGE => response := client(RecognizeMultiLanguage, image);
      }
    }

    /** Calls the recogniser of the selected language on one page image and
        reads its text. */
    method RecognizeTextFromImageBytes(image: Png) returns (text: Json)
      ensures text == LanguageText(client(Dispatch(language), image))
    {
      var response := SendToRecognizer(image);
      if !response.Parsed? {
        return JString("");
      }
      var data := response.data;
      var content := Lookup(data, "content");
      if content.Failure? {
        return JString("");
      }
      if content.value.Some? {
        return content.value.value;
      }
      var versioned := In(data, "prism_version");
      if versioned.Failure? {
        return JString("");
      }
      if versioned.value {
        var text := Lookup(data, "text");
        if text.Failure? {
          return JString("");
        }
        if text.value.Some? {
          return text.value.value;
        }
      }
      var wordsInfo := Lookup(data, "prism_wordsInfo");
      if wordsInfo.Failure? {
        return JString("");
      }
      if wordsInfo.value.Some? && wordsInfo.value.value.JArray? {
        var words := CollectEntries(wordsInfo.value.value.items, "word");
        if words.Failure? {
          return JString("");
        }
        var joined := JoinStrings(" ", words.value);
        return if joined.Success? then JString(joined.value) else JString("");
      }
      var lines := Lookup(data, "lines");
      if lines.Failure? {
        return JString("");
      }
      if lines.value.Some? && lines.value.value.JArray? {
        var texts := CollectEntries(lines.value.value.items, "text");
        if texts.Failure? {
          return JString("");
        }
        var joined := JoinStrings("\n", texts.value);
        return if joined.Success? then JString(joined.value) else JString("");
      }
      return JString("");
    }

    /** `<stem>_ocr_<language name in lower case>.txt` in the output directory. */
    function SummaryPath(pdfPath: string): string {
      OutputDir + "/" + Stem(pdfPath) + "_ocr_" + SummarySuffix(language) + ".txt"
    }

    /** The summary never overwrites a page file or a page image: it ends in
        a letter before `.txt`, a page file in a digit. */
    lemma SummaryIsNotAPageFile(pdfPath: string, page: nat)
      ensures SummaryPath(pdfPath) != TextPath(page)
      ensures SummaryPath(pdfPath) != ImagePath(page)
    {
      SummaryNameEnds(Stem(pdfPath), SummarySuffix(language));
      NotAPageFile(SummaryPath(pdfPath), page);
    }

    /** Runs the page loop over `rendered` (None when the PDF could not be
        converted) and returns the files written, in order, and how the run
        ended. */
    method ProcessPdf(pdfPath: string, pdfExists: bool, rendered: Option<seq<Png>>)
      returns (writes: seq<FileWrite>, outcome: Outcome)
      ensures !pdfExists ==> writes == [] && outcome == PdfNotFound
      ensures pdfExists && rendered.None? ==> writes == [] && outcome == ConversionFailed
      ensures pdfExists && rendered.Some? ==>
        (writes, outcome) == Finish(Scan(rendered.value, Recognitions(rendered.value)), SummaryPath(pdfPath))
    {
      if !pdfExists {
        return [], PdfNotFound;
      }
      if rendered.None? {
        return [], ConversionFailed;
      }
      var pages := rendered.value;
      ghost var texts := Recognitions(pages);
      var kept: seq<string> := [];
      writes := [];
      var i := 0;
      while i < |pages|
        invariant 0 <= i <= |pages|
        invariant Scan(pages[..i], texts[..i]) == Progress(writes, kept, None)
      {
        ScanPrefixStep(pages, texts, i);
        var png := pages[i];
        writes := writes + [SaveImage(ImagePath(i + 1), png)];
        var text := RecognizeTextFromImageBytes(png);
        if Truthy(text) {
          if !text.JString? {
            ScanStopsAtRejection(pages, texts, i + 1);
            return writes, WriteRaised(i + 1);
          }
          writes := writes + [WriteText(TextPath(i + 1), text.s)];
          kept := kept + [text.s];
        }
        i := i + 1;
      }
      assert pages[..i] == pages && texts[..i] == texts;
      if kept != [] {
        writes := writes + [WriteText(SummaryPath(pdfPath), Join(Separator, kept))];
      }
      outcome := Completed;
    }
  }
}
