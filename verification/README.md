# pdf_ocr in Dafny

A verified model of the three OCR drivers of the pdf_ocr repository.

- **main.py** is a command-line driver. It settles a page range, renders each
  page to an image, and asks a language model (through `analyze_image`) to
  transcribe the handwriting. It saves every answer next to its image and
  counts the pages that succeeded.
- **pdf_ocr_aliy.py** runs handwriting OCR through Aliyun. Every page of a
  PDF is rendered and saved as `output/images/page_NNN.png`. The vendor's
  handwriting recogniser reads the page. The driver takes the text from the
  `Data` JSON of the reply, using a fixed precedence of fields. Each non-empty
  text goes to `output/page_NNN.txt`. All texts are then joined into
  `output/<stem>_ocr_aliy.txt`.
- **pdf_ocr_aliyun_en.py** is the same pipeline with a choice of language. The
  language is picked by name, case-insensitively, with English as the
  fallback. Each language has its own recogniser. The text is taken from a
  different set of fields. The summary is named `<stem>_ocr_<language>.txt`.

Modules:

| module | file | contents |
|---|---|---|
| `Wrappers` | wrappers.dfy | `Option`, `Result` |
| `Text` | text.dfy | `str.join`, `f"{n:03d}"`, `str.upper`, POSIX `basename`/`splitext`/`join`, `PurePath.name`/`stem` |
| `Json` | json.dfy | decoded JSON values; Python's `in`, `[]`, the append loop and `str.join` on them, with `TypeError` as a value |
| `Aggregation` | aggregation.dfy | the page loop both Aliyun processors share, its file writes, and reference views of its effect |
| `HandwritingOcr` | handwriting_ocr.dfy | pdf_ocr_aliy.py: field precedence and the `AliyunOcrProcessor` class |
| `LanguageOcr` | language_ocr.dfy | pdf_ocr_aliyun_en.py: `LanguageType`, dispatch, field precedence and its `AliyunOcrProcessor` class |
| `PageBatch` | page_batch.dfy | main.py: page range, `process_pdf_page`, `main` and its tally |

Modelling choices:

- The vendor SDK client is a function-valued constant field. It maps the PNG
  bytes of a page (and, for the language processor, the recogniser called) to
  a `Response`. A `Response` is one of: the call raised, no body, no `Data`,
  undecodable `Data`, or the decoded JSON.
- File writes are returned as the ordered list of `(path, content)` writes the
  run performs. `Path.write_text` raises `TypeError` on a non-string, and
  nothing catches it. So a truthy `content` that is not a string (a number, a
  list, an object) ends the run at that page, with outcome `WriteRaised(page)`.
- In main.py, `pdf_to_image`, `analyze_image` and `save_to_file` are given
  collaborators (`Tools`). Each either returns or raises with a message.
  `save_to_file` is imported from pdf_to_txt.py, but that file does not define
  it, so its behaviour is not part of this model.

## Model

Functions that carry no contract of their own (`Join`, `Upper`, `ImagePath`,
`TextPath`, `PageStep`, `Scan`, `Finish`, `HandwritingFields`,
`LanguageFields`, `SelectLanguage`, `Dispatch`, the `Recognitions` and
`SummaryPath` members, `BindPositional`, `AsWrittenAnalyzeCall`,
`IntendedAnalyzeCall`, `TextFileFor`, `Results`) are specified by the lemmas
named in the rows below. So are these helpers:

- `Json.Truthy` (Python truthiness, the `if recognized_text:` test at
  pdf_ocr_aliy.py:174) by Aggregation.PageStepRejects and
  Aggregation.PageStepWrites;
- `Json.Contains` (`sub in s` on strings) by Json.CollectOne;
- `Json.JoinStrings` (`sep.join`, raising TypeError on a non-string) by
  Json.Strings, Text.JoinAppend, Text.JoinOne, Text.JoinEmpty and the
  precedence lemmas that join words or lines;
- `PageBatch.CallFor` (the call line 42 of main.py builds, for either
  binding) by PageBatch.AsWrittenCallLosesPrompt,
  PageBatch.IntendedCallKeepsPrompt, PageBatch.PageSuccessRecords and
  PageBatch.PageFailsOnFirstError;
- `PageBatch.PageJob` (one pass of the loop at main.py:121) by
  PageBatch.ProcessPages, PageBatch.ProcessAndTally and PageBatch.Run;
- `Aggregation.Unwritable` (the condition under which `write_text` raises
  TypeError) by Aggregation.PageStepRejects and Aggregation.ScanRejection.

| member | source | states |
|---|---|---|
| Text.JoinAppend | pdf_ocr_aliy.py:184 | `Join` (`sep.join`): joining two non-empty lists puts exactly one separator between their joins, so the separator sits between neighbouring page texts |
| Text.JoinOne | pdf_ocr_aliy.py:184 | `Join`: a single part is joined to itself, so the summary of one kept page is that page's text |
| Text.JoinEmpty | pdf_ocr_aliy.py:184 | `Join`: with a non-empty separator, the joined text is empty only for no parts or a single empty part |
| Text.Decimal | pdf_ocr_aliy.py:163 | `str(n)`: digits only, at least one, no leading zero, and its length is governed by n < 10, 100, 1000 |
| Text.Pad3 | pdf_ocr_aliy.py:163 | `f"{n:03d}"`: digits only, exactly three below 1000, the full number from 1000 on |
| Text.Pad3RoundTrip | pdf_ocr_aliy.py:175 | the padded page number reads back as the page number |
| Text.Pad3Injective | pdf_ocr_aliy.py:175 | distinct page numbers give distinct padded names |
| Text.Lower | pdf_ocr_aliyun_en.py:224 | `str.lower` on ASCII: same length; each capital becomes a small letter whose upper case is that capital; every other character is kept |
| Text.UpperOfLower | pdf_ocr_aliyun_en.py:56 | `Upper` (`str.upper`) undoes `Lower` on a capitalised name |
| Text.UpperOfCaseVariant | pdf_ocr_aliyun_en.py:56 | `Upper` of any spelling of a capitalised name with each letter in either case is that name |
| Text.UpperOfCapitals | pdf_ocr_aliyun_en.py:56 | `Upper`: a capitalised name is its own upper case |
| Text.LastIndexOf | main.py:45 | `s.rfind(c)` as `basename` and `splitext` use it: an index holding `c` with no `c` after it, or -1 exactly when `c` does not occur |
| Text.BaseName | main.py:45 | `os.path.basename`: a suffix of the path with no slash in it, which is the whole path or starts right after a slash, so it is everything after the last slash |
| Text.SplitExtRoot | main.py:45 | `os.path.splitext(p)[0]`: the path itself, or a proper prefix of it followed by a dot |
| Text.SplitExtRootCutsExtension | main.py:45 | `splitext` cuts exactly at the extension dot (the last dot of the final component, with a non-dot before it in that component, and no dot or slash after it) when there is one, and otherwise keeps the path |
| Text.PathJoin | main.py:46 | `os.path.join(a, b)`: an absolute `b` is the result; otherwise the result is `a`, then exactly one slash unless `a` is empty or already ends in one, then `b` |
| Text.BaseNameOfJoin | main.py:45-46 | the base name of a directory joined with a bare file name is that file name |
| Text.PathName | pdf_ocr_aliy.py:183 | `Path(p).name`: contains no slash and is not "."; when the text after the last slash is neither empty nor ".", it is that text |
| Text.PathNameIsLastComponent | pdf_ocr_aliy.py:183 | `NameIsLastComponent`: `Path(p).name` is "" exactly when every component of the path is empty or "."; otherwise it is a whole component followed only by slashes and "." components |
| Text.Stem | pdf_ocr_aliy.py:183 | `Path(p).stem`: the name, or the part of the name before a dot that is neither first nor last and has no dot after it |
| Text.StemDropsSuffix | pdf_ocr_aliy.py:183 | the stem differs from the name exactly when the name's last dot is neither its first nor its last character |
| Json.In | pdf_ocr_aliy.py:104 | `key in v` is membership for a dict and raises `TypeError` exactly for None, booleans and numbers |
| Json.Lookup | pdf_ocr_aliy.py:104-105 | `if key in v: v[key]` yields the stored value for a dict; a value is only ever found in a dict |
| Json.Collect | pdf_ocr_aliy.py:109-112 | the append loop never collects more values than there are entries |
| Json.CollectEntries | pdf_ocr_aliy.py:109-112 | the loop, with its early exit on `TypeError`, computes `Collect` |
| Json.CollectAppend | pdf_ocr_aliy.py:110-112 | collecting over a concatenation succeeds iff both parts do, and gives the two results in order |
| Json.CollectFailsOnPrefix | pdf_ocr_aliy.py:110-112 | once one entry raises, the whole loop raises |
| Json.CollectOne | pdf_ocr_aliy.py:111-112 | per entry: a dict gives its value or nothing; a string or list is skipped unless it passes the `in` test, and then raises; anything else raises |
| Json.Strings | pdf_ocr_aliy.py:113 | `join` succeeds iff every value is a string, and then uses those strings in order |
| Aggregation.PagePathsInjective | pdf_ocr_aliy.py:163-175 | `TextPath` and `ImagePath`: different pages get different page files and different page images, and no page image shares a path with a page file |
| Aggregation.NotAPageFile | pdf_ocr_aliy.py:163-175 | a path whose fifth character from the end is not a digit and whose second from the end is `x` is neither a page file nor a page image |
| Aggregation.KeptPages | pdf_ocr_aliy.py:173-178 | reference view: exactly the pages whose text is a non-empty string, with that text, in increasing page order |
| Aggregation.ImagesOf | pdf_ocr_aliy.py:162-165 | reference view: one image save per page, named by the page number counted from 1 |
| Aggregation.PageStepRejects | pdf_ocr_aliy.py:174-176 | `PageStep` (one pass of the loop body) stops the loop exactly when the text is truthy and not a string |
| Aggregation.PageStepWrites | pdf_ocr_aliy.py:174-176 | `PageStep` writes a page file exactly for a non-empty string text, with that text |
| Aggregation.ScanStopsAtRejection | pdf_ocr_aliy.py:174-176 | `Scan` (the loop): after a page whose text cannot be written, later pages change nothing |
| Aggregation.ScanRejection | pdf_ocr_aliy.py:158-180 | `Scan` finishes iff no text is truthy and non-string; otherwise it stops at the first such page |
| Aggregation.ScanSavesEveryImage | pdf_ocr_aliy.py:158-165 | a finished `Scan` saved every page image, in page order |
| Aggregation.ScanWritesPageFiles | pdf_ocr_aliy.py:173-177 | a finished `Scan` wrote exactly one page file per non-empty text, in page order |
| Aggregation.ScanKeepsPageTexts | pdf_ocr_aliy.py:173-178 | a finished `Scan` collected exactly the non-empty texts, in page order |
| Aggregation.PageFilesDistinct | pdf_ocr_aliy.py:175-176 | page files have pairwise distinct paths and non-empty contents |
| Aggregation.SummaryWritten | pdf_ocr_aliy.py:182-184 | `Finish`: the summary is written iff some page had text, and it is then the non-empty join of the kept texts |
| Aggregation.FinishAfterScan | pdf_ocr_aliy.py:157-187 | `Finish` after `Scan`: with no raising page, the writes are the loop's writes followed, iff some text was kept, by the summary of the `KeptPages` texts; otherwise the run ends at the first unwritable page, with no summary |
| HandwritingOcr.HandwritingText | pdf_ocr_aliy.py:88-142 | every failure path (the call raising, no body, no `Data`, undecodable `Data`) gives "" |
| HandwritingOcr.ContentTakesPrecedence | pdf_ocr_aliy.py:104-105 | `HandwritingFields`: `content` is returned verbatim, whatever else is present |
| HandwritingOcr.ParagraphWordsJoinedByNewline | pdf_ocr_aliy.py:108-113 | `HandwritingFields`: without `content`, a list `prism_paragraphsInfo` gives its entries' words joined by newlines, or "" if reading them raises |
| HandwritingOcr.ParagraphsHideWordsInfo | pdf_ocr_aliy.py:108-121 | `HandwritingFields`: a list `prism_paragraphsInfo` ends the search: changing or removing `prism_wordsInfo` changes nothing |
| HandwritingOcr.WordsJoinedBySpace | pdf_ocr_aliy.py:116-121 | `HandwritingFields`: next, a list `prism_wordsInfo` gives its words joined by spaces |
| HandwritingOcr.NoFieldGivesEmpty | pdf_ocr_aliy.py:104-125 | `HandwritingFields`: an object without `content` gives "" when neither `prism_paragraphsInfo` nor `prism_wordsInfo` holds a list, whether absent or present with some other value |
| HandwritingOcr.NonObjectGivesEmpty | pdf_ocr_aliy.py:104-142 | `Data` that decodes to a non-object never gives text |
| HandwritingOcr.AliyunOcrProcessor.constructor | pdf_ocr_aliy.py:41-42 | the processor keeps the client it is built with |
| HandwritingOcr.AliyunOcrProcessor.RecognizeHandwritingFromImageBytes | pdf_ocr_aliy.py:77-142 | the method returns the text `HandwritingText` specifies for the client's reply; `Recognitions` applies it page by page (line 173) |
| HandwritingOcr.AliyunOcrProcessor.SummaryIsNotAPageFile | pdf_ocr_aliy.py:175-183 | `SummaryPath` (`<stem>_ocr_aliy.txt`) never coincides with a page file or a page image |
| HandwritingOcr.AliyunOcrProcessor.ProcessPdf | pdf_ocr_aliy.py:144-187 | a missing PDF or failed conversion writes nothing; otherwise the writes and outcome are the page loop over the recognitions, followed by the `_ocr_aliy.txt` summary |
| LanguageOcr.Name | pdf_ocr_aliyun_en.py:41-49 | every member name is non-empty and written in capitals |
| LanguageOcr.Member | pdf_ocr_aliyun_en.py:56-57 | `LanguageType[name]` finds the member with exactly that name, or none when no member has it |
| LanguageOcr.SelectLanguageSpec | pdf_ocr_aliyun_en.py:55-60 | `SelectLanguage` picks `l` iff the upper-cased argument is `l`'s name, or `l` is ENGLISH and no name matches |
| LanguageOcr.MemberOfName | pdf_ocr_aliyun_en.py:56 | every member is found again by `LanguageType[...]` under its own name |
| LanguageOcr.SelectIgnoresCase | pdf_ocr_aliyun_en.py:56 | any spelling of a member name that writes each letter as a capital or as a small letter ("English", "english", "ENGLISH") selects that member |
| LanguageOcr.SummarySuffix | pdf_ocr_aliyun_en.py:224 | `self.language.name.lower()`: non-empty, small letters only, and its upper case is the member name |
| LanguageOcr.SummarySuffixNamesLanguage | pdf_ocr_aliyun_en.py:224-225 | different languages give different summary suffixes, and the suffix selects its language again |
| LanguageOcr.DispatchIsOneToOne | pdf_ocr_aliyun_en.py:100-120 | `Dispatch`, the `if`/`elif` chain, is a bijection between languages and recognisers |
| LanguageOcr.LanguageText | pdf_ocr_aliyun_en.py:99-182 | every failure path gives "" |
| LanguageOcr.LanguageContentFirst | pdf_ocr_aliyun_en.py:139-140 | `LanguageFields`: `content` is returned verbatim |
| LanguageOcr.VersionedTextSecond | pdf_ocr_aliyun_en.py:143-144 | `LanguageFields`: next comes `text`, when `prism_version` is present too |
| LanguageOcr.TextWithoutVersionIgnored | pdf_ocr_aliyun_en.py:143-144 | `LanguageFields`: without `prism_version`, removing `text` changes nothing |
| LanguageOcr.WordsInfoHidesLines | pdf_ocr_aliyun_en.py:147-160 | `LanguageFields`: a list `prism_wordsInfo` ends the search before `lines` |
| LanguageOcr.LanguageWordsJoinedBySpace | pdf_ocr_aliyun_en.py:147-152 | `LanguageFields`: a list `prism_wordsInfo` gives its words joined by spaces |
| LanguageOcr.LinesJoinedByNewline | pdf_ocr_aliyun_en.py:155-160 | `LanguageFields`: failing the above, a list `lines` gives the entries' `text` joined by newlines |
| LanguageOcr.LanguageNoFieldGivesEmpty | pdf_ocr_aliyun_en.py:139-165 | `LanguageFields`: an object without `content` gives "" when it does not hold both `prism_version` and `text`, and neither `prism_wordsInfo` nor `lines` holds a list, whether absent or present with some other value |
| LanguageOcr.LanguageNonObjectGivesEmpty | pdf_ocr_aliyun_en.py:139-182 | `Data` that decodes to a non-object never gives text |
| LanguageOcr.AliyunOcrProcessor.constructor | pdf_ocr_aliyun_en.py:53-60 | the language is the upper-cased name's member, falling back to ENGLISH |
| LanguageOcr.AliyunOcrProcessor.SendToRecognizer | pdf_ocr_aliyun_en.py:100-120 | the `if`/`elif` chain sends the image to the recogniser `Dispatch` names for the selected language |
| LanguageOcr.AliyunOcrProcessor.RecognizeTextFromImageBytes | pdf_ocr_aliyun_en.py:95-182 | the method calls the recogniser `Dispatch` names and returns what `LanguageText` specifies; `Recognitions` applies it page by page (line 214) |
| LanguageOcr.AliyunOcrProcessor.SummaryIsNotAPageFile | pdf_ocr_aliyun_en.py:216-225 | `SummaryPath` (`<stem>_ocr_<suffix>.txt`) never coincides with a page file or a page image |
| LanguageOcr.AliyunOcrProcessor.ProcessPdf | pdf_ocr_aliyun_en.py:184-229 | as for handwriting, but the summary is `<stem>_ocr_<language in lower case>.txt` |
| PageBatch.RangeCoversInterval | main.py:121 | `Range` (`range(lo, hi)`): holds exactly the integers from lo up to but excluding hi, in strictly increasing order |
| PageBatch.PagesToProcess | main.py:103-109 | a refused range reports the start after raising it to 1 |
| PageBatch.RangeRejected | main.py:103-109 | the run is refused iff the start is past the last page or the PDF has no pages |
| PageBatch.PageSelection | main.py:103-121 | page p is processed iff 1 <= p <= total, p >= start, and p <= end when an end other than 0 is given |
| PageBatch.PagesAscending | main.py:103-121 | pages are processed once each, in increasing order, the first being the start raised to 1 |
| PageBatch.DefaultEndReachesLastPage | main.py:103-104 | for any start up to the last page, even 0 or below, no end or end 0 runs from the start raised to 1 to the last page |
| PageBatch.AsWrittenCallLosesPrompt | main.py:42 | `AsWrittenAnalyzeCall` (`BindPositional` of the two arguments, bound as pdf_to_txt.py:24 declares): the prompt is bound to `image_url` and the model gets "What is in this image?" |
| PageBatch.IntendedCallKeepsPrompt | main.py:42 | `IntendedAnalyzeCall`, line 42 corrected: the prompt reaches `prompt`, and the call differs from the written one only in `image_url` and `prompt` |
| PageBatch.TextFileBesideImage | main.py:45-46 | `TextFileFor`: an image `<stem>.<format>` in the output directory gets its text in `<stem>_text.txt` in the same directory |
| PageBatch.ProcessPdfPage | main.py:8-59 | for either binding of line 42: a failed render fails the page with the exception's message |
| PageBatch.PageSuccessRecords | main.py:36-55 | for either binding of line 42: a successful page records the image, the path the text was saved to and the optional PDF; the saved text is the model's answer for that image and the call line 42 builds |
| PageBatch.PageFailsOnFirstError | main.py:33-59 | for either binding of line 42: a page fails iff rendering, analysis or saving raises; later steps run only after earlier ones return; the page records the message (`str(e)`) of the step that raised |
| PageBatch.GivenPromptReachesModel | main.py:25-42 | with line 42 corrected: a missing prompt means the built-in one; a given prompt, even an empty one, is the prompt the model is asked, and the text saved for a page that succeeds is the model's answer to it |
| PageBatch.AsWrittenPageIgnoresPrompt | main.py:25-42 | as written, when `analyze_image` ignores `image_url`, every page is processed as if the library's default question were the prompt, whatever prompt is given |
| PageBatch.SuccessCount | main.py:134 | the success count never exceeds the number of pages |
| PageBatch.AllSucceeded | main.py:134-135 | the count equals the number of pages iff every page succeeded |
| PageBatch.NoneSucceeded | main.py:134-135 | the count is zero iff every page failed |
| PageBatch.ResultsInOrder | main.py:120-131 | `Results`: one result per page, the k-th being the page job's result for the k-th page |
| PageBatch.ResultsStep | main.py:121-131 | one more page of the range appends exactly its own result |
| PageBatch.ProcessPages | main.py:120-131 | the `for` loop collects `Results` over `range(first, last + 1)` |
| PageBatch.ProcessAndTally | main.py:119-135 | the loop's results over `range(first, last + 1)` with the count of successes and of failures, which add up to the number of pages |
| PageBatch.Run | main.py:79-135 | for either binding of line 42: a missing PDF, an unreadable page count or a refused range stop the run; otherwise the results are the selected pages' results, tallied into successes and failures |

## Left out

- Creating the SDK clients (environment variables, credential errors, `sys.exit`) is left out. So are the `main()` functions of the two Aliyun scripts, with their fixed configuration constants (`PDF_FILE_PATH`, `POPPLER_PATH`, `LANGUAGE`).
- `SAVE_IMAGES` is a constant `True` in both Aliyun scripts, so the model always saves page images.
- `json.loads` is not modelled: a reply is either undecodable (`Malformed`) or already decoded. JSON numbers are integers; floats are not modelled.
- Rendering a PDF (`convert_from_path`, Pillow's PNG encoding) is not modelled. The rendered pages, or their absence, are an input.
- Console output (`print`), directory creation (`mkdir`, `os.makedirs`) and the actual file system are left out. Writes are the returned list of writes.
- `get_pdf_page_count`: the page count (or the `ValueError` it raises) is an input, since reading a PDF is not modelled.
- pdf_to_image, analyze_image and save_to_file are given collaborators of main.py. save_to_file is not part of this model: pdf_to_txt.py does not define it.
- Text.UpperChar: maps only the characters whose upper case is written with the letters A to Z and keeps every other character. Only comparison with the (ASCII) member names depends on `upper()`, so the chosen language is the same as Python's.
- Text.Lower: lower-cases ASCII letters only. It is applied only to the ASCII member names.
- Text.Stem follows `pathlib` before Python 3.14, where a name's last dot starts the suffix unless it is the first or the last character.
- main.py:42 is modelled both as written and as evidently intended: `ProcessPdfPage`, `PageJob` and `Run` take a `Binding` that picks the call line 42 builds. What `analyze_image` does with `image_url` is a given collaborator, since the `analyze_image` main.py binds to is not part of this model.
- Text encoding: the `write_text(..., encoding='utf-8')` calls at pdf_ocr_aliy.py:176,184 and pdf_ocr_aliyun_en.py:217,226 raise an uncaught `UnicodeEncodeError` for a text holding a lone surrogate (which `json.loads` yields for `"\ud800"`). A Dafny `char` cannot hold a surrogate, so in the model such a page completes and that error path is never taken.
- Paths are POSIX paths; Windows separators and drive letters are not modelled.
- The vendor reply is a deterministic function of the image bytes; retries and network timing are not modelled.
- The other scripts of the repository (pdf_ocr.py, pdf_ocr_easyocr.py, score_and_comment.py, md_to_doxc.py) are not part of this model. md_to_doxc.py hands the conversion to markdown, BeautifulSoup and python-docx, so it is left out.

## Findings

| source | as written | input that shows it | evidently intended | confidence | as-written member | corrected member |
|---|---|---|---|---|---|---|
| main.py:42 | `analyze_image(image_path, prompt)` binds the prompt to the second parameter, `image_url`, of `analyze_image(image_path=None, image_url=None, prompt="What is in this image?")` (pdf_to_txt.py:24) | any page, with or without `--prompt`: the model is asked "What is in this image?" instead of the built-in handwriting prompt | `analyze_image(image_path=image_path, prompt=prompt)` | medium, not executed: the signature is read from pdf_to_txt.py:24, but main.py:4 also imports `save_to_file`, which that file does not define, so the module main.py binds to may differ | PageBatch.AsWrittenCallLosesPrompt | PageBatch.GivenPromptReachesModel |
