/** The command-line driver of main.py: which pages a run covers, what one
    page goes through (render, ask the language model, save the answer), and
    the tally printed at the end. Rendering, the model and the file writer are
    collaborators whose results are given. */
module PageBatch {
  import opened Wrappers
  import opened Text

  // ---------------------------------------------------------------------------
  // The page range

  /** `range(lo, hi)`. */
  function Range(lo: int, hi: int): seq<int>
  {
    seq(if lo < hi then hi - lo else 0, k => lo + k)
  }

  /** `range(lo, hi)` holds each integer from `lo` up to but excluding `hi`,
      once each, in ascending order. */
  lemma RangeCoversInterval(lo: int, hi: int)
    ensures forall p :: p in Range(lo, hi) <==> lo <= p < hi
    ensures forall j, k :: 0 <= j < k < |Range(lo, hi)| ==> Range(lo, hi)[j] < Range(lo, hi)[k]
  {
    var r := Range(lo, hi);
    forall p | lo <= p < hi ensures p in r {
      assert r[p - lo] == p;
    }
  }

  /** The one range error main() reports before stopping. */
  datatype RangeError = StartBeyondLastPage(start: int, total: nat)

  /** The pages a run covers: the start is raised to 1, a missing or zero end
      means the last page, an end past the last page is lowered to it, and a
      start past the last page is an error. */
  function PagesToProcess(start: int, end: Option<int>, total: nat): (r: Result<seq<int>, RangeError>)
    ensures r.Failure? ==> r.error == StartBeyondLastPage(if start > 1 then start else 1, total)
  {
    var first := if start > 1 then start else 1;
    var last := if end.Some? && end.value != 0 then end.value else total;
    if first > total then Failure(StartBeyondLastPage(first, total))
    else Success(Range(first, (if last > total then total else last) + 1))
  }

  /** The run is refused exactly when the start lies past the last page, or
      the document has no pages at all. */
  lemma RangeRejected(start: int, end: Option<int>, total: nat)
    ensures PagesToProcess(start, end, total).Failure? <==> start > total || total == 0
  {
  }

  /** When the range is accepted, it runs from the start raised to 1 up to
      the end page lowered to the last page. */
  lemma PagesOfAcceptedRange(start: int, end: Option<int>, total: nat)
    requires start <= total && 1 <= total
    ensures var first := if start > 1 then start else 1;
      var last := if end.Some? && end.value != 0 then end.value else total;
      PagesToProcess(start, end, total) == Success(Range(first, (if last > total then total else last) + 1))
  {
  }

  /** Which pages are covered, stated on the arguments as given: a page is
      processed exactly when it exists, is not before `start` and, if an end
      other than 0 was given, is not after it. */
  lemma PageSelection(start: int, end: Option<int>, total: nat, p: int)
    requires PagesToProcess(start, end, total).Success?
    ensures p in PagesToProcess(start, end, total).value <==>
      1 <= p <= total && start <= p && (end.None? || end.value == 0 || p <= end.value)
  {
    var first := if start > 1 then start else 1;
    var last := if end.Some? && end.value != 0 then end.value else total;
    RangeCoversInterval(first, (if last > total then total else last) + 1);
  }

  /** Pages are visited once each, in ascending order, starting from the
      requested start raised to 1. */
  lemma PagesAscending(start: int, end: Option<int>, total: nat)
    requires PagesToProcess(start, end, total).Success?
    ensures var pages := PagesToProcess(start, end, total).value;
      forall j, k :: 0 <= j < k < |pages| ==> pages[j] < pages[k]
    ensures var pages := PagesToProcess(start, end, total).value;
      pages != [] ==> pages[0] == (if start > 1 then start else 1)
  {
    var first := if start > 1 then start else 1;
    var last := if end.Some? && end.value != 0 then end.value else total;
    RangeCoversInterval(first, (if last > total then total else last) + 1);
  }

  /** Without an end page (or with end page 0), every page from the start,
      raised to 1, up to the last page is processed. */
  lemma DefaultEndReachesLastPage(start: int, total: nat)
    requires 1 <= total && start <= total
    ensures var first := if start > 1 then start else 1;
      PagesToProcess(start, None, total) == Success(Range(first, total + 1))
    ensures var first := if start > 1 then start else 1;
      PagesToProcess(start, Some(0), total) == Success(Range(first, total + 1))
  {
  }

  // ---------------------------------------------------------------------------
  // Calling analyze_image

  /** The parameters of `analyze_image(image_path=None, image_url=None,
      prompt="What is in this image?")` once bound. */
  datatype AnalyzeCall = AnalyzeCall(imagePath: Option<string>, imageUrl: Option<string>, prompt: string)

  const AnalyzeDefaultPrompt: string := "What is in this image?"

  /** The prompt process_pdf_page uses when none is given. */
  const DefaultPrompt: string := "\n        请分析这张图片中的手写文字内容:\n        - 因为是批改的作业，英文会有错，原文输出即可,无需解释性的语言，\n        - 如果识别出文字是已经被黑色笔画划掉的，则不输出对应的单词，\n        - 如果为红色笔画，则忽略笔画，此笔画为批注内容，可以当作不存在红色笔画，\n        "

  /** Binds positional arguments to `analyze_image`'s parameters in their
      declared order; the parameters left over keep their defaults. More than
      three arguments is a TypeError in Python and is not admitted. */
  function BindPositional(args: seq<string>): AnalyzeCall
    requires |args| <= 3
  {
    AnalyzeCall(
      if |args| >= 1 then Some(args[0]) else None,
      if |args| >= 2 then Some(args[1]) else None,
      if |args| >= 3 then args[2] else AnalyzeDefaultPrompt)
  }

  /** The call as main.py writes it, `analyze_image(image_path, prompt)`. */
  function AsWrittenAnalyzeCall(imagePath: string, prompt: string): AnalyzeCall {
    BindPositional([imagePath, prompt])
  }

  /** Written that way, the prompt lands in `image_url`, and the model is
      always asked the library's default question instead, for instance for
      the built-in handwriting prompt. */
  lemma AsWrittenCallLosesPrompt(imagePath: string)
    ensures AsWrittenAnalyzeCall(imagePath, DefaultPrompt).prompt == AnalyzeDefaultPrompt
    ensures AsWrittenAnalyzeCall(imagePath, DefaultPrompt).prompt != DefaultPrompt
    ensures forall p :: AsWrittenAnalyzeCall(imagePath, p).imageUrl == Some(p)
  {
  }

  /** The call main.py evidently means:
      `analyze_image(image_path=image_path, prompt=prompt)`. */
  function IntendedAnalyzeCall(imagePath: string, prompt: string): AnalyzeCall {
    AnalyzeCall(Some(imagePath), None, prompt)
  }

  /** The intended call differs from the written one only in where the prompt
      goes. */
  lemma IntendedCallKeepsPrompt(imagePath: string, prompt: string)
    ensures IntendedAnalyzeCall(imagePath, prompt).prompt == prompt
    ensures IntendedAnalyzeCall(imagePath, prompt).imagePath == AsWrittenAnalyzeCall(imagePath, prompt).imagePath
    ensures IntendedAnalyzeCall(imagePath, prompt) == AsWrittenAnalyzeCall(imagePath, prompt).(imageUrl := None, prompt := prompt)
  {
  }

  /** How line 42 hands the prompt to `analyze_image`: positionally, as
      written, or by keyword, as intended. */
  datatype Binding = AsWritten | Corrected

  /** The bound call for either binding. */
  function CallFor(binding: Binding, imagePath: string, prompt: string): AnalyzeCall {
    match binding
    case AsWritten => AsWrittenAnalyzeCall(imagePath, prompt)
    case Corrected => IntendedAnalyzeCall(imagePath, prompt)
  }

  // ---------------------------------------------------------------------------
  // One page

  /** What `pdf_to_image` reports: the image it saved and, when a single-page
      PDF was requested, that file too. */
  datatype ImageFiles = ImageFiles(imagePath: string, pdfPath: Option<string>)

  /** The collaborators of process_pdf_page, each either returning or raising
      (with the exception's message). `render` is `pdf_to_image` for a page
      under the run's fixed PDF, directory, resolution, format and PDF flag;
      `analyze` is `analyze_image`; `save` is `save_to_file(text, path)`. */
  datatype Tools = Tools(
    render: int -> Result<ImageFiles, string>,
    analyze: AnalyzeCall -> Result<string, string>,
    save: (string, string) -> Result<string, string>)

  /** The dictionary process_pdf_page returns. */
  datatype PageResult =
    | PageSucceeded(imagePath: string, textPath: string, pdfPath: Option<string>)
    | PageFailed(error: string)

  /** The text file for an image: the image's base name without extension,
      with `_text.txt` appended, in the output directory. */
  function TextFileFor(outputDir: string, imagePath: string): string {
    PathJoin(outputDir, SplitExtRoot(BaseName(imagePath)) + "_text.txt")
  }

  /** A rendered image `<stem>.<format>` in the output directory gets its text
      in `<stem>_text.txt` right beside it. */
  lemma TextFileBesideImage(outputDir: string, stem: string, format: string)
    requires '/' !in stem && '/' !in format && '.' !in format
    requires exists k :: 0 <= k < |stem| && stem[k] != '.'
    ensures TextFileFor(outputDir, PathJoin(outputDir, stem + "." + format)) == PathJoin(outputDir, stem + "_text.txt")
  {
    BaseNameOfJoin(outputDir, stem + "." + format);
    SplitExtOfFormat(stem, format);
  }

  /** process_pdf_page: render the page, ask the model (with the default
      prompt when none is given), save the answer next to the image. Whatever
      raises on the way makes the page a failure carrying the message. */
  function ProcessPdfPage(tools: Tools, binding: Binding, page: int, outputDir: string, prompt: Option<string>): (r: PageResult)
    ensures tools.render(page).Failure? ==> r == PageFailed(tools.render(page).error)
  {
    var image := tools.render(page);
    if image.Failure? then PageFailed(image.error)
    else
      var text := tools.analyze(CallFor(binding, image.value.imagePath, prompt.GetOr(DefaultPrompt)));
      if text.Failure? then PageFailed(text.error)
      else
        var saved := tools.save(text.value, TextFileFor(outputDir, image.value.imagePath));
        if saved.Failure? then PageFailed(saved.error)
        else PageSucceeded(image.value.imagePath, saved.value, image.value.pdfPath)
  }

  /** A page that succeeds records the rendered image, the path the text was
      saved to and the optional single-page PDF; the text saved is the model's
      answer to the image with the prompt in effect. */
  lemma PageSuccessRecords(tools: Tools, binding: Binding, page: int, outputDir: string, prompt: Option<string>)
    ensures var r := ProcessPdfPage(tools, binding, page, outputDir, prompt);
      r.PageSucceeded? ==>
        var image := tools.render(page).value;
        && tools.render(page).Success?
        && r.imagePath == image.imagePath
        && r.pdfPath == image.pdfPath
        && tools.analyze(CallFor(binding, image.imagePath, prompt.GetOr(DefaultPrompt))).Success?
        && var text := tools.analyze(CallFor(binding, image.imagePath, prompt.GetOr(DefaultPrompt))).value;
           tools.save(text, TextFileFor(outputDir, image.imagePath)) == Success(r.textPath)
  {
    var render := tools.render(page);
    if render.Success? {
      var text := tools.analyze(CallFor(binding, render.value.imagePath, prompt.GetOr(DefaultPrompt)));
      if text.Success? {
        var saved := tools.save(text.value, TextFileFor(outputDir, render.value.imagePath));
        assert saved.Success? ==>
          ProcessPdfPage(tools, binding, page, outputDir, prompt) == PageSucceeded(render.value.imagePath, saved.value, render.value.pdfPath);
      }
    }
  }

  /** A page fails exactly when one of its three steps raises; the later
      steps run only after the earlier ones returned, and the page records
      the message of the step that raised. */
  lemma PageFailsOnFirstError(tools: Tools, binding: Binding, page: int, outputDir: string, prompt: Option<string>)
    ensures var render := tools.render(page);
      ProcessPdfPage(tools, binding, page, outputDir, prompt).PageFailed? <==>
        render.Failure? ||
        (var call := CallFor(binding, render.value.imagePath, prompt.GetOr(DefaultPrompt));
         tools.analyze(call).Failure? ||
         tools.save(tools.analyze(call).value, TextFileFor(outputDir, render.value.imagePath)).Failure?)
    ensures var render := tools.render(page);
      render.Success? ==>
        var text := tools.analyze(CallFor(binding, render.value.imagePath, prompt.GetOr(DefaultPrompt)));
        text.Failure? ==> ProcessPdfPage(tools, binding, page, outputDir, prompt) == PageFailed(text.error)
    ensures var render := tools.render(page);
      render.Success? ==>
        var text := tools.analyze(CallFor(binding, render.value.imagePath, prompt.GetOr(DefaultPrompt)));
        text.Success? ==>
          var saved := tools.save(text.value, TextFileFor(outputDir, render.value.imagePath));
          saved.Failure? ==> ProcessPdfPage(tools, binding, page, outputDir, prompt) == PageFailed(saved.error)
  {
  }

  /** With the call corrected, a prompt given on the command line, even an
      empty one, is passed on as it is; only a missing one is replaced, by
      the built-in prompt. */
  lemma GivenPromptReachesModel(tools: Tools, page: int, outputDir: string, prompt: string)
    ensures ProcessPdfPage(tools, Corrected, page, outputDir, None) == ProcessPdfPage(tools, Corrected, page, outputDir, Some(DefaultPrompt))
    ensures tools.render(page).Success? ==>
      var image := tools.render(page).value.imagePath;
      var r := ProcessPdfPage(tools, Corrected, page, outputDir, Some(prompt));
      var answer := tools.analyze(AnalyzeCall(Some(image), None, prompt));
      r.PageSucceeded? ==>
        answer.Success? && tools.save(answer.value, TextFileFor(outputDir, image)) == Success(r.textPath)
  {
    var none, given := None, Some(DefaultPrompt);
    assert none.GetOr(DefaultPrompt) == given.GetOr(DefaultPrompt);
    PageSuccessRecords(tools, Corrected, page, outputDir, Some(prompt));
  }

  /** `analyze_image` reads only `image_path` and `prompt`; `image_url` is
      never consulted. */
  ghost predicate IgnoresImageUrl(analyze: AnalyzeCall -> Result<string, string>) {
    forall path, url, prompt :: analyze(AnalyzeCall(path, url, prompt)) == analyze(AnalyzeCall(path, None, prompt))
  }

  /** As written, with an `analyze_image` that ignores `image_url`, every
      page is processed as if the library's default question had been given
      as the prompt, whatever prompt the command line or the built-in one
      supplies. */
  lemma AsWrittenPageIgnoresPrompt(tools: Tools, page: int, outputDir: string, prompt: Option<string>)
    requires IgnoresImageUrl(tools.analyze)
    ensures ProcessPdfPage(tools, AsWritten, page, outputDir, prompt) ==
      ProcessPdfPage(tools, Corrected, page, outputDir, Some(AnalyzeDefaultPrompt))
  {
    if tools.render(page).Success? {
      var image := tools.render(page).value.imagePath;
      assert tools.analyze(CallFor(AsWritten, image, prompt.GetOr(DefaultPrompt))) ==
        tools.analyze(CallFor(Corrected, image, AnalyzeDefaultPrompt));
    }
  }

  // ---------------------------------------------------------------------------
  // The run

  /** `sum(1 for r in results if r.get("success", False))`. */
  function SuccessCount(results: seq<PageResult>): (n: nat)
    ensures n <= |results|
    decreases |results|
  {
    if results == [] then 0
    else SuccessCount(results[..|results| - 1]) + (if results[|results| - 1].PageSucceeded? then 1 else 0)
  }

  /** Every page counted as a success is one, and only when all succeed does
      the count reach the number of pages. */
  lemma {:induction false} AllSucceeded(results: seq<PageResult>)
    ensures SuccessCount(results) == |results| <==> forall k :: 0 <= k < |results| ==> results[k].PageSucceeded?
    decreases |results|
  {
    if results != [] {
      var front := results[..|results| - 1];
      AllSucceeded(front);
      assert forall k :: 0 <= k < |front| ==> front[k] == results[k];
    }
  }

  /** The count is zero exactly when every page failed. */
  lemma {:induction false} NoneSucceeded(results: seq<PageResult>)
    ensures SuccessCount(results) == 0 <==> forall k :: 0 <= k < |results| ==> results[k].PageFailed?
    decreases |results|
  {
    if results != [] {
      var front := results[..|results| - 1];
      NoneSucceeded(front);
      assert forall k :: 0 <= k < |front| ==> front[k] == results[k];
    }
  }

  /** How main() ends. */
  datatype Report =
    | PdfMissing                    // the PDF does not exist
    | PageCountFailed(error: string) // get_pdf_page_count raised ValueError, uncaught
    | RangeRefused(reason: RangeError)
    | Processed(results: seq<PageResult>, succeeded: nat, failed: nat)

  /** process_pdf_page with the run's fixed arguments, as a function of the
      page number. */
  function PageJob(tools: Tools, binding: Binding, outputDir: string, prompt: Option<string>): int -> PageResult {
    page => ProcessPdfPage(tools, binding, page, outputDir, prompt)
  }

  /** The results main() collects for a list of pages. */
  function Results(job: int -> PageResult, pages: seq<int>): seq<PageResult>
    decreases |pages|
  {
    if pages == [] then []
    else Results(job, pages[..|pages| - 1]) + [job(pages[|pages| - 1])]
  }

  /** One result per page, in the order the pages were given. */
  lemma {:induction false} ResultsInOrder(job: int -> PageResult, pages: seq<int>)
    ensures |Results(job, pages)| == |pages|
    ensures forall k :: 0 <= k < |pages| ==> Results(job, pages)[k] == job(pages[k])
    decreases |pages|
  {
    if pages != [] {
      var front := pages[..|pages| - 1];
      ResultsInOrder(job, front);
      assert forall k :: 0 <= k < |front| ==> front[k] == pages[k];
    }
  }

  /** One more page of `range(lo, hi)` adds its result at the end. */
  lemma ResultsStep(job: int -> PageResult, lo: int, hi: int)
    requires lo <= hi
    ensures Results(job, Range(lo, hi + 1)) == Results(job, Range(lo, hi)) + [job(hi)]
  {
    assert Range(lo, hi + 1)[..hi - lo] == Range(lo, hi);
  }

  /** main()'s loop: processes the pages from `first` to `last` in turn and
      collects their results. */
  method ProcessPages(job: int -> PageResult, first: int, last: int) returns (results: seq<PageResult>)
    ensures results == Results(job, Range(first, last + 1))
  {
    results := [];
    var page := first;
    while page <= last
      invariant first <= page && (page <= last + 1 || page == first)
      invariant results == Results(job, Range(first, page))
    {
      ResultsStep(job, first, page);
      results := results + [job(page)];
      page := page + 1;
    }
    assert Range(first, page) == Range(first, last + 1);
  }

  /** main(): checks the PDF, reads its page count, settles the page range,
      processes each page in turn and tallies successes and failures. */
  method Run(tools: Tools, binding: Binding, pdfExists: bool, pageCount: Result<nat, string>,
             start: int, end: Option<int>, outputDir: string, prompt: Option<string>)
    returns (report: Report)
    ensures !pdfExists ==> report == PdfMissing
    ensures pdfExists && pageCount.Failure? ==> report == PageCountFailed(pageCount.error)
    ensures pdfExists && pageCount.Success? && PagesToProcess(start, end, pageCount.value).Failure? ==>
      report == RangeRefused(PagesToProcess(start, end, pageCount.value).error)
    ensures pdfExists && pageCount.Success? && PagesToProcess(start, end, pageCount.value).Success? ==>
      var results := Results(PageJob(tools, binding, outputDir, prompt), PagesToProcess(start, end, pageCount.value).value);
      report == Processed(results, SuccessCount(results), |results| - SuccessCount(results))
  {
    if !pdfExists {
      return PdfMissing;
    }
    if pageCount.Failure? {
      return PageCountFailed(pageCount.error);
    }
    var total := pageCount.value;
    var startPage := if start > 1 then start else 1;
    var endPage := if end.Some? && end.value != 0 then end.value else total;
    if startPage > total {
      assert PagesToProcess(start, end, total) == Failure(StartBeyondLastPage(startPage, total));
      return RangeRefused(StartBeyondLastPage(startPage, total));
    }
    if endPage > total {
      endPage := total;
    }
    PagesOfAcceptedRange(start, end, total);
    var pages := Range(startPage, endPage + 1);
    assert PagesToProcess(start, end, total) == Success(pages);
    report := ProcessAndTally(PageJob(tools, binding, outputDir, prompt), startPage, endPage);
  }

  /** The end of main(): processes the pages from `first` to `last` and
      tallies how many succeeded and how many failed. */
  method ProcessAndTally(job: int -> PageResult, first: int, last: int) returns (report: Report)
    ensures var results := Results(job, Range(first, last + 1));
      report == Processed(results, SuccessCount(results), |results| - SuccessCount(results))
  {
    var results := ProcessPages(job, first, last);
    var succeeded := SuccessCount(results);
    report := Processed(results, succeeded, |results| - succeeded);
  }
}
