/** What `process_pdf` of both Aliyun processors does with the pages of a PDF:
    save every page image, write each non-empty recognition to its own page
    file, collect those texts in page order, and write the collected texts as
    one summary when there is at least one. File writes are modelled as the
    list of (path, content) pairs in the order they happen. */
module Aggregation {
  import opened Wrappers
  import opened Text
  import opened Json

  /** A rendered page, as the PNG bytes Pillow encodes for it. */
  type Png = seq<bv8>

  datatype FileWrite =
    | SaveImage(path: string, png: Png)
    | WriteText(path: string, text: string)

  const OutputDir: string := "output"
  const ImagesDir: string := "output/images"

  /** What stands between two page texts in the summary. */
  const Separator: string := "\n\n---\n\n"

  /** `IMAGES_DIR / f"page_{i:03d}.png"`. */
  function ImagePath(page: nat): string {
    ImagesDir + "/page_" + Pad3(page) + ".png"
  }

  /** `OUTPUT_DIR / f"page_{i:03d}.txt"`. */
  function TextPath(page: nat): string {
    OutputDir + "/page_" + Pad3(page) + ".txt"
  }

  /** Different pages are written to different files, and no page image
      shares its path with a page text. */
  lemma PagePathsInjective(i: nat, j: nat)
    ensures TextPath(i) == TextPath(j) ==> i == j
    ensures ImagePath(i) == ImagePath(j) ==> i == j
    ensures ImagePath(i) != TextPath(j)
  {
    if TextPath(i) == TextPath(j) {
      PaddedNameInjective(OutputDir + "/page_", ".txt", i, j);
    }
    if ImagePath(i) == ImagePath(j) {
      PaddedNameInjective(ImagesDir + "/page_", ".png", i, j);
    }
    var a, b := ImagePath(i), TextPath(j);
    assert a[|a| - 2] == 'n' && b[|b| - 2] == 'x';
  }

  /** Names that differ only in the padded number differ in the number. */
  lemma PaddedNameInjective(prefix: string, suffix: string, i: nat, j: nat)
    requires prefix + Pad3(i) + suffix == prefix + Pad3(j) + suffix
    ensures i == j
  {
    var a, b := prefix + Pad3(i) + suffix, prefix + Pad3(j) + suffix;
    assert |Pad3(i)| == |Pad3(j)|;
    assert Pad3(i) == a[|prefix|..|prefix| + |Pad3(i)|];
    assert Pad3(j) == b[|prefix|..|prefix| + |Pad3(j)|];
    Pad3Injective(i, j);
  }

  /** A path whose fifth character from the end is not a digit is not a
      page file (`page_<digits>.txt`), and one whose second character from
      the end is an `x` is not a page image (`.png`). */
  lemma NotAPageFile(s: string, page: nat)
    requires |s| >= 5 && !IsDigit(s[|s| - 5]) && s[|s| - 2] == 'x'
    ensures s != TextPath(page) && s != ImagePath(page)
  {
    var d := Pad3(page);
    var t := TextPath(page);
    assert t == (OutputDir + "/page_" + d) + ".txt";
    assert t[|t| - 5] == d[|d| - 1];
    var img := ImagePath(page);
    assert img[|img| - 2] == 'n';
  }

  /** The state of the page loop: what was written, the texts collected in
      `all_recognized_text`, and the page whose text could not be written
      (Path.write_text raises TypeError on a value that is not a string, and
      nothing catches it). */
  datatype Progress = Progress(writes: seq<FileWrite>, kept: seq<string>, rejected: Option<nat>)

  /** A truthy recognition that is not a string: writing it raises. */
  predicate Unwritable(v: Json) {
    Truthy(v) && !v.JString?
  }

  /** The loop body for page number `page` (counted from 1). */
  function PageStep(p: Progress, page: nat, png: Png, text: Json): Progress {
    var saved := p.writes + [SaveImage(ImagePath(page), png)];
    if !Truthy(text) then Progress(saved, p.kept, None)
    else if text.JString? then Progress(saved + [WriteText(TextPath(page), text.s)], p.kept + [text.s], None)
    else Progress(saved, p.kept, Some(page))
  }

  /** The page loop over `pages`, where `texts[k]` is what the recogniser
      returns for `pages[k]`. It stops at the first page whose text raises. */
  function Scan(pages: seq<Png>, texts: seq<Json>): Progress
    requires |pages| == |texts|
    decreases |pages|
  {
    if pages == [] then Progress([], [], None)
    else
      var n := |pages|;
      var p := Scan(pages[..n - 1], texts[..n - 1]);
      if p.rejected.Some? then p else PageStep(p, n, pages[n - 1], texts[n - 1])
  }

  datatype Outcome =
    | PdfNotFound        // the PDF path does not exist: return before anything
    | ConversionFailed   // convert_from_path raised: return before any page
    | WriteRaised(page: nat)
    | Completed

  /** After the loop: the summary is written only when some text was kept. */
  function Finish(p: Progress, summaryPath: string): (seq<FileWrite>, Outcome) {
    if p.rejected.Some? then (p.writes, WriteRaised(p.rejected.value))
    else if p.kept != [] then (p.writes + [WriteText(summaryPath, Join(Separator, p.kept))], Completed)
    else (p.writes, Completed)
  }

  // ---------------------------------------------------------------------------
  // Reference views of the loop's effect

  /** The pages (counted from 1) whose recognition is a non-empty string,
      paired with that string, in page order. */
  function KeptPages(texts: seq<Json>): (r: seq<(nat, string)>)
    ensures |r| <= |texts|
    ensures forall j :: 0 <= j < |r| ==> 1 <= r[j].0 <= |texts| && texts[r[j].0 - 1] == JString(r[j].1) && r[j].1 != ""
    ensures forall j, k :: 0 <= j < k < |r| ==> r[j].0 < r[k].0
    ensures forall k :: 0 <= k < |texts| && texts[k].JString? && texts[k].s != "" ==> (k + 1, texts[k].s) in r
    decreases |texts|
  {
    if texts == [] then []
    else
      var n := |texts|;
      var front := KeptPages(texts[..n - 1]);
      var t := texts[n - 1];
      if t.JString? && t.s != "" then front + [(n, t.s)] else front
  }

  /** The page-file writes among `ws`, in order. */
  function TextWrites(ws: seq<FileWrite>): (r: seq<FileWrite>)
    ensures forall j :: 0 <= j < |r| ==> r[j].WriteText?
    decreases |ws|
  {
    if ws == [] then []
    else
      var w := ws[|ws| - 1];
      TextWrites(ws[..|ws| - 1]) + if w.WriteText? then [w] else []
  }

  /** The image saves among `ws`, in order. */
  function ImageSaves(ws: seq<FileWrite>): (r: seq<FileWrite>)
    ensures forall j :: 0 <= j < |r| ==> r[j].SaveImage?
    decreases |ws|
  {
    if ws == [] then []
    else
      var w := ws[|ws| - 1];
      ImageSaves(ws[..|ws| - 1]) + if w.SaveImage? then [w] else []
  }

  lemma FiltersOfAppend(ws: seq<FileWrite>, w: FileWrite)
    ensures TextWrites(ws + [w]) == TextWrites(ws) + if w.WriteText? then [w] else []
    ensures ImageSaves(ws + [w]) == ImageSaves(ws) + if w.SaveImage? then [w] else []
  {
    assert (ws + [w])[..|ws|] == ws;
  }

  /** The loop state after one more page. */
  lemma ScanPrefixStep(pages: seq<Png>, texts: seq<Json>, i: nat)
    requires |pages| == |texts| && i < |pages|
    ensures Scan(pages[..i + 1], texts[..i + 1]) ==
      var p := Scan(pages[..i], texts[..i]);
      if p.rejected.Some? then p else PageStep(p, i + 1, pages[i], texts[i])
  {
    assert pages[..i + 1][..i] == pages[..i] && texts[..i + 1][..i] == texts[..i];
  }

  /** Once a page raises, later pages change nothing: they are never
      recognised, saved or written. */
  lemma {:induction false} ScanStopsAtRejection(pages: seq<Png>, texts: seq<Json>, k: nat)
    requires |pages| == |texts| && k <= |pages|
    requires Scan(pages[..k], texts[..k]).rejected.Some?
    ensures Scan(pages, texts) == Scan(pages[..k], texts[..k])
    decreases |pages|
  {
    var n := |pages|;
    if k < n {
      var front, frontTexts := pages[..n - 1], texts[..n - 1];
      assert front[..k] == pages[..k];
      assert frontTexts[..k] == texts[..k];
      ScanStopsAtRejection(front, frontTexts, k);
      var p := Scan(front, frontTexts);
      assert p.rejected.Some?;
      assert Scan(pages, texts) == p;
    } else {
      assert pages[..k] == pages && texts[..k] == texts;
    }
  }

  /** The loop runs to the end exactly when no page's text is unwritable, and
      otherwise stops at the first such page. */
  lemma ScanRejection(pages: seq<Png>, texts: seq<Json>)
    requires |pages| == |texts|
    ensures Scan(pages, texts).rejected.None? <==> forall k :: 0 <= k < |texts| ==> !Unwritable(texts[k])
    ensures Scan(pages, texts).rejected.Some? ==>
      var i := Scan(pages, texts).rejected.value;
      && 1 <= i <= |texts|
      && Unwritable(texts[i - 1])
      && forall k :: 0 <= k < i - 1 ==> !Unwritable(texts[k])
  {
    ScanFinishes(pages, texts);
    ScanStopsAtFirst(pages, texts);
  }

  /** The loop runs to the end exactly when no page's text is unwritable. */
  lemma {:induction false} ScanFinishes(pages: seq<Png>, texts: seq<Json>)
    requires |pages| == |texts|
    ensures Scan(pages, texts).rejected.None? <==> forall k :: 0 <= k < |texts| ==> !Unwritable(texts[k])
    decreases |pages|
  {
    if pages != [] {
      var n := |pages|;
      var q := Scan(pages[..n - 1], texts[..n - 1]);
      var front := texts[..n - 1];
      ScanFinishes(pages[..n - 1], front);
      if q.rejected.None? {
        PageStepRejects(q, n, pages[n - 1], texts[n - 1]);
        assert Scan(pages, texts).rejected == PageStep(q, n, pages[n - 1], texts[n - 1]).rejected;
        if !Unwritable(texts[n - 1]) {
          forall k | 0 <= k < n ensures !Unwritable(texts[k]) {
            if k < n - 1 {
              assert front[k] == texts[k];
            }
          }
        }
      } else {
        assert Scan(pages, texts) == q;
        var j :| 0 <= j < n - 1 && Unwritable(front[j]);
        assert Unwritable(texts[j]);
      }
    }
  }

  /** A loop that stops, stops at the first page whose text is unwritable. */
  lemma {:induction false} ScanStopsAtFirst(pages: seq<Png>, texts: seq<Json>)
    requires |pages| == |texts|
    ensures Scan(pages, texts).rejected.Some? ==>
      var i := Scan(pages, texts).rejected.value;
      && 1 <= i <= |texts|
      && Unwritable(texts[i - 1])
      && forall k :: 0 <= k < i - 1 ==> !Unwritable(texts[k])
    decreases |pages|
  {
    if pages != [] {
      var n := |pages|;
      var q := Scan(pages[..n - 1], texts[..n - 1]);
      var front := texts[..n - 1];
      if q.rejected.None? {
        ScanFinishes(pages[..n - 1], front);
        PageStepRejects(q, n, pages[n - 1], texts[n - 1]);
        assert Scan(pages, texts).rejected == PageStep(q, n, pages[n - 1], texts[n - 1]).rejected;
        forall k | 0 <= k < n - 1 ensures !Unwritable(texts[k]) {
          assert front[k] == texts[k];
        }
      } else {
        ScanStopsAtFirst(pages[..n - 1], front);
        assert Scan(pages, texts) == q;
        var i := q.rejected.value;
        assert front[i - 1] == texts[i - 1];
        forall k | 0 <= k < i - 1 ensures !Unwritable(texts[k]) {
          assert front[k] == texts[k];
        }
      }
    }
  }

  /** A page is rejected exactly when its text is unwritable. */
  lemma PageStepRejects(p: Progress, page: nat, png: Png, text: Json)
    ensures PageStep(p, page, png, text).rejected == if Unwritable(text) then Some(page) else None
  {
  }

  /** One save per page, in page order. */
  function ImagesOf(pages: seq<Png>): (r: seq<FileWrite>)
    ensures |r| == |pages|
    ensures forall k :: 0 <= k < |pages| ==> r[k] == SaveImage(ImagePath(k + 1), pages[k])
    decreases |pages|
  {
    if pages == [] then []
    else ImagesOf(pages[..|pages| - 1]) + [SaveImage(ImagePath(|pages|), pages[|pages| - 1])]
  }

  /** The page-file write for each kept page. */
  function TextFilesOf(kp: seq<(nat, string)>): seq<FileWrite>
    decreases |kp|
  {
    if kp == [] then []
    else TextFilesOf(kp[..|kp| - 1]) + [WriteText(TextPath(kp[|kp| - 1].0), kp[|kp| - 1].1)]
  }

  /** The text of each kept page. */
  function TextsOf(kp: seq<(nat, string)>): seq<string>
    decreases |kp|
  {
    if kp == [] then []
    else TextsOf(kp[..|kp| - 1]) + [kp[|kp| - 1].1]
  }

  lemma KeptPagesStep(texts: seq<Json>)
    requires texts != []
    ensures var n := |texts|;
      var t := texts[n - 1];
      KeptPages(texts) == KeptPages(texts[..n - 1]) + if t.JString? && t.s != "" then [(n, t.s)] else []
  {
  }

  lemma TextFilesOfAppend(kp: seq<(nat, string)>, page: nat, text: string)
    ensures TextFilesOf(kp + [(page, text)]) == TextFilesOf(kp) + [WriteText(TextPath(page), text)]
    ensures TextsOf(kp + [(page, text)]) == TextsOf(kp) + [text]
  {
    assert (kp + [(page, text)])[..|kp|] == kp;
  }

  /** When no page raises, every page image is saved, in page order. */
  lemma {:induction false} ScanSavesEveryImage(pages: seq<Png>, texts: seq<Json>)
    requires |pages| == |texts|
    requires Scan(pages, texts).rejected.None?
    ensures ImageSaves(Scan(pages, texts).writes) == ImagesOf(pages)
    decreases |pages|
  {
    if pages != [] {
      var n := |pages|;
      var q := Scan(pages[..n - 1], texts[..n - 1]);
      ScanSavesEveryImage(pages[..n - 1], texts[..n - 1]);
      var img := SaveImage(ImagePath(n), pages[n - 1]);
      FiltersOfAppend(q.writes, img);
      var t := texts[n - 1];
      if Truthy(t) && t.JString? {
        FiltersOfAppend(q.writes + [img], WriteText(TextPath(n), t.s));
      }
    }
  }

  /** What one page that does not raise adds: its image, then its page file
      when its text is a non-empty string. */
  lemma PageStepWrites(q: Progress, n: nat, png: Png, t: Json)
    requires !Unwritable(t)
    ensures var w := if t.JString? && t.s != "" then [WriteText(TextPath(n), t.s)] else [];
      TextWrites(PageStep(q, n, png, t).writes) == TextWrites(q.writes) + w
  {
    var img := SaveImage(ImagePath(n), png);
    FiltersOfAppend(q.writes, img);
    assert TextWrites(q.writes + [img]) == TextWrites(q.writes);
    if Truthy(t) && t.JString? {
      var w := WriteText(TextPath(n), t.s);
      assert PageStep(q, n, png, t).writes == (q.writes + [img]) + [w];
      FiltersOfAppend(q.writes + [img], w);
    } else {
      assert PageStep(q, n, png, t).writes == q.writes + [img];
    }
  }

  /** When no page raises, the page files are exactly the pages with non-empty
      text, in page order, each holding its text. */
  lemma {:induction false} ScanWritesPageFiles(pages: seq<Png>, texts: seq<Json>)
    requires |pages| == |texts|
    requires Scan(pages, texts).rejected.None?
    ensures TextWrites(Scan(pages, texts).writes) == TextFilesOf(KeptPages(texts))
    decreases |pages|
  {
    if pages != [] {
      var n := |pages|;
      var q := Scan(pages[..n - 1], texts[..n - 1]);
      var t := texts[n - 1];
      assert q.rejected.None? && Scan(pages, texts) == PageStep(q, n, pages[n - 1], t);
      assert !Unwritable(t);
      var front := KeptPages(texts[..n - 1]);
      ScanWritesPageFiles(pages[..n - 1], texts[..n - 1]);
      PageStepWrites(q, n, pages[n - 1], t);
      KeptPagesStep(texts);
      if t.JString? && t.s != "" {
        TextFilesOfAppend(front, n, t.s);
        assert KeptPages(texts) == front + [(n, t.s)];
      } else {
        assert KeptPages(texts) == front;
      }
    }
  }

  /** When no page raises, the collected texts are the non-empty texts, in
      page order. */
  lemma {:induction false} ScanKeepsPageTexts(pages: seq<Png>, texts: seq<Json>)
    requires |pages| == |texts|
    requires Scan(pages, texts).rejected.None?
    ensures Scan(pages, texts).kept == TextsOf(KeptPages(texts))
    decreases |pages|
  {
    if pages != [] {
      var n := |pages|;
      var q := Scan(pages[..n - 1], texts[..n - 1]);
      var t := texts[n - 1];
      assert Scan(pages, texts) == PageStep(q, n, pages[n - 1], t);
      var front := KeptPages(texts[..n - 1]);
      ScanKeepsPageTexts(pages[..n - 1], texts[..n - 1]);
      KeptPagesStep(texts);
      if Truthy(t) && t.JString? {
        assert Scan(pages, texts).kept == q.kept + [t.s];
        TextFilesOfAppend(front, n, t.s);
        assert KeptPages(texts) == front + [(n, t.s)];
      } else {
        assert Scan(pages, texts).kept == q.kept;
        assert KeptPages(texts) == front;
      }
    }
  }

  /** The page files have pairwise distinct paths and non-empty contents. */
  lemma PageFilesDistinct(texts: seq<Json>)
    ensures var kp := KeptPages(texts);
      forall j, k :: 0 <= j < k < |kp| ==> TextPath(kp[j].0) != TextPath(kp[k].0)
    ensures var kp := KeptPages(texts);
      forall j :: 0 <= j < |kp| ==> kp[j].1 != ""
  {
    var kp := KeptPages(texts);
    forall j, k | 0 <= j < k < |kp|
      ensures TextPath(kp[j].0) != TextPath(kp[k].0)
    {
      PagePathsInjective(kp[j].0, kp[k].0);
    }
  }

  /** The summary exists exactly when some page produced text, and then it is
      the collected texts joined by the separator; it is never empty. */
  lemma SummaryWritten(p: Progress, summaryPath: string)
    requires p.rejected.None?
    requires forall j :: 0 <= j < |p.kept| ==> p.kept[j] != ""
    ensures var (ws, _) := Finish(p, summaryPath);
      && (|ws| == |p.writes| + 1 <==> p.kept != [])
      && (p.kept != [] ==> ws[|ws| - 1] == WriteText(summaryPath, Join(Separator, p.kept)) && Join(Separator, p.kept) != "")
  {
    JoinEmpty(Separator, p.kept);
  }

  /** The whole of process_pdf after the images are rendered: when no page
      raises, the writes are the loop's writes followed, when some page had
      text, by the summary of the kept texts; otherwise the writes stop at the
      first page whose text is unwritable and no summary is written. */
  lemma FinishAfterScan(pages: seq<Png>, texts: seq<Json>, summaryPath: string)
    requires |pages| == |texts|
    ensures var p := Scan(pages, texts);
      var kept := KeptPages(texts);
      p.rejected.None? ==>
        Finish(p, summaryPath) ==
          (p.writes + (if kept != [] then [WriteText(summaryPath, Join(Separator, TextsOf(kept)))] else []), Completed)
    ensures var p := Scan(pages, texts);
      var (ws, outcome) := Finish(p, summaryPath);
      p.rejected.Some? ==>
        && ws == p.writes
        && outcome.WriteRaised?
        && 1 <= outcome.page <= |texts|
        && Unwritable(texts[outcome.page - 1])
        && forall k :: 0 <= k < outcome.page - 1 ==> !Unwritable(texts[k])
  {
    var p := Scan(pages, texts);
    if p.rejected.None? {
      ScanKeepsPageTexts(pages, texts);
      var kept := KeptPages(texts);
      assert p.kept == TextsOf(kept);
      if kept != [] {
        assert p.kept != [];
        assert Finish(p, summaryPath) == (p.writes + [WriteText(summaryPath, Join(Separator, p.kept))], Completed);
      } else {
        assert p.kept == [];
        assert p.writes + [] == p.writes;
      }
    } else {
      ScanRejection(pages, texts);
    }
  }
}
