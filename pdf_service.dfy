/** The `/merge-pdf` and `/split-pdf` handlers of the PDF service. An upload
    carries its original file name and what `PDFDocument.load` makes of its
    bytes: the decoded pages, or `None` when the bytes do not load (corrupt,
    encrypted, not a PDF). Whether `save()` succeeds is a parameter. */
module PdfService {
  import opened Wrappers
  import opened JsString
  import opened PageRanges
  import opened PdfDoc

  /** One uploaded file as multer hands it over. */
  datatype PdfUpload<P> = PdfUpload(originalname: string, contents: Option<seq<P>>)

  /** A handler's answer: a JSON error with its status, or a PDF attachment
      with the headers the handler sets. `sourceCount` is `X-Source-Files`
      for a merge and `X-Source-Pages` for a split. */
  datatype PdfReply<P> =
    | Failure(status: nat, error: string)
    | Attachment(filename: string, pages: seq<P>, totalPages: nat, sourceCount: nat)

  /** `upload.array('files', 20)`: multer refuses a 21st file with a
      `MulterError` whose message is "Unexpected field", which the error
      middleware answers with 400 before the handler runs. */
  const MaxFiles := 20
  const TooManyFilesError := "Unexpected field"
  const NoFilesError := "No PDF files provided"
  const TooFewFilesError := "At least 2 PDF files are required for merging"
  const MergeFailedError := "Failed to merge PDFs"
  const MergedFilename := "merged.pdf"
  const NoFileError := "No PDF file provided"
  const RangesRequiredError := "Page ranges required. Format: \"1-3,5,7-9\""
  const NoValidPagesError := "No valid pages specified"
  const SplitFailedError := "Failed to split PDF"

  function ProcessError(name: string): string {
    "Failed to process " + name
  }

  // ---------------------------------------------------------------------
  // Merge

  /** Every upload loads. */
  predicate AllLoadable<P>(files: seq<PdfUpload<P>>) {
    forall k :: 0 <= k < |files| ==> files[k].contents.Some?
  }

  /** The position of the first upload that does not load, if any. */
  function FirstUnloadable<P>(files: seq<PdfUpload<P>>): (r: Option<nat>)
    ensures r.None? <==> AllLoadable(files)
    ensures r.Some? ==> r.value < |files| && files[r.value].contents.None?
    ensures r.Some? ==> forall k :: 0 <= k < r.value ==> files[k].contents.Some?
  {
    if files == [] then None
    else if files[0].contents.None? then Some(0)
    else
      match FirstUnloadable(files[1..])
      case None => None
      case Some(i) => Some(i + 1)
  }

  /** The pages of all uploads, file after file, each in its own order. */
  function ConcatPages<P>(files: seq<PdfUpload<P>>): seq<P>
    requires AllLoadable(files)
  {
    if files == [] then []
    else ConcatPages(files[..|files| - 1]) + files[|files| - 1].contents.value
  }

  /** The sum of the page counts of the uploads. */
  function PageCountSum<P>(files: seq<PdfUpload<P>>): nat
    requires AllLoadable(files)
  {
    if files == [] then 0 else |files[0].contents.value| + PageCountSum(files[1..])
  }

  /** Reference definition of the merge handler's answer. */
  function MergeOutcome<P>(files: seq<PdfUpload<P>>, saveSucceeds: bool): PdfReply<P> {
    if |files| > MaxFiles then Failure(400, TooManyFilesError)
    else if |files| == 0 then Failure(400, NoFilesError)
    else if |files| < 2 then Failure(400, TooFewFilesError)
    else match FirstUnloadable(files)
      case Some(i) => Failure(400, ProcessError(files[i].originalname))
      case None =>
        if !saveSucceeds then Failure(500, MergeFailedError)
        else
          var pages := ConcatPages(files);
          Attachment(MergedFilename, pages, |pages|, |files|)
  }

  /** `/merge-pdf`: loads each upload in turn, copies all its pages into a new
      document and appends them; the first upload that fails to load ends the
      request with a 400 naming it and nothing is produced. */
  method MergePdf<P>(files: seq<PdfUpload<P>>, saveSucceeds: bool) returns (reply: PdfReply<P>)
    ensures reply == MergeOutcome(files, saveSucceeds)
  {
    if |files| > MaxFiles {
      return Failure(400, TooManyFilesError);
    }
    if |files| == 0 {
      return Failure(400, NoFilesError);
    }
    if |files| < 2 {
      return Failure(400, TooFewFilesError);
    }
    var mergedPdf := new PdfDocument<P>.Create();
    for i := 0 to |files|
      invariant AllLoadable(files[..i])
      invariant mergedPdf.pages == ConcatPages(files[..i])
    {
      var file := files[i];
      if file.contents.None? {
        FirstUnloadableAt(files, i);
        return Failure(400, ProcessError(file.originalname));
      }
      var pdfDoc := new PdfDocument<P>.Loaded(file.contents.value);
      var copiedPages := mergedPdf.CopyPages(pdfDoc, pdfDoc.PageIndices());
      assert copiedPages == file.contents.value;
      AppendPages(mergedPdf, copiedPages);
      LoadableStep(files, i);
    }
    assert files[..|files|] == files;
    if !saveSucceeds {
      return Failure(500, MergeFailedError);
    }
    reply := Attachment(MergedFilename, mergedPdf.pages, |mergedPdf.pages|, |files|);
  }

  /** The inner loop of the merge: `addPage` for each copied page in turn. */
  method AppendPages<P>(doc: PdfDocument<P>, copied: seq<P>)
    modifies doc
    ensures doc.pages == old(doc.pages) + copied
  {
    for j := 0 to |copied|
      invariant doc.pages == old(doc.pages) + copied[..j]
    {
      doc.AddPage(copied[j]);
      assert copied[..j + 1] == copied[..j] + [copied[j]];
    }
    assert copied[..|copied|] == copied;
  }

  lemma FirstUnloadableAt<P>(files: seq<PdfUpload<P>>, i: nat)
    requires i < |files| && AllLoadable(files[..i]) && files[i].contents.None?
    ensures FirstUnloadable(files) == Some(i)
  {
    assert forall k :: 0 <= k < i ==> files[..i][k] == files[k];
  }

  lemma LoadableStep<P>(files: seq<PdfUpload<P>>, i: nat)
    requires i < |files| && AllLoadable(files[..i]) && files[i].contents.Some?
    ensures AllLoadable(files[..i + 1])
    ensures ConcatPages(files[..i + 1]) == ConcatPages(files[..i]) + files[i].contents.value
  {
    assert files[..i + 1][..i] == files[..i];
    assert forall k :: 0 <= k < i ==> files[..i + 1][k] == files[..i][k];
  }

  /** The merge succeeds exactly when there are two to twenty uploads, all
      of them load and the result saves. */
  lemma MergeSucceedsIff<P>(files: seq<PdfUpload<P>>, saveSucceeds: bool)
    ensures MergeOutcome(files, saveSucceeds).Attachment?
        <==> 2 <= |files| <= MaxFiles && AllLoadable(files) && saveSucceeds
  {
  }

  /** A single upload is refused: merging needs two. */
  lemma MergeNeedsTwo<P>(files: seq<PdfUpload<P>>, saveSucceeds: bool)
    requires |files| == 1
    ensures MergeOutcome(files, saveSucceeds) == Failure(400, TooFewFilesError)
  {
  }

  /** More than twenty uploads are refused whatever they contain. */
  lemma MergeCapsUploads<P>(files: seq<PdfUpload<P>>, saveSucceeds: bool)
    requires |files| > MaxFiles
    ensures MergeOutcome(files, saveSucceeds) == Failure(400, TooManyFilesError)
  {
  }

  /** A failing upload is reported by name: the first one, and only after
      every earlier upload loaded. */
  lemma MergeNamesFirstFailure<P>(files: seq<PdfUpload<P>>, saveSucceeds: bool, i: nat)
    requires 2 <= |files| <= MaxFiles && i < |files| && files[i].contents.None?
    requires forall k :: 0 <= k < i ==> files[k].contents.Some?
    ensures MergeOutcome(files, saveSucceeds) == Failure(400, ProcessError(files[i].originalname))
  {
    var r := FirstUnloadable(files);
    assert r.Some?;
    assert r.value == i;
  }

  /** The document has every page of every upload: `X-Total-Pages` is the sum
      of the page counts, and `X-Source-Files` the number of uploads. */
  lemma MergedPageCount<P>(files: seq<PdfUpload<P>>, saveSucceeds: bool)
    requires MergeOutcome(files, saveSucceeds).Attachment?
    ensures var reply := MergeOutcome(files, saveSucceeds);
      reply.totalPages == |reply.pages| == PageCountSum(files) && reply.sourceCount == |files|
  {
    ConcatLength(files);
  }

  lemma {:induction false} ConcatLength<P>(files: seq<PdfUpload<P>>)
    requires AllLoadable(files)
    ensures |ConcatPages(files)| == PageCountSum(files)
  {
    if files != [] {
      var init := files[..|files| - 1];
      ConcatLength(init);
      SumSplitLast(files);
    }
  }

  lemma {:induction false} SumSplitLast<P>(files: seq<PdfUpload<P>>)
    requires files != [] && AllLoadable(files)
    ensures PageCountSum(files) == PageCountSum(files[..|files| - 1]) + |files[|files| - 1].contents.value|
  {
    if |files| > 1 {
      var tail := files[1..];
      SumSplitLast(tail);
      assert tail[..|tail| - 1] == files[..|files| - 1][1..];
      assert files[..|files| - 1][0] == files[0];
    } else {
      assert files[..0] == [];
    }
  }

  /** Concatenating two batches of uploads concatenates their pages. */
  lemma {:induction false} ConcatAppend<P>(a: seq<PdfUpload<P>>, b: seq<PdfUpload<P>>)
    requires AllLoadable(a) && AllLoadable(b)
    ensures AllLoadable(a + b)
    ensures ConcatPages(a + b) == ConcatPages(a) + ConcatPages(b)
  {
    LoadableConcat(a, b);
    if b == [] {
      assert a + b == a;
    } else {
      var init, last := b[..|b| - 1], b[|b| - 1];
      LoadableInit(b);
      ConcatAppend(a, init);
      var ab := a + b;
      assert ab[..|ab| - 1] == a + init && ab[|ab| - 1] == last;
      assert ConcatPages(ab) == ConcatPages(a + init) + last.contents.value;
      assert ConcatPages(b) == ConcatPages(init) + last.contents.value;
    }
  }

  lemma LoadableConcat<P>(a: seq<PdfUpload<P>>, b: seq<PdfUpload<P>>)
    requires AllLoadable(a) && AllLoadable(b)
    ensures AllLoadable(a + b)
  {
    assert forall k :: 0 <= k < |a + b| ==> (a + b)[k] == if k < |a| then a[k] else b[k - |a|];
  }

  lemma LoadableInit<P>(b: seq<PdfUpload<P>>)
    requires b != [] && AllLoadable(b)
    ensures AllLoadable(b[..|b| - 1])
  {
    assert forall k :: 0 <= k < |b| - 1 ==> b[..|b| - 1][k] == b[k];
  }

  /** Upload order is kept: page `j` of upload `i` lands right after the
      pages of the uploads before it. */
  lemma MergedPageAt<P>(files: seq<PdfUpload<P>>, i: nat, j: nat)
    requires AllLoadable(files) && i < |files| && j < |files[i].contents.value|
    ensures AllLoadable(files[..i])
    ensures var before := PageCountSum(files[..i]);
      before + j < |ConcatPages(files)| && ConcatPages(files)[before + j] == files[i].contents.value[j]
  {
    var before, rest := files[..i], files[i..];
    SplitUploads(files, i);
    ConcatAppend(before, rest);
    ConcatCons(rest);
    ConcatLength(before);
    IndexInMiddle(ConcatPages(before), rest[0].contents.value, ConcatPages(rest[1..]), j);
  }

  /** Cutting the uploads at `i` gives two loadable batches. */
  lemma SplitUploads<P>(files: seq<PdfUpload<P>>, i: nat)
    requires AllLoadable(files) && i < |files|
    ensures AllLoadable(files[..i]) && AllLoadable(files[i..])
    ensures files == files[..i] + files[i..] && files[i..][0] == files[i]
  {
    assert forall k :: 0 <= k < |files[i..]| ==> files[i..][k] == files[i + k];
  }

  /** The pages of a non-empty batch start with those of its first upload. */
  lemma ConcatCons<P>(files: seq<PdfUpload<P>>)
    requires files != [] && AllLoadable(files)
    ensures AllLoadable(files[1..])
    ensures ConcatPages(files) == files[0].contents.value + ConcatPages(files[1..])
  {
    var first, after := files[..1], files[1..];
    assert files == first + after;
    assert forall k :: 0 <= k < |after| ==> after[k] == files[k + 1];
    ConcatAppend(first, after);
    assert first[..0] == [];
  }

  lemma IndexInMiddle<T>(a: seq<T>, b: seq<T>, c: seq<T>, j: nat)
    requires j < |b|
    ensures |a| + j < |a + (b + c)| && (a + (b + c))[|a| + j] == b[j]
  {
  }

  // ---------------------------------------------------------------------
  // Split

  /** The source pages at the 1-based page numbers `pageNumbers`, in that order. */
  function ExtractPages<P>(source: seq<P>, pageNumbers: seq<int>): (r: seq<P>)
    requires forall k :: 0 <= k < |pageNumbers| ==> 1 <= pageNumbers[k] <= |source|
    ensures |r| == |pageNumbers|
    ensures forall k :: 0 <= k < |r| ==> r[k] == source[pageNumbers[k] - 1]
  {
    if pageNumbers == [] then []
    else ExtractPages(source, pageNumbers[..|pageNumbers| - 1]) + [source[pageNumbers[|pageNumbers| - 1] - 1]]
  }

  /** The characters Node's `setHeader` accepts in a header value: tab,
      printable ASCII and the bytes 0x80 to 0xFF. Any other character makes
      it throw. */
  predicate IsHeaderChar(c: char) {
    c == '\t' || (' ' <= c <= '~') || ('\U{0080}' <= c <= '\U{00FF}')
  }

  predicate IsHeaderValue(s: string) {
    forall k :: 0 <= k < |s| ==> IsHeaderChar(s[k])
  }

  /** `split-pages-<ranges>.pdf`, every comma of the ranges turned into `_`. */
  function SplitFilename(pageRanges: string): string {
    "split-pages-" + ReplaceAll(pageRanges, ',', '_') + ".pdf"
  }

  /** Reference definition of the split handler's answer. A missing or empty
      `pageRanges` field is rejected before the file is loaded. */
  function SplitOutcome<P>(file: Option<PdfUpload<P>>, pageRanges: Option<string>, saveSucceeds: bool): PdfReply<P> {
    if file.None? then Failure(400, NoFileError)
    else if pageRanges.None? || pageRanges.value == "" then Failure(400, RangesRequiredError)
    else match file.value.contents
      case None => Failure(500, SplitFailedError)
      case Some(source) =>
        var pageNumbers := ResolvedPages(pageRanges.value, |source|);
        if |pageNumbers| == 0 then Failure(400, NoValidPagesError)
        else if !saveSucceeds then Failure(500, SplitFailedError)
        else if !IsHeaderValue(SplitFilename(pageRanges.value)) then Failure(500, SplitFailedError)
        else Attachment(SplitFilename(pageRanges.value), ExtractPages(source, pageNumbers), |pageNumbers|, |source|)
  }

  /** `/split-pdf`: resolves the page ranges against the source's page count
      and copies source page `n - 1` into a new document for each resolved
      page `n`, one page at a time. */
  method SplitPdf<P>(file: Option<PdfUpload<P>>, pageRanges: Option<string>, saveSucceeds: bool)
    returns (reply: PdfReply<P>)
    ensures reply == SplitOutcome(file, pageRanges, saveSucceeds)
  {
    if file.None? {
      return Failure(400, NoFileError);
    }
    if pageRanges.None? || pageRanges.value == "" {
      return Failure(400, RangesRequiredError);
    }
    var ranges := pageRanges.value;
    if file.value.contents.None? {
      return Failure(500, SplitFailedError);
    }
    var sourcePdf := new PdfDocument<P>.Loaded(file.value.contents.value);
    var totalPages := |sourcePdf.pages|;
    var pageNumbers := ParsePageRanges(ranges, totalPages);
    if |pageNumbers| == 0 {
      return Failure(400, NoValidPagesError);
    }
    var newPdf := CopySelected(sourcePdf, pageNumbers);
    if !saveSucceeds {
      return Failure(500, SplitFailedError);
    }
    if !IsHeaderValue(SplitFilename(ranges)) {
      return Failure(500, SplitFailedError);
    }
    reply := Attachment(SplitFilename(ranges), newPdf.pages, |pageNumbers|, totalPages);
  }

  /** The page-selection loop of the split handler: a new document that
      receives, one `copyPages` call at a time, source page `n - 1` for each
      page number `n`. */
  method CopySelected<P>(sourcePdf: PdfDocument<P>, pageNumbers: seq<int>) returns (newPdf: PdfDocument<P>)
    requires forall k :: 0 <= k < |pageNumbers| ==> 1 <= pageNumbers[k] <= |sourcePdf.pages|
    ensures fresh(newPdf)
    ensures newPdf.pages == ExtractPages(sourcePdf.pages, pageNumbers)
  {
    newPdf := new PdfDocument<P>.Create();
    for k := 0 to |pageNumbers|
      invariant newPdf.pages == ExtractPages(sourcePdf.pages, pageNumbers[..k])
    {
      var copied := newPdf.CopyPages(sourcePdf, [pageNumbers[k] - 1]);
      newPdf.AddPage(copied[0]);
      assert pageNumbers[..k + 1][..k] == pageNumbers[..k];
    }
    assert pageNumbers[..|pageNumbers|] == pageNumbers;
  }

  /** A split answers with a document exactly when a file and a non-empty
      range expression were sent, the file loads, at least one page is
      selected, the result saves and the expression can go into the
      Content-Disposition header. */
  lemma SplitSucceedsIff<P>(file: Option<PdfUpload<P>>, pageRanges: Option<string>, saveSucceeds: bool)
    ensures SplitOutcome(file, pageRanges, saveSucceeds).Attachment?
        <==> (&& file.Some? && pageRanges.Some? && pageRanges.value != []
             && file.value.contents.Some?
             && PageSet(pageRanges.value, |file.value.contents.value|) * Interval(1, |file.value.contents.value|) != {}
             && saveSucceeds
             && IsHeaderValue(pageRanges.value))
  {
    if pageRanges.Some? {
      SplitFilenameHeader(pageRanges.value);
    }
    if file.Some? && pageRanges.Some? && file.value.contents.Some? {
      var pages := PageSet(pageRanges.value, |file.value.contents.value|);
      var r := ResolvedPages(pageRanges.value, |file.value.contents.value|);
      PageSetBounds(pageRanges.value, |file.value.contents.value|);
      if r != [] {
        var first := r[0];
        assert first in pages && first in Interval(1, |file.value.contents.value|);
      }
      if x :| x in pages * Interval(1, |file.value.contents.value|) {
        assert x in r;
      }
    }
  }

  /** An expression that selects no page of the loaded document is refused
      with 400 "No valid pages specified". */
  lemma SplitNothingSelected<P>(file: Option<PdfUpload<P>>, pageRanges: Option<string>, saveSucceeds: bool)
    requires file.Some? && file.value.contents.Some?
    requires pageRanges.Some? && pageRanges.value != ""
    requires PageSet(pageRanges.value, |file.value.contents.value|) == {}
    ensures SplitOutcome(file, pageRanges, saveSucceeds) == Failure(400, NoValidPagesError)
  {
    var r := ResolvedPages(pageRanges.value, |file.value.contents.value|);
    FirstIsMember(r, PageSet(pageRanges.value, |file.value.contents.value|));
  }

  lemma FirstIsMember(r: seq<int>, pages: set<int>)
    requires forall p :: p in r <==> p in pages
    ensures r != [] ==> r[0] in pages
  {
    if r != [] {
      var first := r[0];
      assert first in r;
    }
  }

  /** The split document holds the selected source pages, each once, in
      ascending page order: output page `i` is source page `n_i - 1` for the
      strictly ascending selection `n`. `X-Total-Pages` is the number of
      selected pages and `X-Source-Pages` the source's page count. */
  lemma SplitPages<P>(file: Option<PdfUpload<P>>, pageRanges: Option<string>, saveSucceeds: bool)
    requires SplitOutcome(file, pageRanges, saveSucceeds).Attachment?
    ensures var reply := SplitOutcome(file, pageRanges, saveSucceeds);
      var source := file.value.contents.value;
      var pageNumbers := ResolvedPages(pageRanges.value, |source|);
      && reply.totalPages == |reply.pages| == |pageNumbers| > 0
      && reply.sourceCount == |source|
      && StrictlyAscending(pageNumbers)
      && (forall i :: 0 <= i < |reply.pages| ==> reply.pages[i] == source[pageNumbers[i] - 1])
  {
    var source := file.value.contents.value;
    var pageNumbers := ResolvedPages(pageRanges.value, |source|);
    assert SplitOutcome(file, pageRanges, saveSucceeds)
        == Attachment(SplitFilename(pageRanges.value), ExtractPages(source, pageNumbers), |pageNumbers|, |source|);
  }

  /** The filename header never carries a comma of the range expression. */
  lemma SplitFilenameHasNoComma(pageRanges: string)
    ensures ',' !in SplitFilename(pageRanges)
    ensures |SplitFilename(pageRanges)| == |pageRanges| + 16
  {
    var r := ReplaceAll(pageRanges, ',', '_');
    var f := SplitFilename(pageRanges);
    assert f == "split-pages-" + r + ".pdf";
    forall k | 0 <= k < |f| ensures f[k] != ',' {
      if 12 <= k < 12 + |r| {
        assert f[k] == r[k - 12];
      }
    }
  }

  /** The filename is a valid header value exactly when the range expression
      is: the fixed parts and the `_` replacing each comma are printable ASCII. */
  lemma SplitFilenameHeader(pageRanges: string)
    ensures IsHeaderValue(SplitFilename(pageRanges)) <==> IsHeaderValue(pageRanges)
  {
    var r := ReplaceAll(pageRanges, ',', '_');
    var f := SplitFilename(pageRanges);
    assert f == "split-pages-" + r + ".pdf";
    assert forall k :: 0 <= k < |r| ==> f[12 + k] == r[k];
    assert forall k :: 0 <= k < |r| ==> (IsHeaderChar(r[k]) <==> IsHeaderChar(pageRanges[k]));
    if IsHeaderValue(pageRanges) {
      forall k | 0 <= k < |f| ensures IsHeaderChar(f[k]) {
        if 12 <= k < 12 + |r| {
          assert f[k] == r[k - 12];
        }
      }
    }
  }

  /** A range expression with a character outside the header alphabet (a
      CJK character, say) ends in a 500 even when pages were selected and the
      document saved. */
  lemma NonHeaderRangesFail<P>(file: Option<PdfUpload<P>>, pageRanges: Option<string>)
    requires file.Some? && file.value.contents.Some? && pageRanges.Some?
    requires ResolvedPages(pageRanges.value, |file.value.contents.value|) != []
    requires !IsHeaderValue(pageRanges.value)
    ensures SplitOutcome(file, pageRanges, true) == Failure(500, SplitFailedError)
  {
    SplitFilenameHeader(pageRanges.value);
  }
}
