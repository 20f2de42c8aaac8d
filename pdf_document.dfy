/** A PDF document as the handlers see it through pdf-lib: an ordered list of
    pages that grows as pages are added. Page content is left uninterpreted (type `P`). */
module PdfDoc {

  class PdfDocument<P> {
    var pages: seq<P>

    /** `PDFDocument.create()`: a document with no pages. */
    constructor Create()
      ensures pages == []
    {
      pages := [];
    }

    /** A document that `PDFDocument.load` produced from bytes that decode
        to `decoded`. */
    constructor Loaded(decoded: seq<P>)
      ensures pages == decoded
    {
      pages := decoded;
    }

    /** `getPageIndices()`: 0, 1, ..., page count - 1. */
    function PageIndices(): (r: seq<nat>)
      reads this
      ensures |r| == |pages|
      ensures forall k :: 0 <= k < |r| ==> r[k] == k
    {
      seq(|pages|, k => k)
    }

    /** `addPage(page)`: appends one page. */
    method AddPage(p: P)
      modifies this
      ensures pages == old(pages) + [p]
    {
      pages := pages + [p];
    }

    /** Replaces page `i`, as drawing on a page returned by `addPage` does. */
    method SetPage(i: nat, p: P)
      requires i < |pages|
      modifies this
      ensures pages == old(pages)[i := p]
    {
      pages := pages[i := p];
    }

    /** `copyPages(src, indices)`: copies of the pages of `src` at `indices`,
        in the order of `indices`; this document is not changed (an index out
        of range makes pdf-lib throw, so callers pass valid ones). */
    method CopyPages(src: PdfDocument<P>, indices: seq<nat>) returns (copied: seq<P>)
      requires forall k :: 0 <= k < |indices| ==> indices[k] < |src.pages|
      ensures |copied| == |indices|
      ensures forall k :: 0 <= k < |indices| ==> copied[k] == src.pages[indices[k]]
    {
      var source := src.pages;
      copied := seq(|indices|, k requires 0 <= k < |indices| => source[indices[k]]);
    }
  }
}
