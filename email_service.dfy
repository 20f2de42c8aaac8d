/** The conversion core of the email service: which attachments of an
    unread message are taken as images, how `createPdfFromImages` turns them
    into a PDF (one page per embedded image, sized to the image), when the
    message is marked read, and the base64url form the raw reply is sent in.
    Mail transport, parsing and authorisation are not modelled. */
module EmailService {
  import opened Wrappers
  import opened JsString
  import opened PdfDoc

  /** An attachment as mailparser reports it. */
  datatype Attachment = Attachment(contentType: string, content: seq<bv8>)

  /** The two image kinds pdf-lib can embed. */
  datatype ImageFormat = JpegImage | PngImage

  /** An image embedded into the document, with its pixel size. */
  datatype EmbeddedImage = EmbeddedImage(format: ImageFormat, width: nat, height: nat)

  /** `page.drawImage(image, { x, y, width, height })`. */
  datatype Drawing = Drawing(image: EmbeddedImage, x: int, y: int, width: nat, height: nat)

  /** A page of the document: its size and what is drawn on it. */
  datatype ImagePage = ImagePage(width: nat, height: nat, drawings: seq<Drawing>)

  /** pdf-lib's `embedJpg` / `embedPng` on some bytes: the embedded image, or
      `None` where the call throws. */
  type Embedder = (ImageFormat, seq<bv8>) -> Option<EmbeddedImage>

  // ---------------------------------------------------------------------
  // Attachment filter

  /** The attachment filter of `processEmails`: a content type mentioning
      `image/jpeg` or `image/png`. */
  predicate IsImageAttachment(a: Attachment) {
    Contains(a.contentType, "image/jpeg") || Contains(a.contentType, "image/png")
  }

  /** `attachments.filter(IsImageAttachment)`. */
  function FilterImages(attachments: seq<Attachment>): (images: seq<Attachment>)
    ensures |images| <= |attachments|
    ensures forall k :: 0 <= k < |images| ==> IsImageAttachment(images[k])
    ensures forall a :: a in images <==> a in attachments && IsImageAttachment(a)
  {
    if attachments == [] then []
    else
      var init := FilterImages(attachments[..|attachments| - 1]);
      var last := attachments[|attachments| - 1];
      assert attachments == attachments[..|attachments| - 1] + [last];
      if IsImageAttachment(last) then init + [last] else init
  }

  /** The filter keeps the attachments' order: filtering a concatenation
      concatenates the filtered parts. */
  lemma {:induction false} FilterImagesConcat(a: seq<Attachment>, b: seq<Attachment>)
    ensures FilterImages(a + b) == FilterImages(a) + FilterImages(b)
  {
    if b == [] {
      assert a + b == a;
    } else {
      var init := b[..|b| - 1];
      assert (a + b)[..|a + b| - 1] == a + init;
      assert (a + b)[|a + b| - 1] == b[|b| - 1];
      FilterImagesConcat(a, init);
    }
  }

  // ---------------------------------------------------------------------
  // Image to PDF

  /** The embedding `createPdfFromImages` attempts for a content type: JPEG
      when it mentions `jpeg` or `jpg`, otherwise PNG when it mentions `png`,
      otherwise none. */
  function EmbedFormat(contentType: string): (f: Option<ImageFormat>)
    ensures f == Some(JpegImage) <==> Contains(contentType, "jpeg") || Contains(contentType, "jpg")
    ensures f == Some(PngImage)
        <==> !Contains(contentType, "jpeg") && !Contains(contentType, "jpg") && Contains(contentType, "png")
  {
    if Contains(contentType, "jpeg") || Contains(contentType, "jpg") then Some(JpegImage)
    else if Contains(contentType, "png") then Some(PngImage)
    else None
  }

  /** Every attachment the filter keeps has an embedding to try. */
  lemma FilteredImagesEmbeddable(a: Attachment)
    requires IsImageAttachment(a)
    ensures EmbedFormat(a.contentType).Some?
  {
    if Contains(a.contentType, "image/jpeg") {
      ContainsPiece(a.contentType, "image/jpeg", 6, 10);
      assert "image/jpeg"[6..10] == "jpeg";
    } else {
      ContainsPiece(a.contentType, "image/png", 6, 9);
      assert "image/png"[6..9] == "png";
    }
  }

  /** What embedding the attachment gives: nothing when there is no format
      to try or the embed call throws. */
  function Embedding(a: Attachment, embed: Embedder): Option<EmbeddedImage> {
    match EmbedFormat(a.contentType)
    case None => None
    case Some(f) => embed(f, a.content)
  }

  /** A page the size of the image with the image drawn at the origin at
      full size, without scaling. */
  function FullPage(img: EmbeddedImage): (page: ImagePage)
  {
    ImagePage(img.width, img.height, [Drawing(img, 0, 0, img.width, img.height)])
  }

  /** The page holds exactly one drawing, at the origin, filling the page. */
  predicate FillsPage(page: ImagePage) {
    && |page.drawings| == 1
    && page.drawings[0].x == 0 && page.drawings[0].y == 0
    && page.drawings[0].width == page.width == page.drawings[0].image.width
    && page.drawings[0].height == page.height == page.drawings[0].image.height
  }

  /** Reference definition of the pages `createPdfFromImages` produces: one
      full-size page per image that embeds, in input order. */
  function ImagePages(images: seq<Attachment>, embed: Embedder): seq<ImagePage> {
    if images == [] then []
    else
      ImagePages(images[..|images| - 1], embed)
        + match Embedding(images[|images| - 1], embed)
          case None => []
          case Some(img) => [FullPage(img)]
  }

  /** `createPdfFromImages`: appends a page sized to each image that embeds
      and draws the image on it; an image with no format to try or whose
      embedding throws is skipped. The document is saved whether or not any
      page was added; only a failing save gives `null`. */
  method CreatePdfFromImages(images: seq<Attachment>, embed: Embedder, saveSucceeds: bool)
    returns (pdf: Option<seq<ImagePage>>)
    ensures pdf == if saveSucceeds then Some(ImagePages(images, embed)) else None
  {
    var pdfDoc := new PdfDocument<ImagePage>.Create();
    for i := 0 to |images|
      invariant pdfDoc.pages == ImagePages(images[..i], embed)
    {
      assert images[..i + 1][..i] == images[..i];
      var image := images[i];
      var format := EmbedFormat(image.contentType);
      if format.None? {
        continue;
      }
      var pdfImage := embed(format.value, image.content);
      if pdfImage.None? {
        continue;
      }
      var img := pdfImage.value;
      pdfDoc.AddPage(ImagePage(img.width, img.height, []));
      var last := |pdfDoc.pages| - 1;
      pdfDoc.SetPage(last, ImagePage(img.width, img.height, [Drawing(img, 0, 0, img.width, img.height)]));
    }
    assert images[..|images|] == images;
    if !saveSucceeds {
      return None;
    }
    pdf := Some(pdfDoc.pages);
  }

  /** Every page is the size of its image with the image drawn over all of it. */
  lemma {:induction false} ImagePagesFill(images: seq<Attachment>, embed: Embedder)
    ensures forall k :: 0 <= k < |ImagePages(images, embed)| ==> FillsPage(ImagePages(images, embed)[k])
  {
    if images != [] {
      ImagePagesFill(images[..|images| - 1], embed);
    }
  }

  /** Pages of a concatenation are the pages of the parts, in order. */
  lemma {:induction false} ImagePagesConcat(a: seq<Attachment>, b: seq<Attachment>, embed: Embedder)
    ensures ImagePages(a + b, embed) == ImagePages(a, embed) + ImagePages(b, embed)
  {
    if b == [] {
      assert a + b == a;
    } else {
      var init := b[..|b| - 1];
      assert (a + b)[..|a + b| - 1] == a + init;
      assert (a + b)[|a + b| - 1] == b[|b| - 1];
      ImagePagesConcat(a, init, embed);
    }
  }

  /** An image that does not embed leaves no gap: the document is the one
      built without it. */
  lemma SkippedImageLeavesNoGap(before: seq<Attachment>, image: Attachment, after: seq<Attachment>, embed: Embedder)
    requires Embedding(image, embed).None?
    ensures ImagePages(before + [image] + after, embed) == ImagePages(before + after, embed)
  {
    ImagePagesConcat(before + [image], after, embed);
    ImagePagesConcat(before, [image], embed);
    ImagePagesConcat(before, after, embed);
    assert [image][..0] == [];
  }

  /** The pages correspond one to one, in input order, to the images that
      embed: `sources` lists those images' positions, strictly increasing,
      page `k` being the full page of image `sources[k]`, and an image is
      listed exactly when it embeds. */
  lemma {:induction false} PageSources(images: seq<Attachment>, embed: Embedder) returns (sources: seq<nat>)
    ensures |sources| == |ImagePages(images, embed)|
    ensures forall k :: 0 <= k < |sources| ==> sources[k] < |images|
    ensures forall k, l :: 0 <= k < l < |sources| ==> sources[k] < sources[l]
    ensures forall k :: 0 <= k < |sources| ==> PageOfImage(images, embed, sources[k], k)
    ensures forall i :: 0 <= i < |images| ==> (i in sources <==> Embedding(images[i], embed).Some?)
  {
    if images == [] {
      sources := [];
    } else {
      var n := |images| - 1;
      var init := images[..n];
      var prior := PageSources(init, embed);
      forall k | 0 <= k < |prior| ensures PageOfImage(images, embed, prior[k], k) {
        PageOfImageExtends(init, images, embed, prior[k], k);
      }
      assert forall i :: 0 <= i < n ==> init[i] == images[i];
      match Embedding(images[n], embed)
      case None =>
        sources := prior;
      case Some(img) =>
        sources := prior + [n];
        assert PageOfImage(images, embed, n, |prior|);
      forall i | 0 <= i < |images| ensures i in sources <==> Embedding(images[i], embed).Some? {
        if i < n {
          assert init[i] == images[i];
          assert i in sources <==> i in prior;
        } else {
          assert n !in prior;
        }
      }
    }
  }

  /** Page `k` of the document is the full page of image `i`. */
  predicate PageOfImage(images: seq<Attachment>, embed: Embedder, i: nat, k: nat) {
    && i < |images| && k < |ImagePages(images, embed)|
    && Embedding(images[i], embed).Some?
    && ImagePages(images, embed)[k] == FullPage(Embedding(images[i], embed).value)
  }

  lemma PageOfImageExtends(init: seq<Attachment>, images: seq<Attachment>, embed: Embedder, i: nat, k: nat)
    requires images != [] && init == images[..|images| - 1]
    requires PageOfImage(init, embed, i, k)
    ensures PageOfImage(images, embed, i, k)
  {
    assert images[i] == init[i];
  }

  /** Zero embedded images is not a failure: a saved document with no page
      is still produced. */
  lemma {:induction false} NoEmbeddableImageStillProducesPdf(images: seq<Attachment>, embed: Embedder)
    requires forall k :: 0 <= k < |images| ==> Embedding(images[k], embed).None?
    ensures ImagePages(images, embed) == []
  {
    if images != [] {
      var init := images[..|images| - 1];
      assert forall k :: 0 <= k < |init| ==> init[k] == images[k];
      NoEmbeddableImageStillProducesPdf(init, embed);
    }
  }

  // ---------------------------------------------------------------------
  // Handling one message

  /** What processing one unread message does: the PDF sent back, if any,
      and whether the message is marked read. */
  datatype MessageOutcome = MessageOutcome(reply: Option<seq<ImagePage>>, markedRead: bool)

  /** The per-message step of `processEmails`: keep the image attachments;
      when there is at least one, build the PDF; when a PDF comes back,
      reply with it and mark the message read. */
  method HandleMessage(attachments: seq<Attachment>, embed: Embedder, saveSucceeds: bool)
    returns (outcome: MessageOutcome)
    ensures outcome.markedRead <==> outcome.reply.Some?
    ensures outcome.reply.Some? <==> FilterImages(attachments) != [] && saveSucceeds
    ensures outcome.reply.Some? ==> outcome.reply.value == ImagePages(FilterImages(attachments), embed)
  {
    if |attachments| == 0 {
      return MessageOutcome(None, false);
    }
    var images := FilterImages(attachments);
    if |images| == 0 {
      return MessageOutcome(None, false);
    }
    var pdfBuffer := CreatePdfFromImages(images, embed, saveSucceeds);
    if pdfBuffer.Some? {
      return MessageOutcome(pdfBuffer, true);
    }
    outcome := MessageOutcome(None, false);
  }

  /** A message without any JPEG or PNG attachment stays unread. */
  lemma {:induction false} NoImagesStaysUnread(attachments: seq<Attachment>)
    requires forall k :: 0 <= k < |attachments| ==> !IsImageAttachment(attachments[k])
    ensures FilterImages(attachments) == []
  {
    if attachments != [] {
      var init := attachments[..|attachments| - 1];
      assert forall k :: 0 <= k < |init| ==> init[k] == attachments[k];
      NoImagesStaysUnread(init);
    }
  }

  // ---------------------------------------------------------------------
  // Base64url

  /** The base64 alphabet of section 4 of RFC 4648, without the pad. */
  predicate IsBase64Char(c: char) {
    ('A' <= c <= 'Z') || ('a' <= c <= 'z') || ('0' <= c <= '9') || c == '+' || c == '/'
  }

  /** The URL- and filename-safe alphabet of section 5 of RFC 4648. */
  predicate IsBase64UrlChar(c: char) {
    ('A' <= c <= 'Z') || ('a' <= c <= 'z') || ('0' <= c <= '9') || c == '-' || c == '_'
  }

  /** `.replace(/\+/g, '-').replace(/\//g, '_').replace(/=+$/, '')`: every
      `+` becomes `-`, every `/` becomes `_`, and the trailing `=` go. */
  function Base64Url(s: string): (r: string)
    ensures '+' !in r && '/' !in r
    ensures r == [] || r[|r| - 1] != '='
    ensures |r| <= |s|
    ensures forall k :: 0 <= k < |r| ==> r[k] == (if s[k] == '+' then '-' else if s[k] == '/' then '_' else s[k])
    ensures forall k :: |r| <= k < |s| ==> s[k] == '='
  {
    var swapped := ReplaceAll(ReplaceAll(s, '+', '-'), '/', '_');
    StripTrailing(swapped, '=')
  }

  /** A canonical base64 string: alphabet characters followed by at most two
      pad characters, the whole a multiple of four long. */
  predicate IsCanonicalBase64(s: string) {
    && |s| % 4 == 0
    && exists n :: |s| - 2 <= n <= |s| && 0 <= n && Padded(s, n)
  }

  /** `s` is `n` alphabet characters followed by pad characters. */
  predicate Padded(s: string, n: int) {
    && 0 <= n <= |s|
    && (forall k :: 0 <= k < n ==> IsBase64Char(s[k]))
    && (forall k :: n <= k < |s| ==> s[k] == '=')
  }

  /** Reading base64url back as base64: `-` and `_` mapped back and the pad
      restored to a multiple of four. */
  function FromBase64Url(u: string): (s: string)
    ensures |s| % 4 == 0 || |u| % 4 == 1
  {
    var swapped := ReplaceAll(ReplaceAll(u, '-', '+'), '_', '/');
    swapped + Pad((4 - |u| % 4) % 4)
  }

  function Pad(n: nat): (p: string)
    ensures |p| == n && forall k :: 0 <= k < n ==> p[k] == '='
  {
    if n == 0 then [] else Pad(n - 1) + "="
  }

  /** Base64url of a canonical string drops exactly its pad. */
  lemma Base64UrlDropsPad(s: string, n: int)
    requires Padded(s, n)
    ensures |Base64Url(s)| == n
  {
    var r := Base64Url(s);
    assert n > 0 ==> s[n - 1] != '=';
    assert forall k :: n <= k < |r| ==> r[k] == '=';
  }

  /** The characters of base64url output from canonical base64 lie in the
      URL-safe alphabet. */
  lemma Base64UrlAlphabet(s: string)
    requires IsCanonicalBase64(s)
    ensures forall k :: 0 <= k < |Base64Url(s)| ==> IsBase64UrlChar(Base64Url(s)[k])
  {
    var n :| |s| - 2 <= n <= |s| && 0 <= n && Padded(s, n);
    Base64UrlDropsPad(s, n);
  }

  lemma PadCount(len: nat, n: nat)
    requires len % 4 == 0 && len - 2 <= n <= len
    ensures (4 - n % 4) % 4 == len - n
  {
    var m := len / 4;
    assert len == 4 * m;
    if n < len {
      assert n == 4 * (m - 1) + (4 - (len - n));
    }
  }

  /** Mapping `-` and `_` back undoes the rewrite on alphabet characters. */
  lemma UnswapPrefix(s: string, n: nat)
    requires Padded(s, n) && |Base64Url(s)| == n
    ensures ReplaceAll(ReplaceAll(Base64Url(s), '-', '+'), '_', '/') == s[..n]
  {
    var r := Base64Url(s);
    var back := ReplaceAll(ReplaceAll(r, '-', '+'), '_', '/');
    forall k | 0 <= k < n ensures back[k] == s[k] {
      assert IsBase64Char(s[k]);
    }
  }

  /** Base64url loses nothing: reading the result back gives the canonical
      base64 string again. */
  lemma Base64UrlRoundTrip(s: string)
    requires IsCanonicalBase64(s)
    ensures FromBase64Url(Base64Url(s)) == s
  {
    var n :| |s| - 2 <= n <= |s| && 0 <= n && Padded(s, n);
    var r := Base64Url(s);
    Base64UrlDropsPad(s, n);
    UnswapPrefix(s, n);
    FromUrlIs(r, s[..n], |s|);
    PadSuffix(s, n);
  }

  /** Reading back `u`, whose rewrite undone is `back`, restores the pad up
      to the length `len`. */
  lemma FromUrlIs(u: string, back: string, len: nat)
    requires ReplaceAll(ReplaceAll(u, '-', '+'), '_', '/') == back
    requires len % 4 == 0 && len - 2 <= |u| <= len
    ensures FromBase64Url(u) == back + Pad(len - |u|)
  {
    PadCount(len, |u|);
  }

  /** A padded string is its alphabet part followed by its pad. */
  lemma PadSuffix(s: string, n: nat)
    requires Padded(s, n)
    ensures s == s[..n] + Pad(|s| - n)
  {
    var pad := Pad(|s| - n);
    assert s[n..] == pad;
    assert s == s[..n] + s[n..];
  }
}
