/** The request handling of the image service: the upload filter, the
    parsing and checking of the form fields of `/compress-image`,
    `/resize-image` and `/convert-image`, the choice of encoder and the
    response headers. The pixels are not modelled: a successful reply names
    the sharp pipeline the handler asks for instead of its output bytes. */
module ImageService {
  import opened Wrappers
  import opened JsString
  import opened JsParseInt

  /** One uploaded image: its name and declared mimetype as the client sent
      them, and the format sharp detects in its bytes (`None` when sharp cannot
      read them, which makes the handler's sharp call throw). */
  datatype ImageUpload = ImageUpload(originalname: string, mimetype: string, format: Option<string>)

  /** The sharp encoder a handler selects, with its options. `compressionLevel`
      is set only where the handler passes one. */
  datatype Encoder =
    | Jpeg(quality: int)
    | Png(quality: int, compressionLevel: Option<int>)
    | WebP(quality: int)
    | Avif(quality: int)

  /** `resize(width || null, height || null, { fit: 'inside', withoutEnlargement: true })`;
      `None` stands for `null` (keep the aspect ratio on that side). */
  datatype ResizeBox = ResizeBox(width: Option<int>, height: Option<int>)

  /** A handler's answer: a JSON error, or an image with its Content-Type,
      its attachment filename and the pipeline that produced it. */
  datatype ImageReply =
    | Failure(status: nat, error: string)
    | Image(contentType: string, filename: string, resize: Option<ResizeBox>, encoder: Encoder)

  const AllowedUploadTypes: seq<string> := ["image/jpeg", "image/png", "image/jpg", "image/webp", "image/gif"]
  const InvalidTypeError := "Invalid file type. Only JPEG, PNG, WebP, and GIF are allowed."
  const NoImageError := "No image file provided"
  const QualityRangeError := "Quality must be between 1 and 100"
  const SizeRequiredError := "Either width or height must be specified"
  const AllowedFormats: seq<string> := ["jpeg", "png", "webp", "avif"]
  const InvalidFormatError := "Invalid format. Allowed formats: jpeg, png, webp, avif"

  /** The encoder's output format as sharp names it. */
  function EncoderFormat(e: Encoder): string {
    match e
    case Jpeg(_) => "jpeg"
    case Png(_, _) => "png"
    case WebP(_) => "webp"
    case Avif(_) => "avif"
  }

  function EncoderQuality(e: Encoder): int {
    match e
    case Jpeg(q) => q
    case Png(q, _) => q
    case WebP(q) => q
    case Avif(q) => q
  }

  // ---------------------------------------------------------------------
  // Upload filter

  /** multer's `fileFilter`: only the five listed mimetypes get through. */
  predicate AcceptsUpload(mimetype: string) {
    mimetype in AllowedUploadTypes
  }

  /** Every accepted mimetype is an `image/` type; AVIF and SVG are not
      accepted, although `/convert-image` can produce AVIF. */
  lemma UploadFilterTypes(mimetype: string)
    ensures AcceptsUpload(mimetype) ==> |mimetype| > 6 && mimetype[..6] == "image/"
    ensures !AcceptsUpload("image/avif") && !AcceptsUpload("image/svg+xml")
    ensures AcceptsUpload("image/jpg") && AcceptsUpload("image/gif")
  {
  }

  /** The answer given before a handler looks at its fields: no file is a
      400; a file the filter refuses becomes a plain error, which the error
      middleware answers with 500 and the filter's message. */
  function UploadCheck(file: Option<ImageUpload>): (r: Option<ImageReply>)
    ensures r.None? <==> file.Some? && AcceptsUpload(file.value.mimetype)
    ensures r.Some? ==> r.value.Failure?
  {
    if file.None? then Some(Failure(400, NoImageError))
    else if !AcceptsUpload(file.value.mimetype) then Some(Failure(500, InvalidTypeError))
    else None
  }

  // ---------------------------------------------------------------------
  // Form fields

  /** `parseInt(req.body.<field>)`; an absent field is `undefined`, which
      `parseInt` reads as the string "undefined". */
  function FieldNumber(field: Option<string>): Parsed {
    ParseInt(if field.None? then "undefined" else field.value)
  }

  /** An absent field parses to NaN. */
  lemma AbsentFieldIsNaN()
    ensures FieldNumber(None) == NaN
  {
    ParseIntUndefined();
  }

  /** `parseInt(field) || d`: the parsed number unless it is NaN or 0. */
  function NumberOr(field: Option<string>, d: int): (r: int)
    ensures FieldNumber(field) == NaN ==> r == d
    ensures FieldNumber(field) == Num(0) ==> r == d
    ensures Truthy(FieldNumber(field)) ==> r == FieldNumber(field).value
  {
    OrDefault(FieldNumber(field), d)
  }

  /** The compress quality defaults to 80 when the field is absent, not a
      number, or reads as 0; "0" and "abc" both give 80. */
  lemma CompressQualityDefaults(field: Option<string>)
    ensures !Truthy(FieldNumber(field)) ==> NumberOr(field, 80) == 80
    ensures NumberOr(None, 80) == 80
    ensures NumberOr(Some("0"), 80) == 80
    ensures NumberOr(Some("abc"), 80) == 80
  {
    AbsentFieldIsNaN();
    assert "0" == DecimalString(0);
    ParseIntDecimal(0);
    ParseIntNaN();
  }

  /** `parseInt(width) || null`: a falsy number becomes `null`. */
  function Dimension(p: Parsed): (r: Option<int>)
    ensures r.Some? <==> Truthy(p)
    ensures r.Some? ==> r.value == p.value
  {
    if Truthy(p) then Some(p.value) else None
  }

  // ---------------------------------------------------------------------
  // /compress-image

  /** The encoder `/compress-image` picks for the format sharp detected: GIF
      is recompressed as PNG and an unknown format as JPEG; PNG output always
      uses compression level 9. */
  function CompressEncoder(format: string, quality: int): (e: Encoder)
    ensures EncoderQuality(e) == quality
    ensures e.Png? <==> format == "png" || format == "gif"
    ensures e.WebP? <==> format == "webp"
    ensures e.Jpeg? <==> format !in {"png", "gif", "webp"}
    ensures e.Png? ==> e.compressionLevel == Some(9)
    ensures !e.Avif?
  {
    match format
    case "jpeg" => Jpeg(quality)
    case "jpg" => Jpeg(quality)
    case "png" => Png(quality, Some(9))
    case "webp" => WebP(quality)
    case "gif" => Png(quality, Some(9))
    case _ => Jpeg(quality)
  }

  /** `/compress-image`. */
  function Compress(file: Option<ImageUpload>, quality: Option<string>): (r: ImageReply)
  {
    match UploadCheck(file)
    case Some(failure) => failure
    case None =>
      var q := NumberOr(quality, 80);
      if q < 1 || q > 100 then Failure(400, QualityRangeError)
      else match file.value.format
        case None => Failure(500, "Failed to compress image")
        case Some(format) =>
          Image(file.value.mimetype, "compressed-" + file.value.originalname, None, CompressEncoder(format, q))
  }

  /** Compression is refused with 400 exactly when the defaulted quality lies
      outside [1, 100] (for an accepted upload). */
  lemma CompressQualityChecked(file: ImageUpload, quality: Option<string>)
    requires AcceptsUpload(file.mimetype)
    ensures Compress(Some(file), quality) == Failure(400, QualityRangeError)
        <==> !(1 <= NumberOr(quality, 80) <= 100)
  {
  }

  /** A compressed image keeps the uploaded name with a `compressed-` prefix,
      is encoded at the requested quality with the encoder the detected format
      calls for, and its Content-Type repeats the uploaded mimetype whatever
      the encoder. */
  lemma CompressReply(file: Option<ImageUpload>, quality: Option<string>)
    requires Compress(file, quality).Image?
    ensures var r := Compress(file, quality);
      && file.Some? && AcceptsUpload(file.value.mimetype) && file.value.format.Some?
      && 1 <= NumberOr(quality, 80) <= 100
      && r.contentType == file.value.mimetype
      && r.filename == "compressed-" + file.value.originalname
      && r.resize.None?
      && EncoderQuality(r.encoder) == NumberOr(quality, 80)
      && r.encoder == CompressEncoder(file.value.format.value, NumberOr(quality, 80))
  {
  }

  /** A GIF is recompressed as PNG but still served as `image/gif`. */
  lemma GifServedAsGif(file: ImageUpload, quality: Option<string>)
    requires file.mimetype == "image/gif" && file.format == Some("gif")
    requires 1 <= NumberOr(quality, 80) <= 100
    ensures var r := Compress(Some(file), quality);
      r.Image? && r.contentType == "image/gif" && EncoderFormat(r.encoder) == "png"
  {
    UploadFilterTypes(file.mimetype);
  }

  // ---------------------------------------------------------------------
  // /resize-image

  /** `/resize-image`: at least one of width and height must be a non-zero
      number; the quality defaults to 90 and is not range checked; the
      output is always JPEG. */
  function ResizeImage(file: Option<ImageUpload>, width: Option<string>, height: Option<string>,
                       quality: Option<string>): ImageReply
  {
    match UploadCheck(file)
    case Some(failure) => failure
    case None =>
      var w, h := FieldNumber(width), FieldNumber(height);
      var q := NumberOr(quality, 90);
      if !Truthy(w) && !Truthy(h) then Failure(400, SizeRequiredError)
      else if file.value.format.None? then Failure(500, "Failed to resize image")
      else Image("image/jpeg", "resized-" + file.value.originalname,
                 Some(ResizeBox(Dimension(w), Dimension(h))), Jpeg(q))
  }

  /** Resizing is refused with 400 exactly when both width and height are
      falsy (absent, NaN or 0). */
  lemma ResizeNeedsDimension(file: ImageUpload, width: Option<string>, height: Option<string>, quality: Option<string>)
    requires AcceptsUpload(file.mimetype)
    ensures ResizeImage(Some(file), width, height, quality) == Failure(400, SizeRequiredError)
        <==> !Truthy(FieldNumber(width)) && !Truthy(FieldNumber(height))
  {
  }

  /** A resized image is JPEG at the defaulted quality, with no range check
      on that quality, and the resize box keeps exactly the truthy sides, at
      the numbers `parseInt` read. */
  lemma ResizeReply(file: Option<ImageUpload>, width: Option<string>, height: Option<string>, quality: Option<string>)
    requires ResizeImage(file, width, height, quality).Image?
    ensures var r := ResizeImage(file, width, height, quality);
      && r.contentType == "image/jpeg"
      && r.filename == "resized-" + file.value.originalname
      && r.encoder == Jpeg(NumberOr(quality, 90))
      && r.resize.Some?
      && (r.resize.value.width.Some? || r.resize.value.height.Some?)
      && (r.resize.value.width.Some? <==> Truthy(FieldNumber(width)))
      && (r.resize.value.height.Some? <==> Truthy(FieldNumber(height)))
      && (r.resize.value.width.Some? ==> r.resize.value.width.value == FieldNumber(width).value)
      && (r.resize.value.height.Some? ==> r.resize.value.height.value == FieldNumber(height).value)
  {
  }

  /** Any non-zero quality number reaches the encoder unchanged, 500 or -3
      included, as soon as one dimension is given. */
  lemma ResizeQualityUnchecked(file: ImageUpload, width: Option<string>, height: Option<string>,
                               quality: Option<string>, q: int)
    requires AcceptsUpload(file.mimetype) && file.format.Some?
    requires Truthy(FieldNumber(width)) || Truthy(FieldNumber(height))
    requires FieldNumber(quality) == Num(q) && q != 0
    ensures ResizeImage(Some(file), width, height, quality).Image?
    ensures ResizeImage(Some(file), width, height, quality).encoder == Jpeg(q)
  {
  }

  // ---------------------------------------------------------------------
  // /convert-image

  /** `req.body.format || 'jpeg'`: an absent or empty field means JPEG. */
  function TargetFormat(field: Option<string>): string
  {
    if field.None? || field.value == "" then "jpeg" else field.value
  }

  /** The encoder for an allowed target format. */
  function ConvertEncoder(format: string, quality: int): (e: Encoder)
    requires format in AllowedFormats
    ensures EncoderFormat(e) == format && EncoderQuality(e) == quality
  {
    match format
    case "jpeg" => Jpeg(quality)
    case "png" => Png(quality, None)
    case "webp" => WebP(quality)
    case "avif" => Avif(quality)
  }

  /** `name.split('.').slice(0, -1).join('.') + '.' + format`. */
  function OutputFilename(name: string, format: string): string {
    var fields := Split(name, '.');
    Join(fields[..|fields| - 1], '.') + "." + format
  }

  /** The output name is the original name with its last `.`-suffix replaced
      by the target format; a name without a dot becomes `.<format>`. */
  lemma OutputFilenameReplacesExtension(name: string, format: string)
    ensures OutputFilename(name, format)
         == (if '.' in name then name[..LastIndexOf(name, '.')] else "") + "." + format
  {
    JoinAllButLast(name, '.');
  }

  /** `/convert-image`. */
  function ConvertImage(file: Option<ImageUpload>, format: Option<string>, quality: Option<string>): ImageReply
  {
    match UploadCheck(file)
    case Some(failure) => failure
    case None =>
      var target := TargetFormat(format);
      var q := NumberOr(quality, 90);
      if target !in AllowedFormats then Failure(400, InvalidFormatError)
      else if file.value.format.None? then Failure(500, "Failed to convert image")
      else Image("image/" + target, OutputFilename(file.value.originalname, target), None, ConvertEncoder(target, q))
  }

  /** Conversion is refused with 400 exactly when the requested format is not
      one of jpeg, png, webp and avif. */
  lemma ConvertAllowList(file: ImageUpload, format: Option<string>, quality: Option<string>)
    requires AcceptsUpload(file.mimetype)
    ensures ConvertImage(Some(file), format, quality) == Failure(400, InvalidFormatError)
        <==> TargetFormat(format) !in AllowedFormats
  {
  }

  /** A converted image is labelled and named after the format it is encoded
      in: Content-Type `image/<format>` and a name ending in `.<format>`. */
  lemma ConvertReply(file: Option<ImageUpload>, format: Option<string>, quality: Option<string>)
    requires ConvertImage(file, format, quality).Image?
    ensures var r := ConvertImage(file, format, quality);
      var target := TargetFormat(format);
      && target in AllowedFormats
      && EncoderFormat(r.encoder) == target
      && r.contentType == "image/" + EncoderFormat(r.encoder)
      && EncoderQuality(r.encoder) == NumberOr(quality, 90)
      && r.filename == OutputFilename(file.value.originalname, target)
  {
  }

  /** Without a format field, or with an empty one, the image becomes JPEG. */
  lemma ConvertDefaultsToJpeg(file: ImageUpload, format: Option<string>, quality: Option<string>)
    requires AcceptsUpload(file.mimetype) && file.format.Some?
    requires format == None || format == Some("")
    ensures var r := ConvertImage(Some(file), format, quality);
      r.Image? && r.contentType == "image/jpeg" && r.encoder == Jpeg(NumberOr(quality, 90))
  {
    var target := TargetFormat(format);
    assert target == "jpeg";
    assert target in AllowedFormats;
    assert "image/" + target == "image/jpeg";
  }

  /** Only the last suffix is replaced: `<stem>.<ext>` becomes
      `<stem>.<format>` for any stem, dots included ("archive.tar.gz" to png
      is "archive.tar.png"). */
  lemma OutputFilenameSwapsExtension(stem: string, ext: string, format: string)
    requires '.' !in ext
    ensures OutputFilename(stem + "." + ext, format) == stem + "." + format
  {
    var name := stem + "." + ext;
    OutputFilenameReplacesExtension(name, format);
    assert name[|stem|] == '.';
    assert name[|stem| + 1..] == ext;
    LastIsFirst(name, '.', |stem|);
    assert name[..|stem|] == stem;
  }

  /** A name without a dot loses its whole stem: "noext" to jpeg is ".jpeg". */
  lemma OutputFilenameNoDot(name: string, format: string)
    requires '.' !in name
    ensures OutputFilename(name, format) == "." + format
  {
    OutputFilenameReplacesExtension(name, format);
  }
}
