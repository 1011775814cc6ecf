/** The image-to-PDF conversion service: which file names it accepts, the
    name it gives the PDF, the rotation it applies for the EXIF orientation,
    and the order of its guards and error handlers. Decoding, normalising and
    encoding the image belong to the image libraries, which are parameters. */
module PdfConverter {
  import opened Common
  import opened Paths

  // ---------------------------------------------------------------------------
  // Formats and names
  // ---------------------------------------------------------------------------

  /** The supported image formats. */
  datatype ImageFormat = Jpeg | Jpg | Png | Heic | Heif

  /** The enum member's value. */
  function FormatValue(f: ImageFormat): string {
    match f
    case Jpeg => "jpeg"
    case Jpg => "jpg"
    case Png => "png"
    case Heic => "heic"
    case Heif => "heif"
  }

  /** `ImageFormat(value)`: the member whose value is `value`; `None` for the
      ValueError. */
  function FormatOf(value: string): (r: Option<ImageFormat>)
    ensures forall f :: r == Some(f) <==> FormatValue(f) == value
    ensures r.Some? <==> value in FormatValues
  {
    if value == "jpeg" then Some(Jpeg)
    else if value == "jpg" then Some(Jpg)
    else if value == "png" then Some(Png)
    else if value == "heic" then Some(Heic)
    else if value == "heif" then Some(Heif)
    else None
  }

  /** The values of the supported formats. */
  const FormatValues: set<string> := {"jpeg", "jpg", "png", "heic", "heif"}

  /** The suffixes, with their dot, of the supported formats. */
  const ImageSuffixes: set<string> := {".jpeg", ".jpg", ".png", ".heic", ".heif"}

  /** `s.lstrip('.')` */
  function StripLeadingDots(s: string): (r: string)
    ensures |r| <= |s| && r == s[|s| - |r|..]
    ensures r == [] || r[0] != '.'
    ensures forall i :: 0 <= i < |s| - |r| ==> s[i] == '.'
    decreases |s|
  {
    if |s| > 0 && s[0] == '.' then StripLeadingDots(s[1..]) else s
  }

  /** Lower-casing keeps a suffix's shape, so stripping the dots removes
      exactly its leading one. */
  lemma StripSuffixDot(name: string)
    ensures var x := Lower(Suffix(name));
            && (x == "" <==> Suffix(name) == "")
            && (x != "" ==> x[0] == '.' && StripLeadingDots(x) == x[1..] && x == "." + x[1..])
  {
    var e := Suffix(name);
    if e != "" {
      LowerDotted(e);
    }
  }

  lemma LowerDotted(e: string)
    requires 2 <= |e| && e[0] == '.' && '.' !in e[1..]
    ensures var x := Lower(e);
            x[0] == '.' && StripLeadingDots(x) == x[1..] && x == "." + x[1..]
  {
    var x := Lower(e);
    assert e[1] == e[1..][0];
    assert x[1] != '.';
    var y := x[1..];
    assert y[0] == x[1];
    assert StripLeadingDots(y) == y;
    assert StripLeadingDots(x) == StripLeadingDots(y);
  }

  /** A dotted suffix is an image suffix exactly when what follows the dot is
      a format value. */
  lemma DottedValue(v: string)
    ensures "." + v in ImageSuffixes <==> v in FormatValues
  {
    var x := "." + v;
    assert x[1..] == v;
    assert x == ".jpeg" <==> v == "jpeg" by {
      assert ".jpeg" == "." + "jpeg";
    }
    assert x == ".jpg" <==> v == "jpg" by {
      assert ".jpg" == "." + "jpg";
    }
    assert x == ".png" <==> v == "png" by {
      assert ".png" == "." + "png";
    }
    assert x == ".heic" <==> v == "heic" by {
      assert ".heic" == "." + "heic";
    }
    assert x == ".heif" <==> v == "heif" by {
      assert ".heif" == "." + "heif";
    }
  }

  /** `FormatValidator.is_supported_image_format`: false for an empty name;
      otherwise whether the lower-cased suffix without its dot is the value of
      a format, which is to say, whatever the case of its letters, the name
      ends in one of the image suffixes. */
  function IsSupportedImageFormat(filename: string): (r: bool)
    ensures filename == "" ==> !r
    ensures r <==> LowerSuffix(filename) in ImageSuffixes
  {
    var x := LowerSuffix(filename);
    StripSuffixDot(Name(filename));
    assert x != "" ==> ("." + x[1..] in ImageSuffixes <==> x[1..] in FormatValues) by {
      if x != "" {
        DottedValue(x[1..]);
      }
    }
    if filename == "" then false
    else FormatOf(StripLeadingDots(x)).Some?
  }

  /** `FormatValidator.get_image_format`: nothing for an unsupported name,
      otherwise the format whose value the name's suffix spells. */
  function GetImageFormat(filename: string): (r: Option<ImageFormat>)
    ensures r.None? <==> !IsSupportedImageFormat(filename)
    ensures r.Some? ==> "." + FormatValue(r.value) == LowerSuffix(filename)
  {
    StripSuffixDot(Name(filename));
    if !IsSupportedImageFormat(filename) then None
    else FormatOf(StripLeadingDots(LowerSuffix(filename)))
  }

  /** `FileNameGenerator.generate_pdf_name`: the stem followed by ".pdf". For
      a non-empty name the result is a plain file name whose suffix is ".pdf"
      and whose stem is the original's. */
  function GeneratePdfName(original: string): (r: string)
    ensures '/' !in r
    ensures Name(original) != "" ==>
      Name(r) == r && Suffix(r) == ".pdf" && Stem(r) == Stem(Name(original))
  {
    var stem := Stem(Name(original));
    assert '/' !in stem by {
      assert forall j :: 0 <= j < |stem| ==> stem[j] == Name(original)[j];
    }
    var r := stem + ".pdf";
    assert Name(original) != "" ==> Name(r) == r && Suffix(r) == ".pdf" && Stem(r) == stem by {
      if Name(original) != "" {
        SplitName(stem, ".pdf");
      }
    }
    r
  }

  /** The extension is replaced and the directory dropped. */
  lemma PdfNameReplacesExtension(dir: string, base: string, ext: string)
    requires base != "" && '/' !in base && IsSuffixShape(ext)
    ensures GeneratePdfName(dir + "/" + base + ext) == base + ".pdf"
  {
    SplitName(base, ext);
    NameOfChild(dir, base + ext);
    assert dir + "/" + base + ext == dir + "/" + (base + ext);
  }

  /** Naming the PDF of a PDF changes nothing, once the name is not empty. */
  lemma PdfNameIdempotent(original: string)
    requires Name(original) != ""
    ensures GeneratePdfName(GeneratePdfName(original)) == GeneratePdfName(original)
  {
  }

  // ---------------------------------------------------------------------------
  // Orientation
  // ---------------------------------------------------------------------------

  /** The angle, in degrees counter-clockwise, `_fix_image_orientation`
      passes to `Image.rotate` for the EXIF Orientation tag (274); `None`
      when the image carries no such tag. */
  function RotationFor(orientation: Option<int>): (angle: int)
    ensures angle in {0, 90, 180, 270}
    ensures angle != 0 <==> orientation in {Some(3), Some(6), Some(8)}
  {
    match orientation
    case Some(3) => 180
    case Some(6) => 270
    case Some(8) => 90
    case _ => 0
  }

  /** Reference reading of the EXIF Orientation values that involve no
      mirroring (section 4.6.4 of the EXIF 2.3 standard): how many quarter
      turns clockwise bring the stored picture upright. 1 is upright, 3 is
      upside down, 6 has its top on the right, 8 its top on the left. */
  function ClockwiseQuarterTurns(orientation: int): (turns: nat)
    requires orientation in {1, 3, 6, 8}
    ensures turns < 4
  {
    if orientation == 1 then 0
    else if orientation == 3 then 2
    else if orientation == 6 then 1
    else 3
  }

  /** The rotation applied is exactly the turn the standard asks for: a
      counter-clockwise angle of 360 degrees less the clockwise turn. */
  lemma RotationUprights(orientation: int)
    requires orientation in {1, 3, 6, 8}
    ensures RotationFor(Some(orientation)) == (4 - ClockwiseQuarterTurns(orientation)) % 4 * 90
  {
  }

  /** The mirrored orientations (2, 4, 5, 7) are left as they are. */
  lemma MirroredLeftAlone(orientation: int)
    requires orientation in {2, 4, 5, 7}
    ensures RotationFor(Some(orientation)) == 0
  {
  }

  // ---------------------------------------------------------------------------
  // Conversion
  // ---------------------------------------------------------------------------

  /** A `ConversionError` and its message. */
  datatype ConversionError = ConversionError(message: string)

  /** What `Image.open` reports of an image: its format and its Orientation
      tag, `None` when the EXIF data or the tag is missing. */
  datatype Opened = Opened(format: string, orientation: Option<int>)

  /** The image libraries as functions of their inputs; an `Err` carries
      `str(e)` of the exception they raise. */
  datatype Libraries = Libraries(
    heifAvailable: bool,                            // `pillow_heif` imports
    open: Bytes -> Result<Opened, string>,          // `Image.open`
    encode: (Bytes, int) -> Result<Bytes, string>,  // rotate by the angle, normalise, save as JPEG
    toPdf: Bytes -> Result<Bytes, string>)          // `img2pdf.convert`

  const EmptyMessage: string := "Données d'image vides"
  const UnsupportedPrefix: string := "Format non supporté: "
  const UnexpectedPrefix: string := "Erreur inattendue lors de la conversion: "
  const ProcessingPrefix: string := "Erreur lors du traitement de l'image: "
  const UnrecognisedMessage: string := "Format d'image non reconnu ou corrompu"
  const HeifMessage: string := "Format HEIC non supporté. Installez pillow-heif pour le support HEIC."
  const PdfPrefix: string := "Erreur lors de la conversion PDF: "

  /** The message the inner handler of `process_image_bytes` gives an
      exception raised while opening or encoding: a fixed one when the
      library could not identify the image, the prefixed text otherwise. */
  function ProcessingMessage(e: string): (m: string)
    ensures Contains(Lower(e), "cannot identify image file") ==> m == UnrecognisedMessage
    ensures !Contains(Lower(e), "cannot identify image file") ==> m == ProcessingPrefix + e
  {
    if Contains(Lower(e), "cannot identify image file") then UnrecognisedMessage else ProcessingPrefix + e
  }

  /** Whether the opened image is HEIF or HEIC while `pillow_heif` is missing. */
  predicate HeifUnsupported(lib: Libraries, o: Opened) {
    o.format in {"HEIF", "HEIC"} && !lib.heifAvailable
  }

  /** The inner `try` of `process_image_bytes` as written: every exception
      raised in it, the `ConversionError` about HEIF included, goes through
      the inner handler; `Err` is the message of the `ConversionError` that
      handler raises. */
  function ProcessInner(lib: Libraries, image: Bytes): Result<Bytes, string> {
    match lib.open(image)
    case Err(e) => Err(ProcessingMessage(e))
    case Ok(o) =>
      if HeifUnsupported(lib, o) then Err(ProcessingMessage(HeifMessage))
      else
        match lib.encode(image, RotationFor(o.orientation))
        case Err(e) => Err(ProcessingMessage(e))
        case Ok(jpeg) => Ok(jpeg)
  }

  /** `ImageProcessor.process_image_bytes` as written: the outer handler
      catches the `ConversionError` the inner one raised and wraps it again. */
  function ProcessImageBytesAsWritten(lib: Libraries, image: Bytes): (r: Result<Bytes, ConversionError>)
    ensures r.Err? ==> StartsWith(r.error.message, ProcessingPrefix)
    ensures r.Ok? <==>
      && lib.open(image).Ok? && !HeifUnsupported(lib, lib.open(image).value)
      && lib.encode(image, RotationFor(lib.open(image).value.orientation)).Ok?
    ensures r.Ok? ==> r.value == lib.encode(image, RotationFor(lib.open(image).value.orientation)).value
  {
    match ProcessInner(lib, image)
    case Err(m) => Err(ConversionError(ProcessingPrefix + m))
    case Ok(jpeg) => Ok(jpeg)
  }

  /** As written, the message raised for a HEIF image opened without
      `pillow_heif` never reaches the caller: what arrives is that message
      after passing through both handlers, under the processing prefix. */
  lemma HeifMessageBuried(lib: Libraries, image: Bytes)
    requires lib.open(image).Ok? && HeifUnsupported(lib, lib.open(image).value)
    ensures ProcessImageBytesAsWritten(lib, image) == Err(ConversionError(ProcessingPrefix + ProcessingMessage(HeifMessage)))
    ensures ProcessImageBytesAsWritten(lib, image).error.message != HeifMessage
  {
    PrefixedIsNotHeif(ProcessingMessage(HeifMessage));
  }

  lemma PrefixedIsNotHeif(x: string)
    requires x in {UnrecognisedMessage, ProcessingPrefix + HeifMessage}
    ensures ProcessingPrefix + x != HeifMessage
  {
    assert |ProcessingPrefix + x| > |HeifMessage|;
  }

  /** As written, an image the library cannot identify is reported under the
      processing prefix, never with the message raised for it. */
  lemma UnrecognisedMessageBuried(lib: Libraries, image: Bytes)
    requires lib.open(image).Err? && Contains(Lower(lib.open(image).error), "cannot identify image file")
    ensures ProcessImageBytesAsWritten(lib, image) == Err(ConversionError(ProcessingPrefix + UnrecognisedMessage))
    ensures ProcessImageBytesAsWritten(lib, image).error.message != UnrecognisedMessage
  {
    assert |ProcessingPrefix + UnrecognisedMessage| > |UnrecognisedMessage|;
  }

  /** `ImageProcessor.process_image_bytes` as evidently intended: a
      `ConversionError` raised inside passes through both handlers, as it
      does in `convert_image_to_pdf`, and every other exception is wrapped
      once. */
  function ProcessImageBytes(lib: Libraries, image: Bytes): (r: Result<Bytes, ConversionError>)
    ensures lib.open(image).Err? ==> r == Err(ConversionError(ProcessingMessage(lib.open(image).error)))
    ensures lib.open(image).Ok? && HeifUnsupported(lib, lib.open(image).value) ==> r == Err(ConversionError(HeifMessage))
    ensures r.Ok? <==>
      && lib.open(image).Ok? && !HeifUnsupported(lib, lib.open(image).value)
      && lib.encode(image, RotationFor(lib.open(image).value.orientation)).Ok?
    ensures r.Ok? ==> r.value == lib.encode(image, RotationFor(lib.open(image).value.orientation)).value
  {
    match lib.open(image)
    case Err(e) => Err(ConversionError(ProcessingMessage(e)))
    case Ok(o) =>
      if HeifUnsupported(lib, o) then Err(ConversionError(HeifMessage))
      else
        match lib.encode(image, RotationFor(o.orientation))
        case Err(e) => Err(ConversionError(ProcessingMessage(e)))
        case Ok(jpeg) => Ok(jpeg)
  }

  /** Apart from the HEIF case, the message as written is the intended one
      with the prefix put once more in front. */
  lemma {:induction false} AsWrittenPrefixesIntended(lib: Libraries, image: Bytes)
    requires !(lib.open(image).Ok? && HeifUnsupported(lib, lib.open(image).value))
    ensures ProcessImageBytes(lib, image).Ok? <==> ProcessImageBytesAsWritten(lib, image).Ok?
    ensures ProcessImageBytes(lib, image).Ok? ==> ProcessImageBytes(lib, image).value == ProcessImageBytesAsWritten(lib, image).value
    ensures ProcessImageBytes(lib, image).Err? ==>
      ProcessImageBytesAsWritten(lib, image).error.message == ProcessingPrefix + ProcessImageBytes(lib, image).error.message
  {
    match lib.open(image)
    case Err(e) =>
    case Ok(o) =>
      match lib.encode(image, RotationFor(o.orientation))
      case Err(e) =>
      case Ok(jpeg) =>
  }

  /** `PDFGenerator.convert_image_to_pdf`: any failure of the PDF library is
      reported as a `ConversionError` with its text. */
  function GeneratePdf(lib: Libraries, jpeg: Bytes): (r: Result<Bytes, ConversionError>)
    ensures r.Ok? <==> lib.toPdf(jpeg).Ok?
    ensures r.Ok? ==> r.value == lib.toPdf(jpeg).value
    ensures r.Err? ==> r.error.message == PdfPrefix + lib.toPdf(jpeg).error
  {
    match lib.toPdf(jpeg)
    case Err(e) => Err(ConversionError(PdfPrefix + e))
    case Ok(pdf) => Ok(pdf)
  }

  /** An exception reaching the handler of `convert_image_to_pdf`: either a
      `ConversionError` or anything else. */
  datatype Raised = Conversion(error: ConversionError) | Other(text: string)

  /** The handler of `convert_image_to_pdf`: a `ConversionError` is raised
      again unchanged, anything else becomes one. */
  function Reraise(e: Raised): (c: ConversionError)
    ensures e.Conversion? ==> c == e.error
    ensures e.Other? ==> StartsWith(c.message, UnexpectedPrefix) && c.message[|UnexpectedPrefix|..] == e.text
  {
    match e
    case Conversion(c) => c
    case Other(text) => ConversionError(UnexpectedPrefix + text)
  }

  datatype Converted = Converted(pdf: Bytes, name: string)

  /** Which `process_image_bytes` the service runs: the one in the code, or
      the evidently intended one that lets its own `ConversionError` pass. */
  datatype Handling = AsWritten | Intended

  /** Both handlings succeed on the same images, with the encoder's output. */
  function Processed(lib: Libraries, image: Bytes, h: Handling): (r: Result<Bytes, ConversionError>)
    ensures r.Ok? <==> EncodesCleanly(lib, image)
    ensures r.Ok? ==> r.value == lib.encode(image, RotationFor(lib.open(image).value.orientation)).value
  {
    match h
    case AsWritten => ProcessImageBytesAsWritten(lib, image)
    case Intended => ProcessImageBytes(lib, image)
  }

  /** The image opens, is not HEIF without its plugin, and encodes. */
  predicate EncodesCleanly(lib: Libraries, image: Bytes) {
    && lib.open(image).Ok? && !HeifUnsupported(lib, lib.open(image).value)
    && lib.encode(image, RotationFor(lib.open(image).value.orientation)).Ok?
  }

  /** `PDFConverterService.convert_image_to_pdf`, the code being
      `ConvertImageToPdf(lib, image, filename, AsWritten)`: empty bytes are
      refused first, then an unsupported name, both before any library is
      called; otherwise the image is processed, turned into a PDF and named
      after the original, and a failure's `ConversionError` reaches the
      caller unchanged. */
  function ConvertImageToPdf(lib: Libraries, image: Bytes, filename: string, h: Handling): (r: Result<Converted, ConversionError>)
    ensures image == [] ==> r == Err(ConversionError(EmptyMessage))
    ensures image != [] && !IsSupportedImageFormat(filename) ==>
      r == Err(ConversionError(UnsupportedPrefix + filename))
    ensures r.Ok? <==>
      && image != [] && IsSupportedImageFormat(filename) && EncodesCleanly(lib, image)
      && lib.toPdf(lib.encode(image, RotationFor(lib.open(image).value.orientation)).value).Ok?
    ensures r.Ok? ==>
      && r.value.pdf == lib.toPdf(lib.encode(image, RotationFor(lib.open(image).value.orientation)).value).value
      && r.value.name == GeneratePdfName(filename)
    ensures image != [] && IsSupportedImageFormat(filename) && Processed(lib, image, h).Err? ==>
      r == Err(Processed(lib, image, h).error)
    ensures image != [] && IsSupportedImageFormat(filename) && Processed(lib, image, h).Ok?
            && lib.toPdf(Processed(lib, image, h).value).Err? ==>
      r == Err(ConversionError(PdfPrefix + lib.toPdf(Processed(lib, image, h).value).error))
  {
    if |image| == 0 then Err(ConversionError(EmptyMessage))
    else if !IsSupportedImageFormat(filename) then Err(ConversionError(UnsupportedPrefix + filename))
    else
      var p := Processed(lib, image, h);
      if p.Err? then Err(Reraise(Conversion(p.error)))
      else
        match GeneratePdf(lib, p.value)
        case Err(e) => Err(Reraise(Conversion(e)))
        case Ok(pdf) => Ok(Converted(pdf, GeneratePdfName(filename)))
  }

  /** As written, a supported, non-empty image the library cannot identify is
      refused under the processing prefix: the service never reports the
      "not recognised" message itself. */
  lemma UnrecognisedImageAsWritten(lib: Libraries, image: Bytes, filename: string)
    requires image != [] && IsSupportedImageFormat(filename)
    requires lib.open(image).Err? && Contains(Lower(lib.open(image).error), "cannot identify image file")
    ensures ConvertImageToPdf(lib, image, filename, AsWritten) == Err(ConversionError(ProcessingPrefix + UnrecognisedMessage))
    ensures ConvertImageToPdf(lib, image, filename, Intended) == Err(ConversionError(UnrecognisedMessage))
  {
    UnrecognisedMessageBuried(lib, image);
  }

  /** The two handlings accept and refuse the same inputs and produce the same
      PDF; they differ only in the messages of processing failures, where the
      code puts the processing prefix once more in front, except for HEIF. */
  lemma {:induction false} HandlingChangesOnlyMessages(lib: Libraries, image: Bytes, filename: string)
    ensures ConvertImageToPdf(lib, image, filename, AsWritten).Ok? <==> ConvertImageToPdf(lib, image, filename, Intended).Ok?
    ensures ConvertImageToPdf(lib, image, filename, AsWritten).Ok? ==>
      ConvertImageToPdf(lib, image, filename, AsWritten) == ConvertImageToPdf(lib, image, filename, Intended)
    ensures image != [] && IsSupportedImageFormat(filename) && !EncodesCleanly(lib, image)
            && !(lib.open(image).Ok? && HeifUnsupported(lib, lib.open(image).value)) ==>
      ConvertImageToPdf(lib, image, filename, AsWritten).error.message
        == ProcessingPrefix + ConvertImageToPdf(lib, image, filename, Intended).error.message
  {
    if image != [] && IsSupportedImageFormat(filename) && !(lib.open(image).Ok? && HeifUnsupported(lib, lib.open(image).value)) {
      AsWrittenPrefixesIntended(lib, image);
    }
  }

  /** The guards call no library: an empty image or an unsupported name is
      refused the same way whatever the libraries would have done. */
  lemma GuardsCallNoLibrary(lib1: Libraries, lib2: Libraries, image: Bytes, filename: string, h: Handling)
    requires image == [] || !IsSupportedImageFormat(filename)
    ensures ConvertImageToPdf(lib1, image, filename, h) == ConvertImageToPdf(lib2, image, filename, h)
    ensures ConvertImageToPdf(lib1, image, filename, h).Err?
  {
  }

  lemma PrefixStarts(prefix: string, x: string)
    ensures StartsWith(prefix + x, prefix)
  {
    assert (prefix + x)[..|prefix|] == prefix;
  }

  /** A processing failure carries one of the fixed messages or the
      processing prefix; as written, always the prefix. */
  lemma ProcessingFailureMessage(lib: Libraries, image: Bytes, h: Handling)
    requires Processed(lib, image, h).Err?
    ensures var m := Processed(lib, image, h).error.message;
            && (m in {UnrecognisedMessage, HeifMessage} || StartsWith(m, ProcessingPrefix))
            && (h == AsWritten ==> StartsWith(m, ProcessingPrefix))
  {
    if h == Intended {
      match lib.open(image)
      case Err(e) =>
        PrefixStarts(ProcessingPrefix, e);
      case Ok(o) =>
        if !HeifUnsupported(lib, o) {
          PrefixStarts(ProcessingPrefix, lib.encode(image, RotationFor(o.orientation)).error);
        }
    }
  }

  /** Every failure already arrives as a `ConversionError`, so the wrapping
      of other exceptions never happens: no message carries its prefix
      unless the text of a library's own exception does. As written, the
      only message without a prefix is the one for empty bytes. */
  lemma {:induction false} NothingUnexpected(lib: Libraries, image: Bytes, filename: string, h: Handling)
    requires ConvertImageToPdf(lib, image, filename, h).Err?
    ensures var m := ConvertImageToPdf(lib, image, filename, h).error.message;
            || m in {EmptyMessage, UnrecognisedMessage, HeifMessage}
            || StartsWith(m, UnsupportedPrefix) || StartsWith(m, ProcessingPrefix) || StartsWith(m, PdfPrefix)
    ensures var m := ConvertImageToPdf(lib, image, filename, h).error.message;
            h == AsWritten ==>
              m == EmptyMessage || StartsWith(m, UnsupportedPrefix) || StartsWith(m, ProcessingPrefix) || StartsWith(m, PdfPrefix)
  {
    if image != [] && IsSupportedImageFormat(filename) {
      var p := Processed(lib, image, h);
      if p.Ok? {
        PrefixStarts(PdfPrefix, lib.toPdf(p.value).error);
      } else {
        ProcessingFailureMessage(lib, image, h);
      }
    } else if image != [] {
      PrefixStarts(UnsupportedPrefix, filename);
    }
  }
}
