/**
 * The conversion pipeline of the command: pick the orientation of the
 * decoded image, resize it when a width or height was requested, encode
 * its pixels in the chosen format and render the header file text.
 */
module Conversion {
  import opened Options
  import opened Pixels
  import opened Dimensions
  import opened Render
  import Mono = Monochrome
  import Color = Rgb565

  /** The two output formats. */
  datatype OutputFormat = Monochrome | Rgb565

  /** How the image library fits an image to a target size: stretched, or scaled and cropped. */
  datatype Fit = Exact | Fill

  /** The image library's resize operation: image, target width, target height, fit. */
  type Resizer = (Image, nat, nat, Fit) -> Image

  /** Both fits give an image of exactly the requested size. */
  ghost predicate ResizesTo(resize: Resizer)
  {
    forall img: Image, w: nat, h: nat, fit: Fit ::
      img.Valid() ==>
        resize(img, w, h, fit).Valid() && resize(img, w, h, fit).width == w && resize(img, w, h, fit).height == h
  }

  /** The command-line arguments the pipeline reads. */
  datatype Args = Args(
    width: Option<nat>,
    height: Option<nat>,
    forceResize: bool,
    outFormat: OutputFormat,
    dataArrayName: string)

  /** The buffer an image encodes to in a format. */
  function Buffer(format: OutputFormat, img: Image): (out: seq<bv8>)
    requires img.Valid()
    ensures format == Monochrome ==> |out| == img.width * img.height / 8
    ensures format == Rgb565 ==> |out| == 2 * (img.width * img.height)
  {
    FlattenLength(img.rows, img.width);
    match format
    case Monochrome => Mono.Pack(PixelsOf(img))
    case Rgb565 => Color.Bytes(PixelsOf(img))
  }

  /**
   * The command from decoded image to file text. The orientation is that
   * of the image as decoded; without a width or height the image is used
   * as it is, otherwise it is resized to the target size, stretched when
   * `forceResize` is set and scaled and cropped otherwise. `formatName` is
   * the name the header prints for the format.
   */
  method Convert(img: Image, args: Args, formatName: string, resize: Resizer)
    returns (orientation: Orientation, width: nat, height: nat, outBuffer: seq<bv8>, text: string)
    requires img.Valid() && ResizesTo(resize)
    ensures orientation == FromDimensions(img.width, img.height)
    ensures !MustResize(args.width, args.height) ==>
      width == img.width && height == img.height && outBuffer == Buffer(args.outFormat, img)
    ensures MustResize(args.width, args.height) ==>
      (width, height) == TargetSize(orientation, args.width, args.height) &&
      outBuffer == Buffer(args.outFormat, resize(img, width, height, if args.forceResize then Exact else Fill))
    ensures args.outFormat == Monochrome ==> |outBuffer| == width * height / 8
    ensures args.outFormat == Rgb565 ==> |outBuffer| == 2 * (width * height)
    ensures text == FileText(orientation, width, height, args.dataArrayName, outBuffer, formatName)
    ensures '\n' !in formatName ==>
      ParseFile(text, args.dataArrayName) ==
        Some(FileParts(orientation, width, height, formatName, |outBuffer|, Values(outBuffer)))
  {
    var mustResize := args.width.Some? || args.height.Some?;

    orientation := FromDimensions(img.width, img.height);
    var resizeWidth, resizeHeight;
    match orientation {
      case Portrait =>
        resizeWidth := args.width.UnwrapOr(240);
        resizeHeight := args.height.UnwrapOr(320);
      case Landscape =>
        resizeWidth := args.width.UnwrapOr(320);
        resizeHeight := args.height.UnwrapOr(240);
    }

    var resizedImage;
    if mustResize {
      if args.forceResize {
        resizedImage := resize(img, resizeWidth, resizeHeight, Exact);
      } else {
        resizedImage := resize(img, resizeWidth, resizeHeight, Fill);
      }
    } else {
      resizedImage := img;
    }

    width, height := resizedImage.width, resizedImage.height;
    match args.outFormat {
      case Monochrome =>
        outBuffer := Mono.Encode(resizedImage);
      case Rgb565 =>
        outBuffer := Color.Encode(resizedImage);
    }
    FlattenLength(resizedImage.rows, resizedImage.width);
    text := FileText(orientation, width, height, args.dataArrayName, outBuffer, formatName);
    if '\n' !in formatName {
      FileTextRoundTrip(orientation, width, height, args.dataArrayName, outBuffer, formatName);
    }
  }
}
