# pic2lcd conversion core in Dafny

pic2lcd turns an image into a C header that declares a `const uint8_t`
array for a small LCD. This project models what the command does between
decoding the image and writing the file:

- it chooses the orientation of the decoded image (portrait exactly when it
  is strictly taller than wide);
- it picks a target size (each given `--width`/`--height` as is, each
  missing one from the default 240×320 for portrait or 320×240 for
  landscape);
- it resizes only when a width or a height was given, stretching with
  `--force-resize` and scaling and cropping otherwise;
- it encodes the pixels as Monochrome (one bit per pixel, 1 for dark, eight
  pixels per byte, first pixel in the most significant bit) or as RGB565
  (two bytes per pixel, high byte first);
- it renders the header text: a comment with orientation, size and format
  name, then the array with its declared length and one `0x..` entry per
  byte in lowercase hexadecimal without zero padding.

Modules, one file each:

- `pixels.dfy` holds `Options`, the optional overrides with `unwrap_or`, and
  `Pixels`, the decoded image as rows of 8-bit RGB pixels and their
  row-major order.
- `dimensions.dfy` holds `Dimensions`: orientation, default and target size,
  and the resize decision.
- `monochrome.dfy` holds `Monochrome`. It has the specification `Pack`, the
  bit layout lemmas, and `Encode`, the two nested loops with the source's
  `u8` bit counter and working byte.
- `rgb565.dfy` holds `Rgb565`. It has the word layout, quantisation and its
  round trips, the specification `Bytes`, and `Encode`, the pixel loop.
- `render.dfy` holds `Render`. It has number formatting in base 10 and 16,
  the array body and its parser, and the file text.
- `conversion.dfy` holds `Conversion`: the pipeline `Convert`, from decoded
  image to file text.

Channels and bytes are `bv8` and the RGB565 word is `bv16`, so the masks,
shifts and truncating casts are those of the source's `u8`/`u16`. The
Monochrome bit counter is a `bv8` as in the source. A ghost `nat` follows
it through the table `Monochrome.Counter`.

Counting a final partial group of pixels as a byte would give
`ceil(width*height/8)` bytes. The code does not: the loop pushes a byte
only once eight bits have been written and never flushes after the loops.
So the buffer has `floor(width*height/8)` bytes, and a trailing group of
fewer than eight pixels is dropped (a 3×3 image gives one byte). The model
follows the code; `Monochrome.PackIgnoresTail` and
`Monochrome.ThreeByThree` state it.

## Model

| member | source | states |
|---|---|---|
| Options.Option.UnwrapOr | src/main.rs:109-110 | a present override is used as is; a missing one gives the default |
| Pixels.FlattenLength | src/main.rs:144-145 | visiting `height` rows of `width` pixels visits `height * width` pixels |
| Pixels.PixelsOfAt | src/main.rs:144-146 | row-major order: pixel `(x, y)` is visited at position `y * width + x`, for every pixel of the image |
| Dimensions.FromDimensions | src/main.rs:62-69 | portrait if and only if width < height; landscape if and only if height <= width, so a square is landscape |
| Dimensions.DefaultSize | src/main.rs:106-119 | defaults are 240×320 for portrait and 320×240 for landscape, and each default has its own orientation's shape |
| Dimensions.TargetSize | src/main.rs:106-119 | a given width or height is used as is; a missing one comes from the orientation's default |
| Dimensions.OverridesIndependent | src/main.rs:109-110 | the target width ignores the height override and the target height ignores the width override |
| Dimensions.DefaultTargetKeepsOrientation | src/main.rs:106-119 | without overrides the target has the orientation it was chosen for |
| Dimensions.BothOverridesIgnoreOrientation | src/main.rs:106-119 | with both overrides the target is the overrides, whatever the orientation |
| Dimensions.MustResizeCases | src/main.rs:98-102 | the image is resized if and only if a width or a height was given |
| Monochrome.DarkBit | src/main.rs:147-151 | the bit is 1 exactly when every channel is at most 130, and 0 exactly when some channel exceeds 130 |
| Monochrome.ShiftIsMsbMask | src/main.rs:148-150 | the mask `1 << (7 - bit_count)` selects the `bit_count`-th bit from the top |
| Monochrome.CounterStep | src/main.rs:152-153 | incrementing the `u8` counter counts one more pixel, and it reaches 8 exactly after the eighth |
| Monochrome.PackGroupBits | src/main.rs:146-151 | in a group's byte, bit `7 - j` is set exactly when pixel `j` of the group is dark |
| Monochrome.Pack | src/main.rs:140-160 | the buffer has one byte per whole group of eight pixels: `floor(n / 8)` bytes for `n` pixels |
| Monochrome.PackBitOfGroup | src/main.rs:144-156 | pixel `j` of group `i` lands in bit `7 - j` of byte `i`, set exactly when the pixel is dark |
| Monochrome.PackBit | src/main.rs:144-156 | pixel `k` lands in bit `7 - k mod 8` of byte `k div 8`, for every pixel of a whole group |
| Monochrome.PackIgnoresTail | src/main.rs:153-159 | pixels after the last whole group never reach the buffer |
| Monochrome.PackSnocPartial | src/main.rs:152-156 | a pixel that does not complete a group pushes nothing |
| Monochrome.PackSnocGroup | src/main.rs:152-156 | the pixel that completes a group pushes exactly that group's byte |
| Monochrome.ClearBit | src/main.rs:148 | `mono_byte &= !mask` clears the masked bit and keeps all others |
| Monochrome.SetBit | src/main.rs:150 | `mono_byte \|= mask` sets the masked bit and keeps all others |
| Monochrome.WriteBitIsMarkBit | src/main.rs:147-151 | the source's update clears the counter's bit for a light pixel and sets it for a dark one |
| Monochrome.WritePixelKeepsPacked | src/main.rs:146-156 | one iteration keeps the invariant: pushed bytes are the packing of the visited pixels, the working byte holds the pending ones, and the counter counts them |
| Monochrome.WriteBitKeepsPacked | src/main.rs:147-152 | writing a pixel that does not complete a group keeps the invariant and pushes nothing |
| Monochrome.WriteBitCompletesGroup | src/main.rs:147-156 | after the eighth pixel of a group the working byte is exactly that group's packing, and pushing it keeps the invariant with nothing pending |
| Monochrome.EncodeRow | src/main.rs:145-157 | the inner loop over a row keeps that invariant |
| Monochrome.Encode | src/main.rs:140-160 | the buffer is `Pack` of the pixels in row-major order, has `width * height / 8` bytes, and each pixel's dark flag is at its bit |
| Monochrome.ThreeByThree | src/main.rs:140-160 | a 3×3 image gives a single byte |
| Rgb565.Pack565 | src/main.rs:168-170 | red's top 5 bits are word bits 15-11, green's top 6 bits are bits 10-5, and blue's top 5 bits are bits 4-0 |
| Rgb565.JoinBytes | src/main.rs:171-172 | the two pushed bytes, high then low, put back together give the word |
| Rgb565.Quantize | src/main.rs:168-170 | the encoding keeps each channel up to its dropped low bits: at most 7 lost for red and blue and 3 for green |
| Rgb565.UnpackPack | src/main.rs:168-170 | decoding an encoded pixel gives the pixel with its dropped bits cleared |
| Rgb565.PackUnpack | src/main.rs:168-170 | every 16-bit word is the encoding of the pixel it decodes to |
| Rgb565.SameWord | src/main.rs:168-170 | two pixels get the same word if and only if they agree after quantisation |
| Rgb565.Bytes | src/main.rs:161-175 | the buffer has two bytes per pixel |
| Rgb565.BytesSnoc | src/main.rs:171-172 | each pixel appends its high byte, then its low byte |
| Rgb565.BytesAt | src/main.rs:163-172 | pixel `i` is at bytes `2i` (high) and `2i + 1` (low) |
| Rgb565.WhiteBytes | src/main.rs:168-172 | white is encoded as `0xff, 0xff` |
| Rgb565.BlackBytes | src/main.rs:168-172 | black is encoded as `0x00, 0x00` |
| Rgb565.Encode | src/main.rs:161-175 | the buffer is `Bytes` of the pixels in row-major order, has `2 * width * height` bytes, and every pixel's high and low byte is at its position |
| Render.DigitChar | src/main.rs:190 | the digit character for a value reads back as that value |
| Render.ToBase | src/main.rs:181-190 | the number is written with digits of the base only, with no leading zero unless it is zero, in one digit exactly when it is below the base |
| Render.FromToBase | src/main.rs:181-190 | reading the written digits back gives the number |
| Render.ToBaseInjective | src/main.rs:181-190 | different numbers are written differently |
| Render.Hex | src/main.rs:190 | a byte is one or two lowercase hex digits, one exactly when it is below 16, and they read back as the byte |
| Render.ByteDigits | src/main.rs:190 | a byte never needs more than two hex digits |
| Render.HexExamples | src/main.rs:190 | 0, 15, 16 and 255 are written `0`, `f`, `10` and `ff` |
| Render.DigitRunStops | src/main.rs:190 | the hex digits of an entry end at its comma |
| Render.ParseEntry | src/main.rs:190 | an entry reads back as its byte, followed by whatever comes after its comma |
| Render.ParseBodyRoundTrip | src/main.rs:188-191 | the array body reads back as exactly the buffer's bytes, in order |
| Render.DeclaredLengthMatchesBody | src/main.rs:182-191 | the declared array length reads back as the number of entries in the body |
| Render.SizeRoundTrip | src/main.rs:180 | the `WxH - format` part of the comment line reads back as the width, the height and the format name |
| Render.OrientationRoundTrip | src/main.rs:180 | the comment line's orientation name and its separator read back as the orientation |
| Render.HeaderRoundTrip | src/main.rs:180-186 | the comment line `/* {orientation} - {width}x{height} - {format}*/` (`Header`) reads back as exactly the orientation, width, height and format name written into it |
| Render.LengthAndBody | src/main.rs:181 | after the array name, the length's digits end at `]`, and `] = {`, the body and `};` split back apart |
| Render.DeclarationParts | src/main.rs:181-191 | a declaration `const uint8_t name[N] = {...};` reads back as the number `N` and the entries of its body |
| Render.DeclarationRoundTrip | src/main.rs:181-191 | the array declaration (`Declaration`) reads back as the buffer's length and exactly its bytes, so the declared size equals the number of entries |
| Render.DigitsHaveNoLineBreak | src/main.rs:180 | the written numbers hold no line break |
| Render.HeaderIsOneLine | src/main.rs:180 | the comment line holds no line break when the format name holds none |
| Render.LinesSplit | src/main.rs:180-181 | the text splits at its first line break into the comment line and the declaration |
| Render.FileTextRoundTrip | src/main.rs:178-192 | the whole file (`FileText`, the `format!` template) reads back as the orientation, final size, format name, the declared length equal to the buffer's length, and the buffer's bytes in order |
| Conversion.Buffer | src/main.rs:139-176 | Monochrome gives `width * height / 8` bytes and RGB565 gives `2 * width * height` |
| Conversion.Convert | src/main.rs:98-192 | orientation comes from the decoded image. Without width and height the image passes through unresized and is encoded as it is. Otherwise the size is the target size and the buffer encodes the resized image. The buffer length fits the format, and the text is the header plus the array, which reads back as the orientation, the final size, the format name and the buffer |

## Left out

- Argument parsing is not modelled: defaults, case-insensitive format names, and `--force-resize` requiring both `--width` and `--height`. `Conversion.Args` holds the parsed values. A forced resize without both sizes is only excluded by the parser, so the model does not exclude it either.
- Opening and decoding the image file, conversion to 8-bit RGB (`get_pixel`, `to_rgb8`) and the alpha channel are not modelled. The model starts from the decoded image as rows of 8-bit RGB pixels.
- The Lanczos3 resampling of `resize_exact` and `resize_to_fill` is not modelled. `Conversion.Convert` takes the resizer as a function parameter. It only requires that the resizer returns an image of exactly the requested size.
- The verbose log messages and writing the file (`fs::write`, its `unwrap`) are not modelled. `Conversion.Convert` returns the text that would be written.
- The name the header prints for the output format comes from a macro-generated `Display` that is not part of this model. `Conversion.Convert` takes it as the parameter `formatName`.
- Sizes are `nat`, not `u32`: a target size or product of sizes past `u32` is not modelled.
- `Monochrome.Encode` keeps the source's `u8` counter and working byte. The byte is never reset between groups; the model shows that the leftover bits are always overwritten before a push.
