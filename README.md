# TSPL label-printer driver: command builder and image preparation

This project models two parts of a PHP driver for TSPL label printers and proves properties about them.

**The `Printer` command builder** (`src/TsplPrinter.php`) is modelled in module `TsplPrinter`.
- A `Printer` object holds the session configuration: the SIZE group (width, height, unit), the GAP group (distance, offset, unit), the REFERENCE group (x, y) and a default unit.
- Setters overwrite one group each.
- Command getters render one directive line each, in the form `KEYWORD field,field,...`.
- `printBitmapImage` assembles the seven-line job SIZE, GAP, REFERENCE, CLS, BITMAP, `PRINT 1`, EOP. It hands the job to the connector as one CRLF-joined string.
- The model is a Dafny class with the same fields. Each is an `Option<string>`, where `None` is PHP's null and the value is an already-rendered string.
- The command getters are functions of that state. The connector is the sequence `written` of the strings passed to its `write`.
- Each directive is specified as `Line(keyword, fields)`. `ParseLine`, which reads a line back, is proved to be its inverse. That proof is how "exactly these fields, in this order" is stated.

**The image-side logic of `ImagickTsplImage`** (`src/PrintImages/ImagickTsplImage.php`) is modelled in module `ImagickImage`.
- The width handed to the scaler is floored to a multiple of 8.
- A nested loop thresholds each pixel into a row-major buffer of `'0'`/`'1'` characters.
- An index-walking parser strips the header off a PBM `P4` blob: it skips the `P4\n` line, the `#` comment lines and the dimensions line.
- The null-filename branches of `loadImageData` and `getRasterFormatFromFile` are modelled too.
- Pixel colours (an `array2<Rgb>` indexed `[x, y]`), the PBM blob (a `seq<Byte>`) and the widths are inputs. They stand for what Imagick would compute.

Modules `Wrappers` and `Strings` hold shared helpers:
- `Option`;
- `FindFrom` (PHP `strpos`);
- `Join` (PHP `implode`);
- `Split` on one character, which is `Join`'s partner in the round-trip lemmas.

**Which reading of `getUnit` is modelled.** Line 164 of `src/TsplPrinter.php` is a nested ternary without parentheses.
- PHP 7 groups it to the left, and then an explicit unit is never used (see Findings).
- PHP 8 refuses to compile it.
- The directives use the intended right-associative reading, `TsplPrinter.Printer.GetUnit`: the explicit unit, else a non-empty session default, else `""`.
- The left-associative reading is modelled separately as `TsplPrinter.GetUnitAsWritten`.

**Where the code and its documentation disagree, the model follows the code:**
- the job string has no CRLF after the final `EOP`;
- the job contains no DIRECTION or SHIFT directives.

## Model

| member | source | states |
|---|---|---|
| TsplPrinter.Printer.constructor | src/TsplPrinter.php:20-33 | a new printer has every configuration field unset and has written nothing |
| TsplPrinter.Printer.SetDefaultUnit | src/TsplPrinter.php:53-55 | sets the session default unit and changes no other field |
| TsplPrinter.Printer.SetSize | src/TsplPrinter.php:57-61 | overwrites exactly the SIZE group; an omitted height becomes unset, so the next SIZE line is `SIZE width+unit` with no height clause; the GAP and REFERENCE lines are unchanged |
| TsplPrinter.Printer.SetGap | src/TsplPrinter.php:63-68 | overwrites exactly the GAP group, leaves the SIZE and REFERENCE lines unchanged, and returns the printer itself |
| TsplPrinter.Printer.SetReference | src/TsplPrinter.php:70-74 | overwrites exactly the reference point, leaves the SIZE and GAP lines unchanged, and returns the printer itself |
| TsplPrinter.Printer.GetUnit | src/TsplPrinter.php:162-165 | an explicit unit wins; without one, the session default is used if non-empty, else the protocol default `""` |
| TsplPrinter.GetUnitAsWritten | src/TsplPrinter.php:164 | under PHP 7's left grouping, a non-empty explicit unit yields the session default (or `""`), an empty one yields `""`, and no unit yields the default if non-empty |
| TsplPrinter.ReadingsAgreeWithoutExplicitUnit | src/TsplPrinter.php:162-165 | with no per-call unit, both readings of the ternary resolve the same unit |
| TsplPrinter.Printer.SizeCommand | src/TsplPrinter.php:77-89 | the SIZE line is keyword SIZE with field `width+unit`, plus a second field `height+unit` exactly when a height is set, both using the one resolved size unit |
| TsplPrinter.SizeLineFields | src/TsplPrinter.php:77-89 | reading the SIZE line back gives keyword SIZE and two fields if and only if a height is set (one otherwise), carrying width and height with the same unit |
| TsplPrinter.Printer.GapCommand | src/TsplPrinter.php:91-101 | the GAP line is keyword GAP with fields `distance+unit`, `offset+unit`, both using the one resolved gap unit |
| TsplPrinter.GapLineFields | src/TsplPrinter.php:91-101 | reading the GAP line back gives exactly the two fields distance+unit then offset+unit |
| TsplPrinter.Printer.ReferenceCommand | src/TsplPrinter.php:103-111 | the REFERENCE line is keyword REFERENCE with fields x, y |
| TsplPrinter.ReferenceLineFields | src/TsplPrinter.php:103-111 | reading the REFERENCE line back gives exactly the fields x, y |
| TsplPrinter.Printer.BitmapCommand | src/TsplPrinter.php:113-129 | the BITMAP line is keyword BITMAP with the six fields x, y, widthBytes, heightDots, mode, data in that order |
| TsplPrinter.BitmapLineFields | src/TsplPrinter.php:113-129 | reading the BITMAP line back gives x, y, widthBytes, heightDots, mode as the first five fields, and everything after the fifth comma is exactly the data, even when the data holds commas |
| TsplPrinter.Printer.PrintCommand | src/TsplPrinter.php:131-141 | the PRINT line is keyword PRINT with field set, plus field copy exactly when copy is given |
| TsplPrinter.PrintLineFields | src/TsplPrinter.php:131-141 | reading the PRINT line back gives set as the first field, and a second field equal to copy if and only if copy is given |
| TsplPrinter.Printer.PrintBitmapImage | src/TsplPrinter.php:143-154 | performs exactly one write, whose content is the seven-line bitmap job joined by CRLF; nothing else changes |
| TsplPrinter.BitmapJobWire | src/TsplPrinter.php:143-154 | the job has seven lines: SIZE, GAP, REFERENCE, then CLS, a BITMAP line carrying the image's widthBytes and height, `PRINT 1`, and EOP; the written string starts with the SIZE line and a CRLF and ends with CRLF and EOP |
| TsplPrinter.Printer.SendCommands | src/TsplPrinter.php:156-160 | appends exactly one write, the lines joined by CRLF |
| TsplPrinter.SentCommandsLayout | src/TsplPrinter.php:158 | the written string has a CRLF between consecutive lines and none after the last one |
| TsplPrinter.SentCommandsSeparators | src/TsplPrinter.php:158 | when no line holds a CR, a write of n lines holds exactly n - 1 line separators |
| TsplPrinter.ParseLineOfLine | src/TsplPrinter.php:77-141 | a rendered directive reads back as its keyword and its fields whenever only the last field may hold a comma |
| TsplPrinter.LineOfParseLine | src/TsplPrinter.php:77-141 | conversely, every line that reads back is the rendering of what it reads back as |
| Strings.JoinEnds | src/TsplPrinter.php:158 | `Join`, the model of `implode`, starts with the first line and ends with the last one, so no separator comes before the first line or after the last |
| Strings.JoinSplit | src/TsplPrinter.php:77-141 | splitting at a separator and re-joining with it gives back the original text |
| Strings.SplitJoinExact | src/TsplPrinter.php:77-141 | joining separator-free pieces and splitting again gives back the pieces |
| Strings.JoinSeparatorCount | src/TsplPrinter.php:158 | a join of n pieces that do not contain the separator's marker holds n - 1 separators |
| Strings.FindFrom | src/PrintImages/ImagickTsplImage.php:110-114 | `strpos` with an offset: the first match at or after the offset, or None exactly when there is none |
| ImagickImage.FloorToByte | src/PrintImages/ImagickTsplImage.php:87-89 | `floor(w/8)*8` is a multiple of 8, at most w and more than w - 8 |
| ImagickImage.ImagickTsplImage.ScaledWidth | src/PrintImages/ImagickTsplImage.php:86-90 | the working width is a multiple of 8 and is floored from the requested width when that is set and non-zero, otherwise from the source width, never exceeding it |
| ImagickImage.Greyness | src/PrintImages/ImagickTsplImage.php:45 | each pixel value is 0 or 1, and 1 exactly when the channel average (integer division by 3) is at least 128 |
| ImagickImage.StoredChar | src/PrintImages/ImagickTsplImage.php:46 | the buffer stores the character `'1'` for a white pixel and `'0'` for a black one |
| ImagickImage.RowMajor | src/PrintImages/ImagickTsplImage.php:46 | index `y*width+x` of a pixel inside the image is in the buffer and determines x and y again |
| ImagickImage.RowMajorOnto | src/PrintImages/ImagickTsplImage.php:39-48 | every buffer index is `y*width+x` for exactly one pixel inside the image |
| ImagickImage.PixelLandsAt | src/PrintImages/ImagickTsplImage.php:39-48 | pixel (x, y) lands at buffer index `y*width+x` |
| ImagickImage.IndexFromPixel | src/PrintImages/ImagickTsplImage.php:39-48 | every buffer index holds the value of the pixel (k mod width, k div width) |
| ImagickImage.ImagickTsplImage.ReadImageFromImagick | src/PrintImages/ImagickTsplImage.php:37-51 | the buffer has length width*height, every index holds the thresholded value of its pixel, and the stored width and height are the dimensions the loop iterated over |
| ImagickImage.ImagickTsplImage.LoadImageData | src/PrintImages/ImagickTsplImage.php:61-70 | a null filename is handed to the parent's blank-image loader, which is not modelled; otherwise the decoded image is read in as by readImageFromImagick, and its width is a multiple of 8 whenever the floored width asked of the scaler is non-zero |
| ImagickImage.HeaderEndFrom | src/PrintImages/ImagickTsplImage.php:111-114 | the header walk from a newline ends, if at all, at a later newline |
| ImagickImage.RasterOffset | src/PrintImages/ImagickTsplImage.php:110-116 | the raster starts just after a newline of the blob, at most at the blob's end |
| ImagickImage.GetRasterBlobFromImage | src/PrintImages/ImagickTsplImage.php:106-118 | on a well-formed P4 blob the loop returns the suffix of the blob starting at the raster offset |
| ImagickImage.WalkLayout | src/PrintImages/ImagickTsplImage.php:111-114 | the bytes the walk passes over are zero or more `#` comment lines and then one dimensions line that does not start with `#`, each ended by a newline |
| ImagickImage.HeaderLayoutOf | src/PrintImages/ImagickTsplImage.php:110-116 | every blob the stripper accepts is laid out as the first `P4\n`, comment lines and a dimensions line, followed by the raster |
| ImagickImage.LayoutWalk | src/PrintImages/ImagickTsplImage.php:111-114 | conversely, a walk over comment lines and a dimensions line ends at the dimensions line's newline |
| ImagickImage.LayoutDeterminesOffset | src/PrintImages/ImagickTsplImage.php:110-116 | any blob so laid out is accepted, and its raster starts right after the dimensions line, whatever the number of comment lines |
| ImagickImage.ImagickTsplImage.GetRasterFormatFromFile | src/PrintImages/ImagickTsplImage.php:127-142 | a null filename gives no raster and changes nothing; otherwise the scaled dimensions are stored (the width a multiple of 8 whenever the floored width asked of the scaler is non-zero) and the raster is the stripped blob |

## Left out

- Imagick calls are left out because they are a foreign library: reading, scaling, thresholding, alpha removal, negation, colour space, PBM conversion, `getimageblob` and `getImagePixelColor`. Their results are inputs: the pixel array, the blob, and the source and scaled dimensions. The scaled width is constrained to the requested floored width whenever that is non-zero.
- ImagickImage.ImagickTsplImage.ScaledWidth: `scaleHeight` is passed to `scaleImage` unchanged. The scaling, and so the height it produces, is Imagick's and is not modelled.
- TsplPrinter.Printer.PrintBitmapImage: the source's default arguments `$x = 0, $y = 0, $mode = 0` are not modelled. Callers pass x, y and mode explicitly, already rendered (`"0"` for the defaults).
- The connector's `write` is I/O. It is recorded as an entry in `written`.
- The connector field is never assigned in `src/TsplPrinter.php`. The model assumes a connector exists.
- Exception wrapping in `getImageFromFile` is left out; it only re-throws Imagick's errors.
- The parent class `TsplImage` is not part of this model. This covers `toRasterFormat`, `getWidthBytes`, `getHeight`, the blank-image loader and the 1-bit packing. A `BitmapImage` carries their rendered results as opaque strings.
- ImagickImage.ImagickTsplImage.LoadImageData: the blank image the parent loads is not modelled. The method only reports that loading was deferred; the frame lets the image fields change and nothing is promised about them.
- ImagickImage.ImagickTsplImage.LoadImageData: scaleImage is assumed to return the requested width when that width is non-zero. When the floored width is 0 (a requested width of 1 to 7, or a source narrower than 8 with none requested), `scaleImage(0, scaleHeight)` lets Imagick choose the width by aspect ratio, or throws when no height is set. The model then takes the decoded width as given, promises no multiple of 8 and does not model the exception.
- ImagickImage.ImagickTsplImage.GetRasterFormatFromFile: the same assumption about scaleImage applies. When the floored width is 0 the stored width is whatever Imagick returned, with no multiple-of-8 promise and no exception modelled.
- PHP value-to-string conversion is left out (number formatting, and the falsiness of `"0"` as a default unit). Fields are already-rendered strings.
- In `getGapCommad` and `getReferenceCommand` an unset field renders as the empty string. That is PHP's null-to-string rule.
- The `(r+g+b)/3` float division before the `(int)` cast is integer division. The two agree for the non-negative sums up to 765 that 8-bit channels give.
- getRasterBlobFromImage's behaviour on a blob without `P4\n`, or without the newlines it needs, is documented as a crash. It is a precondition (`WellFormedP4`).
- The documented trailing CRLF after `EOP` and the DIRECTION and SHIFT directives are not in the code, so they are not modelled.

## Findings

| source | as written | input that shows it | evidently intended | confidence | as-written member | corrected member |
|---|---|---|---|---|---|---|
| src/TsplPrinter.php:164 | `isset($unit) ? $unit : $this->defaultUnit ? $this->defaultUnit : self::DEFAULT_UNIT` groups to the left in PHP 7, so an explicit unit only decides whether the session default is used | `getUnit("mm")` with no session default gives `""`; with session default `"dot"` it gives `"dot"` | the explicit unit wins, else a non-empty session default, else `""` | not executed | TsplPrinter.GetUnitAsWritten (counterexample: TsplPrinter.ExplicitUnitLostAsWritten) | TsplPrinter.Printer.GetUnit |
