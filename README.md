# Thermal viewer: frame decoder and latch

A model of the core of `trashviewer3.py`, the desktop viewer for a 12 x 16
thermal sensor that streams frames over a serial line. The model covers three parts:

* **The frame decoder**, `get_temperature_data`.
  - A received line is stripped.
  - A blank line is "no frame".
  - Otherwise the line is split at commas and the blank fields are dropped.
    Every remaining field must read as a number, and there must be exactly 192 of them.
  - The values are reshaped row-major into 12 x 16 and transposed, so a
    decoded frame has 16 rows of 12.
* **The latch in `update`**: the viewer keeps one grid, `temperature_data`.
  - It starts as 12 x 16 zeros.
  - A decoded frame, transposed back, replaces the grid.
  - "No frame" leaves the grid as it is.
* **The display clip**: the image shown is clipped at 100 degrees from above.

Modules:

* `Text` (`text.dfy`) models Python's `str.isspace`, `strip`, `lstrip`,
  `rstrip`, `split` on one character, and `join`.
* `Numeral` (`numeral.dfy`) models the decimal numerals `float()` accepts:
  an optional sign, digits, an optional fraction, and surrounding whitespace.
  `float()` strips less than `str.strip()` does. It does not strip the
  information separators U+001C to U+001F, and rejects a field that contains
  one, so the model does too. The module also defines a formatter for readings
  with a fixed number of decimal places, so parsing has a round trip.
* `Grids` (`grids.dfy`) models `np.zeros`, `reshape((12, 16))`, `.T` and
  `np.clip(x, None, 100)` on grids of reals.
* `FrameDecoder` (`frame_decoder.dfy`) holds the decoder, `Decode`. It also
  models the sending side of the line protocol (`EncodeFrame`, readings with
  a fixed number of decimal places), so decoding has a round trip.
* `Viewer` (`viewer.dfy`) holds the latch on one line (`Latch`), a sequence
  of ticks (`Run`), and the class `ThermalViewer`. The class has a
  `temperatureData` field and the `Update` method of one animation tick.

A decoded frame is 16 x 12 (`reshape((12, 16)).T`), not 12 x 16. The model
follows the code, and `LatchIsRowMajor` proves that the second transpose in
`update` cancels the first.

## Model

| member | source | states |
|---|---|---|
| FrameDecoder.Decode | trashviewer3.py:17-32 | A blank line gives no frame. A frame is produced exactly when the stripped line has 192 non-blank comma-separated fields and every one is a numeral. The frame is 16 x 12, and value `r*16+c` sits at row `c`, column `r`. |
| FrameDecoder.Retained | trashviewer3.py:25 | The kept fields are non-blank and no more than the fields given. |
| FrameDecoder.RetainedAppend | trashviewer3.py:25 | The filter handles each part of a concatenation independently, keeping the order. |
| FrameDecoder.RetainedAllFilled | trashviewer3.py:25 | A list with no blank field is kept whole. |
| FrameDecoder.RetainedDropsBlank | trashviewer3.py:25 | A blank field is dropped. |
| FrameDecoder.ParseAll | trashviewer3.py:25 | The list comprehension succeeds exactly when every field parses. It then has one value per field, in order. |
| FrameDecoder.ParseAllAppend | trashviewer3.py:25 | Parsing a concatenation is parsing both parts and concatenating, and it fails if either part fails. |
| FrameDecoder.ParseAllSingle | trashviewer3.py:25 | A one-field list parses exactly when its field does. |
| FrameDecoder.DecodeIgnoresSurroundingSpace | trashviewer3.py:17 | Whitespace added around a line does not change the outcome, and the outcome depends only on the stripped text. |
| FrameDecoder.DecodeByFieldValues | trashviewer3.py:19-29 | Two lines that are both blank or both non-blank, and whose fields have the same values, decode alike. |
| FrameDecoder.DoubledDelimiterIgnored | trashviewer3.py:25 | A doubled comma anywhere in the line decodes as a single comma. |
| FrameDecoder.DoubledDelimiterFields | trashviewer3.py:25 | A doubled comma gives the same retained fields as a single comma. |
| FrameDecoder.Fields | trashviewer3.py:17-25 | The fields `float()` is applied to: the stripped line split at commas, blank pieces dropped. None is blank and none contains a comma. |
| FrameDecoder.TrailingDelimiterIgnored | trashviewer3.py:17-25 | A comma at the end of a line, before its trailing whitespace, does not change the outcome, when the line is blank or that whitespace is padding `float()` strips (no U+001C to U+001F). |
| FrameDecoder.TrailingDelimiterFields | trashviewer3.py:25 | Appending padding that `float()` strips, and then a comma, to a stripped line leaves the parsed field values unchanged. |
| FrameDecoder.LastFieldPadding | trashviewer3.py:25 | Padding that `float()` strips, appended to the last field, leaves the parsed values unchanged. |
| FrameDecoder.DecodeEncodeFrame | trashviewer3.py:19-29 | Decoding a comma-joined frame of readings written with a fixed number of decimal places gives back the readings in the decoder's 16 x 12 layout when there are 192 of them. Any other count is no frame. |
| FrameDecoder.EncodedFields | trashviewer3.py:17-25 | An encoded frame is not blank, and its retained fields are exactly its numerals. |
| FrameDecoder.JoinedNumerals | trashviewer3.py:17-25 | Non-empty numerals joined by commas are not blank, and the decoder's fields of the join are those numerals. |
| FrameDecoder.NumeralValues | trashviewer3.py:25 | The numerals of an encoded frame parse to its values. |
| FrameDecoder.Reals | trashviewer3.py:25 | Sending side, the reference values of the round trip with the parse at line 25: reading `k` of a frame is its integer scaled down by ten once per decimal place. |
| FrameDecoder.Numerals | trashviewer3.py:19-25 | Sending side, the inverse of the parse at line 25: an encoded frame has one numeral per reading. |
| Numeral.ParseNum | trashviewer3.py:25 | `float(x)` on a field succeeds only on a non-blank field with no U+001C to U+001F whose stripped text is made of digits, signs and points, has at least one digit and at most one point. Its value is given by ParseNumUnpadded, ParseNumIgnoresPadding, ParseSigned and ParseFraction. |
| Numeral.ParseNumRejectsMalformed | trashviewer3.py:25 | A lone point and a numeral with two points, such as `1.2.3`, do not parse. |
| Numeral.ParseNumRejectsInfoSeparator | trashviewer3.py:25 | A field with U+001C, U+001D, U+001E or U+001F anywhere in it fails to parse. |
| Numeral.SeparatorFreeAppend | trashviewer3.py:25 | A concatenation is free of U+001C to U+001F exactly when both parts are. |
| Numeral.ParseNumeral | trashviewer3.py:25 | A numeral without padding uses only numeral characters, has at least one digit and at most one point, and a negative value has a leading `-`. |
| Numeral.ParseSigned | trashviewer3.py:25 | A `+` before an unsigned numeral keeps its value, a `-` negates it, and the signed numeral fails exactly when the unsigned one does. |
| Numeral.ParseUnsignedAlone | trashviewer3.py:25 | A numeral that does not start with a sign reads as an unsigned numeral. |
| Numeral.ParseUnsigned | trashviewer3.py:25 | An unsigned numeral is non-negative and made only of digits and points, with at least one digit and at most one point; a plain digit string reads as its decimal value. |
| Numeral.Decimal | trashviewer3.py:25 | The value of `whole.frac` is non-negative. |
| Numeral.ParseFraction | trashviewer3.py:25 | `whole.frac`, with digits on at least one side of the point, reads as all its digits scaled down by ten once per digit after the point. |
| Numeral.ScaledIsQuotient | trashviewer3.py:25 | Scaling down by ten `k` times is dividing by `10^k`. |
| Numeral.ScaledNegate | trashviewer3.py:25 | Scaling a negated integer gives the negated scaled value. |
| Numeral.ScaledNonNegative | trashviewer3.py:25 | Scaling a non-negative integer gives a non-negative value. |
| Numeral.ParseNumIgnoresPadding | trashviewer3.py:25 | Padding `float()` strips, around a field, does not change its value. |
| Numeral.ParseNumIgnoresTrailing | trashviewer3.py:25 | Padding `float()` strips, after a field, does not change its value. |
| Numeral.FormatFixed | trashviewer3.py:19-25 | Sending side, the inverse of the parse at line 25: a reading written with a fixed number of decimal places is non-empty and made only of numeral characters. |
| Numeral.FixedDigits | trashviewer3.py:19-25 | Sending side, the inverse of the parse at line 25: a non-negative reading with decimal places starts with a digit and is made only of digits and points. |
| Numeral.PointBefore | trashviewer3.py:19-25 | Sending side, the inverse of the parse at line 25: digits with a point inserted start with a digit and are made of digits and the point. |
| Numeral.FixedWidth | trashviewer3.py:19-25 | Sending side, the inverse of the parse at line 25: a reading with `places` decimal places is written with more than `places` digits, enough to hold it. |
| Numeral.ParseFormatFixed | trashviewer3.py:25 | Parsing a reading written with `places` decimal places gives back the integer scaled down `places` times. |
| Numeral.ParseNumeralFormatFixed | trashviewer3.py:25 | The same round trip on the unpadded numeral. |
| Numeral.ParseFixedDigits | trashviewer3.py:25 | The digits of a non-negative reading read back as its value. |
| Numeral.ParsePointBefore | trashviewer3.py:25 | Digits with a point before the last `k` read as their value scaled down `k` times. |
| Numeral.ParseFormatInt | trashviewer3.py:25 | Parsing a formatted whole number gives the number back. |
| Numeral.ParseNumeralFormatInt | trashviewer3.py:25 | The unpadded numeral of a whole number reads as that number. |
| Numeral.ParseDigits | trashviewer3.py:25 | A digit string reads as its decimal value. |
| Numeral.ParseNegativeDigits | trashviewer3.py:25 | A `-` before a digit string negates its value. |
| Numeral.ParseNumUnpadded | trashviewer3.py:25 | A field without whitespace is read as it stands. |
| Text.IsSpace | trashviewer3.py:17 | The characters `str.isspace()` accepts: ASCII tab to carriage return, U+001C to U+001F, space, U+0085, U+00A0 and the other Unicode space, line and paragraph separators. `strip()` drops exactly these. |
| Text.Strip | trashviewer3.py:17 | `strip()` is empty exactly on a blank string, and otherwise it neither starts nor ends with whitespace. |
| Text.LStrip | trashviewer3.py:17 | `lstrip()` is empty exactly on a blank string, and otherwise it does not start with whitespace. |
| Text.RStrip | trashviewer3.py:17 | `rstrip()` is empty exactly on a blank string, and otherwise it does not end with whitespace. |
| Text.StripIdempotent | trashviewer3.py:17 | Stripping twice is stripping once. |
| Text.StripIgnoresPadding | trashviewer3.py:17 | Blank text added at both ends does not change the stripped string. |
| Text.StripIgnoresTrailing | trashviewer3.py:17 | Blank text added at the end does not change the stripped string. |
| Text.StripUnpadded | trashviewer3.py:17 | A string with no whitespace at either end strips to itself. |
| Text.StripAround | trashviewer3.py:17 | Stripping text around a core that starts and ends with non-whitespace strips only the two outer parts. |
| Text.LStripAppend | trashviewer3.py:17 | Leading whitespace of a concatenation reaches into the second part only when the first part is blank. |
| Text.RStripAppend | trashviewer3.py:17 | Trailing whitespace of a concatenation reaches into the first part only when the second part is blank. |
| Text.RStripPrefix | trashviewer3.py:17 | `rstrip()` removes exactly a blank suffix. |
| Text.LStripSuffix | trashviewer3.py:17 | `lstrip()` removes exactly a blank prefix. |
| Text.TrailingSpaceAfterLStrip | trashviewer3.py:17 | Stripping the front of a non-blank line keeps the whitespace it ends with. |
| Text.RStripTail | trashviewer3.py:17 | The whitespace a string ends with is that of its non-blank last part. |
| Text.LStripBeforeText | trashviewer3.py:17 | `lstrip()` stops at the first non-whitespace character. |
| Text.RStripAfterText | trashviewer3.py:17 | `rstrip()` stops at the last non-whitespace character. |
| Text.BlankAppend | trashviewer3.py:25 | A concatenation is blank exactly when both parts are. |
| Text.Split | trashviewer3.py:25 | `split(',')` gives at least one field, and no field contains the separator. |
| Text.SplitAround | trashviewer3.py:25 | Splitting at a separator splits the two sides independently. |
| Text.SplitExtendLast | trashviewer3.py:25 | Separator-free text appended to a string extends its last field. |
| Text.PrependExtendLast | trashviewer3.py:25 | Extending the first field at the front and the last field at the back commute. |
| Text.IndexOf | trashviewer3.py:25 | The first occurrence of a character: it is there, and not before. |
| Text.IndexOfAfter | trashviewer3.py:25 | A character absent from a prefix is first found in the rest. |
| Text.SplitNoSeparator | trashviewer3.py:25 | A string without the separator is a single field. |
| Text.JoinSplit | trashviewer3.py:25 | Joining the fields of a split restores the string. |
| Text.SplitJoin | trashviewer3.py:25 | Splitting the join of separator-free fields gives the fields back. |
| Text.JoinStartsWith | trashviewer3.py:19-29 | A join begins with its first field. Used by the decoder round trip on encoded frames. |
| Text.JoinChars | trashviewer3.py:19-29 | Every character of a join is a field character or the separator. Used by the decoder round trip on encoded frames. |
| Grids.Zeros | trashviewer3.py:13 | `np.zeros((12, 16))` is a 12 x 16 grid of zeros. |
| Grids.Reshape | trashviewer3.py:29 | `reshape((12, 16))` is a 12 x 16 grid whose value at row `r`, column `c` is value `r*16+c`. |
| Grids.FlattenReshape | trashviewer3.py:29 | Flattening a reshaped frame gives back its 192 values. |
| Grids.ReshapeFlatten | trashviewer3.py:29 | Reshaping a flattened 12 x 16 grid gives back the grid. |
| Grids.FlattenAt | trashviewer3.py:29 | Row `r`, column `c` of a grid is at position `r*16+c` of the flattened grid. |
| Grids.Transpose | trashviewer3.py:29 | `.T` swaps the shape, and row `j` column `i` of the result is row `i` column `j` of the grid. |
| Grids.TransposeTwice | trashviewer3.py:29-40 | Transposing twice gives back the grid. |
| Grids.Clip | trashviewer3.py:48 | `np.clip(x, None, 100)` keeps the shape. Every value is at most the ceiling and at most the input, and equals either the input or the ceiling. Values already at or below the ceiling are unchanged, and there is no lower bound. |
| Grids.ClipIdempotent | trashviewer3.py:48 | Clipping twice is clipping once. |
| Grids.ClipKeepsShape | trashviewer3.py:48 | Clipping a rows x cols grid gives a rows x cols grid. |
| Viewer.Keep | trashviewer3.py:39-40 | No frame keeps the grid. A frame replaces it with its transpose, which is 12 x 16. |
| Viewer.Latch | trashviewer3.py:38-40 | After a tick without a frame the grid is unchanged. After a decoded frame the grid is 12 x 16, and value `r*16+c` of the line sits at row `r`, column `c`. |
| Viewer.LatchIsRowMajor | trashviewer3.py:29-40 | After a decoded frame the kept grid is the line's 192 values reshaped row-major: the two transposes cancel. |
| Viewer.LatchKeepsShape | trashviewer3.py:13-40 | The kept grid stays 12 x 16 across a tick. |
| Viewer.LatchEncodedFrame | trashviewer3.py:29-40 | Latching an encoded 192-value frame keeps its values in row-major order, whatever grid was kept before. |
| Viewer.Replay | trashviewer3.py:35-40 | A series of ticks keeps a 12 x 16 grid 12 x 16, and the grid it ends with is the starting grid or one of the frames received, transposed back. |
| Viewer.Run | trashviewer3.py:35-40 | The same for a series of received lines: the kept grid is the starting grid or the latch of one line that decoded. |
| Viewer.ReplayWithoutFrames | trashviewer3.py:39 | Ticks without a frame leave the kept grid unchanged. |
| Viewer.ReplayKeepsLastFrame | trashviewer3.py:38-40 | After a series of decoder outcomes, the kept grid is the last frame. Earlier history and later "no frame" ticks do not matter. |
| Viewer.DecodeEach | trashviewer3.py:38 | Each tick's decoder outcome is the decoding of its line, and every frame is 16 x 12. |
| Viewer.RunWithoutFrames | trashviewer3.py:38-39 | Lines that decode to no frame leave the kept grid unchanged. |
| Viewer.RunKeepsLastFrame | trashviewer3.py:38-40 | After a series of lines, the kept grid is the latch of the last line that decoded. |
| Viewer.KeptAfterEncoded | trashviewer3.py:38-40 | An encoded frame followed only by undecodable lines remains the kept grid, in row-major order. |
| Viewer.Resilience | trashviewer3.py:19-40 | Starting from zeros, take a frame, then a blank line, then a line with too few fields, then a second frame. The first frame is kept until the second arrives. |
| Viewer.ThermalViewer.constructor | trashviewer3.py:13 | The kept grid starts as 12 x 16 zeros. |
| Viewer.ThermalViewer.Update | trashviewer3.py:35-48 | One tick replaces the kept grid with its latch on the received line and keeps it 12 x 16. The image is the reconstructed grid clipped at 100, so no image value exceeds 100. |

## Left out

- Serial I/O is not modelled: opening the port, flushing it, `readline` and the UTF-8 decode (lines 9-10 and the start of line 17). The received line is a parameter.
- The debug `print` calls (lines 18, 20, 27, 31, 41) are left out. They are output with no effect on results.
- `zoom(..., order=3)` and `gaussian_filter(..., sigma=1.0)` (lines 44-45) are floating-point routines from scipy, and scipy is not part of this model. `Update` takes them as one opaque grid-to-grid parameter, `reconstruct`. The 48 x 64 shape of the zoomed image is therefore not stated.
- Matplotlib is left out: the figure, colour map, colour bar, `im.set_array` and the `FuncAnimation` timer (lines 51-65). `Run` stands in for the sequence of ticks. The animation's `frame` argument to `update` is unused in the source and left out.
- Numeral.ParseNum: accepts only `[sign] digits [. digits]` (either side of the point may be empty, but not both) with surrounding padding. It rejects exponents, `inf`, `nan`, underscores and non-ASCII digits, which Python's `float()` accepts. Reals are exact, so floating-point rounding and NaN are not modelled.
- Numeral.FormatFixed: the sender (the sensor's firmware) is not part of `trashviewer3.py`. `FormatFixed` stands for a sender that writes each reading with a fixed number of decimal places (as `'%.*f'` does), so that the decoder has a round trip. The model says nothing about senders that write readings differently.
- Viewer.ThermalViewer.Update: the image is stated only in terms of the opaque `reconstruct`, so no shape of the displayed image is promised.
- Only the `ValueError` from `float()` is modelled as "no frame". The source catches no other exception, and none can arise from the modelled steps.
