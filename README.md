# NetBSD LCD clock: UTF-8 decoder, ILI9486 driver and scrolling message line

This project models three pieces of the NetBSD LCD clock in Dafny and proves properties of them.

- **Strict UTF-8 decoder** (`unicode.dfy`, module `Unicode`, from `unicode.c`).
  - It covers the leader-byte length table, the packing of up to four bytes into a 32-bit word, `validate_packed`, `next_char`, `packed_to_ucs4` and `ucs4_to_packed`.
  - `string_to_ucs4` is modelled as a method that fills a caller array.
  - Bytes are `bv8` and packed values and code points are `bv32`, so the C `uint32_t` arithmetic is exact.
  - The decoder has two independent partners:
    - the byte grammar of section 4 of RFC 3629 (`WellFormedChar`);
    - a byte-level encoder (`Utf8Encode`, `Encode`).
  - Against these, the model proves that validation accepts exactly the grammar and that decoding inverts encoding.
  - `unicode_tests.dfy` (module `UnicodeTests`) states the file's own test vectors as lemmas and methods.
- **ILI9486 driver** (`ili9486.dfy`, module `Ili9486`, from `ili9486.c`).
  - The driver's file-level state is a class, `Driver`, with these fields:
    - the framebuffer, an `array?<Rgb>` where `null` means absent;
    - the static memory-access-control byte;
    - whether SPI and GPIO are open;
    - a transcript of every GPIO write and SPI transfer that reaches the hardware.
  - A panel-side reader (`Panel`) gives a transcript its meaning. The data/command line decides whether a transfer carries command words or parameters, and a reset pulse clears the panel.
  - Against that reader, the model proves that `SEND`/`DATA_S` framing, `create` and `refresh` deliver exactly the intended register writes.
  - `ILI9486_clear` and `ILI9486_rect_rgba` update the framebuffer in place, with frame conditions.
  - The compile-time configuration is the one in the file:
    - 18-bit pixels;
    - inversion off;
    - BGR order with row/column exchange;
    - a 16-bit SPI bus, so every command parameter byte goes after a zero pad byte. The pixel data of `refresh` (command 0x2C) is sent unpadded.
- **Scrolling message line** (`clock.dfy`, module `Clock`, from `clock-main.c`).
  - `render` is modelled as the method `Render`.
    - It decodes at most 20 code points, then blits each glyph with `RectRgba`.
    - Afterwards, every pixel some glyph wrote shows the last such glyph's bitmap pixel, and every other pixel is unchanged (`Drawn`).
    - The pixel offset applies to the first glyph only, and the pen advances by `advance >> 6` minus that offset.
    - The loop stops after the first truncated blit. A glyph whose load fails is skipped.
    - It returns the "wrap ready" flag.
  - The specification function `Plan` lists the blits `render` makes.
  - The scroll cursor (`m_pos`, `m_offset`) of `main` is the class `Scroller`.
    - Its `Scroll` step either adds 32 to the offset or moves the byte position past one byte and its continuation bytes, wrapping to 0 at the NUL.
    - On well-formed (RFC 3629) text, the model proves that a wrap drops exactly one decoded code point from the visible text.
    - On malformed text, one wrap can drop several U+FFFD at once, because the skip passes over stray continuation bytes that the decoder reads one by one (`Clock.OverlongWrapDropsThree`).
  - FreeType is abstracted as a map from code point to glyph metrics plus an already blended BGRA bitmap. A missing key is a glyph that `FT_Load_Char` fails on.

`seqs.dfy` (module `Seqs`) holds three sequence facts that the other modules share.

Two behaviours of the code are worth noting:

- A message of one ASCII character wraps its scroll position to 0, not to 1. Byte 1 is the NUL, so the wrap test resets the position (`Clock.OneCharacterWraps`).
- `ILI9486_destroy` is not idempotent. A second call finds the SPI handle NULL and returns false (`Ili9486.Driver.Destroy`).

## Model

| member | source | states |
|---|---|---|
| Unicode.Utf8Length | unicode.c:18-26 | The leader's top nibble gives the sequence length: 0-7 give 1, 8-B (continuation) give 0, C-D give 2, E gives 3, F gives 4. |
| Unicode.SurrogatesRejected | unicode.c:42-43 | Every packed value of a UTF-16 surrogate (0xEDA080..0xEDBFBF) fails validation. |
| Unicode.OverlongRejected | unicode.c:36-50 | These fail validation: values above 0x7F and below 0xC280, three-byte values below 0xE0A080, and four-byte values outside 0xF0908080..0xF48FBFBF. |
| Unicode.ValidIffWellFormed | unicode.c:36-50 | For bytes of the length the leader announces, validation accepts the packed word exactly when the bytes are one UTF8-char of the RFC 3629 grammar. |
| Unicode.PackedRoundTrip | unicode.c:85-116 | Every valid packed value unpacks to a Unicode scalar value, and `ucs4_to_packed` gives the packed value back. |
| Unicode.ScalarRoundTrip | unicode.c:85-116 | Every scalar value packs to a valid packed value, and `packed_to_ucs4` gives the scalar back. |
| Unicode.ReplacementAndAscii | unicode.c:192-196 | 0xEFBFBD unpacks to U+FFFD and back; ASCII maps to itself both ways. |
| Unicode.Scan | unicode.c:60-82 | `next_char` consumes 1 to 4 bytes, and the NUL gives length 1 with packed value 0. |
| Unicode.ScanValid | unicode.c:72-75 | `next_char` returns either a valid packed value or the replacement 0xEFBFBD. |
| Unicode.ScanBounds | unicode.c:66-75 | On a non-empty string, `next_char` never consumes the NUL and returns a nonzero packed value. A sequence cut short by the NUL becomes one invalid byte. |
| Unicode.ScanMatchesGrammar | unicode.c:60-82 | If the announced length fits and the bytes are well formed, `next_char` returns that length and the packed bytes. Otherwise it returns length 1 and the replacement. |
| Unicode.NextChar | unicode.c:60-82 | The packing loop returns exactly the length and packed value of `Scan`. |
| Unicode.EncodeIsPacked | unicode.c:99-116 | The RFC 3629 encoding of a scalar is well formed, and its bytes packed big-endian equal `ucs4_to_packed`. |
| Unicode.ScanEncoded | unicode.c:60-95 | Reading the encoding of a nonzero scalar consumes all its bytes and yields that scalar back. |
| Unicode.Codepoints | unicode.c:139-150 | The full decode yields at most one code point per byte before the NUL. |
| Unicode.CodepointsAreScalars | unicode.c:72-95 | Every decoded code point is a nonzero Unicode scalar value. |
| Unicode.CodepointsStep | unicode.c:139-150 | Decoding a non-empty string yields the unpacked first `next_char` result followed by the decode of the remaining bytes. |
| Unicode.CodepointsEmpty | unicode.c:139-152 | The decode is empty exactly when the string starts with its NUL. |
| Unicode.DecodeCons | unicode.c:139-150 | Decoding one encoded scalar followed by a string yields that scalar, then the string's decode. |
| Unicode.DecodeEncoded | unicode.c:129-153 | Decoding the NUL-terminated encoding of nonzero scalars gives exactly those scalars. |
| Unicode.DecodeEncodedThen | unicode.c:129-153 | Decoding encoded scalars followed by any NUL-terminated bytes gives those scalars followed by the decode of the rest. |
| Unicode.ReadCodepoint | unicode.c:140-146 | One loop step: the packed value is 0 exactly at the NUL. Otherwise the code point is the next decoded one, and the source advances to the rest after it. |
| Unicode.DecodeInto | unicode.c:136-151 | The loop writes the first `count` decoded code points, with `count <= max`. Stopping early means the NUL was reached. Slots from `count` on are untouched. |
| Unicode.StringToUcs4 | unicode.c:129-153 | A NULL array gives false and keeps the length. Otherwise the count is `min(max, number of code points)` and exactly those code points are written, with later slots untouched. The result is true exactly when every code point fitted. |
| UnicodeTests.T1IsEncoded | unicode.c:198-206 | "Aaß書." is the RFC 3629 encoding of A, a, U+00DF, U+66F8 and '.'. |
| UnicodeTests.T1FirstStep | unicode.c:198-208 | The first step over "Aaß書." reads 'A' with length 1. |
| UnicodeTests.T1SecondStep | unicode.c:198-208 | The second step reads 'a' with length 1. |
| UnicodeTests.T1MultiByteSteps | unicode.c:198-208 | ß packs to 0xC39F over 2 bytes and 書 to 0xE69BB8 over 3 bytes, and they convert to 0xDF and 0x66F8 and back. |
| UnicodeTests.T1PeriodSteps | unicode.c:198-208 | '.' has length 1, and the NUL gives packed 0 with length 1. |
| UnicodeTests.T1Decodes | unicode.c:222-223 | "Aaß書." decodes to [0x41, 0x61, 0xDF, 0x66F8, 0x2E]. |
| UnicodeTests.T2InvalidSteps | unicode.c:210-220 | A stray continuation and the truncated three-byte and two-byte forms each give the replacement with length 1. |
| UnicodeTests.T2AsciiSteps | unicode.c:210-220 | 'A' and 'B' between them read as themselves, and the NUL gives packed 0. |
| UnicodeTests.T2Decodes | unicode.c:210-220 | The malformed string decodes to FFFD, 'A', FFFD, 'B', FFFD. |
| UnicodeTests.WholeStringTest | unicode.c:222-237 | With capacity 10, `string_to_ucs4` returns true, a count of 5 and the expected code points. |
| UnicodeTests.TruncatedTest | unicode.c:239-254 | With capacity 4 it returns false, a count of 4 and the first four code points, and the sentinel 0xFFFFFFFF in slot 4 is untouched. |
| Ili9486.PanelAppend | ili9486.c:65-94 | The panel reads a transcript event by event, so reading two transcripts in a row equals reading their concatenation. |
| Ili9486.CommandWord | ili9486.c:65-71 | A low `lcd_rs`, then the word {0x00, cmd}, then a high `lcd_rs` delivers command `cmd` with no parameters and leaves the line in data mode. |
| Ili9486.CommandDelivers | ili9486.c:65-75 | A `SEND` frame delivers exactly one command with exactly its parameter bytes, and none if it has none. |
| Ili9486.DataDelivers | ili9486.c:87-94 | A `DATA_S` frame delivers exactly one command carrying the data block. |
| Ili9486.ResetClears | ili9486.c:161-169 | The reset pulse leaves the panel with no commands received. |
| Ili9486.CreateDelivers | ili9486.c:161-213 | After `create`'s transcript, the panel has received exactly the initialisation register sequence, with the current memory-access-control byte in register 0x36. |
| Ili9486.FunctionControlLines | ili9486.c:49-50 | The display-function-control line count is 480/8 - 1 = 59. |
| Ili9486.WindowsCoverRow | ili9486.c:260-263 | The column window read back is 0..479, and the row window for row y is y..319. |
| Ili9486.FlattenLayout | ili9486.c:53-57 | A row of packed pixels is sent as red, green, blue bytes, three per pixel. |
| Ili9486.RowLayout | ili9486.c:264-265 | The 1440 bytes sent for row y are framebuffer pixels y*480 .. y*480+479, in RGB order. |
| Ili9486.RefreshDelivers | ili9486.c:255-267 | After a refresh transcript, the panel has received exactly 3 commands per row, appended to whatever it held. |
| Ili9486.RefreshRow | ili9486.c:259-266 | For row y, those commands are 0x2A with the full column window, 0x2B with the window from y, and 0x2C with the row's pixels. |
| Ili9486.PaintedOnScreen | ili9486.c:300-326 | For non-negative coordinates and offsets, every pixel the blit writes lies on the 480x320 screen. |
| Ili9486.PaintedIsIntersection | ili9486.c:300-326 | Without offsets, the blit writes exactly the intersection of the rectangle with the screen. |
| Ili9486.TruncatedIffCornerLost | ili9486.c:298-312 | Truncation is reported exactly when the rectangle's bottom-right pixel is not written. |
| Ili9486.Driver.constructor | ili9486.c:59-62 | The driver starts with no framebuffer, no SPI channel, the initial memory-access-control byte 0x28 and an empty transcript. |
| Ili9486.Driver.WritePin | gpio.c:82-95 | A GPIO write reaches the hardware only when the GPIO device is open and the pin is 0..63. |
| Ili9486.Driver.SendCommand | ili9486.c:65-75 | `SEND` appends the command frame: RS low, {0x00, cmd}, RS high, then the parameters if there are any. |
| Ili9486.Driver.SendData | ili9486.c:87-94 | `DATA_S` appends the data frame: RS low, {0x00, cmd}, RS high, then the data. |
| Ili9486.Driver.Initialise | ili9486.c:161-213 | The reset pulse and the register writes of `create` are appended to the transcript in order. |
| Ili9486.Driver.Create | ili9486.c:110-215 | Rotation 0 ORs 0xC0 into the static memory-access-control byte, which persists. Rotation 180 keeps it. An existing framebuffer is kept; otherwise a fresh all-black one is allocated. SPI and GPIO open, the initialisation transcript is appended, and the result is true. |
| Ili9486.Driver.Destroy | ili9486.c:223-245 | Reset is driven active, and the framebuffer, SPI and GPIO are released. The result is true exactly when SPI was open, so a second call returns false. |
| Ili9486.Driver.Refresh | ili9486.c:255-267 | Without a framebuffer nothing is sent. Otherwise the refresh transcript of the current framebuffer, all 320 rows, is appended. |
| Ili9486.Driver.Sync | ili9486.c:249-252 | `sync` sends exactly what `refresh` sends. |
| Ili9486.Driver.Clear | ili9486.c:271-280 | With a framebuffer, every one of the 480*320 pixels becomes the given colour. |
| Ili9486.Driver.RectRgba | ili9486.c:286-329 | The result is true exactly when the rectangle is off the screen or clamped at the bottom or right. Every written pixel (r, c) shows the source pixel at row offset_y+(r-y), column offset_x+(c-x), with blue, green, red from bytes 0, 1, 2 and alpha ignored. Every other pixel is unchanged. |
| Ili9486.Driver.BlitRow | ili9486.c:315-326 | One outer-loop step: the next screen row is copied from its bitmap row, and the rest stays as it was. |
| Ili9486.Driver.CopyRow | ili9486.c:316-324 | The inner loop copies consecutive BGRA source pixels into consecutive framebuffer pixels and changes nothing else. |
| Clock.Text | clock-main.c:495-497 | `render` works on at most 20 code points: the decode of the string, cut to 20. |
| Clock.PlanGlyphs | clock-main.c:501-507 | The blits are the glyphs that loaded, in order, each on the baseline y. Failed loads are skipped. |
| Clock.PlanStops | clock-main.c:541-543 | Only the last blit can be truncated, and drawing stops before the last loaded glyph only because of a truncation. |
| Clock.PlanPens | clock-main.c:528-538 | The first blit is at pen x with the caller's offset. Every later one has offset 0 and a pen advanced by the previous glyph's `advance >> 6` minus its offset. |
| Clock.PlanSkip | clock-main.c:504-507 | A code point that fails to load adds no blit and does not move the pen. |
| Clock.PlanDraw | clock-main.c:525-543 | A loaded glyph is blitted at the pen. The plan continues after it from the advanced pen with offset 0, or ends there if the blit was truncated. |
| Clock.Render | clock-main.c:490-546 | The blits are exactly the plan's. Every pixel a planned blit writes shows the glyph bitmap pixel of the last blit that writes it. Every other pixel is unchanged. The result is true exactly when the first code point loads and its advance minus the offset is at most `incr`. |
| Clock.DecodeText | clock-main.c:495-497 | Decoding into a 20-slot array gives the first 20 code points. |
| Clock.DrawText | clock-main.c:501-545 | The glyph loop draws the planned blits in order. Each covered pixel shows its last blit's glyph pixel, and the rest are unchanged. It computes the wrap-ready flag. |
| Clock.Draw | clock-main.c:528-530 | One blit goes through `ILI9486_rect_rgba` at (x + left, y - top), and truncation is reported as the plan predicts. Every pixel it writes shows the glyph's bitmap pixel at row r - (y - top) and column offset + c - (x + left). Pixels it does not write keep what the earlier blits drew. |
| Clock.LastCover | clock-main.c:528-543 | The index of the last blit that writes a pixel, or -1. A returned index is a blit that writes it. |
| Clock.LastCoverIsLast | clock-main.c:528-543 | No later blit writes the pixel, and -1 means that no blit writes it. |
| Clock.LoadedGlyphs | clock-main.c:501-507 | If every code point loads, the glyphs are theirs, one each and in order. If none loads, there are none. |
| Clock.ContinuationIsTail | clock-main.c:406 | The test `(b & 0xC0) == 0x80` is exactly the RFC 3629 continuation-byte range 0x80..0xBF. |
| Clock.SkipStops | clock-main.c:406-408 | The skip loop stops at the first non-continuation byte and passes over only continuation bytes. |
| Clock.NextStartLands | clock-main.c:405-411 | The new position is 0 exactly when only continuation bytes follow up to the NUL. Otherwise it lies after the old position, before the NUL, on a non-continuation byte, with only continuation bytes in between. |
| Clock.ScrollDropsOneCodePoint | clock-main.c:403-411 | If the visible text is the RFC 3629 encoding of code points cps, a wrap drops exactly the first of them. With one code point left, the position returns to 0. |
| Clock.OverlongWrapDropsThree | clock-main.c:403-411 | On the malformed message E0 80 80 'A', the decode is three U+FFFD then 'A', and one wrap moves to byte 3, dropping all three. |
| Clock.OneCharacterWraps | clock-main.c:405-411 | A one-byte message wraps to position 0. |
| Clock.Scroller.constructor | clock-main.c:333-336 | The cursor starts at byte 0 with offset 0. |
| Clock.Scroller.Scroll | clock-main.c:399-414 | On wrap, the offset becomes 0 and the position moves to the next start. Otherwise the offset grows by 32 and the position is kept. |
| Clock.Scroller.NewMessage | clock-main.c:455 | A new message resets the position to 0 and keeps the pixel offset. |
| Clock.Scroller.Frame | clock-main.c:399-414 | A frame draws the plan of the visible text at (0, 290) with the current offset, with the same pixel content as `Render`. It then wraps when `render` reported wrap-ready, and otherwise advances the offset by 32. |

## Left out

- spi.c and gpio.c are not part of this model beyond their effect: a transfer or pin write is an event in the transcript.
  - Device paths, ioctls and `GPIO_mode` are not modelled.
  - The scratch-buffer growth of `SPI_send` is not modelled either.
- Delays (`delay_ms`, `usleep`) and bus speed are timing only and are left out.
- The failure paths of `ILI9486_create` are not modelled. Each one calls `err(EXIT_FAILURE, ...)`, which does not return, so the `goto fail` path is dead. `Ili9486.Driver.Create` models only the success path.
- Ili9486.Driver.Create: allocation of the framebuffer cannot fail in the model, because `calloc` failure exits the process.
- Ili9486.Driver.RectRgba: requires `x, y, offset_x, offset_y >= 0`. The C code does not check negative coordinates and would write outside the framebuffer. The model also requires `4 * width <= stride`, so that a row's pixels fit in its stride, and a buffer of at least `height * stride` bytes. The C code accepts any stride. The only caller passes a glyph bitmap whose pitch meets both bounds (`FontFits`). It also requires a framebuffer: the C code dereferences `framebuffer` without a check, so a call before `create` is undefined behaviour, and the model requires `create` to have run.
- Clock.Render: requires every planned blit to start at non-negative screen coordinates, as `RectRgba` does. A message that changes while `m_offset` is large can make the first advance negative. That moves later glyphs left of the screen, which the C code does not guard against.
- Clock.Scroller.Scroll: `m_offset` is an unbounded integer. The C `int` overflow after about 2^26 frames without a wrap is not modelled.
- FreeType is left out:
  - glyph loading and rendering (`FT_Load_Char`);
  - background fill and anti-aliased blending (`FT_Bitmap_Blend`);
  - `dump_bitmap`;
  - bitmap init and free.
  A glyph is its metrics plus the finished BGRA bitmap.
- The rest of `main` is left out:
  - sockets, `select`, `accept`, `read`;
  - message assembly with `strlcpy`/`strlcat` (a new message is any NUL-terminated 1024-byte buffer);
  - time, NTP and theme selection;
  - the time and date `render` calls, and the final refresh and destroy.
- `ucs4_to_packed` is compiled only for the tests. It is modelled as `Unicode.UcsToPacked`, the partner of `packed_to_ucs4`.
- The NULL checks of `src` and `codepoint_length` in `string_to_ucs4` are left out: both are values in the model. A NULL `codepoint` array is modelled.
- The scroll wrap test `m_pos > sizeof(message) - 1` cannot fire on a NUL-terminated message. `NextStart` keeps it, and `Clock.NextStartLands` shows that the new position always lies before the NUL.
- The `rect_rgba` width clamp ignores `offset_x`. The model keeps this behaviour, which has two effects:
  - With an offset, it can report truncation even though every visible column fits.
  - It leaves undrawn some columns that would fit on screen. For example, with x = 470, width 12 and offset_x 5, only columns 470..474 are painted, although the 7 remaining source columns would fit up to column 476.
