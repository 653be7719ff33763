# SunLCD driver model

A Dafny model of `SunLCD`, the host-side driver for the JC024 serial
graphics display. The driver:

- turns drawing and display operations into the display's text command
  grammar (`FSIMG(...)`, `BOXF(...)`, `DCV16(...)`, ...);
- writes each command with CR LF and polls the port up to ten times for a
  reply line;
- registers images and monospaced fonts in the display's flash, from the
  base address 2097152;
- draws text with an image font, one image blit per character, wrapping at
  the right and bottom edges and sending the blits sixteen to a
  transmission.

The model is split into modules that follow those concerns:

| module | file | what it holds |
|---|---|---|
| `Wrappers`, `Text` | `text.dfy` | `Option`; Python's `strip`, and splitting a string at a separator with its inverse `Join` |
| `Decimal` | `decimal.dfy` | `str()` of an integer and a parser that reads it back |
| `Commands` | `commands.dfy` | the command grammar: `Encode`, a `Decode` and the round trip between them |
| `Protocol` | `protocol.dfy` | the reply reader and the polling send, as pure functions on a `Channel` value |
| `Memory` | `memory.dfy` | the flash layout of registered images, font maps, and image ID lookup |
| `Layout` | `layout.dfy` | glyph placement with line and screen wrap, glyph commands, batches of sixteen |
| `Lcd` | `lcd.dfy` | the class `SunLCD`, whose methods change its fields as the driver does |

Each method of `Lcd.SunLCD` is proved against the pure definitions.

- **Serial link.** The link's state is `Chan()`, a `Protocol.Channel`
  holding five things:
  - the acknowledgement flag `ok`;
  - the status text `responseBody`;
  - the pending bytes `buf`;
  - the chunks the port will deliver, one per poll;
  - the log of everything written.

  Every sending method ensures that its new `Chan()` and its result equal
  `Send` (or `SendAll`) of the old channel and the command text.
- **Everything else.** The rest of the state is `State()`, a
  `Lcd.Drawing` value: the cursor, the registries and the orientation.
  Each method states the new `State()` as a function of the old one.
- **Invariant.** `Valid()` is kept by every method. It says three things:
  - the pending bytes hold no line feed;
  - the image registry is laid out contiguously from the flash base;
  - every font names registered images only.

Integers are unbounded, as Python's are. The bytes of the port are modelled
as characters, since the driver works on Python 2 byte strings.

## Model

| member | source | states |
|---|---|---|
| Lcd.SunLCD.constructor | __init__.py:38-59 | a 240 by 320 display unless sizes are given; empty registries, flash cursor at 2097152, vertical orientation; one bare CR LF written first, then RESET and, if answered, SBC(0) |
| Lcd.SunLCD.ReadBack | __init__.py:67-90 | one poll of the port: state and result equal `Poll` of the old channel; nothing else changes |
| Lcd.ScanChunk | __init__.py:73-80 | the byte loop computes exactly `Scan`: the lines closed by line feeds and the pending rest |
| Lcd.Summarize | __init__.py:85-88 | the flag is set iff some line is `OK` (or it was set already); the status becomes the last line |
| Protocol.ScanSplits | __init__.py:73-80 | the lines a chunk produces are the stripped pieces of pending+chunk before its last line feed; the pending rest is the piece after it |
| Protocol.ScanCountsLineFeeds | __init__.py:76-78 | one line per line-feed byte |
| Protocol.ScanQuiet | __init__.py:79-80 | bytes without a line feed produce no line and are appended to the pending buffer |
| Protocol.ScanConcat | __init__.py:73-80 | reading two chunks in turn gives the same lines and pending bytes as reading them as one |
| Protocol.ScanPendingFree | __init__.py:77-80 | the pending buffer never holds a line feed |
| Protocol.PollAnswersOnLineFeed | __init__.py:82-90 | a poll answers iff its chunk holds a line feed; a quiet poll only buffers |
| Lcd.SunLCD.SendSerial | __init__.py:92-109 | clears flag and status, writes cmd + CR LF once, polls at most ten times; equals `Send` of the old channel |
| Protocol.SendWritesOnce | __init__.py:101 | a send writes exactly one line: the command followed by CR LF |
| Protocol.SendAnswered | __init__.py:102-109 | a send succeeds iff one of the next ten chunks holds a line feed, whatever the line says |
| Protocol.SendTimeout | __init__.py:99-109 | a send that times out leaves the flag false, the status empty and all ten chunks pending |
| Protocol.SendAnswer | __init__.py:99-108 | on the first chunk with a line feed: flag iff some received line is `OK`, status the last line, the unterminated rest pending, later chunks untouched |
| Protocol.PollLoopAnswers | __init__.py:102-109 | the ten-poll loop answers iff one of the next n chunks holds a line feed |
| Protocol.PollLoopTimesOut | __init__.py:102-109 | with no line feed in n chunks, the loop answers false having buffered all of them |
| Protocol.PollLoopFirstAnswer | __init__.py:102-108 | the loop stops at the first chunk with a line feed and leaves later chunks unread |
| Protocol.PollLoopKeepsSent | __init__.py:102-109 | polling writes nothing |
| Text.TrimLeftSpec | __init__.py:77 | the left half of `strip` removes exactly the leading whitespace |
| Text.TrimRightSpec | __init__.py:77 | the right half of `strip` removes exactly the trailing whitespace |
| Text.StripIdempotent | __init__.py:77 | stripping a stripped line changes nothing |
| Text.JoinSplit | __init__.py:74-80 | splitting at line feeds and joining with line feeds gives back the bytes |
| Text.SplitJoin | __init__.py:74-80 | pieces without the separator, joined and split again, come back unchanged |
| Text.SplitSnoc | __init__.py:76-80 | one more byte: a line feed opens a new piece, any other byte extends the last piece |
| Text.SplitCount | __init__.py:76-78 | a string splits into one more piece than it has separators |
| Decimal.ParseIntToStr | __init__.py:136 | `str()` of an integer reads back as that integer |
| Decimal.IntToStrInjective | __init__.py:136 | different integers print differently |
| Commands.DecodeEncode | __init__.py:118-332 | every command the driver formats reads back as the same command, text commands included, whatever the text |
| Commands.EncodeInjective | __init__.py:118-332 | two different commands never produce the same text |
| Commands.DecodeTextCommand | __init__.py:298-332 | `DCVnn(x,y,'text',color)` reads back as the same text command |
| Commands.ParseInts_Ints | __init__.py:136 | a list of integers written with `str()` parses back to the same list |
| Commands.FilledBoxExample | __init__.py:253-263 | a filled box from (0,0) to (10,10) in colour 3 is exactly `BOXF(0,0,10,10,3)` |
| Lcd.SunLCD.Reset | __init__.py:118-123 | sends `RESET`; state unchanged |
| Lcd.SunLCD.Version | __init__.py:125-128 | sends `VER`; state unchanged |
| Lcd.SunLCD.Baudrate | __init__.py:130-140 | sends `BPS(rate)`; then the port's rate is `rate`, whatever the answer |
| Lcd.SunLCD.Clear | __init__.py:142-150 | sends `CLR(color)` |
| Lcd.SunLCD.On | __init__.py:153-163 | sends `LCDON(0)` for 0 and `LCDON(1)` for anything else |
| Lcd.SunLCD.RawImage | __init__.py:165-176 | sends `FSIMG(address,x,y,w,h,transparent)` |
| Lcd.SunLCD.Orientation | __init__.py:183-198 | 0 and 1 record the orientation and then send `DIR(0)`/`DIR(1)`; anything else is refused with nothing sent or changed |
| Lcd.SunLCD.Brightness | __init__.py:201-216 | a non-number is refused with nothing sent; a number sends `BL(b)` with b the clamped byte `BacklightLevel` |
| Lcd.BacklightLevel | __init__.py:207-214 | the byte is always within 0..255 |
| Lcd.Truncate | __init__.py:207 | `int()` truncates toward zero: the result has the sign of the number and lies less than one from it on the side of zero; whole numbers are kept |
| Lcd.BacklightInRange | __init__.py:207-214 | for levels in [0,1] the byte is the floor of (1 - level) * 255 |
| Lcd.BacklightMonotone | __init__.py:207-214 | a brighter level never gives a larger byte |
| Lcd.BacklightExamples | __init__.py:207-214 | 0.0 gives 255, 1.0 gives 0, 0.5 gives 127, -1.0 saturates to 255 |
| Lcd.SunLCD.Point | __init__.py:218-227 | sends `PS(x,y,color)` |
| Lcd.SunLCD.Line | __init__.py:229-239 | sends `PL(x0,y0,x1,y1,color)` |
| Lcd.SunLCD.HollowBox | __init__.py:241-251 | sends `BOX(x0,y0,x1,y1,color)` |
| Lcd.SunLCD.FilledBox | __init__.py:253-263 | sends `BOXF(x0,y0,x1,y1,color)` |
| Lcd.SunLCD.HollowCircle | __init__.py:265-275 | sends `CIR(x,y,radius,color)` |
| Lcd.SunLCD.FilledCircle | __init__.py:277-287 | sends `CIRF(x,y,radius,color)` |
| Lcd.SunLCD.Background | __init__.py:289-296 | sends `SBC(color)` |
| Lcd.SunLCD.TextSmall | __init__.py:298-308 | sends `DCV16(x,y,'text',color)` |
| Lcd.SunLCD.TextMedium | __init__.py:310-320 | sends `DCV24(x,y,'text',color)` |
| Lcd.SunLCD.TextLarge | __init__.py:322-332 | sends `DCV32(x,y,'text',color)` |
| Lcd.SunLCD.MoveTo | __init__.py:343-357 | the cursor becomes the position; nothing else changes; answers true |
| Lcd.SunLCD.LineTo | __init__.py:359-371 | sends the line from the cursor; the cursor moves to the position only when the line was answered |
| Lcd.SunLCD.ListImage | __init__.py:374-384 | appends (cursor, size), returns the old registry length, moves the cursor by w*h*2; keeps the layout invariant |
| Memory.RegisterKeepsLaid | __init__.py:381-383 | registering at the cursor keeps the registry laid out |
| Memory.LaidAddresses | __init__.py:381-383 | each image's address is the base plus the bytes of all earlier images; the cursor is the base plus all bytes |
| Memory.Disjoint | __init__.py:381-383 | with non-empty sizes, image addresses strictly increase and no two images overlap |
| Memory.CursorPastEnd | __init__.py:381-383 | the cursor lies past the end of every registered image |
| Lcd.TwoImagesExample | __init__.py:381-384 | from a fresh registry two 16x16 images get IDs 0 and 1 at 2097152 and 2097152+512 |
| Lcd.SunLCD.ListFont | __init__.py:388-407 | registers one image per character, in order, appends the character map, returns the old font count |
| Lcd.SunLCD.ListGlyphs | __init__.py:400-405 | the loop registers one image per character and builds exactly `FontMap` of the list |
| Lcd.RegisterRunSpec | __init__.py:403-404 | n registrations append the run of n images and move the cursor by n*w*h*2 |
| Lcd.AddFontConsistent | __init__.py:406 | adding a map into registered images keeps the state consistent |
| Memory.RunAt | __init__.py:403-404 | image k of the run sits at the cursor plus k images' bytes |
| Memory.RunBytesIsProduct | __init__.py:403-404 | a run of n images takes n*w*h*2 bytes |
| Memory.RunKeepsLaid | __init__.py:403-404 | a run of registrations keeps the registry laid out |
| Memory.FontMapStep | __init__.py:403-404 | one more character adds (or overrides) that character's entry |
| Memory.FontMapKeys | __init__.py:403-404 | the font's keys are exactly the characters of the list |
| Memory.FontMapEntry | __init__.py:403-404 | each character maps to the image of its last occurrence in the list |
| Memory.FontMapLast | __init__.py:403-404 | both of the above, for every key |
| Memory.FontMapRange | __init__.py:403-404 | the font names only images of its own run |
| Memory.DefaultCharListSpelling | __init__.py:388 | the default list is the 95 printable ASCII characters from space to tilde, no character twice |
| Memory.LookupAsWritten | __init__.py:418-420 | an ID the guard lets through selects an index within the registry, or is an IndexError |
| Memory.NegativeIdSelectsLast | __init__.py:418-420 | ID -1 gets past the guard and selects the last image; -3 of 2 raises |
| Memory.LookupsAgree | __init__.py:418-420 | the corrected guard accepts exactly 0 <= id < count; on non-negative IDs it agrees with the guard as written, and every negative ID, which it refuses, gets past the guard as written |
| Lcd.SunLCD.ShowImage | __init__.py:410-422 | an unknown ID answers false with nothing sent or changed; otherwise sends the image's `FSIMG` at the position |
| Lcd.SunLCD.TextFont | __init__.py:424-449 | an unknown font ID answers false with nothing sent; otherwise the result and channel equal sending the batches of the glyph commands of the layout, on the screen the orientation sizes |
| Lcd.SunLCD.DrawGlyphs | __init__.py:453-491 | the loop sends exactly the batches of the text's glyph commands, stopping at the first unanswered one; state unchanged |
| Lcd.SunLCD.AddChar | __init__.py:456-476 | a known character appends its command and advances the pen as `Emit` says; an unknown one changes nothing |
| Lcd.SunLCD.AddGlyph | __init__.py:458-476 | appends the glyph's `FSIMG(...);` to the buffer and advances the pen |
| Lcd.SunLCD.NextPen | __init__.py:469-476 | the pen update equals `Advance` |
| Lcd.SunLCD.FlushBatch | __init__.py:481-488 | a flush after whole batches is the next send of `SendAll` over the batches |
| Layout.EmitAllPlace | __init__.py:455-476 | drawing character by character ends at the layout's pen having written the commands of the layout's glyphs |
| Layout.EmitAllStep | __init__.py:455-456 | one more character of the text is one more drawing step |
| Layout.PlaceShowsKnown | __init__.py:455-465 | one glyph per character the font has, in order, showing the font's image for it |
| Layout.PlaceSkipsUnknown | __init__.py:456 | characters the font lacks neither draw nor move the pen |
| Layout.PlacePrefix | __init__.py:455-476 | the glyphs of a prefix of the text come first |
| Layout.PlaceStep | __init__.py:456-476 | one more character adds its glyph at the pen and advances the pen, or changes nothing |
| Layout.CommandsPrefix | __init__.py:455-483 | the commands of a prefix come first among the text's commands |
| Layout.PerLine | __init__.py:471 | P is the least column count whose width reaches the wrap limit |
| Layout.AdvanceGrid | __init__.py:469-476 | from a grid cell the pen moves right, or to the next row's start, or back to the top-left |
| Layout.AdvanceSlot | __init__.py:469-476 | from slot n the pen advances to slot n+1 |
| Layout.UniformLayout | __init__.py:455-476 | with one glyph size from the corner, glyph k lands at column k mod P of row (k div P) mod R |
| Layout.NarrowScreenWrap | __init__.py:469-473 | 16-pixel glyphs on a 32-pixel-wide screen wrap after every glyph |
| Layout.GlyphCommandDecodes | __init__.py:465 | each glyph command is an `FSIMG` that reads back as the glyph's blit, followed by `;` |
| Layout.BatchesCount | __init__.py:478-491 | n commands make ceil(n/16) transmissions |
| Layout.BatchesConcat | __init__.py:478-491 | the transmissions carry every command once, in order |
| Layout.BatchAt | __init__.py:478-485 | transmission k holds commands 16k up to 16k+16 (or the end), at least one |
| Layout.BatchesSizes | __init__.py:478-491 | every transmission but the last holds sixteen commands; the last holds one to sixteen |
| Layout.BatchesAppend | __init__.py:478-485 | whole batches followed by more split into separate batches |
| Layout.BatchesTail | __init__.py:487-489 | the one to sixteen commands after whole batches go out as one final transmission |
| Layout.FlushCounts | __init__.py:478-491 | up to sixteen glyphs make one transmission; twenty make two, of sixteen and four |
| Lcd.BatchedWrites | __init__.py:478-491 | when all are answered, the log grows by ceil(n/16) lines, each a batch plus CR LF; no glyph, no write |
| Lcd.FlushStep | __init__.py:480-489 | after whole answered batches, the rest goes out in one send |
| Lcd.StopsEarly | __init__.py:480-483 | after an unanswered batch nothing more is sent |
| Lcd.TextStopsEarly | __init__.py:480-483 | an unanswered flush ends the whole text with the same outcome as sending all its batches |
| Protocol.SendAllSnoc | __init__.py:487-489 | one more send after answered sends is that send |
| Protocol.SendAllStopsAtFailure | __init__.py:480-483 | after a failed send, further commands change nothing |
| Protocol.SendAllWritesAll | __init__.py:480-489 | a run of answered sends writes every command once, in order, with CR LF |
| Protocol.SendAllFailure | __init__.py:480-483 | a failed run is some answered prefix followed by one failed send |

## Left out

- Serial transport:
  - Opening the port by name and the timeout are not modelled.
  - `inWaiting`, `read` and `write` are replaced by the `incoming` chunk sequence (one chunk per poll) and the `sent` log.
  - Closing and reopening the port at a new rate is reduced to the `baudrate` field.
- `time.sleep(0.1)` between polls is left out; only the count of ten polls is kept.
- Lcd.SunLCD.Brightness: the level is an exact real, and a value `float()` cannot convert is `None`. Binary floating-point rounding, NaN and infinities are not modelled.
- Lcd.SunLCD.MoveTo: takes a typed position, so the `False` return for a value that is not a pair is not modelled. For the same reason, `LineTo` returning `None` on such a value is not modelled.
- Lcd.SunLCD.ReadBack: answers `false` where the driver returns `None`.
- Lcd.SunLCD.On: takes an integer, so Python's `False` is its 0.
- Lcd.SunLCD.Orientation: takes an integer; Python values equal to 0 or 1, such as `True`, are not modelled.
- The colour name constants are not modelled; colours are plain integers.
- Behaviour of the code that a reader might not expect, kept as written:
  - The backlight byte is truncated with `int()`, not rounded, so 0.5 gives 127 (`Lcd.BacklightExamples`).
  - `Brightness(-1)` is a number, so it is not refused: the byte saturates and `BL(255)` is sent.
  - The wrap test `x >= lcd_w - w` puts one 16-pixel glyph per line on a 32-pixel-wide screen (`Layout.NarrowScreenWrap`).
  - Images are laid out by their byte size: the second 16x16 image is at 2097152+512 = 2097664 (`Lcd.TwoImagesExample`).
- Lcd.SunLCD.ShowImage: uses the corrected ID guard (`Memory.CheckedLookup`), so a negative ID is refused with nothing sent. The driver as written draws the image counted from the end, or raises IndexError; that lookup is `Memory.LookupAsWritten` (see Findings).
- Lcd.SunLCD.TextFont: uses the same corrected guard for font IDs, so a negative font ID is refused with nothing sent, where the driver as written uses the font counted from the end or raises IndexError (`Memory.LookupAsWritten`).
- The constructor's `port` argument, the device path, is not modelled; the sizes keep their defaults of 240 and 320.

## Findings

| source | as written | input that shows it | evidently intended | confidence | as-written member | corrected member |
|---|---|---|---|---|---|---|
| __init__.py:418-420, __init__.py:435-437 | the ID guard rejects only IDs above the last index; a negative ID reaches Python list indexing | `ShowImage(-1, ...)` with two images registered draws image 1; `ShowImage(-3, ...)` raises IndexError instead of returning False | an ID is valid only when it is an index handed out by `ListImage`/`ListFont`, so 0 <= id < count | not executed | Memory.NegativeIdSelectsLast | Memory.LookupsAgree |
