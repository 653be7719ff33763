/**
  The driver object for one display (`SunLCD`). It owns the serial link,
  the response state (the acknowledgement flag, the last status line and
  the pending partial line), the drawing cursor, the image and font
  registries, and the orientation the text layout reads. Every method is
  proved against the pure definitions of the other modules: the link
  against `Protocol`, the command text against `Commands`, the registries
  against `Memory` and the text drawing against `Layout`.
 */
module Lcd {
  import opened Wrappers
  import opened Text
  import C = Commands
  import opened Protocol
  import opened Memory
  import opened Layout

  /** The baud rate the port is opened with. */
  const DefaultBaudrate: int := 115200

  /** Everything the driver keeps apart from the serial link. */
  datatype Drawing = Drawing(cursor: Pen, images: seq<ImageInfo>, offset: int, fonts: seq<map<char, nat>>,
                             orientation: C.ScreenOrientation, standardWidth: int, standardHeight: int,
                             baudrate: int)

  /**
    Python's `int()` on a number: truncation toward zero. The result has the
    sign of `r` (or is zero) and lies less than one away from it on the side
    of zero, so whole numbers are kept as they are.
   */
  function Truncate(r: real): (i: int)
    ensures r >= 0.0 ==> 0 <= i && 0.0 <= r - i as real < 1.0
    ensures r < 0.0 ==> i <= 0 && 0.0 <= i as real - r < 1.0
    ensures r == r.Floor as real ==> i == r.Floor
  {
    if r >= 0.0 then r.Floor else -((-r).Floor)
  }

  /**
    The backlight byte for a brightness `level`: the level is inverted
    (`1.0` is brightest, byte 0), scaled to 255, truncated and clamped to a
    byte.
   */
  function BacklightLevel(level: real): (b: int)
    ensures 0 <= b <= 255
  {
    var v := Truncate((1.0 - level) * 255.0);
    if v < 0 then 0 else if v > 255 then 255 else v
  }

  /** Inside the documented range the byte is the floor of the inverted, scaled level. */
  lemma BacklightInRange(level: real)
    requires 0.0 <= level <= 1.0
    ensures BacklightLevel(level) == ((1.0 - level) * 255.0).Floor
  {
    var s := (1.0 - level) * 255.0;
    assert 0.0 <= s <= 255.0;
    assert s.Floor <= 255 by {
      assert 255.0.Floor == 255;
    }
  }

  /** A brighter level never gives a larger byte. */
  lemma BacklightMonotone(l1: real, l2: real)
    requires l1 <= l2
    ensures BacklightLevel(l2) <= BacklightLevel(l1)
  {
    var s1, s2 := (1.0 - l1) * 255.0, (1.0 - l2) * 255.0;
    assert s2 <= s1;
    if s2 >= 0.0 {
      assert s2.Floor <= s1.Floor;
    } else if s1 < 0.0 {
      assert (-s1).Floor <= (-s2).Floor;
    }
  }

  /** Full brightness is byte 0, none is byte 255, and a level below the range saturates. */
  lemma BacklightExamples()
    ensures BacklightLevel(0.0) == 255
    ensures BacklightLevel(1.0) == 0
    ensures BacklightLevel(-1.0) == 255
    ensures BacklightLevel(0.5) == 127
  {
    assert (1.0 - 0.5) * 255.0 == 127.5;
    assert (1.0 - -1.0) * 255.0 == 510.0;
  }

  /** `ListImage` on the state: the image goes at the cursor, which moves past it. */
  function Register(d: Drawing, s: Size): (r: Drawing)
    ensures |r.images| == |d.images| + 1
  {
    d.(images := d.images + [ImageInfo(d.offset, s)], offset := d.offset + ByteLen(s))
  }

  /** `n` registrations of images of size `s` in a row. */
  function RegisterRun(d: Drawing, s: Size, n: nat): Drawing
    decreases n
  {
    if n == 0 then d else Register(RegisterRun(d, s, n - 1), s)
  }

  /** A run of registrations appends the run's entries and moves the cursor past them; nothing else changes. */
  lemma {:induction false} RegisterRunSpec(d: Drawing, s: Size, n: nat)
    ensures RegisterRun(d, s, n)
      == d.(images := d.images + Run(d.offset, s, n), offset := d.offset + RunBytes(s, n))
    decreases n
  {
    if n == 0 {
      assert d.images + [] == d.images;
    } else {
      RegisterRunSpec(d, s, n - 1);
      RunStep(d.images, d.offset, s, n - 1);
    }
  }

  /** From a fresh registry, two 16x16 images get IDs 0 and 1 at the flash base and 512 bytes further on. */
  lemma TwoImagesExample(d: Drawing)
    requires d.images == [] && d.offset == ImageBase
    ensures var d' := Register(Register(d, Size(16, 16)), Size(16, 16));
      d'.images == [ImageInfo(2097152, Size(16, 16)), ImageInfo(2097152 + 512, Size(16, 16))]
      && d'.offset == 2097152 + 1024
  {
  }

  /** The registry is laid out from the flash base and every font names registered images only. */
  predicate Consistent(d: Drawing) {
    && Laid(d.images, d.offset)
    && forall i :: 0 <= i < |d.fonts| ==> FontFits(d.fonts[i], d.images)
  }

  /** Adding a font that names registered images only keeps the state consistent. */
  lemma AddFontConsistent(d: Drawing, font: map<char, nat>)
    requires Consistent(d) && FontFits(font, d.images)
    ensures Consistent(d.(fonts := d.fonts + [font]))
  {
    var fonts := d.fonts + [font];
    forall i | 0 <= i < |fonts| ensures FontFits(fonts[i], d.images) {
      if i < |d.fonts| {
        assert fonts[i] == d.fonts[i];
      }
    }
  }

  /** Where the glyphs of `text` in font `fontId` go, from `origin`, on the screen `d` describes. */
  function TextLayout(d: Drawing, fontId: nat, origin: Pen, text: string): seq<Glyph>
    requires fontId < |d.fonts| && FontFits(d.fonts[fontId], d.images)
  {
    var screen := Screen(d.orientation, d.standardWidth, d.standardHeight);
    Place(d.fonts[fontId], d.images, screen.0, screen.1, origin, text).0
  }

  /** The reader's loop over one chunk: byte by byte, a line feed closes a stripped line. */
  method ScanChunk(buf: string, data: string) returns (responses: seq<string>, pending: string)
    ensures ScanState(responses, pending) == Scan(buf, data)
  {
    responses, pending := [], buf;
    for i := 0 to |data|
      invariant ScanState(responses, pending) == Scan(buf, data[..i])
    {
      var c := data[i];
      if c == LF {
        responses := responses + [Strip(pending)];
        pending := [];
      } else {
        pending := pending + [c];
      }
      ScanStep(buf, data, i);
    }
    assert data[..|data|] == data;
  }

  /**
    Sending the batches of `done + rest`, where `done` is whole batches
    that went through: the one to sixteen commands of `rest` go out as one
    last transmission.
   */
  lemma FlushStep(ch: Channel, done: seq<string>, rest: seq<string>)
    requires |done| % BatchSize == 0 && 0 < |rest| <= BatchSize
    requires SendAll(ch, Batches(done)).1
    ensures SendAll(ch, Batches(done + rest)) == Send(SendAll(ch, Batches(done)).0, Concat(rest))
  {
    BatchesTail(done, rest);
    SendAllSnoc(ch, Batches(done), Concat(rest));
  }

  /** A transmission that goes unanswered ends the drawing: the batches after it are never sent. */
  lemma StopsEarly(ch: Channel, all: seq<string>, done: seq<string>)
    requires |done| % BatchSize == 0 && |done| <= |all| && all[..|done|] == done
    requires !SendAll(ch, Batches(done)).1
    ensures SendAll(ch, Batches(all)) == SendAll(ch, Batches(done))
  {
    assert all == done + all[|done|..];
    BatchesAppend(done, all[|done|..]);
    SendAllStopsAtFailure(ch, Batches(done), Batches(all[|done|..]));
  }

  /**
    Drawing a text stops at the first unanswered transmission: when the
    commands of its first `k` characters fill whole batches and those
    batches end unanswered, sending the batches of the whole text ends the
    same way.
   */
  lemma TextStopsEarly(font: map<char, nat>, images: seq<ImageInfo>, lcdW: int, lcdH: int, transparent: int,
                       origin: Pen, text: string, k: nat, ch: Channel, done: seq<string>)
    requires FontFits(font, images) && k <= |text|
    requires done == EmitAll(font, images, lcdW, lcdH, transparent, Drawn(origin, []), text[..k]).cmds
    requires |done| % BatchSize == 0 && !SendAll(ch, Batches(done)).1
    ensures SendAll(ch, Batches(TextCommands(font, images, lcdW, lcdH, origin, text, transparent))) == SendAll(ch, Batches(done))
  {
    EmitAllPlace(font, images, lcdW, lcdH, transparent, origin, text[..k]);
    CommandsPrefix(font, images, lcdW, lcdH, origin, text, k, transparent);
    StopsEarly(ch, TextCommands(font, images, lcdW, lcdH, origin, text, transparent), done);
  }

  /**
    When every transmission is answered, drawing `n` glyph commands writes
    `ceil(n / 16)` command lines, each a batch of commands followed by CR LF,
    and those batches carry the commands in order; no glyph means no write.
   */
  lemma BatchedWrites(ch: Channel, cmds: seq<string>)
    requires SendAll(ch, Batches(cmds)).1
    ensures SendAll(ch, Batches(cmds)).0.sent == ch.sent + Lines(Batches(cmds))
    ensures |SendAll(ch, Batches(cmds)).0.sent| == |ch.sent| + (|cmds| + BatchSize - 1) / BatchSize
    ensures Concat(Batches(cmds)) == Concat(cmds)
    ensures cmds == [] ==> SendAll(ch, Batches(cmds)).0 == ch
  {
    SendAllWritesAll(ch, Batches(cmds));
    BatchesCount(cmds);
    BatchesConcat(cmds);
  }

  /** The acknowledgement and status after the lines `responses`: any `OK` acknowledges, the last line is the status. */
  method Summarize(acked0: bool, responses: seq<string>) returns (acked: bool, last: string)
    requires responses != []
    ensures acked == (acked0 || Ack in responses)
    ensures last == Last(responses)
  {
    acked := acked0;
    last := responses[0];
    for j := 0 to |responses|
      invariant acked == (acked0 || Ack in responses[..j])
      invariant j > 0 ==> last == responses[j - 1]
    {
      if responses[j] == Ack {
        acked := true;
      }
      last := responses[j];
      assert responses[..j + 1] == responses[..j] + [responses[j]];
    }
    assert responses[..|responses|] == responses;
  }

  class SunLCD {
    /** Set when a received line was `OK` since the last command was written. */
    var ok: bool
    /** The last line received since the last command was written. */
    var responseBody: string
    /** Bytes received after the last line feed. */
    var buf: string
    /** The chunks the port will deliver, one per poll. */
    var incoming: seq<string>
    /** Everything written to the port, one entry per write. */
    var sent: seq<string>
    var cursor: Pen
    var imgList: seq<ImageInfo>
    /** Where the next registered image goes in flash. */
    var imgOffset: int
    var fontList: seq<map<char, nat>>
    var currentOrientation: C.ScreenOrientation
    var standardWidth: int
    var standardHeight: int
    var baudrate: int

    /**
      The pending bytes hold no line feed, the image registry is laid out
      from the flash base, and every font names registered images only.
     */
    predicate Valid()
      reads this
    {
      LF !in buf && Consistent(State())
    }

    /** The serial link's state. */
    function Chan(): Channel
      reads this
    {
      Channel(buf, ok, responseBody, incoming, sent)
    }

    /** Everything else. */
    function State(): Drawing
      reads this
    {
      Drawing(cursor, imgList, imgOffset, fontList, currentOrientation, standardWidth, standardHeight, baudrate)
    }

    /**
      Opens a session on a `width` by `height` display whose port will
      deliver `incoming`: the state starts empty, a bare line terminator
      flushes any garbage, the display is reset and, when the reset is
      answered, the text background is set to black.
     */
    constructor (incoming: seq<string>, width: int := 240, height: int := 320)
      ensures Valid()
      ensures State() == Drawing(Pen(0, 0), [], ImageBase, [], C.Vertical, width, height, DefaultBaudrate)
      ensures var c0 := Channel([], false, [], incoming, [CRLF]);
        var c1 := Send(c0, C.Encode(C.Reset));
        Chan() == if c1.1 then Send(c1.0, C.Encode(C.Background(0))).0 else c1.0
    {
      ok := false;
      responseBody := [];
      buf := [];
      this.incoming := incoming;
      sent := [CRLF];
      cursor := Pen(0, 0);
      imgList := [];
      imgOffset := ImageBase;
      fontList := [];
      currentOrientation := C.Vertical;
      standardWidth := width;
      standardHeight := height;
      baudrate := DefaultBaudrate;
      new;
      var reset := Reset();
      if reset {
        var _ := Background(0);
      }
    }

    /**
      One poll of the port: the waiting chunk is read byte by byte, each
      line feed closing a stripped line; when lines arrived, an `OK` among
      them sets the acknowledgement and the last one becomes the status.
     */
    method ReadBack() returns (r: bool)
      requires Valid()
      modifies this
      ensures Valid() && State() == old(State())
      ensures (Chan(), r) == Poll(old(Chan()))
    {
      var data := Chunk(incoming, 0);
      var responses, pending := ScanChunk(buf, data);
      ScanPendingFree(buf, data);
      PollOutcome(Chan(), responses, pending);
      incoming := Drop(incoming, 1);
      buf := pending;
      r := responses != [];
      if r {
        ok, responseBody := Summarize(ok, responses);
      }
    }

    /**
      Writes `cmd` with CR LF after clearing the acknowledgement and status,
      then polls up to ten times; answers true on the first poll that brings
      a line.
     */
    method SendSerial(cmd: string) returns (r: bool)
      requires Valid()
      modifies this
      ensures Valid() && State() == old(State())
      ensures (Chan(), r) == Send(old(Chan()), cmd)
    {
      ok := false;
      responseBody := [];
      sent := sent + [cmd + CRLF];
      ghost var start := Chan();
      var i: nat := PollBudget;
      while i > 0
        invariant Valid() && State() == old(State())
        invariant PollLoop(Chan(), i) == PollLoop(start, PollBudget)
      {
        i := i - 1;
        var received := ReadBack();
        if received {
          return true;
        }
      }
      return false;
    }

    /** `RESET`. */
    method Reset() returns (r: bool)
      requires Valid()
      modifies this
      ensures Valid() && State() == old(State())
      ensures (Chan(), r) == Send(old(Chan()), C.Encode(C.Reset))
    {
      r := SendSerial(C.Encode(C.Reset));
    }

    /** `VER`: the display shows its version. */
    method Version() returns (r: bool)
      requires Valid()
      modifies this
      ensures Valid() && State() == old(State())
      ensures (Chan(), r) == Send(old(Chan()), C.Encode(C.Version))
    {
      r := SendSerial(C.Encode(C.Version));
    }

    /** `BPS(rate)`; the port then switches to the new rate whatever the answer. */
    method Baudrate(rate: int) returns (r: bool)
      requires Valid()
      modifies this
      ensures Valid() && State() == old(State()).(baudrate := rate)
      ensures (Chan(), r) == Send(old(Chan()), C.Encode(C.Baudrate(rate)))
    {
      r := SendSerial(C.Encode(C.Baudrate(rate)));
      baudrate := rate;
    }

    /** `CLR(color)`. */
    method Clear(color: int := 0) returns (r: bool)
      requires Valid()
      modifies this
      ensures Valid() && State() == old(State())
      ensures (Chan(), r) == Send(old(Chan()), C.Encode(C.Clear(color)))
    {
      r := SendSerial(C.Encode(C.Clear(color)));
    }

    /** `LCDON(0)` for a zero (or false) argument, `LCDON(1)` for anything else. */
    method On(onOff: int) returns (r: bool)
      requires Valid()
      modifies this
      ensures Valid() && State() == old(State())
      ensures (Chan(), r) == Send(old(Chan()), C.Encode(C.Power(onOff != 0)))
    {
      if onOff == 0 {
        r := SendSerial(C.Encode(C.Power(false)));
      } else {
        r := SendSerial(C.Encode(C.Power(true)));
      }
    }

    /** `FSIMG(address,x,y,w,h,transparent)`: blit an image from flash. */
    method RawImage(address: int, position: Pen, size: Size, transparent: int := 0) returns (r: bool)
      requires Valid()
      modifies this
      ensures Valid() && State() == old(State())
      ensures (Chan(), r) == Send(old(Chan()), C.Encode(C.RawImage(address, position.x, position.y, size.w, size.h, transparent)))
    {
      r := SendSerial(C.Encode(C.RawImage(address, position.x, position.y, size.w, size.h, transparent)));
    }

    /**
      `DIR(0)` or `DIR(1)`, recording the orientation before sending; any
      other argument is refused without sending.
     */
    method Orientation(orientation: int) returns (r: bool)
      requires Valid()
      modifies this
      ensures Valid()
      ensures orientation == 0 ==>
        State() == old(State()).(orientation := C.Vertical)
        && (Chan(), r) == Send(old(Chan()), C.Encode(C.Direction(C.Vertical)))
      ensures orientation == 1 ==>
        State() == old(State()).(orientation := C.Horizontal)
        && (Chan(), r) == Send(old(Chan()), C.Encode(C.Direction(C.Horizontal)))
      ensures orientation != 0 && orientation != 1 ==> !r && Chan() == old(Chan()) && State() == old(State())
    {
      if orientation == 0 {
        currentOrientation := C.Vertical;
        r := SendSerial(C.Encode(C.Direction(C.Vertical)));
      } else if orientation == 1 {
        currentOrientation := C.Horizontal;
        r := SendSerial(C.Encode(C.Direction(C.Horizontal)));
      } else {
        r := false;
      }
    }

    /**
      `BL(byte)` for a brightness level; `None` stands for an argument that
      is not a number, which is refused without sending.
     */
    method Brightness(level: Option<real>) returns (r: bool)
      requires Valid()
      modifies this
      ensures Valid() && State() == old(State())
      ensures level.None? ==> !r && Chan() == old(Chan())
      ensures level.Some? ==> (Chan(), r) == Send(old(Chan()), C.Encode(C.Backlight(BacklightLevel(level.value))))
    {
      if level.None? {
        return false;
      }
      var blVal := Truncate((1.0 - level.value) * 255.0);
      if blVal < 0 {
        blVal := 0;
      }
      if blVal > 255 {
        blVal := 255;
      }
      r := SendSerial(C.Encode(C.Backlight(blVal)));
    }

    /** `PS(x,y,color)`: one pixel. */
    method Point(location: Pen, color: int := 15) returns (r: bool)
      requires Valid()
      modifies this
      ensures Valid() && State() == old(State())
      ensures (Chan(), r) == Send(old(Chan()), C.Encode(C.Point(location.x, location.y, color)))
    {
      r := SendSerial(C.Encode(C.Point(location.x, location.y, color)));
    }

    /** `PL(x0,y0,x1,y1,color)`: a line. */
    method Line(origin: Pen, destination: Pen, color: int := 15) returns (r: bool)
      requires Valid()
      modifies this
      ensures Valid() && State() == old(State())
      ensures (Chan(), r) == Send(old(Chan()), C.Encode(C.Line(origin.x, origin.y, destination.x, destination.y, color)))
    {
      r := SendSerial(C.Encode(C.Line(origin.x, origin.y, destination.x, destination.y, color)));
    }

    /** `BOX(x0,y0,x1,y1,color)`: a hollow box. */
    method HollowBox(topLeft: Pen, bottomRight: Pen, color: int := 15) returns (r: bool)
      requires Valid()
      modifies this
      ensures Valid() && State() == old(State())
      ensures (Chan(), r) == Send(old(Chan()), C.Encode(C.HollowBox(topLeft.x, topLeft.y, bottomRight.x, bottomRight.y, color)))
    {
      r := SendSerial(C.Encode(C.HollowBox(topLeft.x, topLeft.y, bottomRight.x, bottomRight.y, color)));
    }

    /** `BOXF(x0,y0,x1,y1,color)`: a filled box. */
    method FilledBox(topLeft: Pen, bottomRight: Pen, color: int := 15) returns (r: bool)
      requires Valid()
      modifies this
      ensures Valid() && State() == old(State())
      ensures (Chan(), r) == Send(old(Chan()), C.Encode(C.FilledBox(topLeft.x, topLeft.y, bottomRight.x, bottomRight.y, color)))
    {
      r := SendSerial(C.Encode(C.FilledBox(topLeft.x, topLeft.y, bottomRight.x, bottomRight.y, color)));
    }

    /** `CIR(x,y,radius,color)`: a hollow circle. */
    method HollowCircle(center: Pen, radius: int, color: int := 15) returns (r: bool)
      requires Valid()
      modifies this
      ensures Valid() && State() == old(State())
      ensures (Chan(), r) == Send(old(Chan()), C.Encode(C.HollowCircle(center.x, center.y, radius, color)))
    {
      r := SendSerial(C.Encode(C.HollowCircle(center.x, center.y, radius, color)));
    }

    /** `CIRF(x,y,radius,color)`: a filled circle. */
    method FilledCircle(center: Pen, radius: int, color: int := 15) returns (r: bool)
      requires Valid()
      modifies this
      ensures Valid() && State() == old(State())
      ensures (Chan(), r) == Send(old(Chan()), C.Encode(C.FilledCircle(center.x, center.y, radius, color)))
    {
      r := SendSerial(C.Encode(C.FilledCircle(center.x, center.y, radius, color)));
    }

    /** `SBC(color)`: the background colour of text. */
    method Background(color: int) returns (r: bool)
      requires Valid()
      modifies this
      ensures Valid() && State() == old(State())
      ensures (Chan(), r) == Send(old(Chan()), C.Encode(C.Background(color)))
    {
      r := SendSerial(C.Encode(C.Background(color)));
    }

    /** `DCV16(x,y,'text',color)`: text in the built-in 16-pixel font. */
    method TextSmall(location: Pen, text: string, color: int := 15) returns (r: bool)
      requires Valid()
      modifies this
      ensures Valid() && State() == old(State())
      ensures (Chan(), r) == Send(old(Chan()), C.Encode(C.Text(C.Font16, location.x, location.y, text, color)))
    {
      r := SendSerial(C.Encode(C.Text(C.Font16, location.x, location.y, text, color)));
    }

    /** `DCV24(x,y,'text',color)`: text in the built-in 24-pixel font. */
    method TextMedium(location: Pen, text: string, color: int := 15) returns (r: bool)
      requires Valid()
      modifies this
      ensures Valid() && State() == old(State())
      ensures (Chan(), r) == Send(old(Chan()), C.Encode(C.Text(C.Font24, location.x, location.y, text, color)))
    {
      r := SendSerial(C.Encode(C.Text(C.Font24, location.x, location.y, text, color)));
    }

    /** `DCV32(x,y,'text',color)`: text in the built-in 32-pixel font. */
    method TextLarge(location: Pen, text: string, color: int := 15) returns (r: bool)
      requires Valid()
      modifies this
      ensures Valid() && State() == old(State())
      ensures (Chan(), r) == Send(old(Chan()), C.Encode(C.Text(C.Font32, location.x, location.y, text, color)))
    {
      r := SendSerial(C.Encode(C.Text(C.Font32, location.x, location.y, text, color)));
    }

    /** Moves the drawing cursor without drawing. */
    method MoveTo(position: Pen) returns (r: bool)
      modifies this
      ensures r && Chan() == old(Chan()) && State() == old(State()).(cursor := position)
    {
      cursor := position;
      r := true;
    }

    /**
      Draws a line from the cursor to `position`; the cursor moves there
      only when the line command was answered.
     */
    method LineTo(position: Pen, color: int := 15) returns (r: bool)
      requires Valid()
      modifies this
      ensures Valid()
      ensures (Chan(), r) == Send(old(Chan()), C.Encode(C.Line(old(cursor).x, old(cursor).y, position.x, position.y, color)))
      ensures State() == if r then old(State()).(cursor := position) else old(State())
    {
      var drawn := Line(cursor, position, color);
      if !drawn {
        return false;
      }
      r := MoveTo(position);
    }

    /**
      Registers an image of `size` at the current flash cursor and returns
      its ID, the index of its entry; the cursor moves past the image.
     */
    method ListImage(size: Size) returns (id: nat)
      requires Valid()
      modifies this
      ensures Valid() && Chan() == old(Chan())
      ensures id == |old(imgList)|
      ensures State() == Register(old(State()), size)
    {
      RegisterKeepsLaid(imgList, imgOffset, size);
      var byteLen := size.w * size.h * 2;
      imgList := imgList + [ImageInfo(imgOffset, size)];
      imgOffset := imgOffset + byteLen;
      id := |imgList| - 1;
    }

    /**
      Registers a font: one image of `charSize` per character of the list
      (the printable ASCII characters when none is given), and a map from
      each character to its image; returns the font's ID.
     */
    method ListFont(charSize: Size, charList: string := DefaultCharList) returns (id: nat)
      requires Valid()
      modifies this
      ensures Valid() && Chan() == old(Chan())
      ensures id == |old(fontList)|
      ensures State() == old(State()).(images := old(imgList) + Run(old(imgOffset), charSize, |charList|),
                                       offset := old(imgOffset) + RunBytes(charSize, |charList|),
                                       fonts := old(fontList) + [FontMap(charList, |old(imgList)|)])
    {
      RegisterRunSpec(State(), charSize, |charList|);
      var thisFont := ListGlyphs(charSize, charList);
      AddFontConsistent(State(), thisFont);
      fontList := fontList + [thisFont];
      id := |fontList| - 1;
    }

    /**
      The loop of `ListFont`: registers one image of `charSize` per
      character of `chars`, in order, and maps each character to the ID of
      its image (the last one when a character repeats).
     */
    method ListGlyphs(charSize: Size, chars: string) returns (font: map<char, nat>)
      requires Valid()
      modifies this
      ensures Valid() && Chan() == old(Chan())
      ensures State() == RegisterRun(old(State()), charSize, |chars|)
      ensures font == FontMap(chars, |old(imgList)|)
      ensures FontFits(font, imgList)
    {
      ghost var first := |imgList|;
      font := map[];
      for k := 0 to |chars|
        invariant Valid() && Chan() == old(Chan())
        invariant State() == RegisterRun(old(State()), charSize, k)
        invariant |imgList| == first + k
        invariant font == FontMap(chars[..k], first)
      {
        var imageId := ListImage(charSize);
        FontMapStep(chars, first, k);
        font := font[chars[k] := imageId];
      }
      assert chars[..|chars|] == chars;
      FontMapRange(chars, first);
    }

    /**
      Draws a registered image at `position`. An ID that is not the index
      of a registered image is refused without sending.
     */
    method ShowImage(imageId: int, position: Pen, transparent: int := 0) returns (r: bool)
      requires Valid()
      modifies this
      ensures Valid() && State() == old(State())
      ensures !(0 <= imageId < |imgList|) ==> !r && Chan() == old(Chan())
      ensures 0 <= imageId < |imgList| ==>
        var info := imgList[imageId];
        (Chan(), r) == Send(old(Chan()), C.Encode(C.RawImage(info.address, position.x, position.y, info.size.w, info.size.h, transparent)))
    {
      var found := CheckedLookup(imageId, |imgList|);
      if found.None? {
        return false;
      }
      var info := imgList[found.value];
      r := RawImage(info.address, position, info.size, transparent);
    }

    /**
      Draws `text` with the image font `fontId` from `position`: one image
      blit per character the font has, the pen moving and wrapping as the
      layout says, the blits sent sixteen to a transmission; an unknown
      font ID draws nothing. True when every transmission was answered.
     */
    method TextFont(fontId: int, position: Pen, text: string, transparent: int := 0) returns (r: bool)
      requires Valid()
      modifies this
      ensures Valid() && State() == old(State())
      ensures !(0 <= fontId < |fontList|) ==> !r && Chan() == old(Chan())
      ensures 0 <= fontId < |fontList| ==>
        (Chan(), r) == SendAll(old(Chan()), Batches(GlyphCommands(TextLayout(old(State()), fontId, position, text), transparent)))
    {
      var found := CheckedLookup(fontId, |fontList|);
      if found.None? {
        return false;
      }
      var thisFont := fontList[found.value];
      var lcdW, lcdH;
      if currentOrientation == C.Horizontal {
        lcdW, lcdH := standardHeight, standardWidth;
      } else {
        lcdW, lcdH := standardWidth, standardHeight;
      }
      r := DrawGlyphs(thisFont, lcdW, lcdH, position, text, transparent);
    }

    /**
      The loop of `TextFont`: builds the blit commands at the running pen
      and sends them every sixteen, then sends whatever is left.
     */
    method DrawGlyphs(font: map<char, nat>, lcdW: int, lcdH: int, origin: Pen, text: string, transparent: int)
      returns (r: bool)
      requires Valid() && FontFits(font, imgList)
      modifies this
      ensures Valid() && State() == old(State())
      ensures (Chan(), r) == SendAll(old(Chan()), Batches(TextCommands(font, imgList, lcdW, lcdH, origin, text, transparent)))
    {
      ghost var start := Drawn(origin, []);
      ghost var done: seq<string> := [];
      ghost var pending: seq<string> := [];
      var x, y := origin.x, origin.y;
      var i := 0;
      var sendStr := "";
      for j := 0 to |text|
        invariant Valid() && State() == old(State())
        invariant Drawn(Pen(x, y), done + pending) == EmitAll(font, imgList, lcdW, lcdH, transparent, start, text[..j])
        invariant |done| % BatchSize == 0 && |pending| == i < BatchSize
        invariant sendStr == Concat(pending) && (|sendStr| == 0 <==> i == 0)
        invariant SendAll(old(Chan()), Batches(done)) == (Chan(), true)
      {
        EmitAllStep(font, imgList, lcdW, lcdH, transparent, start, text, j);
        var added;
        x, y, sendStr, added, pending := AddChar(font, imgList, lcdW, lcdH, transparent, text[j], x, y, sendStr, done, pending);
        if added {
          i := i + 1;
          if i >= BatchSize {
            r := FlushBatch(old(Chan()), done, pending, sendStr);
            WholeBatches(done, pending);
            if !r {
              TextStopsEarly(font, imgList, lcdW, lcdH, transparent, origin, text, j + 1, old(Chan()), done + pending);
              return;
            }
            done := done + pending;
            pending := [];
            sendStr := "";
            i := 0;
          }
        }
      }
      assert text[..|text|] == text;
      EmitAllPlace(font, imgList, lcdW, lcdH, transparent, origin, text);
      if |sendStr| > 0 {
        r := FlushBatch(old(Chan()), done, pending, sendStr);
      } else {
        assert done + pending == done;
        r := true;
      }
    }

    /**
      One character of the text: when the font has it, its blit command at
      the pen joins the buffer and the pen advances; otherwise nothing
      changes.
     */
    static method AddChar(font: map<char, nat>, images: seq<ImageInfo>, lcdW: int, lcdH: int, transparent: int,
                          c: char, x0: int, y0: int, sendStr0: string,
                          ghost done: seq<string>, ghost pending0: seq<string>)
      returns (x: int, y: int, sendStr: string, added: bool, ghost pending: seq<string>)
      requires FontFits(font, images) && sendStr0 == Concat(pending0)
      ensures Drawn(Pen(x, y), done + pending) == Emit(font, images, lcdW, lcdH, transparent, Drawn(Pen(x0, y0), done + pending0), c)
      ensures sendStr == Concat(pending)
      ensures added == (c in font)
      ensures added ==> |pending| == |pending0| + 1 && |sendStr| > 0
      ensures !added ==> pending == pending0 && sendStr == sendStr0
    {
      if c in font {
        var info := images[font[c]];
        x, y, sendStr, pending := AddGlyph(info, lcdW, lcdH, transparent, x0, y0, sendStr0, pending0);
        ghost var cmd := GlyphCommand(Glyph(info.address, x0, y0, info.size), transparent);
        assert done + (pending0 + [cmd]) == (done + pending0) + [cmd];
        added := true;
      } else {
        x, y, sendStr, added, pending := x0, y0, sendStr0, false, pending0;
      }
    }

    /** Buffers the blit command for the image `info` at the pen and advances the pen past it. */
    static method AddGlyph(info: ImageInfo, lcdW: int, lcdH: int, transparent: int, x0: int, y0: int,
                           sendStr0: string, ghost pending0: seq<string>)
      returns (x: int, y: int, sendStr: string, ghost pending: seq<string>)
      requires sendStr0 == Concat(pending0)
      ensures pending == pending0 + [GlyphCommand(Glyph(info.address, x0, y0, info.size), transparent)]
      ensures sendStr == Concat(pending) && |sendStr| > 0
      ensures Pen(x, y) == Advance(Pen(x0, y0), info.size, lcdW, lcdH)
    {
      var cmd := GlyphCommand(Glyph(info.address, x0, y0, info.size), transparent);
      ConcatSnoc(pending0, cmd);
      sendStr := sendStr0 + cmd;
      pending := pending0 + [cmd];
      x, y := NextPen(x0, y0, info.size, lcdW, lcdH);
    }

    /** The pen after a glyph of size `s`: right by its width, wrapping to the next line and then to the top. */
    static method NextPen(x0: int, y0: int, s: Size, lcdW: int, lcdH: int) returns (x: int, y: int)
      ensures Pen(x, y) == Advance(Pen(x0, y0), s, lcdW, lcdH)
    {
      x, y := x0 + s.w, y0;
      if x >= lcdW - s.w {
        x := 0;
        y := y + s.h;
        if y >= lcdH - s.h {
          y := 0;
        }
      }
    }

    /**
      Sends the commands buffered since the last transmission, after the
      whole batches `done` went through.
     */
    method FlushBatch(ghost ch0: Channel, ghost done: seq<string>, ghost pending: seq<string>, sendStr: string)
      returns (r: bool)
      requires Valid()
      requires |done| % BatchSize == 0 && 0 < |pending| <= BatchSize && sendStr == Concat(pending)
      requires SendAll(ch0, Batches(done)) == (Chan(), true)
      modifies this
      ensures Valid() && State() == old(State())
      ensures (Chan(), r) == SendAll(ch0, Batches(done + pending))
    {
      FlushStep(ch0, done, pending);
      r := SendSerial(sendStr);
    }
  }
}
