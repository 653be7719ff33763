/**
  Text drawn with an image font: each character the font knows becomes one
  image-blit command at a running pen position, the pen moving right by the
  glyph width, wrapping to the next line near the right edge and back to
  the top near the bottom edge. The commands go out in batches of sixteen.
 */
module Layout {
  import opened Memory
  import opened Commands
  import opened Wrappers

  /** A pen (or cursor) position in pixels. */
  datatype Pen = Pen(x: int, y: int)

  /** One glyph to draw: the image's flash address, where it goes and its size. */
  datatype Glyph = Glyph(address: int, x: int, y: int, size: Size)

  /** The logical screen as (width, height): a horizontal display swaps the standard dimensions. */
  function Screen(o: ScreenOrientation, standardWidth: int, standardHeight: int): (int, int)
  {
    if o == Horizontal then (standardHeight, standardWidth) else (standardWidth, standardHeight)
  }

  /**
    The pen after drawing a glyph of size `s` on a `lcdW` by `lcdH` screen:
    it moves right by the glyph width; when it lands at or past the last
    full glyph column it goes back to the left edge one glyph height lower,
    and only then, when that is at or past the last full glyph row, back to
    the top.
   */
  function Advance(p: Pen, s: Size, lcdW: int, lcdH: int): Pen {
    var x := p.x + s.w;
    if x >= lcdW - s.w then
      var y := p.y + s.h;
      if y >= lcdH - s.h then Pen(0, 0) else Pen(0, y)
    else Pen(x, p.y)
  }

  /** Every ID the font names is a registered image. */
  predicate FontFits(font: map<char, nat>, images: seq<ImageInfo>) {
    forall c :: c in font ==> font[c] < |images|
  }

  /** The characters of `text` that the font has, in order. */
  function Known(font: map<char, nat>, text: string): (r: string)
    ensures |r| <= |text|
    ensures forall k :: 0 <= k < |r| ==> r[k] in font
    decreases |text|
  {
    if text == [] then []
    else
      var init := Known(font, text[..|text| - 1]);
      if text[|text| - 1] in font then init + [text[|text| - 1]] else init
  }

  /**
    The glyphs of `text` from the pen position `origin`, and where the pen
    ends: characters the font lacks are skipped and do not move the pen.
   */
  function Place(font: map<char, nat>, images: seq<ImageInfo>, lcdW: int, lcdH: int, origin: Pen, text: string)
    : (seq<Glyph>, Pen)
    requires FontFits(font, images)
    decreases |text|
  {
    if text == [] then ([], origin)
    else
      var (gs, p) := Place(font, images, lcdW, lcdH, origin, text[..|text| - 1]);
      var c := text[|text| - 1];
      if c in font then
        var info := images[font[c]];
        (gs + [Glyph(info.address, p.x, p.y, info.size)], Advance(p, info.size, lcdW, lcdH))
      else (gs, p)
  }

  /**
    One glyph per known character, in order: glyph `k` shows the image the
    font maps the `k`-th known character to.
   */
  lemma {:induction false} PlaceShowsKnown(font: map<char, nat>, images: seq<ImageInfo>, lcdW: int, lcdH: int,
                                           origin: Pen, text: string)
    requires FontFits(font, images)
    ensures var gs := Place(font, images, lcdW, lcdH, origin, text).0;
      var known := Known(font, text);
      |gs| == |known|
      && forall k :: 0 <= k < |gs| ==>
        gs[k].address == images[font[known[k]]].address && gs[k].size == images[font[known[k]]].size
    decreases |text|
  {
    if text != [] {
      PlaceShowsKnown(font, images, lcdW, lcdH, origin, text[..|text| - 1]);
    }
  }

  /** Characters the font lacks change nothing: placing the text is placing its known characters. */
  lemma {:induction false} PlaceSkipsUnknown(font: map<char, nat>, images: seq<ImageInfo>, lcdW: int, lcdH: int,
                                             origin: Pen, text: string)
    requires FontFits(font, images)
    ensures Place(font, images, lcdW, lcdH, origin, text) == Place(font, images, lcdW, lcdH, origin, Known(font, text))
    decreases |text|
  {
    if text != [] {
      var init := text[..|text| - 1];
      var c := text[|text| - 1];
      PlaceSkipsUnknown(font, images, lcdW, lcdH, origin, init);
      var k := Known(font, init);
      if c in font {
        assert (k + [c])[..|k + [c]| - 1] == k;
      }
    }
  }

  /** Placing a longer text only appends glyphs: the glyphs of a prefix come first. */
  lemma {:induction false} PlacePrefix(font: map<char, nat>, images: seq<ImageInfo>, lcdW: int, lcdH: int,
                                       origin: Pen, text: string, k: nat)
    requires FontFits(font, images) && k <= |text|
    ensures var short := Place(font, images, lcdW, lcdH, origin, text[..k]).0;
      var long := Place(font, images, lcdW, lcdH, origin, text).0;
      |short| <= |long| && long[..|short|] == short
    decreases |text| - k
  {
    if k < |text| {
      var init := text[..|text| - 1];
      assert init[..k] == text[..k];
      PlacePrefix(font, images, lcdW, lcdH, origin, init, k);
    } else {
      assert text[..k] == text;
    }
  }

  /**
    How many glyphs of width `w` fit on a line before the wrap, starting at
    the left edge: the least `m >= 1` with `m * w` at or past `span`, where
    `span` is the screen width less one glyph.
   */
  function PerLine(span: int, w: int): (m: nat)
    requires w > 0
    ensures m >= 1 && m * w >= span
    ensures forall q :: 1 <= q < m ==> q * w < span
  {
    if span <= w then 1
    else
      var m := (span + w - 1) / w;
      assert m * w >= span && (m - 1) * w < span by {
        DivBounds(span + w - 1, w);
      }
      assert forall q :: 1 <= q < m ==> q * w < span by {
        forall q | 1 <= q < m ensures q * w < span {
          MulMono(q, m - 1, w);
        }
      }
      m
  }

  lemma DivBounds(a: int, w: int)
    requires w > 0
    ensures (a / w) * w <= a < (a / w) * w + w
  {
  }

  lemma MulMono(p: int, q: int, w: int)
    requires p <= q && w > 0
    ensures p * w <= q * w
  {
  }

  /** Division by `P` after one more step: the remainder either grows by one or wraps to zero. */
  lemma DivModStep(n: nat, P: nat)
    requires P >= 1
    ensures n % P < P - 1 ==> (n + 1) % P == n % P + 1 && (n + 1) / P == n / P
    ensures n % P == P - 1 ==> (n + 1) % P == 0 && (n + 1) / P == n / P + 1
  {
    var q, r := n / P, n % P;
    assert n == q * P + r;
    if r < P - 1 {
      DivModUnique(n + 1, P, q, r + 1);
    } else {
      assert n + 1 == (q + 1) * P;
      DivModUnique(n + 1, P, q + 1, 0);
    }
  }

  lemma DivModUnique(a: int, P: int, q: int, r: int)
    requires P >= 1 && 0 <= r < P && a == q * P + r
    ensures a / P == q && a % P == r
  {
    var q', r' := a / P, a % P;
    assert a == q' * P + r';
    if q' < q {
      MulMono(q' + 1, q, P);
    } else if q' > q {
      MulMono(q + 1, q', P);
    }
  }

  /** Every glyph the font shows has the size `s`. */
  predicate Uniform(font: map<char, nat>, images: seq<ImageInfo>, s: Size) {
    forall c :: c in font ==> font[c] < |images| && images[font[c]].size == s
  }

  /** Where the `n`-th glyph of a uniform font goes when drawing starts at the top-left corner. */
  function Slot(n: nat, s: Size, lcdW: int, lcdH: int): Pen
    requires s.w > 0 && s.h > 0
  {
    var P := PerLine(lcdW - s.w, s.w);
    var R := PerLine(lcdH - s.h, s.h);
    Pen((n % P) * s.w, ((n / P) % R) * s.h)
  }

  /** From column `col` of row `row` the pen moves one column right, or to the next row, or back to the top. */
  lemma AdvanceGrid(col: nat, row: nat, s: Size, lcdW: int, lcdH: int)
    requires s.w > 0 && s.h > 0
    requires col < PerLine(lcdW - s.w, s.w) && row < PerLine(lcdH - s.h, s.h)
    ensures Advance(Pen(col * s.w, row * s.h), s, lcdW, lcdH)
      == if col + 1 < PerLine(lcdW - s.w, s.w) then Pen((col + 1) * s.w, row * s.h)
         else if row + 1 < PerLine(lcdH - s.h, s.h) then Pen(0, (row + 1) * s.h)
         else Pen(0, 0)
  {
    assert (col + 1) * s.w == col * s.w + s.w;
    assert (row + 1) * s.h == row * s.h + s.h;
  }

  /** From one slot the pen advances to the next. */
  lemma AdvanceSlot(n: nat, s: Size, lcdW: int, lcdH: int)
    requires s.w > 0 && s.h > 0
    ensures Advance(Slot(n, s, lcdW, lcdH), s, lcdW, lcdH) == Slot(n + 1, s, lcdW, lcdH)
  {
    var P := PerLine(lcdW - s.w, s.w);
    var R := PerLine(lcdH - s.h, s.h);
    var line := n / P;
    AdvanceGrid(n % P, line % R, s, lcdW, lcdH);
    DivModStep(n, P);
    if n % P == P - 1 {
      DivModStep(line, R);
    }
  }

  /**
    With a uniform font and drawing from the top-left corner, the `k`-th
    glyph lands in column `k mod P` of row `(k div P) mod R`, where `P`
    glyphs fit on a line and `R` lines on the screen; the pen ends at the
    slot after the last glyph.
   */
  lemma {:induction false} UniformLayout(font: map<char, nat>, images: seq<ImageInfo>, s: Size,
                                         lcdW: int, lcdH: int, text: string)
    requires Uniform(font, images, s) && s.w > 0 && s.h > 0
    ensures var (gs, p) := Place(font, images, lcdW, lcdH, Pen(0, 0), text);
      p == Slot(|gs|, s, lcdW, lcdH)
      && forall k :: 0 <= k < |gs| ==> Pen(gs[k].x, gs[k].y) == Slot(k, s, lcdW, lcdH)
    decreases |text|
  {
    assert FontFits(font, images);
    if text == [] {
      assert Slot(0, s, lcdW, lcdH) == Pen(0, 0);
    } else {
      var init := text[..|text| - 1];
      UniformLayout(font, images, s, lcdW, lcdH, init);
      var (gs, p) := Place(font, images, lcdW, lcdH, Pen(0, 0), init);
      AdvanceSlot(|gs|, s, lcdW, lcdH);
    }
  }

  /** The command that draws one glyph, with its `;` separator. */
  function GlyphCommand(g: Glyph, transparent: int): string {
    Encode(RawImage(g.address, g.x, g.y, g.size.w, g.size.h, transparent)) + ";"
  }

  function GlyphCommands(gs: seq<Glyph>, transparent: int): (r: seq<string>)
    ensures |r| == |gs|
  {
    seq(|gs|, k requires 0 <= k < |gs| => GlyphCommand(gs[k], transparent))
  }

  /** A glyph command reads back as the image blit it draws, followed by its separator. */
  lemma GlyphCommandDecodes(g: Glyph, transparent: int)
    ensures var s := GlyphCommand(g, transparent);
      |s| >= 1 && s[|s| - 1] == ';'
      && Decode(s[..|s| - 1]) == Some(RawImage(g.address, g.x, g.y, g.size.w, g.size.h, transparent))
  {
    var c := RawImage(g.address, g.x, g.y, g.size.w, g.size.h, transparent);
    DecodeEncode(c);
    var s := GlyphCommand(g, transparent);
    assert s[..|s| - 1] == Encode(c);
  }

  /** How many glyph commands go into one transmission. */
  const BatchSize: nat := 16

  /** Commands written one after another. */
  function Concat(cmds: seq<string>): string
    decreases |cmds|
  {
    if cmds == [] then [] else Concat(cmds[..|cmds| - 1]) + cmds[|cmds| - 1]
  }

  /** The transmissions: sixteen commands each, the last one holding the rest. */
  function Batches(cmds: seq<string>): seq<string>
    decreases |cmds|
  {
    if cmds == [] then []
    else if |cmds| <= BatchSize then [Concat(cmds)]
    else [Concat(cmds[..BatchSize])] + Batches(cmds[BatchSize..])
  }

  /** Writing one more command after `cmds`. */
  lemma ConcatSnoc(cmds: seq<string>, cmd: string)
    ensures Concat(cmds + [cmd]) == Concat(cmds) + cmd
  {
    assert (cmds + [cmd])[..|cmds|] == cmds;
  }

  lemma {:induction false} ConcatAppend(a: seq<string>, b: seq<string>)
    ensures Concat(a + b) == Concat(a) + Concat(b)
    decreases |b|
  {
    if b == [] {
      assert a + b == a;
    } else {
      var init, last := b[..|b| - 1], b[|b| - 1];
      assert b == init + [last];
      assert a + b == (a + init) + [last];
      ConcatSnoc(a + init, last);
      ConcatSnoc(init, last);
      ConcatAppend(a, init);
      assert Concat(a) + (Concat(init) + last) == (Concat(a) + Concat(init)) + last;
    }
  }

  /** One command written alone is that command. */
  lemma ConcatSingle(cmd: string)
    ensures Concat([cmd]) == cmd
  {
    assert [cmd][..0] == [];
  }

  /** `n` commands make `ceil(n / 16)` transmissions. */
  lemma {:induction false} BatchesCount(cmds: seq<string>)
    ensures |Batches(cmds)| == (|cmds| + BatchSize - 1) / BatchSize
    decreases |cmds|
  {
    if |cmds| > BatchSize {
      BatchesCount(cmds[BatchSize..]);
    }
  }

  /** Up to sixteen glyphs go out in one transmission; twenty go out in two, sixteen and then four. */
  lemma FlushCounts(cmds: seq<string>)
    ensures 1 <= |cmds| <= BatchSize ==> Batches(cmds) == [Concat(cmds)]
    ensures |cmds| == 20 ==> Batches(cmds) == [Concat(cmds[..16]), Concat(cmds[16..])]
  {
    if |cmds| == 20 {
      assert Batches(cmds[16..]) == [Concat(cmds[16..])];
    }
  }

  /** The transmissions carry every command once, in order. */
  lemma {:induction false} BatchesConcat(cmds: seq<string>)
    ensures Concat(Batches(cmds)) == Concat(cmds)
    decreases |cmds|
  {
    if |cmds| > BatchSize {
      var head, tail := cmds[..BatchSize], cmds[BatchSize..];
      assert cmds == head + tail;
      assert Batches(cmds) == [Concat(head)] + Batches(tail);
      ConcatAppend([Concat(head)], Batches(tail));
      ConcatSingle(Concat(head));
      ConcatAppend(head, tail);
      BatchesConcat(tail);
    } else if cmds != [] {
      ConcatSingle(Concat(cmds));
    }
  }

  /** The end of batch `k` over `n` commands: sixteen further on, or the end of the commands. */
  function BatchEnd(k: nat, n: nat): nat {
    if k * BatchSize + BatchSize <= n then k * BatchSize + BatchSize else n
  }

  /** Transmission `k` holds the commands from `16 k` up to the end of that batch, and at least one of them. */
  lemma {:induction false} BatchAt(cmds: seq<string>, k: nat)
    requires k < |Batches(cmds)|
    ensures k * BatchSize < BatchEnd(k, |cmds|)
    ensures Batches(cmds)[k] == Concat(cmds[k * BatchSize..BatchEnd(k, |cmds|)])
    decreases k
  {
    if |cmds| <= BatchSize {
      assert Batches(cmds) == [Concat(cmds)];
      assert cmds[0..|cmds|] == cmds;
    } else if k == 0 {
      assert cmds[0..BatchSize] == cmds[..BatchSize];
    } else {
      var tail := cmds[BatchSize..];
      assert Batches(cmds)[k] == Batches(tail)[k - 1];
      BatchAt(tail, k - 1);
      var lo, hi := (k - 1) * BatchSize, BatchEnd(k - 1, |tail|);
      assert k * BatchSize == lo + BatchSize;
      assert BatchEnd(k, |cmds|) == hi + BatchSize;
      SliceShift(cmds, BatchSize, lo, hi);
    }
  }

  lemma SliceShift(s: seq<string>, d: nat, lo: nat, hi: nat)
    requires d <= |s| && lo <= hi <= |s| - d
    ensures s[d..][lo..hi] == s[lo + d..hi + d]
  {
  }

  /** Every transmission but the last holds exactly sixteen commands; the last holds one to sixteen. */
  lemma BatchesSizes(cmds: seq<string>)
    ensures forall k :: 0 <= k < |Batches(cmds)| ==>
      k * BatchSize < BatchEnd(k, |cmds|) && Batches(cmds)[k] == Concat(cmds[k * BatchSize..BatchEnd(k, |cmds|)])
  {
    forall k | 0 <= k < |Batches(cmds)|
      ensures k * BatchSize < BatchEnd(k, |cmds|) && Batches(cmds)[k] == Concat(cmds[k * BatchSize..BatchEnd(k, |cmds|)])
    {
      BatchAt(cmds, k);
    }
  }

  /** A run of whole batches followed by more commands splits into their separate batches. */
  lemma {:induction false} BatchesAppend(a: seq<string>, b: seq<string>)
    requires |a| % BatchSize == 0
    ensures Batches(a + b) == Batches(a) + Batches(b)
    decreases |a|
  {
    if a == [] {
      assert a + b == b;
    } else {
      assert |a| >= BatchSize;
      var ab := a + b;
      assert ab[..BatchSize] == a[..BatchSize];
      assert ab[BatchSize..] == a[BatchSize..] + b;
      BatchesAppend(a[BatchSize..], b);
      if |a| == BatchSize {
        assert a[BatchSize..] == [];
        assert a[..BatchSize] == a;
        if b == [] {
          assert ab == a;
        }
      }
    }
  }

  /** Whole batches and one more full batch are whole batches. */
  lemma WholeBatches(done: seq<string>, batch: seq<string>)
    requires |done| % BatchSize == 0 && |batch| == BatchSize
    ensures |done + batch| % BatchSize == 0
  {
  }

  /** Whole batches followed by one to sixteen more commands: the rest goes out as one last transmission. */
  lemma BatchesTail(a: seq<string>, rest: seq<string>)
    requires |a| % BatchSize == 0 && 0 < |rest| <= BatchSize
    ensures Batches(a + rest) == Batches(a) + [Concat(rest)]
  {
    BatchesAppend(a, rest);
  }

  /** One more glyph adds one more command. */
  lemma GlyphCommandsSnoc(gs: seq<Glyph>, g: Glyph, transparent: int)
    ensures GlyphCommands(gs + [g], transparent) == GlyphCommands(gs, transparent) + [GlyphCommand(g, transparent)]
  {
  }

  /** One more character of text: a known one adds its glyph at the pen and advances the pen; an unknown one changes nothing. */
  lemma PlaceStep(font: map<char, nat>, images: seq<ImageInfo>, lcdW: int, lcdH: int, origin: Pen, text: string, j: nat)
    requires FontFits(font, images) && j < |text|
    ensures text[j] !in font ==>
      Place(font, images, lcdW, lcdH, origin, text[..j + 1]) == Place(font, images, lcdW, lcdH, origin, text[..j])
    ensures text[j] in font ==>
      var (gs, p) := Place(font, images, lcdW, lcdH, origin, text[..j]);
      var info := images[font[text[j]]];
      Place(font, images, lcdW, lcdH, origin, text[..j + 1])
        == (gs + [Glyph(info.address, p.x, p.y, info.size)], Advance(p, info.size, lcdW, lcdH))
  {
    assert text[..j + 1][..j] == text[..j];
  }

  /** The blit commands for `text` drawn from `origin`, one per character the font has. */
  function TextCommands(font: map<char, nat>, images: seq<ImageInfo>, lcdW: int, lcdH: int,
                        origin: Pen, text: string, transparent: int): seq<string>
    requires FontFits(font, images)
  {
    GlyphCommands(Place(font, images, lcdW, lcdH, origin, text).0, transparent)
  }

  /** Where the pen is and the commands written so far, while a text is drawn. */
  datatype Drawn = Drawn(pen: Pen, cmds: seq<string>)

  /**
    Drawing one character: a character the font has adds the blit command
    for its image at the pen and moves the pen past it; any other character
    changes nothing.
   */
  function Emit(font: map<char, nat>, images: seq<ImageInfo>, lcdW: int, lcdH: int, transparent: int,
                d: Drawn, c: char): Drawn
    requires FontFits(font, images)
  {
    if c in font then
      var info := images[font[c]];
      Drawn(Advance(d.pen, info.size, lcdW, lcdH),
            d.cmds + [GlyphCommand(Glyph(info.address, d.pen.x, d.pen.y, info.size), transparent)])
    else d
  }

  /** Drawing the characters of `text` one after the other, from `d`. */
  function EmitAll(font: map<char, nat>, images: seq<ImageInfo>, lcdW: int, lcdH: int, transparent: int,
                   d: Drawn, text: string): Drawn
    requires FontFits(font, images)
    decreases |text|
  {
    if text == [] then d
    else Emit(font, images, lcdW, lcdH, transparent, EmitAll(font, images, lcdW, lcdH, transparent, d, text[..|text| - 1]),
              text[|text| - 1])
  }

  /** Drawing one more character of a prefix. */
  lemma EmitAllStep(font: map<char, nat>, images: seq<ImageInfo>, lcdW: int, lcdH: int, transparent: int,
                    d: Drawn, text: string, j: nat)
    requires FontFits(font, images) && j < |text|
    ensures EmitAll(font, images, lcdW, lcdH, transparent, d, text[..j + 1])
      == Emit(font, images, lcdW, lcdH, transparent, EmitAll(font, images, lcdW, lcdH, transparent, d, text[..j]), text[j])
  {
    assert text[..j + 1][..j] == text[..j];
  }

  /**
    Drawing a text character by character from the pen at `origin` ends
    with the pen where the layout leaves it, having written the blit
    commands of the layout's glyphs in order.
   */
  lemma {:induction false} EmitAllPlace(font: map<char, nat>, images: seq<ImageInfo>, lcdW: int, lcdH: int,
                                        transparent: int, origin: Pen, text: string)
    requires FontFits(font, images)
    ensures EmitAll(font, images, lcdW, lcdH, transparent, Drawn(origin, []), text)
      == Drawn(Place(font, images, lcdW, lcdH, origin, text).1, TextCommands(font, images, lcdW, lcdH, origin, text, transparent))
    decreases |text|
  {
    if text != [] {
      var init := text[..|text| - 1];
      EmitAllPlace(font, images, lcdW, lcdH, transparent, origin, init);
      var c := text[|text| - 1];
      if c in font {
        var (gs, p) := Place(font, images, lcdW, lcdH, origin, init);
        var info := images[font[c]];
        GlyphCommandsSnoc(gs, Glyph(info.address, p.x, p.y, info.size), transparent);
      }
    }
  }

  /** The commands for a prefix of the text come first among the commands for the whole text. */
  lemma CommandsPrefix(font: map<char, nat>, images: seq<ImageInfo>, lcdW: int, lcdH: int,
                       origin: Pen, text: string, k: nat, transparent: int)
    requires FontFits(font, images) && k <= |text|
    ensures var short := TextCommands(font, images, lcdW, lcdH, origin, text[..k], transparent);
      var all := TextCommands(font, images, lcdW, lcdH, origin, text, transparent);
      |short| <= |all| && all[..|short|] == short
  {
    PlacePrefix(font, images, lcdW, lcdH, origin, text, k);
  }

  /** A 16x16 font on a 32-pixel-wide screen puts one glyph on each line. */
  lemma NarrowScreenWrap()
    ensures PerLine(32 - 16, 16) == 1
    ensures Advance(Pen(0, 0), Size(16, 16), 32, 320) == Pen(0, 16)
  {
  }
}
