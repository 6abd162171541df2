/**
 * Model of the scrolling message line of the clock (clock-main.c): `render`
 * draws the first code points of a string glyph by glyph with
 * ILI9486_rect_rgba, and the main loop moves a scroll cursor (a byte
 * position in the message and a pixel offset into its first glyph) after
 * every frame.
 *
 * FreeType is abstracted: a font is a map from code points to glyphs, each
 * with the metrics render reads (advance, left and top bearings, width,
 * rows, pitch) and the BGRA bitmap that blending the glyph over the
 * background produces.  A code point the map does not hold is one that
 * FT_Load_Char fails on.
 */
module Clock {
  import Unicode
  import Ili9486
  import opened Seqs

  /** The capacity of render's code point buffer `text`. */
  const MaxGlyphs: nat := 20
  /** Pixels the message scrolls per frame ("one ASCII or half a Chinese glyph"). */
  const Increment: int := 32
  /** sizeof(message). */
  const MessageSize: nat := 1024
  /** Where main renders the message line. */
  const MessageX: int := 0
  const MessageY: int := 290

  /**
   * A rendered glyph: the advance in 26.6 fixed point, the bearings in
   * pixels, and a BGRA bitmap of `rows` rows of `pitch` bytes.
   */
  datatype Glyph = Glyph(advance: int, left: int, top: int, width: nat, rows: nat, pitch: nat,
                         bitmap: seq<Ili9486.byte>)

  type Font = map<bv32, Glyph>

  /** The bitmap holds `rows` rows of `width` four-byte pixels. */
  predicate GlyphFits(g: Glyph)
  {
    4 * g.width <= g.pitch && g.rows * g.pitch <= |g.bitmap|
  }

  predicate FontFits(font: Font)
  {
    forall cp :: cp in font ==> GlyphFits(font[cp])
  }

  /** The code points render works on: at most MaxGlyphs of the string's. */
  function Text(str: seq<bv8>): (cps: seq<bv32>)
    requires 0 in str
    ensures |cps| <= MaxGlyphs && |cps| <= |Unicode.Codepoints(str)|
    ensures cps == Unicode.Codepoints(str)[..|cps|]
    ensures |cps| < MaxGlyphs ==> cps == Unicode.Codepoints(str)
  {
    var all := Unicode.Codepoints(str);
    all[..Unicode.Min(MaxGlyphs, |all|)]
  }

  /**
   * How far the pen moves after a glyph drawn with a pixel offset: the
   * advance in whole pixels (the 26.6 value shifted right by 6, which
   * rounds down) less the offset.
   */
  function Advance(g: Glyph, offset: int): int
  {
    g.advance / 64 - offset
  }

  /** One glyph drawn by render: pen position, baseline, pixel offset into the bitmap. */
  datatype Blit = Blit(pen: int, baseline: int, offsetX: int, glyph: Glyph)

  /** The screen position handed to ILI9486_rect_rgba. */
  function BlitX(b: Blit): int { b.pen + b.glyph.left }
  function BlitY(b: Blit): int { b.baseline - b.glyph.top }

  predicate BlitTruncated(b: Blit)
  {
    Ili9486.Truncated(BlitX(b), BlitY(b), b.glyph.width, b.glyph.rows)
  }

  /** Whether the blit writes screen pixel (r, c). */
  predicate PaintedBy(b: Blit, r: int, c: int)
  {
    Ili9486.Painted(BlitX(b), BlitY(b), b.offsetX, 0, b.glyph.width, b.glyph.rows, r, c)
  }

  /** The blits render performs for the code points `cps`. */
  function Plan(font: Font, cps: seq<bv32>, pen: int, baseline: int, offset: int): seq<Blit>
    decreases |cps|
  {
    if cps == [] then []
    else if cps[0] !in font then Plan(font, cps[1..], pen, baseline, offset)
    else
      var b := Blit(pen, baseline, offset, font[cps[0]]);
      if BlitTruncated(b) then [b]
      else [b] + Plan(font, cps[1..], pen + Advance(b.glyph, offset), baseline, 0)
  }

  /** The glyphs of the code points the font can load, in order. */
  function Loaded(font: Font, cps: seq<bv32>): (gs: seq<Glyph>)
    ensures |gs| <= |cps|
  {
    if cps == [] then []
    else
      var rest := Loaded(font, cps[1..]);
      if cps[0] in font then [font[cps[0]]] + rest else rest
  }

  /** With every code point loadable the glyphs are theirs, one each; with none loadable there are none. */
  lemma {:induction false} LoadedGlyphs(font: Font, cps: seq<bv32>)
    ensures (forall i :: 0 <= i < |cps| ==> cps[i] !in font) ==> Loaded(font, cps) == []
    ensures (forall i :: 0 <= i < |cps| ==> cps[i] in font) ==>
      |Loaded(font, cps)| == |cps| && forall k :: 0 <= k < |cps| ==> Loaded(font, cps)[k] == font[cps[k]]
    decreases |cps|
  {
    if cps != [] {
      LoadedGlyphs(font, cps[1..]);
      assert forall i :: 0 <= i < |cps[1..]| ==> cps[1..][i] == cps[i + 1];
    }
  }

  /** What render returns: the first code point loads and, less the offset, fits the increment. */
  predicate WrapReady(font: Font, cps: seq<bv32>, offset: int, incr: int)
  {
    |cps| > 0 && cps[0] in font && Advance(font[cps[0]], offset) <= incr
  }

  /** Every blit is at a non-negative screen position, as ILI9486_rect_rgba needs. */
  predicate Placeable(plan: seq<Blit>)
  {
    forall k :: 0 <= k < |plan| ==> BlitX(plan[k]) >= 0 && BlitY(plan[k]) >= 0
  }

  /** The index of the last of the blits that writes screen pixel (r, c), or -1 when none does. */
  function LastCover(blits: seq<Blit>, r: int, c: int): (k: int)
    ensures -1 <= k < |blits|
    ensures k >= 0 ==> PaintedBy(blits[k], r, c)
    decreases |blits|
  {
    if blits == [] then -1
    else if PaintedBy(blits[|blits| - 1], r, c) then |blits| - 1
    else LastCover(blits[..|blits| - 1], r, c)
  }

  // ---------------------------------------------------------------------
  // What render draws
  // ---------------------------------------------------------------------

  /** render draws the loadable glyphs in order, on one baseline, skipping the others. */
  lemma {:induction false} PlanGlyphs(font: Font, cps: seq<bv32>, pen: int, baseline: int, offset: int)
    ensures |Plan(font, cps, pen, baseline, offset)| <= |Loaded(font, cps)|
    ensures forall k :: 0 <= k < |Plan(font, cps, pen, baseline, offset)| ==>
      Plan(font, cps, pen, baseline, offset)[k].glyph == Loaded(font, cps)[k]
      && Plan(font, cps, pen, baseline, offset)[k].baseline == baseline
    decreases |cps|
  {
    if cps != [] {
      if cps[0] !in font {
        assert Loaded(font, cps) == Loaded(font, cps[1..]);
        PlanGlyphs(font, cps[1..], pen, baseline, offset);
      } else {
        var b := Blit(pen, baseline, offset, font[cps[0]]);
        assert Loaded(font, cps) == [b.glyph] + Loaded(font, cps[1..]);
        if !BlitTruncated(b) {
          var rest := Plan(font, cps[1..], pen + Advance(b.glyph, offset), baseline, 0);
          assert Plan(font, cps, pen, baseline, offset) == [b] + rest;
          PlanGlyphs(font, cps[1..], pen + Advance(b.glyph, offset), baseline, 0);
        }
      }
    }
  }

  /**
   * render stops after the first glyph whose blit is truncated: only the
   * last blit may be truncated, and it is whenever a loadable glyph is left.
   */
  lemma {:induction false} PlanStops(font: Font, cps: seq<bv32>, pen: int, baseline: int, offset: int)
    ensures forall k :: 0 <= k < |Plan(font, cps, pen, baseline, offset)| - 1 ==>
      !BlitTruncated(Plan(font, cps, pen, baseline, offset)[k])
    ensures |Plan(font, cps, pen, baseline, offset)| < |Loaded(font, cps)| ==>
      |Plan(font, cps, pen, baseline, offset)| > 0
      && BlitTruncated(Plan(font, cps, pen, baseline, offset)[|Plan(font, cps, pen, baseline, offset)| - 1])
    decreases |cps|
  {
    if cps != [] {
      if cps[0] !in font {
        assert Loaded(font, cps) == Loaded(font, cps[1..]);
        PlanStops(font, cps[1..], pen, baseline, offset);
      } else {
        var b := Blit(pen, baseline, offset, font[cps[0]]);
        assert Loaded(font, cps) == [b.glyph] + Loaded(font, cps[1..]);
        if !BlitTruncated(b) {
          var rest := Plan(font, cps[1..], pen + Advance(b.glyph, offset), baseline, 0);
          assert Plan(font, cps, pen, baseline, offset) == [b] + rest;
          PlanStops(font, cps[1..], pen + Advance(b.glyph, offset), baseline, 0);
        }
      }
    }
  }

  /**
   * The first blit is at the starting pen position with the pixel offset;
   * every later one has offset 0 and starts where the previous glyph's
   * advance, less its offset, left the pen.
   */
  lemma {:induction false} PlanPens(font: Font, cps: seq<bv32>, pen: int, baseline: int, offset: int)
    ensures |Plan(font, cps, pen, baseline, offset)| > 0 ==>
      Plan(font, cps, pen, baseline, offset)[0].pen == pen
      && Plan(font, cps, pen, baseline, offset)[0].offsetX == offset
    ensures forall k :: 1 <= k < |Plan(font, cps, pen, baseline, offset)| ==>
      Plan(font, cps, pen, baseline, offset)[k].offsetX == 0
      && Plan(font, cps, pen, baseline, offset)[k].pen
         == Plan(font, cps, pen, baseline, offset)[k - 1].pen
            + Advance(Plan(font, cps, pen, baseline, offset)[k - 1].glyph,
                      Plan(font, cps, pen, baseline, offset)[k - 1].offsetX)
    decreases |cps|
  {
    if cps != [] {
      if cps[0] !in font {
        PlanPens(font, cps[1..], pen, baseline, offset);
      } else {
        var b := Blit(pen, baseline, offset, font[cps[0]]);
        if !BlitTruncated(b) {
          PlanPens(font, cps[1..], pen + Advance(b.glyph, offset), baseline, 0);
        }
      }
    }
  }

  /**
   * No blit after the last cover writes the pixel, and the pixel has no
   * cover exactly when no blit writes it.
   */
  lemma {:induction false} LastCoverIsLast(blits: seq<Blit>, r: int, c: int)
    ensures forall j :: LastCover(blits, r, c) < j < |blits| ==> !PaintedBy(blits[j], r, c)
    ensures LastCover(blits, r, c) == -1 <==> forall j :: 0 <= j < |blits| ==> !PaintedBy(blits[j], r, c)
    decreases |blits|
  {
    if blits != [] {
      var init := blits[..|blits| - 1];
      LastCoverIsLast(init, r, c);
      assert forall j :: 0 <= j < |init| ==> init[j] == blits[j];
    }
  }

  /** One more blit: it is the last cover of the pixels it writes, and leaves the others' covers as they were. */
  lemma LastCoverSnoc(blits: seq<Blit>, b: Blit, r: int, c: int)
    ensures PaintedBy(b, r, c) ==> LastCover(blits + [b], r, c) == |blits|
    ensures !PaintedBy(b, r, c) ==> LastCover(blits + [b], r, c) == LastCover(blits, r, c)
  {
    assert (blits + [b])[..|blits|] == blits;
  }

  // ---------------------------------------------------------------------
  // render
  // ---------------------------------------------------------------------

  /** A turn of render's loop on a code point without a glyph draws nothing and keeps the pen. */
  lemma PlanSkip(font: Font, cps: seq<bv32>, n: nat, pen: int, baseline: int, offset: int)
    requires n < |cps| && cps[n] !in font
    ensures Plan(font, cps[n..], pen, baseline, offset) == Plan(font, cps[n + 1..], pen, baseline, offset)
  {
    assert cps[n..][1..] == cps[n + 1..];
  }

  /**
   * A turn of render's loop on a code point with a glyph draws it, then
   * stops if the blit was truncated and goes on from the advanced pen with
   * offset 0 otherwise.
   */
  lemma PlanDraw(font: Font, cps: seq<bv32>, n: nat, pen: int, baseline: int, offset: int, done: seq<Blit>)
    returns (b: Blit, rest: seq<Blit>)
    requires n < |cps| && cps[n] in font
    ensures b == Blit(pen, baseline, offset, font[cps[n]])
    ensures rest == if BlitTruncated(b) then [] else Plan(font, cps[n + 1..], pen + Advance(b.glyph, offset), baseline, 0)
    ensures done + Plan(font, cps[n..], pen, baseline, offset) == (done + [b]) + rest
  {
    assert cps[n..][1..] == cps[n + 1..];
    b := Blit(pen, baseline, offset, font[cps[n]]);
    rest := if BlitTruncated(b) then [] else Plan(font, cps[n + 1..], pen + Advance(b.glyph, offset), baseline, 0);
    assert Plan(font, cps[n..], pen, baseline, offset) == [b] + rest;
    AppendAssoc(done, [b], rest);
  }

  /**
   * render: decodes at most MaxGlyphs code points of `str` and draws their
   * glyphs from pen position x on baseline y, the first loadable one with
   * the pixel offset.  It returns whether the first code point's glyph,
   * less the offset, advances at most `incr`.  Only the pixels the blits of
   * the plan write can change.
   */
  method Render(d: Ili9486.Driver, x: int, y: int, xOffset: int, incr: int, str: seq<bv8>, font: Font)
    returns (rc: bool, ghost blits: seq<Blit>)
    requires d.Valid() && d.framebuffer != null
    requires 0 in str && xOffset >= 0 && FontFits(font)
    requires Placeable(Plan(font, Text(str), x, y, xOffset))
    modifies d.framebuffer
    ensures rc <==> WrapReady(font, Text(str), xOffset, incr)
    ensures blits == Plan(font, Text(str), x, y, xOffset)
    ensures Drawn(d.framebuffer[..], old(d.framebuffer[..]), blits)
  {
    var cps := DecodeText(str);
    rc, blits := DrawText(d, x, y, xOffset, incr, cps, font);
  }

  /** The string_to_ucs4 call of render, into a buffer of MaxGlyphs code points. */
  method DecodeText(str: seq<bv8>) returns (cps: seq<bv32>)
    requires 0 in str
    ensures cps == Text(str)
  {
    var text := new bv32[MaxGlyphs];
    var length, _ := Unicode.StringToUcs4(str, text, MaxGlyphs);
    cps := text[..length];
  }

  /** The glyph loop of render over the decoded code points. */
  method DrawText(d: Ili9486.Driver, x: int, y: int, xOffset: int, incr: int, cps: seq<bv32>, font: Font)
    returns (rc: bool, ghost blits: seq<Blit>)
    requires d.Valid() && d.framebuffer != null
    requires xOffset >= 0 && FontFits(font)
    requires Placeable(Plan(font, cps, x, y, xOffset))
    modifies d.framebuffer
    ensures rc <==> WrapReady(font, cps, xOffset, incr)
    ensures blits == Plan(font, cps, x, y, xOffset)
    ensures Drawn(d.framebuffer[..], old(d.framebuffer[..]), blits)
  {
    ghost var plan := Plan(font, cps, x, y, xOffset);
    ghost var orig := d.framebuffer[..];
    rc := false;
    blits := [];
    var pen, offset := x, xOffset;
    var n := 0;
    while n < |cps|
      invariant 0 <= n <= |cps|
      invariant offset >= 0
      invariant n == 0 ==> pen == x && offset == xOffset
      invariant plan == blits + Plan(font, cps[n..], pen, y, offset)
      invariant rc <==> n > 0 && WrapReady(font, cps, xOffset, incr)
      invariant Drawn(d.framebuffer[..], orig, blits)
    {
      if cps[n] !in font {
        PlanSkip(font, cps, n, pen, y, offset);
        n := n + 1;
        continue;
      }
      var g := font[cps[n]];
      var b := Blit(pen, y, offset, g);
      ghost var b', rest := PlanDraw(font, cps, n, pen, y, offset, blits);
      assert plan[|blits|] == b;
      var trunc := Draw(d, b, blits, orig);
      var advance := g.advance / 64 - offset;
      if n == 0 && advance <= incr {
        rc := true;
      }
      pen := pen + advance;
      offset := 0;
      blits := blits + [b];
      if trunc {
        return;
      }
      n := n + 1;
    }
  }

  /** Whether a screen pixel (r, c) shows the glyph bitmap pixel the blit puts there. */
  predicate ShowsBlit(pixel: Ili9486.Rgb, b: Blit, r: int, c: int)
  {
    Ili9486.Shows(pixel, b.glyph.bitmap, b.glyph.pitch, r - BlitY(b), b.offsetX + (c - BlitX(b)))
  }

  /**
   * The framebuffer after the blits, drawn over `orig` in order: a pixel
   * some blit writes shows the last such blit's glyph pixel, every other
   * pixel keeps its value in orig.
   */
  predicate Drawn(fb: seq<Ili9486.Rgb>, orig: seq<Ili9486.Rgb>, blits: seq<Blit>)
    requires |fb| == Ili9486.Pixels && |orig| == Ili9486.Pixels
  {
    && (forall r, c :: 0 <= r < Ili9486.Height && 0 <= c < Ili9486.Width && LastCover(blits, r, c) >= 0 ==>
          ShowsBlit(fb[Ili9486.At(r, c)], blits[LastCover(blits, r, c)], r, c))
    && (forall r, c :: 0 <= r < Ili9486.Height && 0 <= c < Ili9486.Width && LastCover(blits, r, c) < 0 ==>
          fb[Ili9486.At(r, c)] == orig[Ili9486.At(r, c)])
  }

  /** The ILI9486_rect_rgba call of one glyph, which reports whether the blit was truncated. */
  method Draw(d: Ili9486.Driver, b: Blit, ghost blits: seq<Blit>, ghost orig: seq<Ili9486.Rgb>)
    returns (trunc: bool)
    requires d.Valid() && d.framebuffer != null && |orig| == Ili9486.Pixels
    requires GlyphFits(b.glyph) && BlitX(b) >= 0 && BlitY(b) >= 0 && b.offsetX >= 0
    requires Drawn(d.framebuffer[..], orig, blits)
    modifies d.framebuffer
    ensures trunc == BlitTruncated(b)
    ensures forall r, c :: 0 <= r < Ili9486.Height && 0 <= c < Ili9486.Width && PaintedBy(b, r, c) ==>
      ShowsBlit(d.framebuffer[Ili9486.At(r, c)], b, r, c)
    ensures Drawn(d.framebuffer[..], orig, blits + [b])
  {
    var g := b.glyph;
    ghost var before := d.framebuffer[..];
    trunc := d.RectRgba(BlitX(b), BlitY(b), b.offsetX, 0, g.width, g.rows, g.pitch, g.bitmap);
    forall r, c | 0 <= r < Ili9486.Height && 0 <= c < Ili9486.Width
      ensures LastCover(blits + [b], r, c) >= 0 ==>
        ShowsBlit(d.framebuffer[..][Ili9486.At(r, c)], (blits + [b])[LastCover(blits + [b], r, c)], r, c)
      ensures LastCover(blits + [b], r, c) < 0 ==> d.framebuffer[..][Ili9486.At(r, c)] == orig[Ili9486.At(r, c)]
    {
      LastCoverSnoc(blits, b, r, c);
      if !PaintedBy(b, r, c) {
        assert d.framebuffer[..][Ili9486.At(r, c)] == before[Ili9486.At(r, c)];
        if LastCover(blits, r, c) >= 0 {
          assert (blits + [b])[LastCover(blits, r, c)] == blits[LastCover(blits, r, c)];
        }
      }
    }
  }

  // ---------------------------------------------------------------------
  // The scroll cursor of main
  // ---------------------------------------------------------------------

  /** The top two bits of a UTF-8 continuation byte are 10. */
  predicate Continuation(b: bv8)
  {
    b & 0xC0 == 0x80
  }

  /** The mask test picks out exactly the trailing bytes of RFC 3629. */
  lemma ContinuationIsTail(b: bv8)
    ensures Continuation(b) <==> Unicode.Tail(b)
  {
  }

  /** The first position from i on that does not hold a continuation byte; the NUL stops the skip at the latest. */
  function SkipContinuations(s: seq<bv8>, i: nat): (j: nat)
    requires 0 in s && i <= Unicode.Strlen(s)
    ensures i <= j <= Unicode.Strlen(s)
    decreases Unicode.Strlen(s) - i
  {
    if Continuation(s[i]) then SkipContinuations(s, i + 1) else i
  }

  /** Where the cursor goes when render is ready to wrap: past the byte at p and its continuation bytes, or back to 0 at the end of the message. */
  function NextStart(s: seq<bv8>, p: nat): nat
    requires |s| == MessageSize && 0 in s && p < Unicode.Strlen(s)
  {
    var j := SkipContinuations(s, p + 1);
    if s[j] == 0 || j > MessageSize - 1 then 0 else j
  }

  /** The skip stops at the first byte that is not a continuation byte. */
  lemma {:induction false} SkipStops(s: seq<bv8>, i: nat)
    requires 0 in s && i <= Unicode.Strlen(s)
    ensures !Continuation(s[SkipContinuations(s, i)])
    ensures forall k :: i <= k < SkipContinuations(s, i) ==> Continuation(s[k])
    decreases Unicode.Strlen(s) - i
  {
    if Continuation(s[i]) {
      SkipStops(s, i + 1);
    }
  }

  /**
   * The cursor wraps to 0 exactly when only continuation bytes follow p in
   * the message; otherwise it lands on the first byte after p that starts a
   * character, and that byte is not the NUL.  (The bound check against the
   * message size never decides anything: the NUL comes first.)
   */
  lemma NextStartLands(s: seq<bv8>, p: nat)
    requires |s| == MessageSize && 0 in s && p < Unicode.Strlen(s)
    ensures NextStart(s, p) == 0 <==> forall k :: p < k < Unicode.Strlen(s) ==> Continuation(s[k])
    ensures NextStart(s, p) != 0 ==>
      p < NextStart(s, p) < Unicode.Strlen(s) && !Continuation(s[NextStart(s, p)])
      && forall k :: p < k < NextStart(s, p) ==> Continuation(s[k])
  {
    var j := SkipContinuations(s, p + 1);
    SkipStops(s, p + 1);
    if j < Unicode.Strlen(s) {
      Unicode.StrlenNoNul(s, j);
      assert NextStart(s, p) == j;
      assert !Continuation(s[j]);
    } else {
      assert NextStart(s, p) == 0;
    }
  }

  /**
   * The RFC 3629 encoding of a nonzero scalar value starts with a byte that
   * is neither NUL nor a continuation byte, and all its other bytes are
   * continuation bytes.
   */
  lemma EncodingShape(cp: bv32)
    requires Unicode.IsScalar(cp) && cp != 0
    ensures Unicode.Utf8Encode(cp)[0] != 0 && !Continuation(Unicode.Utf8Encode(cp)[0])
    ensures forall k :: 1 <= k < |Unicode.Utf8Encode(cp)| ==> Continuation(Unicode.Utf8Encode(cp)[k])
  {
    var e := Unicode.Utf8Encode(cp);
    Unicode.EncodeIsPacked(cp);
    Unicode.WellFormedTails(e);
    ContinuationIsTail(e[0]);
    forall k | 1 <= k < |e|
      ensures Continuation(e[k])
    {
      ContinuationIsTail(e[k]);
    }
  }

  /**
   * The cursor step over one character: when the message from p on is a
   * character `e` (a leader byte and its continuation bytes) followed by
   * `t`, the cursor moves to t, or wraps to 0 when t is the end of the
   * message.
   */
  lemma SkipCharacter(s: seq<bv8>, p: nat, e: seq<bv8>, t: seq<bv8>)
    requires |s| == MessageSize && 0 in s && p <= Unicode.Strlen(s)
    requires s[p..] == e + t && |e| >= 1 && |t| >= 1
    requires e[0] != 0 && forall k :: 1 <= k < |e| ==> Continuation(e[k])
    requires !Continuation(t[0])
    ensures p < Unicode.Strlen(s)
    ensures t[0] == 0 ==> NextStart(s, p) == 0
    ensures t[0] != 0 ==> NextStart(s, p) == p + |e| && s[NextStart(s, p)..] == t
  {
    assert s[p] == e[0];
    Unicode.StrlenNoNul(s, p);
    var q := p + |e|;
    assert s[q] == t[0];
    assert s[q..] == t;
    forall k | p < k < q
      ensures Continuation(s[k])
    {
      assert s[k] == e[k - p];
    }
    Unicode.StrlenNoNul(s, q);
    NextStartLands(s, p);
    if t[0] != 0 {
      assert q < Unicode.Strlen(s);
    }
  }

  /**
   * The byte positions of a scroll step on well-formed text: if the message
   * from p on is the RFC 3629 encoding of `cps` followed by the NUL, the
   * cursor moves to the encoding of cps[1..], or wraps when cps had one
   * element.
   */
  lemma ScrollPosition(s: seq<bv8>, p: nat, cps: seq<bv32>, rest: seq<bv8>)
    requires |s| == MessageSize && 0 in s && p <= Unicode.Strlen(s)
    requires cps != [] && forall i :: 0 <= i < |cps| ==> Unicode.IsScalar(cps[i]) && cps[i] != 0
    requires |rest| > 0 && rest[0] == 0 && s[p..] == Unicode.Encode(cps) + rest
    ensures p < Unicode.Strlen(s)
    ensures |cps| == 1 ==> NextStart(s, p) == 0
    ensures |cps| > 1 ==> NextStart(s, p) != 0 && s[NextStart(s, p)..] == Unicode.Encode(cps[1..]) + rest
  {
    var e := Unicode.Utf8Encode(cps[0]);
    var t := Unicode.Encode(cps[1..]) + rest;
    assert s[p..] == e + t by {
      AppendAssoc(e, Unicode.Encode(cps[1..]), rest);
    }
    assert e[0] != 0 && forall k :: 1 <= k < |e| ==> Continuation(e[k]) by {
      EncodingShape(cps[0]);
    }
    assert |t| >= 1 && !Continuation(t[0]) && (t[0] == 0 <==> |cps| == 1) by {
      if |cps| == 1 {
        assert Unicode.Encode(cps[1..]) == [];
        assert t == rest;
      } else {
        EncodingShape(cps[1]);
        assert t[0] == Unicode.Utf8Encode(cps[1])[0];
      }
    }
    SkipCharacter(s, p, e, t);
  }

  /**
   * On well-formed text the cursor moves past exactly one code point, the
   * one render drew first: the code points from the new cursor on are
   * those from the old one without the first, unless the cursor wrapped
   * because there was only one.
   */
  lemma ScrollDropsOneCodePoint(s: seq<bv8>, p: nat, cps: seq<bv32>, rest: seq<bv8>)
    requires |s| == MessageSize && 0 in s && p <= Unicode.Strlen(s)
    requires cps != [] && forall i :: 0 <= i < |cps| ==> Unicode.IsScalar(cps[i]) && cps[i] != 0
    requires |rest| > 0 && rest[0] == 0 && s[p..] == Unicode.Encode(cps) + rest
    ensures p < Unicode.Strlen(s) && 0 in s[p..] && Unicode.Codepoints(s[p..]) == cps
    ensures |cps| == 1 ==> NextStart(s, p) == 0
    ensures |cps| > 1 ==>
      NextStart(s, p) != 0 && 0 in s[NextStart(s, p)..] && Unicode.Codepoints(s[NextStart(s, p)..]) == cps[1..]
  {
    ScrollPosition(s, p, cps, rest);
    EncodedDecodes(cps, rest);
    if |cps| > 1 {
      forall i | 0 <= i < |cps[1..]|
        ensures Unicode.IsScalar(cps[1..][i]) && cps[1..][i] != 0
      {
        assert cps[1..][i] == cps[i + 1];
      }
      EncodedDecodes(cps[1..], rest);
    }
  }

  /** A C string holding the RFC 3629 encoding of nonzero scalar values decodes to them. */
  lemma EncodedDecodes(cps: seq<bv32>, rest: seq<bv8>)
    requires forall i :: 0 <= i < |cps| ==> Unicode.IsScalar(cps[i]) && cps[i] != 0
    requires |rest| > 0 && rest[0] == 0
    ensures 0 in Unicode.Encode(cps) + rest && Unicode.Codepoints(Unicode.Encode(cps) + rest) == cps
  {
    Unicode.DecodeEncodedThen(cps, rest);
    Unicode.CodepointsEmpty(rest);
  }


  /** A one-character message: the cursor goes back to 0, not on to the NUL at byte 1. */
  lemma OneCharacterWraps(s: seq<bv8>)
    requires |s| == MessageSize && s[0] != 0 && s[1] == 0
    ensures 0 in s && Unicode.Strlen(s) == 1 && NextStart(s, 0) == 0
  {
    assert s[1..][0] == 0;
    NextStartLands(s, 0);
  }

  /** A message that opens with a three-byte leader 0xE0 whose sequence is overlong, then 'A'. */
  const Overlong: seq<bv8> := [0xE0, 0x80, 0x80, 0x41] + seq(MessageSize - 4, _ => 0)

  /**
   * On text that is not well formed one wrap can drop several code points:
   * the decoder reads the three bytes as three U+FFFD, but the scroll skips
   * both continuation bytes at once and lands on 'A'.
   */
  lemma OverlongWrapDropsThree()
    ensures 0 in Overlong && Unicode.Strlen(Overlong) == 4
    ensures Unicode.Codepoints(Overlong)
         == [Unicode.InvalidCode, Unicode.InvalidCode, Unicode.InvalidCode, 0x41]
    ensures NextStart(Overlong, 0) == 3 && 0 in Overlong[3..] && Unicode.Codepoints(Overlong[3..]) == [0x41]
  {
    OverlongShape();
    NextStartLands(Overlong, 0);
    OverlongDecodes();
  }

  /** The first bytes of the overlong message and its length. */
  lemma OverlongShape()
    ensures Overlong[0] == 0xE0 && Overlong[1] == 0x80 && Overlong[2] == 0x80 && Overlong[3] == 0x41
    ensures Overlong[4] == 0 && 0 in Overlong && Unicode.Strlen(Overlong) == 4
  {
    var s := Overlong;
    assert s[0] == 0xE0 && s[1] == 0x80 && s[2] == 0x80 && s[3] == 0x41 && s[4] == 0;
    assert s[1..][1..] == s[2..] && s[2..][1..] == s[3..] && s[3..][1..] == s[4..];
    assert Unicode.Strlen(s[4..]) == 0;
    assert Unicode.Strlen(s[3..]) == 1;
    assert Unicode.Strlen(s[2..]) == 2;
    assert Unicode.Strlen(s[1..]) == 3;
  }

  /** next_char over the overlong message: three single-byte failures, then 'A'. */
  lemma OverlongScans()
    ensures 0 in Overlong[1..] && 0 in Overlong[2..] && 0 in Overlong[3..] && 0 in Overlong[4..]
    ensures Unicode.Scan(Overlong) == Unicode.Step(1, Unicode.InvalidPacked)
    ensures Unicode.Scan(Overlong[1..]) == Unicode.Step(1, Unicode.InvalidPacked)
    ensures Unicode.Scan(Overlong[2..]) == Unicode.Step(1, Unicode.InvalidPacked)
    ensures Unicode.Scan(Overlong[3..]) == Unicode.Step(1, 0x41)
  {
    var s := Overlong;
    OverlongShape();
    assert s[..3] == [0xE0, 0x80, 0x80] && s[3..][..1] == [0x41];
    assert s[1..][0] == 0x80 && s[2..][0] == 0x80 && s[3..][0] == 0x41 && s[4..][0] == 0;
    Unicode.Pack1([0x41]);
    Unicode.ScanMatchesGrammar(s);
    Unicode.ScanMatchesGrammar(s[1..]);
    Unicode.ScanMatchesGrammar(s[2..]);
    Unicode.ScanMatchesGrammar(s[3..]);
  }

  /** The overlong message decodes to three U+FFFD and 'A'. */
  lemma OverlongDecodes()
    ensures 0 in Overlong && 0 in Overlong[3..]
    ensures Unicode.Codepoints(Overlong[3..]) == [0x41]
    ensures Unicode.Codepoints(Overlong)
         == [Unicode.InvalidCode, Unicode.InvalidCode, Unicode.InvalidCode, 0x41]
  {
    var s := Overlong;
    OverlongShape();
    OverlongScans();
    assert s[1..][1..] == s[2..] && s[2..][1..] == s[3..] && s[3..][1..] == s[4..];
    assert s[1..][0] != 0 && s[2..][0] != 0 && s[3..][0] != 0 && s[4..][0] == 0;
    Unicode.ReplacementAndAscii(0x41);
    Unicode.CodepointsEmpty(s[4..]);
    Unicode.CodepointsStep(s[3..]);
    assert Unicode.Codepoints(s[3..]) == [0x41];
    Unicode.CodepointsStep(s[2..]);
    Unicode.CodepointsStep(s[1..]);
    Unicode.CodepointsStep(s);
  }

  /** The message from byte p on, as a C string. */
  function Visible(s: seq<bv8>, p: nat): (t: seq<bv8>)
    requires 0 in s && p <= Unicode.Strlen(s)
    ensures 0 in t && t == s[p..]
  {
    Unicode.StrlenSuffix(s, p);
    s[p..]
  }

  /** The scroll state of main: the message, the byte position of its first shown character (m_pos) and the pixel offset into that character's glyph (m_offset). */
  class Scroller {
    var message: seq<bv8>
    var pos: nat
    var offset: int

    predicate Valid()
      reads this
    {
      |message| == MessageSize && 0 in message && pos <= Unicode.Strlen(message) && offset >= 0
    }

    constructor (m: seq<bv8>)
      requires |m| == MessageSize && 0 in m
      ensures Valid() && message == m && pos == 0 && offset == 0
    {
      message := m;
      pos := 0;
      offset := 0;
    }

    /**
     * The step after rendering a frame: when render was ready to wrap the
     * offset restarts and the cursor moves to the next character, otherwise
     * the offset grows by the increment and the cursor stays.
     */
    method Scroll(wrap: bool)
      requires Valid() && (wrap ==> message[pos] != 0)
      modifies this`pos, this`offset
      ensures Valid()
      ensures wrap ==> offset == 0 && pos == NextStart(message, old(pos))
      ensures !wrap ==> offset == old(offset) + Increment && pos == old(pos)
    {
      if wrap {
        offset := 0;
        pos := pos + 1;
        while Continuation(message[pos])
          invariant old(pos) < pos <= Unicode.Strlen(message) && offset == 0
          invariant SkipContinuations(message, pos) == SkipContinuations(message, old(pos) + 1)
          decreases Unicode.Strlen(message) - pos
        {
          pos := pos + 1;
        }
        assert SkipContinuations(message, pos) == pos;
        if message[pos] == 0 || pos > MessageSize - 1 {
          pos := 0;
        }
      } else {
        offset := offset + Increment;
      }
    }

    /** A new message from either socket: the cursor restarts, the pixel offset is kept. */
    method NewMessage(m: seq<bv8>)
      requires Valid() && |m| == MessageSize && 0 in m
      modifies this`message, this`pos
      ensures Valid() && message == m && pos == 0 && offset == old(offset)
    {
      message := m;
      pos := 0;
    }

    /**
     * The message line of one pass of main's loop: render the message from
     * the cursor at (MessageX, MessageY) with the pixel offset, then scroll
     * by what render returned.
     */
    method Frame(d: Ili9486.Driver, font: Font) returns (ghost blits: seq<Blit>)
      requires Valid() && d.Valid() && d.framebuffer != null && FontFits(font)
      requires Placeable(Plan(font, Text(Visible(message, pos)), MessageX, MessageY, offset))
      modifies this`pos, this`offset, d.framebuffer
      ensures Valid() && message == old(message)
      ensures blits == Plan(font, Text(Visible(message, old(pos))), MessageX, MessageY, old(offset))
      ensures Drawn(d.framebuffer[..], old(d.framebuffer[..]), blits)
      ensures WrapReady(font, Text(Visible(message, old(pos))), old(offset), Increment) ==>
        old(pos) < Unicode.Strlen(message) && offset == 0 && pos == NextStart(message, old(pos))
      ensures !WrapReady(font, Text(Visible(message, old(pos))), old(offset), Increment) ==>
        offset == old(offset) + Increment && pos == old(pos)
    {
      var str := Visible(message, pos);
      var wrap;
      wrap, blits := Render(d, MessageX, MessageY, offset, Increment, str, font);
      if wrap {
        Unicode.CodepointsEmpty(str);
      }
      Scroll(wrap);
    }
  }
}
