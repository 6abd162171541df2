/**
 * Model of the ILI9486 LCD driver (ili9486.c): a 480 x 320 framebuffer of
 * RGB pixels kept in memory, the reset and register-initialisation
 * sequence sent to the panel, the row-by-row refresh over a 16-bit SPI bus,
 * and the clipped blit of a BGRA bitmap into the framebuffer.
 *
 * The hardware is modelled as a transcript: every GPIO write and every SPI
 * transfer that reaches the hardware is appended to `Driver.transcript`.
 * The panel-side reader `Panel` gives a transcript its meaning: the level
 * of the data/command line (lcd_rs) decides whether a transfer carries
 * command words or parameter bytes, and a low reset line clears the panel.
 */
module Ili9486 {
  import opened Seqs

  /** An unsigned 8-bit value. */
  type byte = b: int | 0 <= b < 0x100

  const Width: int := 480
  const Height: int := 320
  const Pixels: int := Width * Height

  /** GPIO lines: data/command select (low = command) and reset (low = active). */
  const LcdRs: int := 24
  const Reset: int := 25
  /** Display function control: pixels to bytes, number of lines. */
  const Lines: int := Width / 8 - 1

  /** Memory access control register bits. */
  const MacBgrOrder: byte := 0x08
  const MacRowColumnExchange: byte := 0x20
  const MacColumnAddressOrder: byte := 0x40
  const MacRowAddressOrder: byte := 0x80
  const MacRotate180: byte := Or(MacColumnAddressOrder, MacRowAddressOrder)
  /** Initial value of the driver's static memory access control byte. */
  const MacInitial: byte := Or(MacBgrOrder, MacRowColumnExchange)

  /** Bitwise or of two bytes. */
  function Or(a: byte, b: byte): byte
  {
    ((a as bv8) | (b as bv8)) as int
  }

  datatype Rotation = Rotation0 | Rotation180

  /** One framebuffer pixel, in the byte order the panel expects. */
  datatype Rgb = Rgb(red: byte, green: byte, blue: byte)

  const Black := Rgb(0, 0, 0)

  /** What reaches the hardware: a GPIO pin write or one SPI transfer. */
  datatype Event = GpioWrite(pin: int, high: bool) | SpiSend(bytes: seq<byte>)

  /** A register write as the panel sees it: a command code and its parameter bytes. */
  datatype Command = Command(code: byte, params: seq<byte>)

  // ---------------------------------------------------------------------
  // The panel side of the bus
  // ---------------------------------------------------------------------

  /** The panel's state: the data/command line level and the commands received since reset. */
  datatype PanelState = PanelState(data: bool, received: seq<Command>)

  /** Command transfers: each 16-bit word carries one command code in its low byte. */
  function Words(bytes: seq<byte>): seq<Command>
    decreases |bytes|
  {
    if |bytes| < 2 then [] else [Command(bytes[1], [])] + Words(bytes[2..])
  }

  /** Data transfers: bytes become parameters of the last command received. */
  function AddParams(cs: seq<Command>, bytes: seq<byte>): seq<Command>
  {
    if cs == [] then cs
    else cs[..|cs| - 1] + [cs[|cs| - 1].(params := cs[|cs| - 1].params + bytes)]
  }

  /** The panel's reaction to one event. */
  function Receive(st: PanelState, e: Event): PanelState
  {
    match e
    case GpioWrite(pin, high) =>
      if pin == LcdRs then st.(data := high)
      else if pin == Reset && !high then st.(received := [])
      else st
    case SpiSend(bytes) =>
      if st.data then st.(received := AddParams(st.received, bytes))
      else st.(received := st.received + Words(bytes))
  }

  /** The panel's state after a whole transcript. */
  function Panel(st: PanelState, es: seq<Event>): PanelState
    decreases |es|
  {
    if es == [] then st else Panel(Receive(st, es[0]), es[1..])
  }

  lemma {:induction false} PanelAppend(st: PanelState, a: seq<Event>, b: seq<Event>)
    ensures Panel(st, a + b) == Panel(Panel(st, a), b)
    decreases |a|
  {
    if a == [] {
      assert a + b == b;
    } else {
      assert (a + b)[0] == a[0];
      assert (a + b)[1..] == a[1..] + b;
      PanelAppend(Receive(st, a[0]), a[1..], b);
    }
  }

  lemma PanelOne(st: PanelState, e: Event)
    ensures Panel(st, [e]) == Receive(st, e)
  {
    assert [e][1..] == [];
  }

  /** The first three events of a frame: the command word sent with the line low, then the line raised. */
  lemma CommandWord(st: PanelState, code: byte)
    ensures Panel(st, [GpioWrite(LcdRs, false), SpiSend([0x00, code]), GpioWrite(LcdRs, true)])
         == PanelState(true, st.received + [Command(code, [])])
  {
    var e0, e1, e2 := GpioWrite(LcdRs, false), SpiSend([0x00, code]), GpioWrite(LcdRs, true);
    assert [e0, e1, e2] == [e0] + ([e1] + [e2]);
    PanelAppend(st, [e0], [e1] + [e2]);
    PanelOne(st, e0);
    var s1 := Receive(st, e0);
    PanelAppend(s1, [e1], [e2]);
    PanelOne(s1, e1);
    PanelOne(Receive(s1, e1), e2);
    assert Words([0x00, code]) == [Command(code, [])] + Words([]);
  }

  // ---------------------------------------------------------------------
  // Command framing (the SEND and DATA_S macros)
  // ---------------------------------------------------------------------

  /** SEND: command word with the line low, then the parameters (if any) with the line high. */
  function CommandFrame(code: byte, params: seq<byte>): seq<Event>
  {
    [GpioWrite(LcdRs, false), SpiSend([0x00, code]), GpioWrite(LcdRs, true)]
      + (if |params| > 0 then [SpiSend(params)] else [])
  }

  /** DATA_S: as SEND, but the data transfer is always made. */
  function DataFrame(code: byte, data: seq<byte>): seq<Event>
  {
    [GpioWrite(LcdRs, false), SpiSend([0x00, code]), GpioWrite(LcdRs, true), SpiSend(data)]
  }

  lemma AddParamsLast(cs: seq<Command>, c: Command, bytes: seq<byte>)
    ensures AddParams(cs + [c], bytes) == cs + [c.(params := c.params + bytes)]
  {
    assert (cs + [c])[..|cs|] == cs;
  }

  /** Whatever state the panel is in, a SEND frame delivers exactly one command with its parameters. */
  lemma CommandDelivers(st: PanelState, code: byte, params: seq<byte>)
    ensures Panel(st, CommandFrame(code, params)) == PanelState(true, st.received + [Command(code, params)])
  {
    var word := [GpioWrite(LcdRs, false), SpiSend([0x00, code]), GpioWrite(LcdRs, true)];
    CommandWord(st, code);
    var s3 := PanelState(true, st.received + [Command(code, [])]);
    if |params| > 0 {
      assert CommandFrame(code, params) == word + [SpiSend(params)];
      PanelAppend(st, word, [SpiSend(params)]);
      PanelOne(s3, SpiSend(params));
      AddParamsLast(st.received, Command(code, []), params);
      assert [] + params == params;
    } else {
      assert params == [];
      assert CommandFrame(code, params) == word;
    }
  }

  /** A DATA_S frame delivers one command whose parameters are the data. */
  lemma DataDelivers(st: PanelState, code: byte, data: seq<byte>)
    ensures Panel(st, DataFrame(code, data)) == PanelState(true, st.received + [Command(code, data)])
  {
    var word := [GpioWrite(LcdRs, false), SpiSend([0x00, code]), GpioWrite(LcdRs, true)];
    CommandWord(st, code);
    var s3 := PanelState(true, st.received + [Command(code, [])]);
    assert DataFrame(code, data) == word + [SpiSend(data)];
    PanelAppend(st, word, [SpiSend(data)]);
    PanelOne(s3, SpiSend(data));
    AddParamsLast(st.received, Command(code, []), data);
    assert [] + data == data;
  }

  /** Appending a SEND frame to any transcript adds its command to what the panel has received. */
  lemma Deliver(st: PanelState, t: seq<Event>, code: byte, params: seq<byte>) returns (t': seq<Event>)
    ensures t' == t + CommandFrame(code, params)
    ensures Panel(st, t').received == Panel(st, t).received + [Command(code, params)]
  {
    t' := t + CommandFrame(code, params);
    PanelAppend(st, t, CommandFrame(code, params));
    CommandDelivers(Panel(st, t), code, params);
  }

  /** Appending a DATA_S frame to any transcript adds its command to what the panel has received. */
  lemma DeliverData(st: PanelState, t: seq<Event>, code: byte, data: seq<byte>) returns (t': seq<Event>)
    ensures t' == t + DataFrame(code, data)
    ensures Panel(st, t').received == Panel(st, t).received + [Command(code, data)]
  {
    t' := t + DataFrame(code, data);
    PanelAppend(st, t, DataFrame(code, data));
    DataDelivers(Panel(st, t), code, data);
  }

  // ---------------------------------------------------------------------
  // Initialisation sequence
  // ---------------------------------------------------------------------

  /**
   * The panel registers written by create, in order, for a memory access
   * control byte `mac`.  Every parameter byte goes on the 16-bit bus after a
   * zero pad byte (the SPX macro); the interface mode control parameters are
   * written as a 16-bit zero without it.
   */
  function InitSequence(mac: byte): seq<Command>
  {
    [Command(0xB0, [0x00, 0x00])]           // interface mode control
    + [Command(0x11, [])]                     // sleep out
    + [Command(0x3A, [0x00, 0x66])]           // 18-bit pixels
    + [Command(0xB4, [0x00, 0x00])]           // display inversion control
    + [Command(0x20, [])]                     // display inversion off
    + [Command(0xC0, [0x00, 0x09, 0x00, 0x09])]// power control 1
    + [Command(0xC1, [0x00, 0x41, 0x00, 0x00])]// power control 2
    + [Command(0xC2, [0x00, 0x33])]           // power control 3
    + [Command(0xC5, [0x00, 0x00, 0x00, 0x36])]// VCOM control 1
    + [Command(0x36, [0x00, mac])]            // memory access control
    + [Command(0xE0, PositiveGamma)]          // positive gamma control
    + [Command(0xE1, NegativeGamma)]          // negative gamma control
    + [Command(0xB6, FunctionControl)]        // display function control
    + [Command(0x11, [])]                     // sleep out
    + [Command(0x29, [])]                     // display on
    + [Command(0x38, [])]                     // idle mode off
    + [Command(0x13, [])]                     // normal display mode on
  }

  const PositiveGamma: seq<byte> :=
    [0x00, 0x00, 0x00, 0x2c, 0x00, 0x2c, 0x00, 0x0b, 0x00, 0x0c, 0x00, 0x04, 0x00, 0x4C, 0x00, 0x64,
     0x00, 0x36, 0x00, 0x03, 0x00, 0x0e, 0x00, 0x01, 0x00, 0x10, 0x00, 0x01, 0x00, 0x00]
  const NegativeGamma: seq<byte> :=
    [0x00, 0x0f, 0x00, 0x37, 0x00, 0x37, 0x00, 0x0c, 0x00, 0x0f, 0x00, 0x05, 0x00, 0x50, 0x00, 0x32,
     0x00, 0x36, 0x00, 0x04, 0x00, 0x0b, 0x00, 0x00, 0x00, 0x19, 0x00, 0x14, 0x00, 0x0f]
  /** Display function control: the last parameter is the number of lines cut to a byte. */
  const FunctionControl: seq<byte> := [0x00, 0x00, 0x00, 0x02, 0x00, Lines % 256]

  /** The transcript `t` followed by the reset pulse (inactive, active, inactive) and the command line driven low. */
  function ResetLog(t: seq<Event>): seq<Event>
  {
    t + [GpioWrite(Reset, true)] + [GpioWrite(Reset, false)] + [GpioWrite(Reset, true)] + [GpioWrite(LcdRs, false)]
  }

  /** The transcript `t` followed by the SEND frames for sleep out after the hardware reset. */
  function WakeLog(t: seq<Event>): seq<Event>
  {
    t + CommandFrame(0xB0, [0x00, 0x00]) + CommandFrame(0x11, [])
  }

  /** The transcript `t` followed by the SEND frames for pixel format and display inversion. */
  function FormatLog(t: seq<Event>): seq<Event>
  {
    t
    + CommandFrame(0x3A, [0x00, 0x66])
    + CommandFrame(0xB4, [0x00, 0x00])
    + CommandFrame(0x20, [])
  }

  /** The transcript `t` followed by the SEND frames for power and VCOM control. */
  function PowerLog(t: seq<Event>): seq<Event>
  {
    t
    + CommandFrame(0xC0, [0x00, 0x09, 0x00, 0x09])
    + CommandFrame(0xC1, [0x00, 0x41, 0x00, 0x00])
    + CommandFrame(0xC2, [0x00, 0x33])
    + CommandFrame(0xC5, [0x00, 0x00, 0x00, 0x36])
  }

  /** The transcript `t` followed by the SEND frames for memory access, gamma and display function control. */
  function ControlLog(t: seq<Event>, mac: byte): seq<Event>
  {
    t
    + CommandFrame(0x36, [0x00, mac])
    + CommandFrame(0xE0, PositiveGamma)
    + CommandFrame(0xE1, NegativeGamma)
    + CommandFrame(0xB6, FunctionControl)
  }

  /** The transcript `t` followed by the SEND frames for sleep out, display on, idle off, normal mode. */
  function DisplayOnLog(t: seq<Event>): seq<Event>
  {
    t
    + CommandFrame(0x11, [])
    + CommandFrame(0x29, [])
    + CommandFrame(0x38, [])
    + CommandFrame(0x13, [])
  }

  /** The transcript `t` followed by everything create sends to the panel. */
  function InitLog(t: seq<Event>, mac: byte): seq<Event>
  {
    DisplayOnLog(ControlLog(PowerLog(FormatLog(WakeLog(ResetLog(t)))), mac))
  }

  /** The reset pulse leaves the panel with no commands received. */
  lemma ResetClears(st: PanelState, t: seq<Event>)
    ensures Panel(st, ResetLog(t)).received == []
  {
    var t1 := t + [GpioWrite(Reset, true)];
    var t2 := t1 + [GpioWrite(Reset, false)];
    var t3 := t2 + [GpioWrite(Reset, true)];
    PanelAppend(st, t1, [GpioWrite(Reset, false)]);
    PanelOne(Panel(st, t1), GpioWrite(Reset, false));
    PanelAppend(st, t2, [GpioWrite(Reset, true)]);
    PanelOne(Panel(st, t2), GpioWrite(Reset, true));
    PanelAppend(st, t3, [GpioWrite(LcdRs, false)]);
    PanelOne(Panel(st, t3), GpioWrite(LcdRs, false));
  }

  /** After create's transcript the panel holds exactly the initialisation registers, whatever came before. */
  lemma CreateDelivers(st: PanelState, t: seq<Event>, mac: byte)
    ensures Panel(st, InitLog(t, mac)).received == InitSequence(mac)
  {
    ResetClears(st, t);
    var t' := ResetLog(t);
    assert [] + [Command(0xB0, [0x00, 0x00])] == [Command(0xB0, [0x00, 0x00])];
    t' := Deliver(st, t', 0xB0, [0x00, 0x00]);
    t' := Deliver(st, t', 0x11, []);
    t' := Deliver(st, t', 0x3A, [0x00, 0x66]);
    t' := Deliver(st, t', 0xB4, [0x00, 0x00]);
    t' := Deliver(st, t', 0x20, []);
    t' := Deliver(st, t', 0xC0, [0x00, 0x09, 0x00, 0x09]);
    t' := Deliver(st, t', 0xC1, [0x00, 0x41, 0x00, 0x00]);
    t' := Deliver(st, t', 0xC2, [0x00, 0x33]);
    t' := Deliver(st, t', 0xC5, [0x00, 0x00, 0x00, 0x36]);
    t' := Deliver(st, t', 0x36, [0x00, mac]);
    t' := Deliver(st, t', 0xE0, PositiveGamma);
    t' := Deliver(st, t', 0xE1, NegativeGamma);
    t' := Deliver(st, t', 0xB6, FunctionControl);
    t' := Deliver(st, t', 0x11, []);
    t' := Deliver(st, t', 0x29, []);
    t' := Deliver(st, t', 0x38, []);
    t' := Deliver(st, t', 0x13, []);
  }

  /** The display function control register receives the panel width in bytes minus one. */
  lemma FunctionControlLines()
    ensures FunctionControl[5] == Width / 8 - 1 == 59
  {
  }

  // ---------------------------------------------------------------------
  // Refresh
  // ---------------------------------------------------------------------

  /** Column address window: columns 0 to Width - 1, as 16-bit big-endian values with pad bytes. */
  const ColumnWindow: seq<byte> := [0, 0, 0, 0, 0, (Width - 1) / 256, 0, (Width - 1) % 256]

  /** Page address window: rows y to Height - 1; the row number is cut to its two low bytes. */
  function RowWindow(y: nat): seq<byte>
  {
    [0, (y / 256) % 256, 0, y % 256, 0, (Height - 1) / 256, 0, (Height - 1) % 256]
  }

  /** How the panel reads an address window: start and end as 16-bit values. */
  function Window(p: seq<byte>): (int, int)
    requires |p| == 8
  {
    ((p[1] as int) * 256 + p[3] as int, (p[5] as int) * 256 + p[7] as int)
  }

  /** Every refresh row addresses the full width and starts at its own row. */
  lemma WindowsCoverRow(y: nat)
    requires y < Height
    ensures Window(ColumnWindow) == (0, Width - 1)
    ensures Window(RowWindow(y)) == (y, Height - 1)
  {
  }

  /** Pixels as bytes in memory order: red, green, blue. */
  function Flatten(px: seq<Rgb>): (r: seq<byte>)
    ensures |r| == 3 * |px|
  {
    if px == [] then [] else [px[0].red, px[0].green, px[0].blue] + Flatten(px[1..])
  }

  lemma {:induction false} FlattenLayout(px: seq<Rgb>)
    ensures forall i :: 0 <= i < |px| ==>
      Flatten(px)[3 * i] == px[i].red && Flatten(px)[3 * i + 1] == px[i].green && Flatten(px)[3 * i + 2] == px[i].blue
    decreases |px|
  {
    if px != [] {
      FlattenLayout(px[1..]);
      forall i | 1 <= i < |px|
        ensures Flatten(px)[3 * i] == px[i].red && Flatten(px)[3 * i + 1] == px[i].green && Flatten(px)[3 * i + 2] == px[i].blue
      {
        assert px[1..][i - 1] == px[i];
        assert Flatten(px)[3 * i] == Flatten(px[1..])[3 * (i - 1)];
        assert Flatten(px)[3 * i + 1] == Flatten(px[1..])[3 * (i - 1) + 1];
        assert Flatten(px)[3 * i + 2] == Flatten(px[1..])[3 * (i - 1) + 2];
      }
    }
  }

  /** Row y of the framebuffer, as the bytes a DATA_S transfer sends. */
  function RowBytes(fb: seq<Rgb>, y: nat): seq<byte>
    requires |fb| == Pixels && y < Height
  {
    Flatten(fb[y * Width..(y + 1) * Width])
  }

  /** The row transfer holds 1440 bytes: pixel (y, c) as red, green, blue at offset 3c. */
  lemma RowLayout(fb: seq<Rgb>, y: nat, c: nat)
    requires |fb| == Pixels && y < Height && c < Width
    ensures |RowBytes(fb, y)| == 3 * Width
    ensures RowBytes(fb, y)[3 * c] == fb[y * Width + c].red
    ensures RowBytes(fb, y)[3 * c + 1] == fb[y * Width + c].green
    ensures RowBytes(fb, y)[3 * c + 2] == fb[y * Width + c].blue
  {
    var row := fb[y * Width..(y + 1) * Width];
    FlattenLayout(row);
    assert row[c] == fb[y * Width + c];
  }

  /** The transcript `t` followed by the refresh of rows 0 to n - 1: column window, row window, row pixels. */
  function RefreshLog(t: seq<Event>, fb: seq<Rgb>, n: nat): seq<Event>
    requires |fb| == Pixels && n <= Height
  {
    if n == 0 then t
    else
      RefreshLog(t, fb, n - 1)
      + CommandFrame(0x2A, ColumnWindow) + CommandFrame(0x2B, RowWindow(n - 1)) + DataFrame(0x2C, RowBytes(fb, n - 1))
  }

  /** The register writes of refreshing rows 0 to n - 1. */
  function RefreshCommands(fb: seq<Rgb>, n: nat): (cs: seq<Command>)
    requires |fb| == Pixels && n <= Height
    ensures |cs| == 3 * n
  {
    if n == 0 then []
    else
      RefreshCommands(fb, n - 1)
      + [Command(0x2A, ColumnWindow)] + [Command(0x2B, RowWindow(n - 1))] + [Command(0x2C, RowBytes(fb, n - 1))]
  }

  /** The panel receives, row after row, the column window, the row window and the row's pixels. */
  lemma {:induction false} RefreshDelivers(st: PanelState, t: seq<Event>, fb: seq<Rgb>, n: nat)
    requires |fb| == Pixels && n <= Height
    ensures Panel(st, RefreshLog(t, fb, n)).received == Panel(st, t).received + RefreshCommands(fb, n)
    decreases n
  {
    var before := Panel(st, t).received;
    if n == 0 {
      assert before + [] == before;
    } else {
      var y := n - 1;
      RefreshDelivers(st, t, fb, y);
      var t' := RefreshLog(t, fb, y);
      t' := Deliver(st, t', 0x2A, ColumnWindow);
      t' := Deliver(st, t', 0x2B, RowWindow(y));
      t' := DeliverData(st, t', 0x2C, RowBytes(fb, y));
      var a, b, c := [Command(0x2A, ColumnWindow)], [Command(0x2B, RowWindow(y))], [Command(0x2C, RowBytes(fb, y))];
      AppendAssoc(before, RefreshCommands(fb, y), a);
      AppendAssoc(before, RefreshCommands(fb, y) + a, b);
      AppendAssoc(before, RefreshCommands(fb, y) + a + b, c);
    }
  }

  /** Commands 3y, 3y + 1 and 3y + 2 of a refresh address row y and write its pixels. */
  lemma {:induction false} RefreshRow(fb: seq<Rgb>, n: nat, y: nat)
    requires |fb| == Pixels && y < n <= Height
    ensures RefreshCommands(fb, n)[3 * y] == Command(0x2A, ColumnWindow)
    ensures RefreshCommands(fb, n)[3 * y + 1] == Command(0x2B, RowWindow(y))
    ensures RefreshCommands(fb, n)[3 * y + 2] == Command(0x2C, RowBytes(fb, y))
    decreases n
  {
    if y < n - 1 {
      RefreshRow(fb, n - 1, y);
    }
  }

  // ---------------------------------------------------------------------
  // Rectangle blit: clipping and source pixels
  // ---------------------------------------------------------------------

  /** Height after the bottom clamp. */
  function ClipHeight(y: int, height: int): int
  {
    if y + height > Height then Height - y else height
  }

  /** Width after the right clamp. */
  function ClipWidth(x: int, width: int): int
  {
    if x + width > Width then Width - x else width
  }

  /** Whether rect_rgba reports truncation. */
  predicate Truncated(x: int, y: int, width: int, height: int)
  {
    x >= Width || y >= Height || y + height > Height || x + width > Width
  }

  /** Whether rect_rgba writes screen pixel (r, c). */
  predicate Painted(x: int, y: int, offsetX: int, offsetY: int, width: int, height: int, r: int, c: int)
  {
    x < Width && y < Height
    && y <= r < y + (ClipHeight(y, height) - offsetY)
    && x <= c < x + (ClipWidth(x, width) - offsetX)
  }

  /** Whether the blue, green and red bytes of bitmap pixel (h, w) lie inside the buffer. */
  predicate InBuffer(buffer: seq<byte>, stride: nat, h: int, w: int)
  {
    0 <= h && 0 <= w && h * stride + 4 * w + 2 < |buffer|
  }

  /** Pixel (h, w) of a BGRA bitmap with the given row stride in bytes; alpha is ignored. */
  function BitmapPixel(buffer: seq<byte>, stride: nat, h: int, w: int): Rgb
    requires InBuffer(buffer, stride, h, w)
  {
    PixelAt(buffer, h * stride + 4 * w)
  }

  /** Whether a screen pixel shows bitmap pixel (h, w), which lies inside the buffer. */
  predicate Shows(pixel: Rgb, buffer: seq<byte>, stride: nat, h: int, w: int)
  {
    InBuffer(buffer, stride, h, w) && pixel == BitmapPixel(buffer, stride, h, w)
  }

  /** The BGRA pixel whose blue byte is at index k; alpha is ignored. */
  function PixelAt(buffer: seq<byte>, k: nat): Rgb
    requires k + 2 < |buffer|
  {
    Rgb(buffer[k + 2], buffer[k + 1], buffer[k])
  }

  /** Index of screen pixel (r, c) in the framebuffer. */
  function At(r: int, c: int): int
  {
    r * Width + c
  }

  /** A run of `len` pixels from (row, x) that stays on its row covers exactly those screen pixels. */
  lemma RowSegment(row: int, x: int, len: int, r: int, c: int)
    requires 0 <= x && x + len <= Width && 0 <= c < Width
    ensures At(row, x) <= At(r, c) < At(row, x) + len <==> r == row && x <= c < x + len
  {
  }

  lemma MulMono(a: int, b: int, k: nat)
    requires a <= b
    ensures a * k <= b * k
  {
  }

  /** A painted pixel is always on the screen. */
  lemma PaintedOnScreen(x: int, y: int, offsetX: int, offsetY: int, width: int, height: int, r: int, c: int)
    requires x >= 0 && y >= 0 && offsetX >= 0 && offsetY >= 0
    requires Painted(x, y, offsetX, offsetY, width, height, r, c)
    ensures 0 <= r < Height && 0 <= c < Width
  {
  }

  /** Without offsets the painted pixels are the requested rectangle cut to the screen. */
  lemma PaintedIsIntersection(x: int, y: int, width: int, height: int, r: int, c: int)
    requires x >= 0 && y >= 0
    ensures Painted(x, y, 0, 0, width, height, r, c)
        <==> y <= r < y + height && x <= c < x + width && r < Height && c < Width
  {
  }

  /** Truncation is reported exactly when the far corner of a non-empty bitmap is not drawn. */
  lemma TruncatedIffCornerLost(x: int, y: int, width: int, height: int)
    requires x >= 0 && y >= 0 && width > 0 && height > 0
    ensures Truncated(x, y, width, height) <==> !Painted(x, y, 0, 0, width, height, y + height - 1, x + width - 1)
  {
  }

  /**
   * Screen rows y to row - 1 of a blit of columns offsetX to w' - 1 show
   * their bitmap pixels, and every other pixel still has its value in orig.
   */
  predicate Blitted(fb: seq<Rgb>, orig: seq<Rgb>, buffer: seq<byte>, stride: nat,
                    x: int, y: int, offsetX: int, offsetY: int, w': int, row: int)
    requires |fb| == Pixels && |orig| == Pixels
  {
    (forall r, c :: 0 <= r < Height && 0 <= c < Width && y <= r < row && x <= c < x + (w' - offsetX) ==>
       Shows(fb[At(r, c)], buffer, stride, offsetY + (r - y), offsetX + (c - x)))
    && (forall r, c :: 0 <= r < Height && 0 <= c < Width && !(y <= r < row && x <= c < x + (w' - offsetX)) ==>
       fb[At(r, c)] == orig[At(r, c)])
  }

  /** When the outer loop of rect_rgba ends, the blitted pixels are exactly the painted ones. */
  lemma BlittedIsPainted(fb: seq<Rgb>, orig: seq<Rgb>, buffer: seq<byte>, stride: nat,
                         x: int, y: int, offsetX: int, offsetY: int, width: int, height: int, row: int)
    requires |fb| == Pixels && |orig| == Pixels && x < Width && y < Height
    requires row == y + (ClipHeight(y, height) - offsetY) || (row == y && ClipHeight(y, height) <= offsetY)
    requires Blitted(fb, orig, buffer, stride, x, y, offsetX, offsetY, ClipWidth(x, width), row)
    ensures forall r, c :: 0 <= r < Height && 0 <= c < Width && Painted(x, y, offsetX, offsetY, width, height, r, c) ==>
      Shows(fb[At(r, c)], buffer, stride, offsetY + (r - y), offsetX + (c - x))
    ensures forall r, c :: 0 <= r < Height && 0 <= c < Width && !Painted(x, y, offsetX, offsetY, width, height, r, c) ==>
      fb[At(r, c)] == orig[At(r, c)]
  {
  }

  // ---------------------------------------------------------------------
  // The driver
  // ---------------------------------------------------------------------

  class Driver {
    /** The framebuffer, null when absent. */
    var framebuffer: array?<Rgb>
    /** The static memory access control byte of create; it keeps its value between calls. */
    var mac: byte
    /** Whether the SPI channel and the GPIO handle are open. */
    var spiOpen: bool
    var gpioOpen: bool
    /** Everything written to the GPIO lines and the SPI bus so far. */
    var transcript: seq<Event>

    predicate Valid()
      reads this
    {
      framebuffer != null ==> framebuffer.Length == Pixels && spiOpen && gpioOpen
    }

    constructor ()
      ensures framebuffer == null && mac == MacInitial && !spiOpen && !gpioOpen && transcript == []
      ensures Valid()
    {
      framebuffer := null;
      mac := MacInitial;
      spiOpen := false;
      gpioOpen := false;
      transcript := [];
    }

    /** GPIO_write: pins outside 0..63 are ignored, and nothing reaches a closed device. */
    method WritePin(pin: int, high: bool)
      modifies this`transcript
      ensures transcript == old(transcript) + (if gpioOpen && 0 <= pin <= 63 then [GpioWrite(pin, high)] else [])
    {
      if pin < 0 || pin > 63 {
        return;
      }
      if gpioOpen {
        transcript := transcript + [GpioWrite(pin, high)];
      }
    }

    /** SPI_send: one transfer on an open channel. */
    method Transfer(bytes: seq<byte>)
      requires spiOpen
      modifies this`transcript
      ensures transcript == old(transcript) + [SpiSend(bytes)]
    {
      transcript := transcript + [SpiSend(bytes)];
    }

    /** The SEND macro. */
    method SendCommand(code: byte, params: seq<byte>)
      requires spiOpen && gpioOpen
      modifies this`transcript
      ensures transcript == old(transcript) + CommandFrame(code, params)
    {
      WritePin(LcdRs, false);
      Transfer([0x00, code]);
      WritePin(LcdRs, true);
      if |params| > 0 {
        Transfer(params);
      }
    }

    /** The DATA_S macro. */
    method SendData(code: byte, data: seq<byte>)
      requires spiOpen && gpioOpen
      modifies this`transcript
      ensures transcript == old(transcript) + DataFrame(code, data)
    {
      WritePin(LcdRs, false);
      Transfer([0x00, code]);
      WritePin(LcdRs, true);
      Transfer(data);
    }

    /** ILI9486_create: every failure in the source ends the process, so create always succeeds. */
    method Create(rotate: Rotation) returns (ok: bool)
      requires Valid()
      modifies this
      ensures ok && Valid() && framebuffer != null && spiOpen && gpioOpen
      ensures mac == if rotate == Rotation0 then Or(old(mac), MacRotate180) else old(mac)
      ensures old(framebuffer) != null ==> framebuffer == old(framebuffer)
      ensures old(framebuffer) == null ==> fresh(framebuffer) && forall i :: 0 <= i < Pixels ==> framebuffer[i] == Black
      ensures transcript == InitLog(old(transcript), mac)
    {
      if rotate == Rotation0 {
        mac := Or(mac, MacRotate180);
      }
      if framebuffer == null {
        framebuffer := new Rgb[Pixels](_ => Black);
      }
      gpioOpen := true;
      spiOpen := true;
      Initialise();
      ok := true;
    }

    /** The reset pulse and the register writes of create. */
    method Initialise()
      requires spiOpen && gpioOpen
      modifies this`transcript
      ensures transcript == InitLog(old(transcript), mac)
    {
      WritePin(Reset, true);
      WritePin(Reset, false);
      WritePin(Reset, true);
      WritePin(LcdRs, false);
      Wake();
      Format();
      Power();
      Control();
      DisplayOn();
    }

    method Wake()
      requires spiOpen && gpioOpen
      modifies this`transcript
      ensures transcript == WakeLog(old(transcript))
    {
      SendCommand(0xB0, [0x00, 0x00]);
      SendCommand(0x11, []);
    }

    method Format()
      requires spiOpen && gpioOpen
      modifies this`transcript
      ensures transcript == FormatLog(old(transcript))
    {
      SendCommand(0x3A, [0x00, 0x66]);
      SendCommand(0xB4, [0x00, 0x00]);
      SendCommand(0x20, []);
    }

    method Power()
      requires spiOpen && gpioOpen
      modifies this`transcript
      ensures transcript == PowerLog(old(transcript))
    {
      SendCommand(0xC0, [0x00, 0x09, 0x00, 0x09]);
      SendCommand(0xC1, [0x00, 0x41, 0x00, 0x00]);
      SendCommand(0xC2, [0x00, 0x33]);
      SendCommand(0xC5, [0x00, 0x00, 0x00, 0x36]);
    }

    method Control()
      requires spiOpen && gpioOpen
      modifies this`transcript
      ensures transcript == ControlLog(old(transcript), mac)
    {
      SendCommand(0x36, [0x00, mac]);
      SendCommand(0xE0, PositiveGamma);
      SendCommand(0xE1, NegativeGamma);
      SendCommand(0xB6, FunctionControl);
    }

    method DisplayOn()
      requires spiOpen && gpioOpen
      modifies this`transcript
      ensures transcript == DisplayOnLog(old(transcript))
    {
      SendCommand(0x11, []);
      SendCommand(0x29, []);
      SendCommand(0x38, []);
      SendCommand(0x13, []);
    }

    /** ILI9486_destroy: succeeds exactly when an SPI channel was open. */
    method Destroy() returns (ok: bool)
      modifies this
      ensures ok == old(spiOpen)
      ensures framebuffer == null && !spiOpen && !gpioOpen && mac == old(mac) && Valid()
      ensures transcript == old(transcript) + (if old(gpioOpen) then [GpioWrite(Reset, false)] else [])
    {
      WritePin(Reset, false);
      framebuffer := null;
      ok := spiOpen;
      spiOpen := false;
      gpioOpen := false;
    }

    /** ILI9486_refresh: every row of the framebuffer is sent to the panel. */
    method Refresh()
      requires Valid()
      modifies this`transcript
      ensures framebuffer == null ==> transcript == old(transcript)
      ensures framebuffer != null ==> transcript == RefreshLog(old(transcript), framebuffer[..], Height)
    {
      if framebuffer == null {
        return;
      }
      var y := 0;
      while y < Height
        invariant 0 <= y <= Height
        invariant transcript == RefreshLog(old(transcript), framebuffer[..], y)
      {
        SendCommand(0x2A, ColumnWindow);
        SendCommand(0x2B, RowWindow(y));
        SendData(0x2C, RowBytes(framebuffer[..], y));
        y := y + 1;
      }
    }

    /** ILI9486_sync: a full refresh. */
    method Sync()
      requires Valid()
      modifies this`transcript
      ensures framebuffer == null ==> transcript == old(transcript)
      ensures framebuffer != null ==> transcript == RefreshLog(old(transcript), framebuffer[..], Height)
    {
      Refresh();
    }

    /** ILI9486_clear: every pixel takes the colour; the hardware is not touched. */
    method Clear(red: byte, green: byte, blue: byte)
      requires Valid()
      modifies framebuffer
      ensures framebuffer != null ==> forall i :: 0 <= i < Pixels ==> framebuffer[i] == Rgb(red, green, blue)
    {
      if framebuffer == null {
        return;
      }
      var n := 0;
      while n < Pixels
        invariant 0 <= n <= Pixels
        invariant forall i :: 0 <= i < n ==> framebuffer[i] == Rgb(red, green, blue)
      {
        framebuffer[n] := Rgb(red, green, blue);
        n := n + 1;
      }
    }

    /**
     * ILI9486_rect_rgba: copies the bitmap rows offsetY.. and columns
     * offsetX.. to the screen at (x, y), clamped to the screen, converting
     * BGRA to the framebuffer's RGB and ignoring alpha.  Every painted pixel
     * is read from inside the buffer; every other pixel keeps its value.
     */
    method RectRgba(x: int, y: int, offsetX: int, offsetY: int, width: int, height: int,
                    stride: nat, buffer: seq<byte>) returns (truncated: bool)
      requires Valid() && framebuffer != null
      requires x >= 0 && y >= 0 && offsetX >= 0 && offsetY >= 0
      requires 4 * width <= stride && height * stride <= |buffer|
      modifies framebuffer
      ensures truncated == Truncated(x, y, width, height)
      ensures forall r, c :: 0 <= r < Height && 0 <= c < Width && Painted(x, y, offsetX, offsetY, width, height, r, c) ==>
        Shows(framebuffer[At(r, c)], buffer, stride, offsetY + (r - y), offsetX + (c - x))
      ensures forall r, c :: 0 <= r < Height && 0 <= c < Width && !Painted(x, y, offsetX, offsetY, width, height, r, c) ==>
        framebuffer[At(r, c)] == old(framebuffer[At(r, c)])
    {
      if x >= Width || y >= Height {
        return true;
      }
      truncated := false;
      var h' := height;
      var w' := width;
      if y + height > Height {
        h' := Height - y;
        truncated := true;
      }
      if x + width > Width {
        w' := Width - x;
        truncated := true;
      }
      assert h' == ClipHeight(y, height) && w' == ClipWidth(x, width);
      ghost var orig := framebuffer[..];
      var row := y;
      var h := offsetY;
      while h < h'
        invariant offsetY <= h && (h <= h' || h == offsetY)
        invariant row == y + (h - offsetY)
        invariant Blitted(framebuffer[..], orig, buffer, stride, x, y, offsetX, offsetY, w', row)
      {
        BlitRow(x, y, offsetX, offsetY, w', row, height, stride, buffer, orig);
        row := row + 1;
        h := h + 1;
      }
      BlittedIsPainted(framebuffer[..], orig, buffer, stride, x, y, offsetX, offsetY, width, height, row);
    }

    /** One pass of rect_rgba's outer loop: screen row `row` from bitmap row offsetY + (row - y). */
    method BlitRow(x: int, y: int, offsetX: int, offsetY: int, w': int, row: int, height: int,
                   stride: nat, buffer: seq<byte>, ghost orig: seq<Rgb>)
      requires Valid() && framebuffer != null && |orig| == Pixels
      requires 0 <= x && x + (w' - offsetX) <= Width && 0 <= offsetX && 0 <= y <= row < Height
      requires 0 <= offsetY && offsetY + (row - y) < height
      requires 4 * w' <= stride && height * stride <= |buffer|
      requires Blitted(framebuffer[..], orig, buffer, stride, x, y, offsetX, offsetY, w', row)
      modifies framebuffer
      ensures Blitted(framebuffer[..], orig, buffer, stride, x, y, offsetX, offsetY, w', row + 1)
    {
      var h := offsetY + (row - y);
      MulMono(h + 1, height, stride);
      assert (h + 1) * stride == h * stride + stride;
      ghost var before := framebuffer[..];
      CopyRow(At(row, x), h * stride, offsetX, w', buffer);
      forall r, c | 0 <= r < Height && 0 <= c < Width && y <= r < row + 1 && x <= c < x + (w' - offsetX)
        ensures Shows(framebuffer[..][At(r, c)], buffer, stride, offsetY + (r - y), offsetX + (c - x))
      {
        RowSegment(row, x, w' - offsetX, r, c);
        if r == row {
          assert At(r, c) - At(row, x) == c - x;
        } else {
          assert framebuffer[At(r, c)] == before[At(r, c)];
        }
      }
      forall r, c | 0 <= r < Height && 0 <= c < Width && !(y <= r < row + 1 && x <= c < x + (w' - offsetX))
        ensures framebuffer[..][At(r, c)] == orig[At(r, c)]
      {
        RowSegment(row, x, w' - offsetX, r, c);
        assert framebuffer[At(r, c)] == before[At(r, c)];
      }
    }

    /**
     * One row of rect_rgba: bitmap columns offsetX to w' - 1 of the row that
     * starts at byte `base`, to the framebuffer from index `start` on.
     */
    method CopyRow(start: int, base: nat, offsetX: nat, w': int, buffer: seq<byte>)
      requires Valid() && framebuffer != null
      requires 0 <= start && start + (w' - offsetX) <= Pixels
      requires base + 4 * w' <= |buffer|
      modifies framebuffer
      ensures forall i :: 0 <= i < Pixels && start <= i < start + (w' - offsetX) ==>
        base + 4 * (offsetX + (i - start)) + 2 < |buffer|
        && framebuffer[i] == PixelAt(buffer, base + 4 * (offsetX + (i - start)))
      ensures forall i :: 0 <= i < Pixels && !(start <= i < start + (w' - offsetX)) ==> framebuffer[i] == old(framebuffer[i])
    {
      var p := start;
      var s := base + 4 * offsetX;
      var w := offsetX;
      while w < w'
        invariant offsetX <= w && (w <= w' || w == offsetX)
        invariant p == start + (w - offsetX) && s == base + 4 * w
        invariant forall i :: start <= i < p ==>
          base + 4 * (offsetX + (i - start)) + 2 < |buffer|
          && framebuffer[i] == PixelAt(buffer, base + 4 * (offsetX + (i - start)))
        invariant forall i :: 0 <= i < Pixels && !(start <= i < p) ==> framebuffer[i] == old(framebuffer[i])
      {
        framebuffer[p] := Rgb(buffer[s + 2], buffer[s + 1], buffer[s]);
        s := s + 4;
        p := p + 1;
        w := w + 1;
      }
    }
  }
}
