/** The ST7789 display driver: the command bytes, the MADCTL rotation table,
    command and data framing on the SPI bus, the power-up sequence, the
    drawing window and the full-screen fill, and the text helpers built on
    the font's per-character widths. The bus is an append-only log of pin
    and SPI signals; `Packets` reads that log the way the panel does. */
module St7789 {
  import Text

  type byte = x: int | 0 <= x < 256
  /** A pin level, 0 or 1. */
  type bit = x: int | 0 <= x < 2

  const SLPOUT: byte := 0x11
  const NORON: byte := 0x13
  const DISPON: byte := 0x29
  const CASET: byte := 0x2A
  const RASET: byte := 0x2B
  const RAMWR: byte := 0x2C
  const COLMOD: byte := 0x3A
  const MADCTL: byte := 0x36

  /** The MADCTL bits: row order, column order, row/column exchange. */
  const MADCTL_MY: bv8 := 0x80
  const MADCTL_MX: bv8 := 0x40
  const MADCTL_MV: bv8 := 0x20
  const MADCTL_RGB: bv8 := 0x00

  /** The 16-bit colour format selected by COLMOD. */
  const COLOR_MODE_16BIT: byte := 0x55
  /** `fill` sends the screen in pieces of this many pixels. */
  const CHUNK_PIXELS := 512

  /** One event on the display's lines: the reset, chip-select and
      data/command pins, an SPI transfer, or a pause. */
  datatype Signal = Reset(level: bit) | Cs(level: bit) | Dc(level: bit) | Spi(bytes: seq<byte>) | Sleep(ms: int)

  /** What the panel latches: the bytes of one transfer and whether the
      data/command line marked them as data (1) or a command (0). */
  datatype Packet = Packet(dc: bit, bytes: seq<byte>)

  /** The levels of chip select and data/command. */
  datatype Lines = Lines(cs: bit, dc: bit)

  // ---------------------------------------------------------------------------
  // Reading the bus as the panel does

  function Next(st: Lines, s: Signal): Lines {
    match s
    case Cs(l) => st.(cs := l)
    case Dc(l) => st.(dc := l)
    case _ => st
  }

  /** The line levels after the signals `log`, from `st`. */
  function After(log: seq<Signal>, st: Lines): Lines
    decreases |log|
  {
    if log == [] then st else After(log[1..], Next(st, log[0]))
  }

  /** The transfers the panel receives: only those made while chip select is
      low, each tagged with the data/command level of the moment. */
  function Packets(log: seq<Signal>, st: Lines): seq<Packet>
    decreases |log|
  {
    if log == [] then []
    else
      (if log[0].Spi? && st.cs == 0 then [Packet(st.dc, log[0].bytes)] else []) +
      Packets(log[1..], Next(st, log[0]))
  }

  /** The panel reads a log piece by piece. */
  lemma {:induction false} PacketsAppend(a: seq<Signal>, b: seq<Signal>, st: Lines)
    ensures Packets(a + b, st) == Packets(a, st) + Packets(b, After(a, st))
    ensures After(a + b, st) == After(b, After(a, st))
    decreases |a|
  {
    if a != [] {
      assert (a + b)[1..] == a[1..] + b;
      PacketsAppend(a[1..], b, Next(st, a[0]));
    } else {
      assert a + b == b;
    }
  }

  // ---------------------------------------------------------------------------
  // Encodings

  /** The bounds `to_bytes(2, 'big')` accepts without an `OverflowError`. */
  predicate Fits16(n: int) {
    0 <= n < 0x1_0000
  }

  /** `n.to_bytes(2, 'big')`. */
  function Be16(n: int): (r: seq<byte>)
    requires Fits16(n)
    ensures |r| == 2 && r[0] as int * 256 + r[1] as int == n
  {
    [n / 256, n % 256]
  }

  /** `int.from_bytes(b, 'big')` for two bytes. */
  function Be16Value(b: seq<byte>): int
    requires |b| == 2
  {
    b[0] as int * 256 + b[1] as int
  }

  /** Two-byte big-endian encoding loses nothing. */
  lemma Be16RoundTrip(n: int, b: seq<byte>)
    requires Fits16(n) && |b| == 2
    ensures Be16Value(Be16(n)) == n
    ensures Be16(Be16Value(b)) == b
  {
  }

  /** `_rotation()`: the MADCTL byte for the configured rotation. */
  function Rotation(rotation: int): (m: byte)
    ensures 0 <= rotation < 4 ==> m == [0x00, 0x60, 0xC0, 0xA0][rotation]
    ensures !(0 <= rotation < 4) ==> m == 0x00
    ensures 0 <= rotation < 4 ==> ((m as bv8 & MADCTL_MV) != 0 <==> rotation % 2 == 1)
  {
    if rotation == 0 then MADCTL_RGB as int
    else if rotation == 1 then (MADCTL_MX | MADCTL_MV | MADCTL_RGB) as int
    else if rotation == 2 then (MADCTL_MX | MADCTL_MY | MADCTL_RGB) as int
    else if rotation == 3 then (MADCTL_MY | MADCTL_MV | MADCTL_RGB) as int
    else MADCTL_RGB as int
  }

  /** `color_bytes * n`: `n` pixels of one colour. */
  function Pixels(color: int, n: nat): (r: seq<byte>)
    requires Fits16(color)
    ensures |r| == 2 * n
  {
    if n == 0 then [] else Be16(color) + Pixels(color, n - 1)
  }

  /** Every pixel of `Pixels(color, n)` is the colour, high byte first. */
  lemma {:induction false} PixelsAt(color: int, n: nat, i: nat)
    requires Fits16(color) && i < n
    ensures Pixels(color, n)[2 * i..2 * i + 2] == Be16(color)
    decreases n
  {
    if i > 0 {
      PixelsAt(color, n - 1, i - 1);
      assert Pixels(color, n)[2 * i..2 * i + 2] == Pixels(color, n - 1)[2 * (i - 1)..2 * (i - 1) + 2];
    }
  }

  lemma {:induction false} PixelsAdd(color: int, a: nat, b: nat)
    requires Fits16(color)
    ensures Pixels(color, a) + Pixels(color, b) == Pixels(color, a + b)
    decreases a
  {
    if a > 0 {
      var p := Be16(color);
      calc {
        Pixels(color, a) + Pixels(color, b);
        (p + Pixels(color, a - 1)) + Pixels(color, b);
        p + (Pixels(color, a - 1) + Pixels(color, b));
        { PixelsAdd(color, a - 1, b); }
        p + Pixels(color, a - 1 + b);
      }
    } else {
      assert Pixels(color, a) == [];
    }
  }

  // ---------------------------------------------------------------------------
  // The signals of each operation

  /** `_write_cmd(cmd)`. */
  function CmdSignals(cmd: byte): seq<Signal> {
    [Cs(0), Dc(0), Spi([cmd]), Cs(1)]
  }

  /** `_write_data(data)`. */
  function DataSignals(data: seq<byte>): seq<Signal> {
    [Cs(0), Dc(1), Spi(data), Cs(1)]
  }

  /** `_set_window(x, y, w, h)`. */
  function WindowSignals(x: int, y: int, w: int, h: int): seq<Signal>
    requires Fits16(x) && Fits16(x + w - 1) && Fits16(y) && Fits16(y + h - 1)
  {
    CmdSignals(CASET) + DataSignals(Be16(x) + Be16(x + w - 1)) +
    CmdSignals(RASET) + DataSignals(Be16(y) + Be16(y + h - 1)) +
    CmdSignals(RAMWR)
  }

  /** What the panel receives for `_set_window(x, y, w, h)`: the inclusive
      column range, the inclusive row range, then the memory write. */
  function WindowPackets(x: int, y: int, w: int, h: int): seq<Packet>
    requires Fits16(x) && Fits16(x + w - 1) && Fits16(y) && Fits16(y + h - 1)
  {
    [Packet(0, [CASET]), Packet(1, Be16(x) + Be16(x + w - 1)),
     Packet(0, [RASET]), Packet(1, Be16(y) + Be16(y + h - 1)),
     Packet(0, [RAMWR])]
  }

  /** The reset pulse of `init` with its settling pauses. */
  const RESET_PULSE := [Reset(1), Sleep(50), Reset(0), Sleep(50), Reset(1), Sleep(150)]

  /** The signals of `init`, in three parts: the reset pulse and
      sleep-out, the configuration, then normal mode and display on. */
  function WakeSignals(): seq<Signal> {
    RESET_PULSE + CmdSignals(SLPOUT) + [Sleep(120)]
  }

  function ConfigureSignals(width: int, height: int, rotation: int): seq<Signal>
    requires Fits16(width) && Fits16(height)
  {
    FormatSignals(rotation) + ExtentSignals(width, height)
  }

  /** 16-bit colour and the rotation. */
  function FormatSignals(rotation: int): seq<Signal> {
    CmdSignals(COLMOD) + DataSignals([COLOR_MODE_16BIT]) +
    CmdSignals(MADCTL) + DataSignals([Rotation(rotation)])
  }

  /** The full column and row ranges. */
  function ExtentSignals(width: int, height: int): seq<Signal>
    requires Fits16(width) && Fits16(height)
  {
    CmdSignals(CASET) + DataSignals([0, 0] + Be16(width)) +
    CmdSignals(RASET) + DataSignals([0, 0] + Be16(height))
  }

  function EnableSignals(): seq<Signal> {
    CmdSignals(NORON) + [Sleep(10)] + CmdSignals(DISPON) + [Sleep(120)]
  }

  /** What the panel receives from the configuration part of `init`. */
  function ConfigurePackets(width: int, height: int, rotation: int): seq<Packet>
    requires Fits16(width) && Fits16(height)
  {
    FormatPackets(rotation) + ExtentPackets(width, height)
  }

  function FormatPackets(rotation: int): seq<Packet> {
    [Packet(0, [COLMOD]), Packet(1, [COLOR_MODE_16BIT]),
     Packet(0, [MADCTL]), Packet(1, [Rotation(rotation)])]
  }

  function ExtentPackets(width: int, height: int): seq<Packet>
    requires Fits16(width) && Fits16(height)
  {
    [Packet(0, [CASET]), Packet(1, [0, 0] + Be16(width)),
     Packet(0, [RASET]), Packet(1, [0, 0] + Be16(height))]
  }

  /** The last, short write of `fill`, when `n` is not a whole number of
      chunks. */
  function RemainderSignals(color: int, n: nat): seq<Signal>
    requires Fits16(color)
  {
    if n % CHUNK_PIXELS > 0 then [Spi(Pixels(color, n % CHUNK_PIXELS))] else []
  }

  /** What the panel receives from the SPI part of `fill`. */
  function FillPackets(color: int, n: nat): seq<Packet>
    requires Fits16(color)
  {
    Text.Repeat(Packet(1, Pixels(color, CHUNK_PIXELS)), n / CHUNK_PIXELS) + RemainderPackets(color, n)
  }

  function RemainderPackets(color: int, n: nat): seq<Packet>
    requires Fits16(color)
  {
    if n % CHUNK_PIXELS > 0 then [Packet(1, Pixels(color, n % CHUNK_PIXELS))] else []
  }

  lemma Area(width: int, height: int)
    requires 1 <= width && 1 <= height
    ensures width * height >= 1
  {
  }

  /** The bytes of a run of transfers, in order. */
  function Payload(ps: seq<Packet>): seq<byte>
    decreases |ps|
  {
    if ps == [] then [] else Payload(ps[..|ps| - 1]) + ps[|ps| - 1].bytes
  }

  lemma {:induction false} PayloadAppend(a: seq<Packet>, b: seq<Packet>)
    ensures Payload(a + b) == Payload(a) + Payload(b)
    decreases |b|
  {
    if b == [] {
      assert a + b == a;
    } else {
      var b' := b[..|b| - 1];
      assert (a + b)[..|a + b| - 1] == a + b';
      PayloadAppend(a, b');
    }
  }

  lemma {:induction false} PayloadChunks(color: int, k: nat)
    requires Fits16(color)
    ensures Payload(Text.Repeat(Packet(1, Pixels(color, CHUNK_PIXELS)), k)) == Pixels(color, CHUNK_PIXELS * k)
    decreases k
  {
    if k > 0 {
      var c := Text.Repeat(Packet(1, Pixels(color, CHUNK_PIXELS)), k);
      assert c[..k - 1] == Text.Repeat(Packet(1, Pixels(color, CHUNK_PIXELS)), k - 1);
      PayloadChunks(color, k - 1);
      PixelsAdd(color, CHUNK_PIXELS * (k - 1), CHUNK_PIXELS);
    }
  }

  /** The remainder transfer carries the remaining pixels. */
  lemma PayloadTail(color: int, rem: nat)
    requires Fits16(color)
    ensures Payload(if rem > 0 then [Packet(1, Pixels(color, rem))] else []) == Pixels(color, rem)
  {
    if rem > 0 {
      var tail := [Packet(1, Pixels(color, rem))];
      assert tail[..0] == [];
    }
  }

  /** The whole chunks and the remainder make up the `n` pixels. */
  lemma PixelsSplit(color: int, n: nat)
    requires Fits16(color)
    ensures Pixels(color, CHUNK_PIXELS * (n / CHUNK_PIXELS)) + Pixels(color, n % CHUNK_PIXELS) == Pixels(color, n)
  {
    var m, rem := CHUNK_PIXELS * (n / CHUNK_PIXELS), n % CHUNK_PIXELS;
    PixelsAdd(color, m, rem);
    assert m + rem == n;
  }

  /** `fill` carries exactly `n` pixels of the colour, `2 * n` bytes: the
      512-pixel chunks and the remainder add up to `width * height`. */
  lemma FillPayload(color: int, n: nat)
    requires Fits16(color)
    ensures Payload(FillPackets(color, n)) == Pixels(color, n)
    ensures |Payload(FillPackets(color, n))| == 2 * n
  {
    var k, rem := n / CHUNK_PIXELS, n % CHUNK_PIXELS;
    var chunks := Text.Repeat(Packet(1, Pixels(color, CHUNK_PIXELS)), k);
    var tail := if rem > 0 then [Packet(1, Pixels(color, rem))] else [];
    var m := CHUNK_PIXELS * k;
    calc {
      Payload(FillPackets(color, n));
      Payload(chunks + tail);
      { PayloadAppend(chunks, tail); }
      Payload(chunks) + Payload(tail);
      { PayloadChunks(color, k); PayloadTail(color, rem); }
      Pixels(color, m) + Pixels(color, rem);
      { PixelsSplit(color, n); }
      Pixels(color, n);
    }
  }

  /** Every transfer of `fill` is data and none is longer than one 512-pixel
      chunk; there are `n // 512` of them, one more when `n % 512 > 0`. */
  lemma FillTransfers(color: int, n: nat)
    requires Fits16(color)
    ensures var ps := FillPackets(color, n);
            && |ps| == n / CHUNK_PIXELS + (if n % CHUNK_PIXELS > 0 then 1 else 0)
            && (forall i :: 0 <= i < |ps| ==> ps[i].dc == 1 && 0 < |ps[i].bytes| <= 2 * CHUNK_PIXELS)
  {
  }

  // ---------------------------------------------------------------------------
  // Text

  /** `width(font, text)`: the sum of the font's widths of the characters. */
  function TextWidth(text: string, charWidth: char -> nat): nat
    decreases |text|
  {
    if text == [] then 0 else TextWidth(text[..|text| - 1], charWidth) + charWidth(text[|text| - 1])
  }

  /** The width of a concatenation is the sum of the widths. */
  lemma {:induction false} TextWidthAppend(a: string, b: string, charWidth: char -> nat)
    ensures TextWidth(a + b, charWidth) == TextWidth(a, charWidth) + TextWidth(b, charWidth)
    decreases |b|
  {
    if b == [] {
      assert a + b == a;
    } else {
      var b' := b[..|b| - 1];
      assert (a + b)[..|a + b| - 1] == a + b';
      TextWidthAppend(a, b', charWidth);
    }
  }

  /** One `font.render_char(display, char, x, y, fg, bg)` call. */
  datatype Glyph = Glyph(ch: char, x: int, y: int, fg: int, bg: int)

  // ---------------------------------------------------------------------------
  // The driver

  /** The line levels the panel starts from. Every operation drives chip
      select low before it transfers anything, so nothing depends on them. */
  const BOOT_LINES := Lines(1, 1)

  /** The signal `s` hands the panel a transfer exactly when it is an SPI
      write made while chip select is low. */
  function Latched(st: Lines, s: Signal): seq<Packet> {
    if s.Spi? && st.cs == 0 then [Packet(st.dc, s.bytes)] else []
  }

  lemma AppendOne(log: seq<Signal>, s: Signal, st: Lines)
    ensures Packets(log + [s], st) == Packets(log, st) + Latched(After(log, st), s)
    ensures After(log + [s], st) == Next(After(log, st), s)
  {
    PacketsAppend(log, [s], st);
    assert [s][1..] == [];
  }

  /** An `ST7789` driver: its configuration and everything it has put on the
      panel's lines (`log`) or drawn through the font (`drawn`). */
  class ST7789 {
    const width: int
    const height: int
    const rotation: int
    var log: seq<Signal>
    var drawn: seq<Glyph>

    constructor (width: int, height: int, rotation: int)
      ensures this.width == width && this.height == height && this.rotation == rotation
      ensures log == [] && drawn == []
    {
      this.width := width;
      this.height := height;
      this.rotation := rotation;
      log := [];
      drawn := [];
    }

    /** The transfers the panel has received. */
    function Received(): seq<Packet>
      reads this
    {
      Packets(log, BOOT_LINES)
    }

    /** The current chip-select and data/command levels. */
    function Levels(): Lines
      reads this
    {
      After(log, BOOT_LINES)
    }

    /** Drive a pin, write to the SPI bus or pause. */
    method Emit(s: Signal)
      modifies this`log
      ensures log == old(log) + [s]
      ensures Received() == old(Received()) + Latched(old(Levels()), s)
      ensures Levels() == Next(old(Levels()), s)
    {
      AppendOne(log, s, BOOT_LINES);
      log := log + [s];
    }

    /** `_write_cmd(cmd)`: exactly one command transfer, chip select high
        afterwards. */
    method WriteCmd(cmd: byte)
      modifies this`log
      ensures log == old(log) + CmdSignals(cmd)
      ensures Received() == old(Received()) + [Packet(0, [cmd])]
      ensures Levels() == Lines(1, 0)
    {
      Emit(Cs(0));
      Emit(Dc(0));
      Emit(Spi([cmd]));
      Emit(Cs(1));
    }

    /** `_write_data(data)`: exactly one data transfer, chip select high
        afterwards. */
    method WriteData(data: seq<byte>)
      modifies this`log
      ensures log == old(log) + DataSignals(data)
      ensures Received() == old(Received()) + [Packet(1, data)]
      ensures Levels() == Lines(1, 1)
    {
      Emit(Cs(0));
      Emit(Dc(1));
      Emit(Spi(data));
      Emit(Cs(1));
    }

    /** `time.sleep_ms` and the reset pin: nothing reaches the panel's
        memory. */
    method Quiet(s: Signal)
      requires s.Reset? || s.Sleep?
      modifies this`log
      ensures log == old(log) + [s]
      ensures Received() == old(Received()) && Levels() == old(Levels())
    {
      Emit(s);
    }

    /** `init`: the reset pulse and sleep-out, then 16-bit colour, the
        rotation and the full column and row ranges (ending at the width and
        height themselves, not one less), then normal mode and display on. */
    method Init()
      requires Fits16(width) && Fits16(height)
      modifies this`log
      ensures log == old(log) + WakeSignals() + ConfigureSignals(width, height, rotation) + EnableSignals()
      ensures Received() == old(Received()) + [Packet(0, [SLPOUT])] + ConfigurePackets(width, height, rotation) +
                            [Packet(0, [NORON]), Packet(0, [DISPON])]
      ensures Levels().cs == 1
    {
      Wake();
      Configure();
      Enable();
    }

    method Wake()
      modifies this`log
      ensures log == old(log) + WakeSignals()
      ensures Received() == old(Received()) + [Packet(0, [SLPOUT])]
    {
      Quiet(Reset(1));
      Quiet(Sleep(50));
      Quiet(Reset(0));
      Quiet(Sleep(50));
      Quiet(Reset(1));
      Quiet(Sleep(150));
      WriteCmd(SLPOUT);
      Quiet(Sleep(120));
    }

    method Configure()
      requires Fits16(width) && Fits16(height)
      modifies this`log
      ensures log == old(log) + ConfigureSignals(width, height, rotation)
      ensures Received() == old(Received()) + ConfigurePackets(width, height, rotation)
    {
      Format();
      Extent();
    }

    method Format()
      modifies this`log
      ensures log == old(log) + FormatSignals(rotation)
      ensures Received() == old(Received()) + FormatPackets(rotation)
    {
      WriteCmd(COLMOD);
      WriteData([COLOR_MODE_16BIT]);
      WriteCmd(MADCTL);
      WriteData([Rotation(rotation)]);
    }

    method Extent()
      requires Fits16(width) && Fits16(height)
      modifies this`log
      ensures log == old(log) + ExtentSignals(width, height)
      ensures Received() == old(Received()) + ExtentPackets(width, height)
    {
      WriteCmd(CASET);
      WriteData([0, 0] + Be16(width));
      WriteCmd(RASET);
      WriteData([0, 0] + Be16(height));
    }

    method Enable()
      modifies this`log
      ensures log == old(log) + EnableSignals()
      ensures Received() == old(Received()) + [Packet(0, [NORON]), Packet(0, [DISPON])]
      ensures Levels().cs == 1
    {
      WriteCmd(NORON);
      Quiet(Sleep(10));
      WriteCmd(DISPON);
      Quiet(Sleep(120));
    }

    /** `_set_window(x, y, w, h)`. */
    method SetWindow(x: int, y: int, w: int, h: int)
      requires Fits16(x) && Fits16(x + w - 1) && Fits16(y) && Fits16(y + h - 1)
      modifies this`log
      ensures log == old(log) + WindowSignals(x, y, w, h)
      ensures Received() == old(Received()) + WindowPackets(x, y, w, h)
      ensures Levels().cs == 1
    {
      WriteCmd(CASET);
      WriteData(Be16(x) + Be16(x + w - 1));
      WriteCmd(RASET);
      WriteData(Be16(y) + Be16(y + h - 1));
      WriteCmd(RAMWR);
    }

    /** `fill(color)`: the whole screen as the window, then `width * height`
        pixels under one chip select with the data/command line high: whole
        chunks of 512 pixels from one buffer, then the remainder if there is
        one. */
    method Fill(color: int)
      requires 1 <= width <= 0x1_0000 && 1 <= height <= 0x1_0000 && Fits16(color)
      modifies this`log
      ensures log == old(log) + WindowSignals(0, 0, width, height) + [Cs(0)] + [Dc(1)] +
                     Text.Repeat(Spi(Pixels(color, CHUNK_PIXELS)), width * height / CHUNK_PIXELS) +
                     RemainderSignals(color, width * height) + [Cs(1)]
      ensures Received() == old(Received()) + WindowPackets(0, 0, width, height) + FillPackets(color, width * height)
      ensures Levels().cs == 1
    {
      SetWindow(0, 0, width, height);
      Area(width, height);
      var n := width * height;
      Stream(color, n);
    }

    /** The SPI part of `fill` for `n` pixels. */
    method Stream(color: int, n: nat)
      requires Fits16(color)
      modifies this`log
      ensures log == old(log) + [Cs(0)] + [Dc(1)] + Text.Repeat(Spi(Pixels(color, CHUNK_PIXELS)), n / CHUNK_PIXELS) +
                     RemainderSignals(color, n) + [Cs(1)]
      ensures Received() == old(Received()) + FillPackets(color, n)
      ensures Levels().cs == 1
    {
      var chunks := n / CHUNK_PIXELS;
      var buffer := Pixels(color, CHUNK_PIXELS);
      ghost var received0 := Received();
      Emit(Cs(0));
      Emit(Dc(1));
      Chunks(buffer, chunks);
      Remainder(color, n);
      Emit(Cs(1));
      assert Received() == received0 + (Text.Repeat(Packet(1, buffer), chunks) + RemainderPackets(color, n));
    }

    /** `if rem > 0: self.spi.write(bytearray(color_bytes * rem))`. */
    method Remainder(color: int, n: nat)
      requires Fits16(color) && Levels() == Lines(0, 1)
      modifies this`log
      ensures log == old(log) + RemainderSignals(color, n)
      ensures Received() == old(Received()) + RemainderPackets(color, n)
      ensures Levels() == Lines(0, 1)
    {
      var rem := n % CHUNK_PIXELS;
      if rem > 0 {
        Emit(Spi(Pixels(color, rem)));
      }
    }

    /** `for _ in range(chunks): self.spi.write(buffer)` with chip select low
        and the data/command line high. */
    method Chunks(buffer: seq<byte>, chunks: nat)
      requires Levels() == Lines(0, 1)
      modifies this`log
      ensures log == old(log) + Text.Repeat(Spi(buffer), chunks)
      ensures Received() == old(Received()) + Text.Repeat(Packet(1, buffer), chunks)
      ensures Levels() == Lines(0, 1)
    {
      for i := 0 to chunks
        invariant log == old(log) + Text.Repeat(Spi(buffer), i)
        invariant Received() == old(Received()) + Text.Repeat(Packet(1, buffer), i)
        invariant Levels() == Lines(0, 1)
      {
        Emit(Spi(buffer));
      }
    }
  }

  /** The glyphs `write` draws for `text` from pen position `x`: each
      character at `x` plus the width of the text before it. */
  function Placed(text: string, x: int, y: int, fg: int, bg: int, charWidth: char -> nat): (r: seq<Glyph>)
    ensures |r| == |text|
    decreases |text|
  {
    if text == [] then []
    else
      var n := |text| - 1;
      Placed(text[..n], x, y, fg, bg, charWidth) + [Glyph(text[n], x + TextWidth(text[..n], charWidth), y, fg, bg)]
  }

  /** Character `i` of the text is drawn, in text order, at `x` plus the sum
      of the widths of the characters before it. */
  lemma {:induction false} PlacedAt(text: string, x: int, y: int, fg: int, bg: int, charWidth: char -> nat, i: nat)
    requires i < |text|
    ensures Placed(text, x, y, fg, bg, charWidth)[i] == Glyph(text[i], x + TextWidth(text[..i], charWidth), y, fg, bg)
    decreases |text|
  {
    var n := |text| - 1;
    if i < n {
      PlacedAt(text[..n], x, y, fg, bg, charWidth, i);
      assert text[..n][..i] == text[..i];
    }
  }

  /** The pen ends exactly one text width to the right of where it started,
      and each glyph starts where the previous one's width ends. */
  lemma PenAdvance(text: string, x: int, y: int, fg: int, bg: int, charWidth: char -> nat, i: nat)
    requires i + 1 < |text|
    ensures var g := Placed(text, x, y, fg, bg, charWidth);
            g[i + 1].x == g[i].x + charWidth(text[i])
  {
    PlacedAt(text, x, y, fg, bg, charWidth, i);
    PlacedAt(text, x, y, fg, bg, charWidth, i + 1);
    assert text[..i + 1][..i] == text[..i];
  }

  /** `font.render_char(display, char, x, y, fg, bg)`. */
  method RenderChar(display: ST7789, ch: char, x: int, y: int, fg: int, bg: int)
    modifies display`drawn
    ensures display.drawn == old(display.drawn) + [Glyph(ch, x, y, fg, bg)]
  {
    display.drawn := display.drawn + [Glyph(ch, x, y, fg, bg)];
  }

  /** `write(display, font, text, x, y, fg, bg)`: one glyph per character, in
      text order, the pen advancing by each character's width. */
  method Write(display: ST7789, charWidth: char -> nat, text: string, x: int, y: int, fg: int, bg: int)
    modifies display`drawn
    ensures display.drawn == old(display.drawn) + Placed(text, x, y, fg, bg, charWidth)
  {
    var pen := x;
    for k := 0 to |text|
      invariant pen == x + TextWidth(text[..k], charWidth)
      invariant display.drawn == old(display.drawn) + Placed(text[..k], x, y, fg, bg, charWidth)
    {
      RenderChar(display, text[k], pen, y, fg, bg);
      assert text[..k + 1][..k] == text[..k];
      pen := pen + charWidth(text[k]);
    }
    assert text[..|text|] == text;
  }
}
