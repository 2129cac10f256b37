/** The character display behind a PCF8574 I/O expander at address 0x27,
    driven in the HD44780 4-bit interface: every nibble is two bus writes,
    the first with the enable strobe up, the second with it down. */
module Lcd {
  import opened Bits
  import opened I2c

  const LcdAddr: Addr := 0x27

  /** Expander pins: backlight, enable strobe, register select. The
      read/write pin (0x02) is never driven high. */
  const Backlight := 0x08
  const Enable := 0x04
  const Rs := 0x01

  /** Controller instructions the firmware sends. */
  const ClearDisplay: Byte := 0x01
  /** Set the display-data address to 0: the start of the first line. */
  const LineOneStart: Byte := 0x80
  const FunctionSet: Byte := 0x28
  const DisplayOn: Byte := 0x0C
  const EntryMode: Byte := 0x06

  /** The byte on the expander pins for one half of a nibble transfer: the
      high nibble of `nibble` on the data lines, the backlight on, the
      strobe as given, register select set for data. */
  function FrameByte(nibble: Byte, rs: bool, strobe: bool): (f: Byte)
    ensures f / 16 == nibble / 16
    ensures f % 16 == Backlight + (if strobe then Enable else 0) + (if rs then Rs else 0)
  {
    nibble / 16 * 16 + Backlight + (if strobe then Enable else 0) + (if rs then Rs else 0)
  }

  /** The two writes of `lcd_send_nibble(nibble, rs)`. */
  function NibbleWrites(nibble: Byte, rs: bool): seq<Write>
  {
    [Write(LcdAddr, FrameByte(nibble, rs, true)), Write(LcdAddr, FrameByte(nibble, rs, false))]
  }

  /** The four writes of `lcd_cmd(b)` (`rs` clear) or `lcd_data(b)` (`rs`
      set): the high nibble, then the low nibble moved up. */
  function ByteWrites(b: Byte, rs: bool): seq<Write>
  {
    NibbleWrites(b / 16 * 16, rs) + NibbleWrites(b % 16 * 16, rs)
  }

  function CmdWrites(c: Byte): seq<Write>
  {
    ByteWrites(c, false)
  }

  function DataWrites(b: Byte): seq<Write>
  {
    ByteWrites(b, true)
  }

  /** The characters of a C string: everything before the first NUL. The
      end of `s` stands for a terminator too. */
  function CString(s: seq<Byte>): (r: seq<Byte>)
    ensures |r| <= |s| && r == s[..|r|]
    ensures forall k :: 0 <= k < |r| ==> r[k] != 0
    ensures |r| < |s| ==> s[|r|] == 0
  {
    if s == [] || s[0] == 0 then [] else [s[0]] + CString(s[1..])
  }

  /** The writes of `lcd_cmd` (`rs` clear) or `lcd_data` (`rs` set) for
      each of `cs`, in order. */
  function ByteStream(cs: seq<Byte>, rs: bool): seq<Write>
  {
    if cs == [] then [] else ByteWrites(cs[0], rs) + ByteStream(cs[1..], rs)
  }

  /** The writes of `lcd_puts(s)`. */
  function PutsWrites(s: seq<Byte>): seq<Write>
  {
    ByteStream(CString(s), true)
  }

  /** The instructions `lcd_init` sends once the controller is in 4-bit
      mode: function set (2 lines, 5x8 font), display on with the cursor
      off, entry mode (increment), clear. */
  const InitCommands: seq<Byte> := [FunctionSet, DisplayOn, EntryMode, ClearDisplay]

  /** The mode nibbles of `lcd_init()`: three times 0x30 for 8-bit mode,
      then 0x20 for 4-bit mode. */
  function ModeWrites(): seq<Write>
  {
    NibbleWrites(0x30, false) + NibbleWrites(0x30, false) + NibbleWrites(0x30, false)
    + NibbleWrites(0x20, false)
  }

  /** The writes of `lcd_init()`: the mode nibbles, then the commands
      `InitCommands`. */
  function InitWrites(): seq<Write>
  {
    ModeWrites() + ByteStream(InitCommands, false)
  }

  // ---------------------------------------------------------------------
  // The controller's side of the wire

  type Nibble = x: int | 0 <= x < 16

  /** What the controller latches at a falling edge of the enable strobe:
      the register select line and the four data lines. */
  datatype Transfer = Transfer(rs: bool, nibble: Nibble)

  /** A byte the controller receives in 4-bit mode: an instruction when
      `rs` is clear, a character when it is set. */
  datatype Received = Received(rs: bool, value: Byte)

  /** Two consecutive writes to the display that take the strobe from high
      to low with read/write low. */
  predicate FallingEdge(a: Write, b: Write)
  {
    a.addr == LcdAddr && b.addr == LcdAddr &&
    Bit(a.value, 2) == 1 && Bit(b.value, 2) == 0 && Bit(b.value, 1) == 0
  }

  /** Everything the controller latches from a stream of bus writes. */
  function Latched(ws: seq<Write>): seq<Transfer>
    decreases |ws|
  {
    if |ws| < 2 then []
    else if FallingEdge(ws[0], ws[1]) then
      [Transfer(Bit(ws[1].value, 0) == 1, ws[1].value / 16)] + Latched(ws[1..])
    else Latched(ws[1..])
  }

  /** 4-bit mode: consecutive transfers pair up, high nibble first. */
  function Assemble(ts: seq<Transfer>): seq<Received>
  {
    if |ts| < 2 then []
    else [Received(ts[0].rs, ts[0].nibble * 16 + ts[1].nibble)] + Assemble(ts[2..])
  }

  // ---------------------------------------------------------------------
  // The firmware's driver, as written with C's bit operators

  /** `lcd_send_nibble(nibble, rs)`. */
  method SendNibble(bus: Bus, nibble: Byte, rs: bool)
    modifies bus
    ensures bus.writes == old(bus.writes) + NibbleWrites(nibble, rs)
  {
    FrameOps(nibble, rs);
    ghost var w0 := bus.writes;
    var data: Byte := Or(And(nibble, 0xF0), Backlight);
    if rs {
      data := Or(data, Rs);
    }
    assert data == FrameByte(nibble, rs, false);
    var _, _ := bus.Send(LcdAddr, Or(data, Enable));
    var _, _ := bus.Send(LcdAddr, data);
    PairIsNibbleWrites(nibble, rs);
    AppendAssoc(w0, [Write(LcdAddr, FrameByte(nibble, rs, true))], [Write(LcdAddr, data)]);
  }

  lemma PairIsNibbleWrites(nibble: Byte, rs: bool)
    ensures [Write(LcdAddr, FrameByte(nibble, rs, true))] + [Write(LcdAddr, FrameByte(nibble, rs, false))]
      == NibbleWrites(nibble, rs)
  {
  }

  /** `lcd_cmd(c)`. */
  method Cmd(bus: Bus, c: Byte)
    modifies bus
    ensures bus.writes == old(bus.writes) + CmdWrites(c)
  {
    HighNibble(c);
    LowNibbleUp(c);
    SendNibble(bus, And(c, 0xF0), false);
    SendNibble(bus, And(c * 16, 0xF0), false);
  }

  /** `lcd_data(b)`. */
  method Data(bus: Bus, b: Byte)
    modifies bus
    ensures bus.writes == old(bus.writes) + DataWrites(b)
  {
    HighNibble(b);
    LowNibbleUp(b);
    SendNibble(bus, And(b, 0xF0), true);
    SendNibble(bus, And(b * 16, 0xF0), true);
  }

  /** `lcd_puts(s)`: one `lcd_data` per character up to the terminator. */
  method Puts(bus: Bus, s: seq<Byte>)
    modifies bus
    ensures bus.writes == old(bus.writes) + PutsWrites(s)
  {
    ghost var w0 := bus.writes;
    var i := 0;
    while i < |s| && s[i] != 0
      invariant 0 <= i <= |s|
      invariant forall k :: 0 <= k < i ==> s[k] != 0
      invariant bus.writes == w0 + ByteStream(s[..i], true)
    {
      ghost var sent := s[..i];
      Data(bus, s[i]);
      ByteStreamSnoc(sent, s[i], true);
      AppendAssoc(w0, ByteStream(sent, true), ByteWrites(s[i], true));
      SliceSnoc(s, i);
      i := i + 1;
    }
    CStringUnique(s, i);
  }

  lemma SliceSnoc<T>(s: seq<T>, i: nat)
    requires i < |s|
    ensures s[..i + 1] == s[..i] + [s[i]]
  {
  }

  /** `lcd_init()`. */
  method Init(bus: Bus)
    modifies bus
    ensures bus.writes == old(bus.writes) + InitWrites()
  {
    ghost var w0 := bus.writes;
    SendNibble(bus, 0x30, false);
    SendNibble(bus, 0x30, false);
    SendNibble(bus, 0x30, false);
    SendNibble(bus, 0x20, false);
    assert bus.writes == w0 + ModeWrites();
    Cmd(bus, FunctionSet);
    Cmd(bus, DisplayOn);
    Cmd(bus, EntryMode);
    Cmd(bus, ClearDisplay);
    InitCommandsWrites();
    assert bus.writes == w0 + ModeWrites() + ByteStream(InitCommands, false);
    AppendAssoc(w0, ModeWrites(), ByteStream(InitCommands, false));
  }

  // ---------------------------------------------------------------------
  // Properties of the framing

  /** The C expression `(nibble & 0xF0) | LCD_BACKLIGHT`, then `| LCD_RS`
      for data and `| LCD_ENABLE` for the strobe, builds the frame bytes. */
  lemma FrameOps(nibble: Byte, rs: bool)
    ensures Or(And(nibble, 0xF0), Backlight) == FrameByte(nibble, false, false)
    ensures Or(FrameByte(nibble, false, false), Rs) == FrameByte(nibble, true, false)
    ensures Or(FrameByte(nibble, rs, false), Enable) == FrameByte(nibble, rs, true)
  {
    HighNibble(nibble);
    OrBacklight(nibble);
    OrRs(nibble);
    OrEnable(nibble, rs);
  }

  lemma OrBacklight(nibble: Byte)
    ensures Or(nibble / 16 * 16, Backlight) == FrameByte(nibble, false, false)
  {
    var q := nibble / 16;
    Pow2Small();
    DivUnique(q * 16, 8, 2 * q, 0);
    OrSetsClearBit(q * 16, 3);
  }

  lemma OrRs(nibble: Byte)
    ensures Or(FrameByte(nibble, false, false), Rs) == FrameByte(nibble, true, false)
  {
    var f := FrameByte(nibble, false, false);
    Pow2Small();
    DivUnique(f, 1, f, 0);
    OrSetsClearBit(f, 0);
  }

  lemma OrEnable(nibble: Byte, rs: bool)
    ensures Or(FrameByte(nibble, rs, false), Enable) == FrameByte(nibble, rs, true)
  {
    var q := nibble / 16;
    Pow2Small();
    DivUnique(4 * q + 2, 2, 2 * q + 1, 0);
    if rs {
      DivUnique(q * 16 + 9, 4, 4 * q + 2, 1);
      OrSetsClearBit(q * 16 + 9, 2);
    } else {
      DivUnique(q * 16 + 8, 4, 4 * q + 2, 0);
      OrSetsClearBit(q * 16 + 8, 2);
    }
  }

  /** `lcd_send_nibble` writes twice to address 0x27: the nibble on the
      data lines, the backlight on, read/write clear (a write), register
      select as asked; the enable strobe is up in the first write and down
      in the second. */
  lemma NibbleWritesShape(nibble: Byte, rs: bool)
    ensures var ws := NibbleWrites(nibble, rs);
      |ws| == 2 && ws[0].addr == ws[1].addr == LcdAddr &&
      Bit(ws[0].value, 2) == 1 && Bit(ws[1].value, 2) == 0 &&
      (forall k :: 0 <= k < 2 ==>
         ws[k].value / 16 == nibble / 16 && Bit(ws[k].value, 3) == 1 &&
         Bit(ws[k].value, 1) == 0 && (Bit(ws[k].value, 0) == 1 <==> rs))
  {
    var q, r := nibble / 16, if rs then 1 else 0;
    PinBits(q, 1, r);
    PinBits(q, 0, r);
  }

  /** The pins of `16 * q + 8 + 4 * t + r`: register select `r`, read/write
      clear, enable `t`, backlight on, data lines `q`. */
  lemma PinBits(q: nat, t: nat, r: nat)
    requires t <= 1 && r <= 1
    ensures var f := 16 * q + 8 + 4 * t + r;
      Bit(f, 0) == r && Bit(f, 1) == 0 && Bit(f, 2) == t && Bit(f, 3) == 1 && f / 16 == q
  {
    var f := 16 * q + 8 + 4 * t + r;
    Pow2Small();
    DivUnique(f, 1, f, 0);
    DivUnique(f, 2, 8 * q + 4 + 2 * t, r);
    DivUnique(8 * q + 4 + 2 * t, 2, 4 * q + 2 + t, 0);
    DivUnique(f, 4, 4 * q + 2 + t, r);
    DivUnique(4 * q + 2 + t, 2, 2 * q + 1, t);
    DivUnique(f, 8, 2 * q + 1, 4 * t + r);
    DivUnique(2 * q + 1, 2, q, 1);
    DivUnique(f, 16, q, 8 + 4 * t + r);
  }

  /** The high nibbles of writes 1 and 3 of `lcd_cmd`/`lcd_data` recombine
      to the byte sent. */
  lemma ByteWritesRecombine(b: Byte, rs: bool)
    ensures var ws := ByteWrites(b, rs);
      |ws| == 4 && ws[0].value / 16 * 16 + ws[2].value / 16 == b
  {
  }

  /** `lcd_init` issues 4 x 2 + 4 x 4 = 24 writes. */
  lemma InitLength()
    ensures |InitWrites()| == 24
  {
    InitCommandsWrites();
  }

  lemma InitCommandsWrites()
    ensures ByteStream(InitCommands, false) ==
      CmdWrites(FunctionSet) + CmdWrites(DisplayOn) + CmdWrites(EntryMode) + CmdWrites(ClearDisplay)
  {
    var cs := InitCommands;
    assert cs[1..] == [DisplayOn, EntryMode, ClearDisplay];
    assert cs[1..][1..] == [EntryMode, ClearDisplay];
    assert cs[1..][1..][1..] == [ClearDisplay];
    assert cs[1..][1..][1..][1..] == [];
    var s4 := ByteStream([ClearDisplay], false);
    assert [ClearDisplay][1..] == [];
    assert s4 == CmdWrites(ClearDisplay) + ByteStream([], false);
    var s3 := ByteStream([EntryMode, ClearDisplay], false);
    assert [EntryMode, ClearDisplay][1..] == [ClearDisplay];
    assert s3 == CmdWrites(EntryMode) + s4;
    var s2 := ByteStream([DisplayOn, EntryMode, ClearDisplay], false);
    assert [DisplayOn, EntryMode, ClearDisplay][1..] == [EntryMode, ClearDisplay];
    assert s2 == CmdWrites(DisplayOn) + s3;
    assert ByteStream(cs, false) == CmdWrites(FunctionSet) + s2;
  }

  lemma {:induction false} ByteStreamSnoc(cs: seq<Byte>, c: Byte, rs: bool)
    ensures ByteStream(cs + [c], rs) == ByteStream(cs, rs) + ByteWrites(c, rs)
  {
    if cs == [] {
      assert [c][1..] == [];
    } else {
      assert (cs + [c])[1..] == cs[1..] + [c];
      ByteStreamSnoc(cs[1..], c, rs);
    }
  }

  /** The prefix of `s` that stops at the first NUL, or at the end. */
  lemma {:induction false} CStringUnique(s: seq<Byte>, i: nat)
    requires i <= |s| && (forall k :: 0 <= k < i ==> s[k] != 0)
    requires i < |s| ==> s[i] == 0
    ensures CString(s) == s[..i]
  {
    if i > 0 {
      assert s[0] != 0;
      assert forall k :: 0 <= k < i - 1 ==> s[1..][k] == s[k + 1];
      CStringUnique(s[1..], i - 1);
      assert s[..i] == [s[0]] + s[1..][..i - 1];
    }
  }

  // ---------------------------------------------------------------------
  // What the controller receives

  /** The two writes of `lcd_send_nibble` make exactly one transfer, of the
      nibble's high four bits with the register select asked for. */
  lemma LatchedNibble(n: Byte, rs: bool, rest: seq<Write>)
    ensures Latched(NibbleWrites(n, rs) + rest) == [Transfer(rs, n / 16)] + Latched(rest)
  {
    NibbleWritesShape(n, rs);
    var ws := NibbleWrites(n, rs) + rest;
    assert ws[1..] == [ws[1]] + rest;
    if rest != [] {
      assert ([ws[1]] + rest)[1..] == rest;
    }
  }

  /** The four writes of `lcd_cmd`/`lcd_data` make two transfers: the high
      nibble, then the low one. */
  lemma LatchedByte(b: Byte, rs: bool, rest: seq<Write>)
    ensures Latched(ByteWrites(b, rs) + rest) ==
      [Transfer(rs, b / 16), Transfer(rs, b % 16)] + Latched(rest)
  {
    var h, l := b / 16 * 16, b % 16 * 16;
    var hi, lo := NibbleWrites(h, rs), NibbleWrites(l, rs);
    AppendAssoc(hi, lo, rest);
    NibblesInPlace(b);
    LatchedNibble(h, rs, lo + rest);
    LatchedNibble(l, rs, rest);
    AppendAssoc([Transfer(rs, b / 16)], [Transfer(rs, b % 16)], Latched(rest));
  }

  /** Both nibbles of a byte, moved to the high nibble, read back. */
  lemma NibblesInPlace(b: Byte)
    ensures (b / 16 * 16) / 16 == b / 16 && (b % 16 * 16) / 16 == b % 16
  {
    DivUnique(b / 16 * 16, 16, b / 16, 0);
    DivUnique(b % 16 * 16, 16, b % 16, 0);
  }

  /** `lcd_cmd(c)` delivers exactly the instruction `c`. */
  lemma CmdReceived(c: Byte)
    ensures Assemble(Latched(CmdWrites(c))) == [Received(false, c)]
  {
    LatchedByte(c, false, []);
    assert CmdWrites(c) + [] == CmdWrites(c);
  }

  /** `lcd_cmd`/`lcd_data` for each of `cs` delivers exactly the bytes `cs`,
      in order, with the register select of the call. */
  lemma {:induction false} ByteStreamReceived(cs: seq<Byte>, rs: bool)
    ensures Assemble(Latched(ByteStream(cs, rs))) == seq(|cs|, k requires 0 <= k < |cs| => Received(rs, cs[k]))
  {
    if cs != [] {
      var c, tail := cs[0], ByteStream(cs[1..], rs);
      LatchedByte(c, rs, tail);
      ByteStreamReceived(cs[1..], rs);
      var ts := Latched(ByteStream(cs, rs));
      assert ts[2..] == Latched(tail);
      assert ts[0].nibble * 16 + ts[1].nibble == c;
      assert Assemble(ts) == [Received(rs, c)] + Assemble(Latched(tail));
      ReceivedCons(cs, rs);
    }
  }

  lemma ReceivedCons(cs: seq<Byte>, rs: bool)
    requires cs != []
    ensures seq(|cs|, k requires 0 <= k < |cs| => Received(rs, cs[k])) ==
      [Received(rs, cs[0])] + seq(|cs| - 1, k requires 0 <= k < |cs| - 1 => Received(rs, cs[1..][k]))
  {
  }

  /** `lcd_puts(s)` delivers exactly the characters of `s` before its
      terminator, in order, as characters. */
  lemma PutsReceived(s: seq<Byte>)
    ensures var cs := CString(s);
      Assemble(Latched(PutsWrites(s))) == seq(|cs|, k requires 0 <= k < |cs| => Received(true, cs[k]))
  {
    ByteStreamReceived(CString(s), true);
  }

  /** `lcd_init` first delivers three 8-bit-mode nibbles 0x3 and the nibble
      0x2 that switches to 4-bit mode, then what its commands deliver. */
  lemma InitLatched()
    ensures Latched(InitWrites()) ==
      [Transfer(false, 3), Transfer(false, 3), Transfer(false, 3), Transfer(false, 2)]
      + Latched(ByteStream(InitCommands, false))
  {
    ModeNibblesLatched(ByteStream(InitCommands, false));
  }

  /** The four mode nibbles of `lcd_init`, ahead of any writes `rest`. */
  lemma ModeNibblesLatched(rest: seq<Write>)
    ensures Latched(ModeWrites() + rest) ==
      [Transfer(false, 3), Transfer(false, 3), Transfer(false, 3), Transfer(false, 2)] + Latched(rest)
  {
    FourNibblesLatched(0x30, 0x30, 0x30, 0x20, rest);
  }

  /** Four `lcd_send_nibble` calls make four transfers, in order. */
  lemma FourNibblesLatched(a: Byte, b: Byte, c: Byte, e: Byte, rest: seq<Write>)
    ensures Latched(NibbleWrites(a, false) + NibbleWrites(b, false) + NibbleWrites(c, false)
                    + NibbleWrites(e, false) + rest) ==
      [Transfer(false, a / 16), Transfer(false, b / 16), Transfer(false, c / 16), Transfer(false, e / 16)]
      + Latched(rest)
  {
    var wa, wb, wc, we := NibbleWrites(a, false), NibbleWrites(b, false),
      NibbleWrites(c, false), NibbleWrites(e, false);
    var n4 := we + rest;
    var n3 := wc + n4;
    var n2 := wb + n3;
    AppendAssoc(wa + wb + wc, we, rest);
    AppendAssoc(wa + wb, wc, n4);
    AppendAssoc(wa, wb, n3);
    LatchedNibble(e, false, rest);
    LatchedNibble(c, false, n4);
    LatchedNibble(b, false, n3);
    LatchedNibble(a, false, n2);
    ConsFour(Transfer(false, a / 16), Transfer(false, b / 16), Transfer(false, c / 16),
      Transfer(false, e / 16), Latched(rest));
  }

  lemma ConsFour<T>(a: T, b: T, c: T, d: T, tail: seq<T>)
    ensures [a] + ([b] + ([c] + ([d] + tail))) == [a, b, c, d] + tail
  {
  }

  lemma AppendAssoc<T>(a: seq<T>, b: seq<T>, c: seq<T>)
    ensures (a + b) + c == a + (b + c)
  {
  }

  /** Paired in 4-bit mode, the commands of `lcd_init` deliver function
      set, display on, entry mode and clear, in that order. */
  lemma InitCommandsReceived()
    ensures Assemble(Latched(ByteStream(InitCommands, false))) ==
      [Received(false, FunctionSet), Received(false, DisplayOn),
       Received(false, EntryMode), Received(false, ClearDisplay)]
  {
    ByteStreamReceived(InitCommands, false);
  }
}
