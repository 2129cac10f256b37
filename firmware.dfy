/** The polling loop of `main`: sample the sensor, decode the frame, check
    the buttons, show the selected view. The globals `data` and
    `received_message` and the local `tela` are the fields of a `Station`. */
module Firmware {
  import opened Bits
  import opened Dht11
  import opened I2c
  import opened Lcd
  import opened Views

  /** The bytes of a C string literal or of the `sprintf` buffer. */
  function Ascii(s: string): (b: seq<Byte>)
    ensures |b| == |s|
  {
    seq(|s|, k requires 0 <= k < |s| => (s[k] as int) % 256)
  }

  /** The symbols the sampling loop stores for the line levels read at the
      40 sample points. */
  function Symbols(levels: seq<bool>): (m: seq<Byte>)
    requires |levels| == FrameBits
    ensures |m| == FrameBits && IsBits(m)
  {
    seq(FrameBits, k requires 0 <= k < FrameBits => Symbol(levels[k]))
  }

  /** The environment of one pass: the line level at each of the 40 sample
      points, and whether each button reads pressed. */
  datatype PassInput = PassInput(levels: seq<bool>, forward: bool, backward: bool)

  /** One clear command per button press. */
  function ButtonWrites(forward: bool, backward: bool): seq<Write>
  {
    (if forward then CmdWrites(ClearDisplay) else []) + (if backward then CmdWrites(ClearDisplay) else [])
  }

  /** The line-one address command, then the text of view `tela` for `d`. */
  function ShowWrites(d: seq<Byte>, tela: int): seq<Write>
    requires |d| == FrameBytes
  {
    CmdWrites(LineOneStart) + PutsWrites(Ascii(Render(d, tela)))
  }

  /** Everything one pass writes to the bus. */
  function PassWrites(p: PassInput, tela: int): seq<Write>
    requires |p.levels| == FrameBits
  {
    ButtonWrites(p.forward, p.backward)
    + ShowWrites(Decode(Symbols(p.levels)), AfterButtons(tela, p.forward, p.backward))
  }

  ghost predicate WellFormed(inputs: seq<PassInput>)
  {
    forall k :: 0 <= k < |inputs| ==> |inputs[k].levels| == FrameBits
  }

  /** The view after a run of passes. */
  function ViewAfterRun(tela: int, inputs: seq<PassInput>): (r: int)
    ensures 0 <= tela <= 3 ==> 0 <= r <= 3
  {
    if inputs == [] then tela
    else
      var p := inputs[|inputs| - 1];
      AfterButtons(ViewAfterRun(tela, inputs[..|inputs| - 1]), p.forward, p.backward)
  }

  /** Everything a run of passes writes to the bus. */
  function RunWrites(tela: int, inputs: seq<PassInput>): seq<Write>
    requires WellFormed(inputs)
  {
    if inputs == [] then []
    else
      var before := inputs[..|inputs| - 1];
      RunWrites(tela, before) + PassWrites(inputs[|inputs| - 1], ViewAfterRun(tela, before))
  }

  /** A run one pass longer: the last pass starts from the view the
      shorter run ended on, and its writes follow the shorter run's. */
  lemma RunStep(tela: int, inputs: seq<PassInput>, n: nat)
    requires WellFormed(inputs) && n < |inputs|
    ensures WellFormed(inputs[..n]) && WellFormed(inputs[..n + 1])
    ensures ViewAfterRun(tela, inputs[..n + 1]) ==
      AfterButtons(ViewAfterRun(tela, inputs[..n]), inputs[n].forward, inputs[n].backward)
    ensures RunWrites(tela, inputs[..n + 1]) ==
      RunWrites(tela, inputs[..n]) + PassWrites(inputs[n], ViewAfterRun(tela, inputs[..n]))
  {
    assert inputs[..n + 1][..n] == inputs[..n];
  }

  // ---------------------------------------------------------------------
  // What the display controller receives

  /** Every character is printable ASCII, so none is the terminating NUL. */
  predicate Printable(s: string)
  {
    forall k :: 0 <= k < |s| ==> ' ' <= s[k] <= '~'
  }

  /** Every text `main` shows is printable. */
  lemma RenderPrintable(d: seq<Byte>, tela: int)
    requires |d| == FrameBytes
    ensures Printable(Render(d, tela))
  {
    FixedTextsPrintable();
    if !ChecksumOk(d) || tela < 1 || tela > 3 {
    } else if tela == 1 {
      LabelledPrintable("Temp: ", Decimal(d[2]), " C");
    } else if tela == 2 {
      LabelledPrintable("Umid: ", Decimal(d[0]), " %");
    } else {
      var f := FahrenheitTenths(d[2]);
      LabelledPrintable("Temp: ", Decimal(f / 10), ".");
      LabelledPrintable("Temp: " + Decimal(f / 10) + ".", Decimal(f % 10), "F");
    }
  }

  lemma FixedTextsPrintable()
    ensures Printable("Checksum erro") && Printable("Medicoes:") && Printable("")
    ensures Printable("Temp: ") && Printable("Umid: ") && Printable(" C") && Printable(" %")
    ensures Printable(".") && Printable("F")
  {
  }

  /** Digits between a printable prefix and a printable suffix are
      printable. */
  lemma LabelledPrintable(prefix: string, digits: string, suffix: string)
    requires Printable(prefix) && Printable(suffix)
    requires forall k :: 0 <= k < |digits| ==> IsDigit(digits[k])
    ensures Printable(prefix + digits + suffix)
  {
  }

  /** `lcd_puts` stops at the first NUL, and a printable text has none:
      the whole text is sent. */
  lemma PutsSendsAll(s: string)
    requires Printable(s)
    ensures CString(Ascii(s)) == Ascii(s)
  {
    assert forall k :: 0 <= k < |s| ==> Ascii(s)[k] != 0;
  }

  /** A command byte followed by anything: the controller receives the
      instruction, then whatever the rest delivers. */
  lemma CmdThen(c: Byte, rest: seq<Write>)
    ensures Assemble(Latched(CmdWrites(c) + rest)) == [Received(false, c)] + Assemble(Latched(rest))
  {
    LatchedByte(c, false, rest);
    var ts := [Transfer(false, c / 16), Transfer(false, c % 16)] + Latched(rest);
    assert ts[2..] == Latched(rest);
  }

  /** The characters of `text` as the controller receives them: data
      writes, in order. */
  function Characters(text: seq<Byte>): (r: seq<Received>)
    ensures |r| == |text|
    ensures forall k :: 0 <= k < |r| ==> r[k].rs && r[k].value == text[k]
  {
    seq(|text|, k requires 0 <= k < |text| => Received(true, text[k]))
  }

  /** Showing view `tela`: the controller receives the line-one address
      command, then every character of the rendered text and nothing
      else. */
  lemma ShownText(d: seq<Byte>, tela: int)
    requires |d| == FrameBytes
    ensures Assemble(Latched(ShowWrites(d, tela))) ==
      [Received(false, LineOneStart)] + Characters(Ascii(Render(d, tela)))
  {
    var text := Render(d, tela);
    RenderPrintable(d, tela);
    PutsSendsAll(text);
    PutsReceived(Ascii(text));
    CmdThen(LineOneStart, PutsWrites(Ascii(text)));
  }

  /** The clear instructions the controller receives for the presses. */
  function Clears(forward: bool, backward: bool): (r: seq<Received>)
    ensures |r| == (if forward then 1 else 0) + (if backward then 1 else 0)
    ensures forall k :: 0 <= k < |r| ==> r[k] == Received(false, ClearDisplay)
  {
    (if forward then [Received(false, ClearDisplay)] else [])
    + (if backward then [Received(false, ClearDisplay)] else [])
  }

  /** The button writes deliver one clear instruction per press, before
      whatever follows them. */
  lemma ButtonsThen(forward: bool, backward: bool, rest: seq<Write>)
    ensures Assemble(Latched(ButtonWrites(forward, backward) + rest)) ==
      Clears(forward, backward) + Assemble(Latched(rest))
  {
    var back := (if backward then CmdWrites(ClearDisplay) else []) + rest;
    var backClears := if backward then [Received(false, ClearDisplay)] else [];
    if backward {
      CmdThen(ClearDisplay, rest);
    } else {
      assert back == rest;
    }
    assert ButtonWrites(forward, backward) + rest ==
      (if forward then CmdWrites(ClearDisplay) else []) + back;
    if forward {
      CmdThen(ClearDisplay, back);
    } else {
      assert ButtonWrites(forward, backward) + rest == back;
    }
  }

  /** One pass: a clear instruction per button press, the line-one
      address command, then the text of the view the buttons selected for
      the frame just decoded. */
  lemma PassReceived(p: PassInput, tela: int)
    requires |p.levels| == FrameBits
    ensures Assemble(Latched(PassWrites(p, tela))) ==
      Clears(p.forward, p.backward) + [Received(false, LineOneStart)]
      + Characters(Ascii(Render(Decode(Symbols(p.levels)), AfterButtons(tela, p.forward, p.backward))))
  {
    var d, view := Decode(Symbols(p.levels)), AfterButtons(tela, p.forward, p.backward);
    var shown := ShowWrites(d, view);
    assert PassWrites(p, tela) == ButtonWrites(p.forward, p.backward) + shown;
    ShownText(d, view);
    ButtonsThen(p.forward, p.backward, shown);
    AppendAssoc(Clears(p.forward, p.backward), [Received(false, LineOneStart)], Characters(Ascii(Render(d, view))));
  }

  /** A frame the sensor sends with a correct checksum, sampled at the
      right points, decodes to exactly the bytes sent and is accepted. */
  lemma SealedFrameAccepted(p: seq<Byte>, levels: seq<bool>)
    requires |p| == 4 && |levels| == FrameBits
    requires forall k :: 0 <= k < FrameBits ==> (levels[k] <==> Encode(Seal(p))[k] == 1)
    ensures Decode(Symbols(levels)) == Seal(p) && ChecksumOk(Decode(Symbols(levels)))
  {
    assert Symbols(levels) == Encode(Seal(p));
    DecodeEncode(Seal(p));
    SealedAccepted(p, 0);
  }

  class Station {
    const bus: Bus
    const data: array<Byte>
    const receivedMessage: array<Byte>
    var tela: int

    ghost predicate Valid()
      reads this, receivedMessage
    {
      data.Length == FrameBytes && receivedMessage.Length == FrameBits &&
      0 <= tela <= 3 && IsBits(receivedMessage[..])
    }

    /** Start-up: zeroed globals, `lcd_init()`, `tela = 0`. */
    constructor (nackAt: nat -> bool)
      ensures Valid() && fresh(bus) && fresh(data) && fresh(receivedMessage)
      ensures bus.nackAt == nackAt && bus.writes == InitWrites()
      ensures tela == 0 && data[..] == [0, 0, 0, 0, 0]
      ensures receivedMessage[..] == seq(FrameBits, _ => 0)
    {
      bus := new Bus(nackAt);
      data := new Byte[FrameBytes](_ => 0);
      receivedMessage := new Byte[FrameBits](_ => 0);
      tela := 0;
      new;
      Init(bus);
    }

    /** The 40-slot sampling loop: a slot stores 1 when the line is still
        high at the sample point, else 0. */
    method SampleFrame(levels: seq<bool>)
      requires Valid() && |levels| == FrameBits
      modifies receivedMessage
      ensures Valid() && receivedMessage[..] == Symbols(levels)
    {
      var bitCount := 0;
      while bitCount < FrameBits
        invariant 0 <= bitCount <= FrameBits
        invariant forall k :: 0 <= k < bitCount ==> receivedMessage[k] == Symbol(levels[k])
        invariant IsBits(receivedMessage[..])
      {
        if levels[bitCount] {
          receivedMessage[bitCount] := 1;
        } else {
          receivedMessage[bitCount] := 0;
        }
        bitCount := bitCount + 1;
      }
    }

    /** `decode_message()`: every byte of `data` is cleared and rebuilt from
        `received_message` alone. */
    method DecodeMessage()
      requires Valid()
      modifies data
      ensures Valid() && data[..] == Decode(receivedMessage[..])
    {
      ghost var m := receivedMessage[..];
      var i := 0;
      while i < FrameBytes
        invariant 0 <= i <= FrameBytes
        invariant forall k :: 0 <= k < i ==> data[k] == PackPrefix(m, 8 * k, 8)
      {
        data[i] := 0;
        var j := 0;
        while j < 8
          invariant 0 <= j <= 8
          invariant data[i] == PackPrefix(m, 8 * i, j)
          invariant forall k :: 0 <= k < i ==> data[k] == PackPrefix(m, 8 * k, 8)
        {
          PackPrefixNext(m, 8 * i, j);
          data[i] := Or(data[i], receivedMessage[8 * i + j] * Pow2(7 - j)) % 256;
          j := j + 1;
        }
        i := i + 1;
      }
    }

    /** The two button checks: each press moves `tela` and clears the
        display. */
    method HandleButtons(forward: bool, backward: bool)
      requires Valid()
      modifies this, bus
      ensures Valid() && tela == AfterButtons(old(tela), forward, backward)
      ensures bus.writes == old(bus.writes) + ButtonWrites(forward, backward)
    {
      if forward {
        tela := CRem(tela + 1, ViewCount);
        Cmd(bus, ClearDisplay);
      }
      if backward {
        tela := if tela == 0 then 3 else tela - 1;
        Cmd(bus, ClearDisplay);
      }
    }

    /** The line-one address command, then the error text or the text of
        the selected view. */
    method Show(checksum: Byte)
      requires Valid() && checksum == Checksum(data[..])
      modifies bus
      ensures bus.writes == old(bus.writes) + ShowWrites(data[..], tela)
    {
      ghost var d := data[..];
      assert d[0] == data[0] && d[2] == data[2] && d[4] == data[4];
      assert checksum == data[4] <==> ChecksumOk(d);
      Cmd(bus, LineOneStart);
      var text: string;
      if checksum != data[4] {
        text := "Checksum erro";
      } else if tela == 0 {
        text := "Medicoes:";
      } else if tela == 1 {
        text := "Temp: " + Decimal(data[2]) + " C";
      } else if tela == 2 {
        text := "Umid: " + Decimal(data[0]) + " %";
      } else if tela == 3 {
        var c: int := data[2];
        var f := c * 18 + 320;
        text := "Temp: " + Decimal(f / 10) + "." + Decimal(f % 10) + "F";
      } else {
        text := "";
      }
      assert text == Render(d, tela);
      Puts(bus, Ascii(text));
      AppendAssoc(old(bus.writes), CmdWrites(LineOneStart), PutsWrites(Ascii(text)));
    }

    /** One pass of the `for(;;)` loop. */
    method Pass(p: PassInput)
      requires Valid() && |p.levels| == FrameBits
      modifies this, bus, data, receivedMessage
      ensures Valid()
      ensures receivedMessage[..] == Symbols(p.levels)
      ensures data[..] == Decode(Symbols(p.levels))
      ensures tela == AfterButtons(old(tela), p.forward, p.backward)
      ensures bus.writes == old(bus.writes) + PassWrites(p, old(tela))
    {
      SampleFrame(p.levels);
      DecodeMessage();
      ghost var w0 := bus.writes;
      ghost var buttons := ButtonWrites(p.forward, p.backward);
      var checksum := (data[0] as int + data[1] + data[2] + data[3]) % 256;
      assert checksum == Checksum(data[..]);
      HandleButtons(p.forward, p.backward);
      Show(checksum);
      ghost var shown := ShowWrites(data[..], tela);
      assert PassWrites(p, old(tela)) == buttons + shown;
      AppendAssoc(w0, buttons, shown);
    }

    /** The `for(;;)` loop over a finite run of passes. */
    method Run(inputs: seq<PassInput>)
      requires Valid() && WellFormed(inputs)
      modifies this, bus, data, receivedMessage
      ensures Valid()
      ensures tela == ViewAfterRun(old(tela), inputs)
      ensures bus.writes == old(bus.writes) + RunWrites(old(tela), inputs)
    {
      ghost var t0, w0 := tela, bus.writes;
      var n := 0;
      while n < |inputs|
        invariant 0 <= n <= |inputs| && Valid() && WellFormed(inputs[..n])
        invariant tela == ViewAfterRun(t0, inputs[..n])
        invariant bus.writes == w0 + RunWrites(t0, inputs[..n])
      {
        RunStep(t0, inputs, n);
        ghost var before := RunWrites(t0, inputs[..n]);
        Pass(inputs[n]);
        AppendAssoc(w0, before, PassWrites(inputs[n], ViewAfterRun(t0, inputs[..n])));
        n := n + 1;
      }
      assert inputs[..n] == inputs;
    }
  }
}
