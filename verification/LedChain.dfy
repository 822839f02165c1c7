/** The LED buffer of ledchaincomm.cpp and the chains that write to it.

    One chain drives the hardware and owns the buffer; others only map their own pixels onto a
    chain that is already driven, and pass every change on to it.
  */
module LedChain {
  import opened Arithmetic
  import opened ChainGeometry
  import opened LedPowers
  import opened Options

  type byte = x: int | 0 <= x < 0x100

  const OFF := Powers(0, 0, 0, 0)

  /** What the buffer layout depends on: 3 or 4 components per LED, 1 or 2 bytes per component. */
  datatype Format = Format(hasWhite: bool, wide: bool) {
    function Components(): nat {
      if hasWhite then 4 else 3
    }

    function LedSize(): nat {
      if wide then 2 * Components() else Components()
    }
  }

  /** 16-bit power values are rounded for 8-bit LEDs. */
  function PwmTo8Bits(pwm: uint16): byte {
    if pwm >= 0xFF80 then 0xFF else (pwm + 0x66) / 256
  }

  /** The bytes of one LED. */
  function Encode(f: Format, p: Powers): (bytes: seq<byte>)
    ensures |bytes| == f.LedSize()
  {
    if f.wide then
      [p.r / 256, p.r % 256, p.g / 256, p.g % 256, p.b / 256, p.b % 256] +
      (if f.hasWhite then [p.w / 256, p.w % 256] else [])
    else
      [PwmTo8Bits(p.r), PwmTo8Bits(p.g), PwmTo8Bits(p.b)] + (if f.hasWhite then [PwmTo8Bits(p.w)] else [])
  }

  function Join(high: byte, low: byte): uint16 {
    256 * (high as int) + low as int
  }

  /** The powers read back from the bytes of one LED. */
  function Decode(f: Format, b: seq<byte>, from8: byte -> uint16): Powers
    requires |b| == f.LedSize()
  {
    if f.wide then
      Powers(Join(b[0], b[1]), Join(b[2], b[3]), Join(b[4], b[5]), if f.hasWhite then Join(b[6], b[7]) else 0)
    else
      Powers(from8(b[0]), from8(b[1]), from8(b[2]), if f.hasWhite then from8(b[3]) else 0)
  }

  lemma DecodesToChannels(f: Format, p: Powers, from8: byte -> uint16)
    ensures var q := Decode(f, Encode(f, p), from8);
            if f.wide then q == Powers(p.r, p.g, p.b, if f.hasWhite then p.w else 0)
            else q == Powers(from8(PwmTo8Bits(p.r)), from8(PwmTo8Bits(p.g)), from8(PwmTo8Bits(p.b)),
                             if f.hasWhite then from8(PwmTo8Bits(p.w)) else 0)
  {
  }

  /** What precedes the LED data for drivers of the p44-ledchain kind: its own length, then what the
      driver has to know. */
  function DriverHeader(layout: byte, chip: byte, maxPassive: uint16, maxRetries: byte): (h: seq<byte>)
    ensures |h| == 6 && h[0] == |h| - 1 && 256 * (h[3] as int) + h[4] as int == maxPassive
  {
    [5, layout, chip, maxPassive / 256, maxPassive % 256, maxRetries]
  }

  /** What a driver makes of what is written to it. */
  datatype DriverInput = DriverInput(layout: byte, chip: byte, maxPassive: nat, maxRetries: byte, ledData: seq<byte>)

  function ReadByDriver(written: seq<byte>): DriverInput
    requires |written| >= 6 && written[0] < |written|
  {
    DriverInput(written[1], written[2], 256 * (written[3] as int) + written[4] as int, written[5],
                written[written[0] + 1..])
  }

  /** The driver reads what the header was made of, and the LED data behind it. */
  lemma DriverReadsHeader(layout: byte, chip: byte, maxPassive: uint16, maxRetries: byte, ledData: seq<byte>)
    ensures ReadByDriver(DriverHeader(layout, chip, maxPassive, maxRetries) + ledData)
            == DriverInput(layout, chip, maxPassive, maxRetries, ledData)
  {
    assert (DriverHeader(layout, chip, maxPassive, maxRetries) + ledData)[6..] == ledData;
  }

  function Flatten(parts: seq<seq<byte>>): seq<byte> {
    if parts == [] then [] else Flatten(parts[..|parts| - 1]) + parts[|parts| - 1]
  }

  function EncodeAll(f: Format, leds: seq<Powers>): (parts: seq<seq<byte>>)
    ensures |parts| == |leds| && forall i :: 0 <= i < |leds| ==> |parts[i]| == f.LedSize()
  {
    seq(|leds|, i requires 0 <= i < |leds| => Encode(f, leds[i]))
  }

  /** The buffer area that shows the given powers. */
  function Image(f: Format, leds: seq<Powers>): seq<byte> {
    Flatten(EncodeAll(f, leds))
  }

  lemma {:induction false} FlattenLength(parts: seq<seq<byte>>, size: nat)
    requires forall i :: 0 <= i < |parts| ==> |parts[i]| == size
    ensures |Flatten(parts)| == Times(|parts|, size)
  {
    if parts != [] {
      FlattenLength(parts[..|parts| - 1], size);
    }
  }

  lemma {:induction false} FlattenConcat(a: seq<seq<byte>>, b: seq<seq<byte>>)
    ensures Flatten(a + b) == Flatten(a) + Flatten(b)
  {
    if b == [] {
      assert a + b == a;
    } else {
      assert (a + b)[..|a + b| - 1] == a + b[..|b| - 1];
      FlattenConcat(a, b[..|b| - 1]);
    }
  }

  lemma FlattenOneMore(parts: seq<seq<byte>>, part: seq<byte>)
    ensures Flatten(parts + [part]) == Flatten(parts) + part
  {
    assert (parts + [part])[..|parts|] == parts;
  }

  /** One part within the whole. */
  lemma FlattenAround(parts: seq<seq<byte>>, i: nat)
    requires i < |parts|
    ensures Flatten(parts) == Flatten(parts[..i]) + parts[i] + Flatten(parts[i + 1..])
  {
    var front, part, back := parts[..i], parts[i], parts[i + 1..];
    Around(parts, i);
    FlattenConcat(front + [part], back);
    FlattenOneMore(front, part);
  }

  lemma Around(parts: seq<seq<byte>>, i: nat)
    requires i < |parts|
    ensures parts == (parts[..i] + [parts[i]]) + parts[i + 1..]
  {
  }

  /** Replacing one part leaves everything before and after it in place. */
  lemma FlattenUpdate(parts: seq<seq<byte>>, i: nat, part: seq<byte>)
    requires i < |parts|
    ensures Flatten(parts[i := part]) == Flatten(parts[..i]) + part + Flatten(parts[i + 1..])
  {
    FlattenAround(parts[i := part], i);
    assert parts[i := part][..i] == parts[..i] && parts[i := part][i + 1..] == parts[i + 1..];
  }

  lemma {:induction false} FlattenZeros(n: nat, size: nat)
    ensures Flatten(seq(n, i => Zeros(size))) == Zeros(Times(n, size))
  {
    if n > 0 {
      FlattenZeros(n - 1, size);
      assert seq(n, i => Zeros(size))[..n - 1] == seq(n - 1, i => Zeros(size));
    }
  }

  function Zeros(n: nat): seq<byte> {
    seq(n, i => 0)
  }

  lemma ImageOfOff(f: Format, n: nat)
    ensures Image(f, seq(n, i => OFF)) == Zeros(Times(n, f.LedSize()))
  {
    assert Encode(f, OFF) == Zeros(f.LedSize());
    assert EncodeAll(f, seq(n, i => OFF)) == seq(n, i => Zeros(f.LedSize()));
    FlattenZeros(n, f.LedSize());
  }

  /** A new power for one LED changes the bytes of this LED only. */
  lemma ImageUpdate(f: Format, leds: seq<Powers>, i: nat, p: Powers)
    requires i < |leds|
    ensures var at, image := Times(i, f.LedSize()), Image(f, leds);
            && at + f.LedSize() <= |image|
            && Image(f, leds[i := p]) == Overwritten(image, at, Encode(f, p))
  {
    var parts, part := EncodeAll(f, leds), Encode(f, p);
    FlattenAround(parts, i);
    FlattenLength(parts[..i], f.LedSize());
    FlattenUpdate(parts, i, part);
    assert EncodeAll(f, leds[i := p]) == parts[i := part];
    Cut(Flatten(parts[..i]), parts[i], Flatten(parts[i + 1..]));
  }

  /** The bytes of one LED. */
  lemma ImageAt(f: Format, leds: seq<Powers>, i: nat)
    requires i < |leds|
    ensures var at, image := Times(i, f.LedSize()), Image(f, leds);
            at + f.LedSize() <= |image| && image[at..at + f.LedSize()] == Encode(f, leds[i])
  {
    var parts := EncodeAll(f, leds);
    FlattenAround(parts, i);
    FlattenLength(parts[..i], f.LedSize());
    Cut(Flatten(parts[..i]), parts[i], Flatten(parts[i + 1..]));
  }

  lemma Cut(front: seq<byte>, part: seq<byte>, back: seq<byte>)
    ensures (front + part + back)[..|front|] == front && (front + part + back)[|front| + |part|..] == back
    ensures (front + part + back)[|front|..|front| + |part|] == part
  {
  }

  function Overwritten(buffer: seq<byte>, at: nat, part: seq<byte>): seq<byte>
    requires at + |part| <= |buffer|
  {
    buffer[..at] + part + buffer[at + |part|..]
  }

  lemma Behind(header: seq<byte>, image: seq<byte>, at: nat, part: seq<byte>)
    requires at + |part| <= |image|
    ensures Overwritten(header + image, |header| + at, part) == header + Overwritten(image, at, part)
  {
  }

  lemma BytesBehind(header: seq<byte>, image: seq<byte>, at: nat, part: seq<byte>)
    requires at + |part| <= |image| && image[at..at + |part|] == part
    ensures (header + image)[|header| + at..|header| + at + |part|] == part
  {
  }

  lemma StoredImage(header: seq<byte>, f: Format, leds: seq<Powers>, i: nat, p: Powers)
    requires i < |leds|
    ensures var at := |header| + Times(i, f.LedSize());
            && at + f.LedSize() <= |header + Image(f, leds)|
            && Overwritten(header + Image(f, leds), at, Encode(f, p)) == header + Image(f, leds[i := p])
  {
    ImageUpdate(f, leds, i, p);
    Behind(header, Image(f, leds), Times(i, f.LedSize()), Encode(f, p));
  }

  class LedChainComm {
    const mapping: Mapping
    const format: Format
    const header: seq<byte>          // in front of the LED data: a DriverHeader, or empty for UART and legacy drivers
    const driver: LedChainComm?      // the chain this one maps onto, if it is only a mapping
    ghost const depth: nat           // number of chains between this one and the hardware
    var rawBuffer: array<byte>
    ghost var leds: seq<Powers>      // what every LED was last told to show

    /** Following the drivers leads to the hardware. */
    ghost predicate Linked()
      decreases depth
    {
      driver != null ==> driver.depth < depth && driver.Linked()
    }

    ghost function Hardware(): (h: LedChainComm)
      requires Linked()
      ensures h.driver == null
      decreases depth
    {
      if driver == null then this else driver.Hardware()
    }

    /** The buffer consists of the header and the image of what the LEDs were told. */
    ghost predicate Valid()
      reads this, rawBuffer
    {
      driver == null && |leds| == mapping.numLeds && rawBuffer[..] == header + Image(format, leds)
    }

    /** A chain with its own hardware; begin() allocates the buffer and clears it. */
    constructor Begin(mapping: Mapping, format: Format, header: seq<byte>)
      ensures this.mapping == mapping && this.format == format && this.header == header && driver == null
      ensures Linked() && Valid() && fresh(rawBuffer)
      ensures leds == seq(mapping.numLeds, i => OFF)
    {
      this.mapping, this.format, this.header, driver, depth := mapping, format, header, null, 0;
      leds := seq(mapping.numLeds, i => OFF);
      var size := Times(mapping.numLeds, format.LedSize());
      rawBuffer := new byte[|header| + size](i => 0);
      new;
      for i := 0 to |header|
        invariant fresh(rawBuffer) && rawBuffer.Length == |header| + size && rawBuffer[..i] == header[..i]
        invariant forall k :: i <= k < rawBuffer.Length ==> rawBuffer[k] == 0
        invariant leds == seq(mapping.numLeds, i => OFF)
      {
        rawBuffer[i] := header[i];
      }
      ImageOfOff(format, mapping.numLeds);
      assert rawBuffer[..] == header + Zeros(size);
    }

    /** A secondary mapping onto a chain that is already driven. */
    constructor MapOnto(mapping: Mapping, format: Format, driver: LedChainComm)
      requires driver.Linked()
      ensures this.mapping == mapping && this.format == format && this.driver == driver
      ensures Linked() && Hardware() == driver.Hardware()
    {
      this.mapping, this.format, this.header, this.driver, depth := mapping, format, [], driver, driver.depth + 1;
      rawBuffer := new byte[0];
      leds := [];
    }

    /** Passes the change on to the hardware chain, which ignores indices beyond its end. */
    method SetPowerAtLedIndex(index: uint16, p: Powers)
      requires Linked() && Hardware().Valid()
      modifies Hardware()`leds, Hardware().rawBuffer
      ensures Hardware().Valid()
      ensures Hardware().leds == Changed(old(Hardware().leds), index, p)
      decreases depth
    {
      if driver != null {
        driver.SetPowerAtLedIndex(index, p);
      } else {
        if index >= mapping.numLeds { return; }
        StoreLed(index, p);
      }
    }

    /** The hardware branch of setPowerAtLedIndex(). */
    method StoreLed(index: uint16, p: Powers)
      requires Valid() && index < |leds|
      modifies this`leds, rawBuffer
      ensures Valid() && leds == old(leds)[index := p]
    {
      var byteindex := ByteIndex(index);
      StoredImage(header, format, leds, index, p);
      Store(|header| + byteindex, p);
      leds := leds[index := p];
    }

    method ByteIndex(index: nat) returns (byteindex: nat)
      ensures byteindex == Times(index, format.LedSize())
    {
      byteindex := Times(index, format.Components());
      if format.wide {
        TimesOfTimes(2, index, format.Components());
        byteindex := 2 * byteindex;
      }
    }

    method Store(at: nat, p: Powers)
      requires at + format.LedSize() <= rawBuffer.Length
      modifies rawBuffer
      ensures rawBuffer[..] == Overwritten(old(rawBuffer[..]), at, Encode(format, p))
    {
      if format.wide {
        StoreWide(at, p);
      } else {
        StoreNarrow(at, p);
      }
    }

    method StoreWide(at: nat, p: Powers)
      requires format.wide && at + format.LedSize() <= rawBuffer.Length
      modifies rawBuffer
      ensures rawBuffer[..] == Overwritten(old(rawBuffer[..]), at, Encode(format, p))
    {
      rawBuffer[at] := p.r / 256;
      rawBuffer[at + 1] := p.r % 256;
      rawBuffer[at + 2] := p.g / 256;
      rawBuffer[at + 3] := p.g % 256;
      rawBuffer[at + 4] := p.b / 256;
      rawBuffer[at + 5] := p.b % 256;
      if format.hasWhite {
        rawBuffer[at + 6] := p.w / 256;
        rawBuffer[at + 7] := p.w % 256;
      }
    }

    method StoreNarrow(at: nat, p: Powers)
      requires !format.wide && at + format.LedSize() <= rawBuffer.Length
      modifies rawBuffer
      ensures rawBuffer[..] == Overwritten(old(rawBuffer[..]), at, Encode(format, p))
    {
      rawBuffer[at] := PwmTo8Bits(p.r);
      rawBuffer[at + 1] := PwmTo8Bits(p.g);
      rawBuffer[at + 2] := PwmTo8Bits(p.b);
      if format.hasWhite {
        rawBuffer[at + 3] := PwmTo8Bits(p.w);
      }
    }

    /** What a LED was told, as far as the buffer still says so; `from8` makes 16 bits of 8. */
    method GetPowerAtLedIndex(index: uint16, from8: byte -> uint16) returns (r: Option<Powers>)
      requires Linked() && Hardware().Valid()
      ensures r.Some? <==> index < |Hardware().leds|
      ensures r.Some? && Hardware().format.wide ==>
                var p := Hardware().leds[index];
                r.value == Powers(p.r, p.g, p.b, if Hardware().format.hasWhite then p.w else 0)
      ensures r.Some? && !Hardware().format.wide ==>
                var p := Hardware().leds[index];
                && r.value.r == from8(PwmTo8Bits(p.r)) && r.value.g == from8(PwmTo8Bits(p.g))
                && r.value.b == from8(PwmTo8Bits(p.b))
                && r.value.w == if Hardware().format.hasWhite then from8(PwmTo8Bits(p.w)) else 0
      decreases depth
    {
      if driver != null {
        r := driver.GetPowerAtLedIndex(index, from8);
      } else {
        if index < |leds| { DecodesToChannels(format, leds[index], from8); }
        if index >= mapping.numLeds { return None; }
        var p := ReadLed(index, from8);
        r := Some(p);
      }
    }

    /** The hardware branch of getPowerAtLedIndex(). */
    method ReadLed(index: uint16, from8: byte -> uint16) returns (p: Powers)
      requires Valid() && index < |leds|
      ensures p == Decode(format, Encode(format, leds[index]), from8)
    {
      var byteindex := ByteIndex(index);
      ImageAt(format, leds, index);
      BytesBehind(header, Image(format, leds), byteindex, Encode(format, leds[index]));
      var at := |header| + byteindex;
      assert rawBuffer[at..at + format.LedSize()] == rawBuffer[..][at..at + format.LedSize()];
      p := Decode(format, rawBuffer[at..at + format.LedSize()], from8);
    }

    method SetPowerXY(x: uint16, y: uint16, p: Powers)
      requires Linked() && Hardware().Valid()
      modifies Hardware()`leds, Hardware().rawBuffer
      ensures Hardware().Valid()
      ensures Hardware().leds == Changed(old(Hardware().leds), mapping.LedIndexFromXY(x, y), p)
    {
      SetPowerAtLedIndex(mapping.LedIndexFromXY(x, y), p);
    }
  }

  function Changed(leds: seq<Powers>, index: nat, p: Powers): seq<Powers> {
    if index < |leds| then leds[index := p] else leds
  }

  // ----- Several mappings on one chain

  datatype Write = Write(m: Mapping, pixel: Pixel, p: Powers) {
    ghost predicate Valid() {
      m.Valid() && m.Inside(pixel)
    }

    function Index(): uint16
      requires Valid()
    {
      m.LedIndexFromXY(pixel.x, pixel.y)
    }
  }

  /** The effect of a sequence of setPowerXY() calls made through several mappings. */
  function Run(leds: seq<Powers>, writes: seq<Write>): (r: seq<Powers>)
    requires forall i :: 0 <= i < |writes| ==> writes[i].Valid()
    ensures |r| == |leds|
  {
    if writes == [] then leds
    else
      var n := |writes| - 1;
      Changed(Run(leds, writes[..n]), writes[n].Index(), writes[n].p)
  }

  /** The same with the objects: chains[i] is the mapping of writes[i], and all lead to one hardware. */
  method SetPowers(hardware: LedChainComm, chains: seq<LedChainComm>, writes: seq<Write>)
    requires hardware.Valid() && |chains| == |writes|
    requires forall i :: 0 <= i < |chains| ==> chains[i].Linked() && chains[i].Hardware() == hardware
    requires forall i :: 0 <= i < |writes| ==> writes[i].Valid() && writes[i].m == chains[i].mapping
    modifies hardware`leds, hardware.rawBuffer
    ensures hardware.Valid() && hardware.leds == Run(old(hardware.leds), writes)
  {
    for i := 0 to |writes|
      invariant hardware.Valid() && hardware.leds == Run(old(hardware.leds), writes[..i])
    {
      assert writes[..i + 1][..i] == writes[..i];
      chains[i].SetPowerXY(writes[i].pixel.x, writes[i].pixel.y, writes[i].p);
    }
    assert writes[..|writes|] == writes;
  }

  /** The power a pixel of a mapping should have: the last one set through this mapping, if any. */
  function LastPower(writes: seq<Write>, m: Mapping, pixel: Pixel, initial: Powers): Powers {
    if writes == [] then initial
    else
      var n := |writes| - 1;
      if writes[n].m == m && writes[n].pixel == pixel then writes[n].p
      else LastPower(writes[..n], m, pixel, initial)
  }

  ghost predicate Disjoint(m: Mapping, k: Mapping)
    requires m.Valid() && k.Valid()
  {
    forall i: nat :: !(m.Active(i) && k.Active(i))
  }

  /** Main result: however calls through different mappings are interleaved, the LED of every pixel
      has the power last set for this pixel through this mapping, provided the mappings do not share
      active LEDs. */
  lemma {:induction false} PixelShowsLastPower(leds: seq<Powers>, writes: seq<Write>, m: Mapping, pixel: Pixel)
    requires m.Valid() && m.Inside(pixel) && m.LedIndexFromXY(pixel.x, pixel.y) < |leds|
    requires forall i :: 0 <= i < |writes| ==> writes[i].Valid() && (writes[i].m == m || Disjoint(m, writes[i].m))
    ensures var i := m.LedIndexFromXY(pixel.x, pixel.y);
            Run(leds, writes)[i] == LastPower(writes, m, pixel, leds[i])
  {
    if writes != [] {
      var n := |writes| - 1;
      PixelShowsLastPower(leds, writes[..n], m, pixel);
      OtherPixelsDiffer(m, pixel, writes[n]);
    }
  }

  /** A write to another pixel, or through a disjoint mapping, goes to another LED. */
  lemma OtherPixelsDiffer(m: Mapping, pixel: Pixel, w: Write)
    requires m.Valid() && m.Inside(pixel) && w.Valid() && (w.m == m || Disjoint(m, w.m))
    ensures (w.m == m && w.pixel == pixel) || m.LedIndexFromXY(pixel.x, pixel.y) != w.Index()
  {
    PixelHasActiveLed(m, pixel);
    PixelHasActiveLed(w.m, w.pixel);
    if w.m != m {
      var i := m.LedIndexFromXY(pixel.x, pixel.y);
      assert m.Active(i);
      assert !w.m.Active(i);
    }
  }

  /** LEDs that are inactive in every mapping keep what they showed. */
  lemma {:induction false} InactiveLedsStay(leds: seq<Powers>, writes: seq<Write>, i: nat)
    requires i < |leds|
    requires forall k :: 0 <= k < |writes| ==> writes[k].Valid() && !writes[k].m.Active(i)
    ensures Run(leds, writes)[i] == leds[i]
  {
    if writes != [] {
      var w := writes[|writes| - 1];
      InactiveLedsStay(leds, writes[..|writes| - 1], i);
      PixelHasActiveLed(w.m, w.pixel);
    }
  }

  /** Rounding for 8-bit LEDs keeps 8-bit values as they are, keeps the order, and is never off by more
      than 153 of 65536. */
  lemma NarrowingRounds(v: byte, p: uint16, q: uint16)
    ensures PwmTo8Bits(256 * v) == v
    ensures p <= q ==> PwmTo8Bits(p) <= PwmTo8Bits(q)
    ensures p < 0xFF80 ==> -102 <= p - 256 * PwmTo8Bits(p) <= 153
    ensures p >= 0xFF80 ==> PwmTo8Bits(p) == 255
  {
    Rounded(256 * v);
    Rounded(p);
    Rounded(q);
  }

  lemma Rounded(p: uint16)
    ensures p < 0xFF80 ==> 256 * PwmTo8Bits(p) <= p + 102 < 256 * PwmTo8Bits(p) + 256
  {
  }

  /** The order of the bytes: red, green, blue and white, the more significant byte first. */
  lemma BytesOfChannels(f: Format, p: Powers)
    ensures var b := Encode(f, p);
            if f.wide then
              && |b| == (if f.hasWhite then 8 else 6)
              && 256 * (b[0] as int) + b[1] as int == p.r && 256 * (b[2] as int) + b[3] as int == p.g
              && 256 * (b[4] as int) + b[5] as int == p.b && (f.hasWhite ==> 256 * (b[6] as int) + b[7] as int == p.w)
            else
              && |b| == (if f.hasWhite then 4 else 3)
              && b[0] == PwmTo8Bits(p.r) && b[1] == PwmTo8Bits(p.g) && b[2] == PwmTo8Bits(p.b)
              && (f.hasWhite ==> b[3] == PwmTo8Bits(p.w))
  {
  }

  /** The buffer of a 16-bit chip without loss: different powers give different bytes. */
  lemma WideEncodingIsInjective(f: Format, p: Powers, q: Powers)
    requires f.wide && Encode(f, p) == Encode(f, q)
    ensures p.r == q.r && p.g == q.g && p.b == q.b && (f.hasWhite ==> p.w == q.w)
  {
    assert forall i :: 0 <= i < f.LedSize() ==> Encode(f, p)[i] == Encode(f, q)[i];
    assert Encode(f, p)[0] == Encode(f, q)[0] && Encode(f, p)[1] == Encode(f, q)[1];
    assert Encode(f, p)[2] == Encode(f, q)[2] && Encode(f, p)[3] == Encode(f, q)[3];
    assert Encode(f, p)[4] == Encode(f, q)[4] && Encode(f, p)[5] == Encode(f, q)[5];
    if f.hasWhite {
      assert Encode(f, p)[6] == Encode(f, q)[6] && Encode(f, p)[7] == Encode(f, q)[7];
    }
  }
}
