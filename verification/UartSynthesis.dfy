/** The WS28xx signal generator of ledchaincomm.cpp: LED data bits become bytes for a 7-N-1 UART
    whose inverted line then carries the LED signal.

    Single-bit masks are modelled by the position of their bit.
  */
module UartSynthesis {
  import opened Arithmetic
  import opened BitVectors

  /** The order in which the bytes of one LED are sent. */
  datatype Layout = Layout(channels: nat, fetchIdx: seq<nat>) {
    ghost predicate Valid() {
      && (channels == 3 || channels == 4) && |fetchIdx| == channels
      && (forall c :: 0 <= c < channels ==> fetchIdx[c] < channels)
      && (forall c, d :: 0 <= c < d < channels ==> fetchIdx[c] != fetchIdx[d])
    }
  }

  /** The layouts of the source, in its order; the first one is the placeholder "none". */
  const LAYOUTS: seq<Layout> := [
    Layout(1, [1]),
    Layout(3, [0, 1, 2]), Layout(3, [1, 0, 2]),
    Layout(4, [0, 1, 2, 3]), Layout(4, [1, 0, 2, 3]),
    Layout(3, [0, 2, 1]), Layout(3, [1, 2, 0]), Layout(3, [2, 0, 1]), Layout(3, [2, 1, 0]),
    Layout(4, [0, 2, 1, 3]), Layout(4, [1, 2, 0, 3]), Layout(4, [2, 0, 1, 3]), Layout(4, [2, 1, 0, 3])
  ]

  /** The names of the layouts: the channels in the order they are sent. */
  const NAMES: seq<string> := [
    "none", "RGB", "GRB", "RGBW", "GRBW", "RBG", "GBR", "BRG", "BGR", "RGBW", "GBRW", "BRGW", "BGRW"
  ]

  /** The order of the channels in the LED buffer. */
  const CHANNELS: string := "RGBW"

  lemma LayoutsArePermutations(i: nat)
    requires i < |LAYOUTS|
    ensures LAYOUTS[i].Valid() <==> i != 0
  {
    if i == 0 {
      assert LAYOUTS[0].fetchIdx[0] == 1;
    }
  }

  /** The layout sends the channels in the order of its name. */
  predicate SendsItsName(i: nat)
    requires i < |LAYOUTS| && |NAMES| == |LAYOUTS|
  {
    && |NAMES[i]| == LAYOUTS[i].channels == |LAYOUTS[i].fetchIdx|
    && forall c :: 0 <= c < |NAMES[i]| ==>
         LAYOUTS[i].fetchIdx[c] < |CHANNELS| && NAMES[i][c] == CHANNELS[LAYOUTS[i].fetchIdx[c]]
  }

  /** All do but the placeholder and the one for RBGW, which has a wrong name. */
  lemma SendsItsNameIff(i: nat)
    requires i < |LAYOUTS|
    ensures |NAMES| == |LAYOUTS| && (SendsItsName(i) <==> i != 0 && i != 9)
  {
    if i == 0 {
      assert |NAMES[0]| == 4;
    } else if i == 9 {
      assert NAMES[9][1] == 'G' && CHANNELS[LAYOUTS[9].fetchIdx[1]] == 'B';
    }
  }

  /** The layout of a name; the placeholder if there is none. */
  method LayoutByName(name: string) returns (i: nat)
    ensures i < |LAYOUTS| == |NAMES| && forall k :: 0 <= k < i ==> NAMES[k] != name
    ensures if name in NAMES then NAMES[i] == name else i == 0
  {
    i := 0;
    for k := 0 to |NAMES|
      invariant i == 0 && forall l :: 0 <= l < k ==> NAMES[l] != name
    {
      if name == NAMES[k] { return k; }
    }
  }

  /** A layout that is found by its name sends the channels in this order: the wrong name finds the right
      layout, because that comes first. */
  lemma FoundLayoutSendsItsName(i: nat)
    requires 0 < i < |LAYOUTS| == |NAMES| && forall k :: 0 <= k < i ==> NAMES[k] != NAMES[i]
    ensures SendsItsName(i)
  {
    SendsItsNameIff(i);
    assert NAMES[3] == NAMES[9];
  }

  const RBGW: string := "RBGW"

  /** No name finds the layout for RBGW. */
  lemma RbgwIsNotFound()
    ensures RBGW !in NAMES && LAYOUTS[9].fetchIdx == [0, 2, 1, 3]
  {
    assert forall k :: 0 <= k < |NAMES| && |NAMES[k]| == 4 && NAMES[k][0] == 'R' ==> NAMES[k][1] == 'G';
    assert RBGW[0] == 'R' && RBGW[1] == 'B';
  }

  /** The bytes of one LED in the order the layout asks for. */
  function Group(led: seq<Byte>, layout: Layout): (g: seq<Byte>)
    requires layout.Valid() && |led| == layout.channels
    ensures |g| == layout.channels
  {
    seq(layout.channels, c requires 0 <= c < layout.channels => led[layout.fetchIdx[c]])
  }

  /** All LED bytes in the order they are sent. */
  function Permuted(data: seq<Byte>, layout: Layout): (p: seq<Byte>)
    requires layout.Valid()
  {
    if |data| < layout.channels then []
    else Group(data[..layout.channels], layout) + Permuted(data[layout.channels..], layout)
  }

  /** The size of a number of complete LEDs. */
  predicate WholeLeds(size: nat, layout: Layout)
    requires layout.Valid()
    decreases size
  {
    if size < layout.channels then size == 0 else WholeLeds(size - layout.channels, layout)
  }

  lemma {:induction false} PermutedLength(data: seq<Byte>, layout: Layout)
    requires layout.Valid() && WholeLeds(|data|, layout)
    ensures |Permuted(data, layout)| == |data|
  {
    if |data| >= layout.channels {
      PermutedLength(data[layout.channels..], layout);
    }
  }

  function MsbFirst(b: Byte): (bits: Bits)
    ensures |bits| == 8
  {
    seq(8, j requires 0 <= j < 8 => b[7 - j])
  }

  lemma MsbFirstOneMore(bits: Bits, b: Byte, j: nat)
    requires j < 8
    ensures bits + MsbFirst(b)[..j] + [b[7 - j]] == bits + MsbFirst(b)[..j + 1]
  {
  }

  /** The bits of all bytes, most significant bit of each byte first. */
  function SignalBits(bytes: seq<Byte>): (bits: Bits)
    ensures |bits| == 8 * |bytes|
  {
    seq(8 * |bytes|, k requires 0 <= k < 8 * |bytes| => bytes[k / 8][7 - k % 8])
  }

  lemma SignalOneMore(bytes: seq<Byte>, b: Byte)
    ensures SignalBits(bytes + [b]) == SignalBits(bytes) + MsbFirst(b)
  {
  }

  function Invert(b: Byte): Byte {
    [!b[0], !b[1], !b[2], !b[3], !b[4], !b[5], !b[6], !b[7]]
  }

  /** A UART byte holding the first r of three data bits, not yet inverted. */
  function Partial(d: Bits): Byte
    requires |d| < 3
  {
    if |d| == 0 then [F, F, F, F, F, F, F, F]
    else if |d| == 1 then [d[0], F, F, F, F, F, F, F]
    else [d[0], F, T, d[1], F, F, F, F]
  }

  function Full(d0: bool, d1: bool, d2: bool): Byte {
    [d0, F, T, d1, F, T, d2, F]
  }

  /** What the generator has produced once it has consumed the given bits. */
  ghost predicate Produced(bits: Bits, sent: seq<Byte>) {
    && 3 * |sent| <= |bits| < 3 * |sent| + 3
    && forall m :: 0 <= m < |sent| ==> sent[m] == Invert(Full(bits[3 * m], bits[3 * m + 1], bits[3 * m + 2]))
  }

  lemma ProducedOneMore(bits: Bits, sent: seq<Byte>, last: Bits)
    requires |last| == 3 && |bits| == 3 * |sent| && Produced(bits, sent)
    ensures Produced(bits + last, sent + [Invert(Full(last[0], last[1], last[2]))])
  {
  }

  /** The state of the generator after consuming some bits. */
  ghost predicate Generating(bits: Bits, outBit: nat, uartByte: Byte, sent: seq<Byte>) {
    && Produced(bits, sent)
    && outBit == 3 * (|bits| - 3 * |sent|)
    && uartByte == Partial(bits[3 * |sent|..])
  }

  /** Setting the synchronisation bit and the data bit in the current byte keeps the state. */
  lemma NextBit(bits: Bits, outBit: nat, uartByte: Byte, sent: seq<Byte>, bit: bool, next: Byte)
    requires Generating(bits, outBit, uartByte, sent)
    requires var synced := if outBit > 0 then uartByte[outBit - 1 := true] else uartByte;
             next == if bit then synced[outBit := true] else synced
    ensures outBit < 6 ==> Generating(bits + [bit], outBit + 3, next, sent)
    ensures outBit >= 6 ==> Generating(bits + [bit], 0, Partial([]), sent + [Invert(next)])
  {
    if outBit < 6 {
      BitWithin(bits, outBit, uartByte, sent, bit, next);
    } else {
      LastBit(bits, outBit, uartByte, sent, bit, next);
    }
  }

  lemma BitWithin(bits: Bits, outBit: nat, uartByte: Byte, sent: seq<Byte>, bit: bool, next: Byte)
    requires Generating(bits, outBit, uartByte, sent) && outBit < 6
    requires var synced := if outBit > 0 then uartByte[outBit - 1 := true] else uartByte;
             next == if bit then synced[outBit := true] else synced
    ensures Generating(bits + [bit], outBit + 3, next, sent)
  {
    var m := 3 * |sent|;
    var tail := bits[m..];
    assert (bits + [bit])[m..] == tail + [bit];
    assert next == Partial(tail + [bit]);
    forall k | 0 <= k < |sent|
      ensures sent[k] == Invert(Full((bits + [bit])[3 * k], (bits + [bit])[3 * k + 1], (bits + [bit])[3 * k + 2]))
    {
      assert 3 * k + 2 < |bits|;
    }
  }

  lemma LastBit(bits: Bits, outBit: nat, uartByte: Byte, sent: seq<Byte>, bit: bool, next: Byte)
    requires Generating(bits, outBit, uartByte, sent) && outBit >= 6
    requires next == if bit then uartByte[outBit - 1 := true][outBit := true] else uartByte[outBit - 1 := true]
    ensures Generating(bits + [bit], 0, Partial([]), sent + [Invert(next)])
  {
    var m := 3 * |sent|;
    var tail := bits[m..];
    assert bits == bits[..m] + tail && bits + [bit] == bits[..m] + (tail + [bit]);
    assert next == Full(tail[0], tail[1], bit);
    ProducedPrefix(bits, sent);
    ProducedOneMore(bits[..m], sent, tail + [bit]);
  }

  lemma ProducedPrefix(bits: Bits, sent: seq<Byte>)
    requires Produced(bits, sent)
    ensures Produced(bits[..3 * |sent|], sent)
  {
  }

  /** The outer loop is at channel cidx of the LED at lidx and has passed on the bytes in `done`. */
  ghost predicate AtLed(data: seq<Byte>, layout: Layout, lidx: nat, cidx: nat, done: seq<Byte>) {
    && layout.Valid() && lidx <= |data| && WholeLeds(|data| - lidx, layout)
    && cidx < layout.channels && (lidx == |data| ==> cidx == 0)
    && cidx <= |Permuted(data[lidx..], layout)|
    && done + Permuted(data[lidx..], layout)[cidx..] == Permuted(data, layout)
  }

  lemma Advance(data: seq<Byte>, layout: Layout, lidx: nat, cidx: nat, done: seq<Byte>)
    requires AtLed(data, layout, lidx, cidx, done) && lidx < |data|
    ensures lidx + layout.channels <= |data|
    ensures var now := done + [data[lidx + layout.fetchIdx[cidx]]];
            if cidx + 1 < layout.channels then AtLed(data, layout, lidx, cidx + 1, now)
            else AtLed(data, layout, lidx + layout.channels, 0, now)
    ensures |done| < |Permuted(data, layout)|
  {
    var n := layout.channels;
    var g, rest := Group(data[lidx..][..n], layout), data[lidx + n..];
    assert data[lidx..][n..] == rest;
    var p := Permuted(data[lidx..], layout);
    assert p == g + Permuted(rest, layout);
    assert p[cidx] == data[lidx + layout.fetchIdx[cidx]];
    OneOn(done, p, cidx);
    if cidx + 1 == n {
      assert p[n..] == Permuted(rest, layout)[0..];
    }
  }

  lemma OneOn(done: seq<Byte>, p: seq<Byte>, i: nat)
    requires i < |p|
    ensures done + p[i..] == (done + [p[i]]) + p[i + 1..]
  {
  }

  /** The inner loop: the bits of one LED byte, most significant first. */
  method SendByte(ledByte: Byte, uartData: array<Byte>, ghost bits: Bits, outP0: nat, outBit0: nat, uartByte0: Byte)
    returns (outP: nat, outBit: nat, uartByte: Byte)
    requires outP0 <= uartData.Length && |bits| + 8 <= 3 * uartData.Length
    requires Generating(bits, outBit0, uartByte0, uartData[..outP0])
    modifies uartData
    ensures outP <= uartData.Length
    ensures Generating(bits + MsbFirst(ledByte), outBit, uartByte, uartData[..outP])
  {
    outP, outBit, uartByte := outP0, outBit0, uartByte0;
    var ledBit := 8;
    ghost var now := bits;
    ghost var sent := uartData[..outP];
    while ledBit > 0
      invariant 0 <= ledBit <= 8
      invariant now == bits + MsbFirst(ledByte)[..8 - ledBit]
      invariant outP <= uartData.Length && uartData[..outP] == sent
      invariant Generating(now, outBit, uartByte, sent)
    {
      ledBit := ledBit - 1;
      ghost var was := uartByte;
      if outBit > 0 { uartByte := uartByte[outBit - 1 := true]; }
      if ledByte[ledBit] { uartByte := uartByte[outBit := true]; }
      NextBit(now, outBit, was, sent, ledByte[ledBit], uartByte);
      MsbFirstOneMore(bits, ledByte, 7 - ledBit);
      now := now + [ledByte[ledBit]];
      outBit := outBit + 3;
      if outBit >= 7 {
        sent := sent + [Invert(uartByte)];
        uartData[outP] := Invert(uartByte);
        outP := outP + 1;
        uartByte := Partial([]);
        outBit := 0;
      }
    }
    assert MsbFirst(ledByte)[..8] == MsbFirst(ledByte);
  }

  /** Fills a buffer of (8 * size + 2) / 3 bytes, all of which are sent.  The bytes that are complete
      carry the data; `used` says how many these are.  If there is one more, it has never been written
      and may contain anything. */
  method SendToUart(ledData: seq<Byte>, layout: Layout) returns (uartData: array<Byte>, used: nat)
    requires layout.Valid() && WholeLeds(|ledData|, layout)
    ensures fresh(uartData) && uartData.Length == (8 * |ledData| + 2) / 3
    ensures used == 8 * |ledData| / 3 <= uartData.Length <= used + 1
    ensures Produced(SignalBits(Permuted(ledData, layout)), uartData[..used])
  {
    PermutedLength(ledData, layout);
    uartData := new Byte[(8 * |ledData| + 2) / 3];
    var outP: nat := 0;
    var outBit: nat := 0;
    var uartByte: Byte := [F, F, F, F, F, F, F, F];
    var lidx: nat, cidx: nat := 0, 0;
    ghost var done: seq<Byte>, bits: Bits := [], [];
    assert ledData[0..] == ledData;
    while lidx < |ledData|
      invariant AtLed(ledData, layout, lidx, cidx, done)
      invariant bits == SignalBits(done)
      invariant outP <= uartData.Length && Generating(bits, outBit, uartByte, uartData[..outP])
      decreases |ledData| - lidx, layout.channels - cidx
    {
      Advance(ledData, layout, lidx, cidx, done);
      var ledByte := ledData[lidx + layout.fetchIdx[cidx]];
      SignalOneMore(done, ledByte);
      done := done + [ledByte];
      cidx := cidx + 1;
      if cidx >= layout.channels {
        cidx := 0;
        lidx := lidx + layout.channels;
      }
      outP, outBit, uartByte := SendByte(ledByte, uartData, bits, outP, outBit, uartByte);
      bits := bits + MsbFirst(ledByte);
    }
    assert done == Permuted(ledData, layout);
    used := outP;
  }

  /** Byte c sent for a LED is the one of the LED that the layout says. */
  lemma {:induction false} PermutedAt(data: seq<Byte>, layout: Layout, led: nat, c: nat)
    requires layout.Valid() && c < layout.channels && Times(led + 1, layout.channels) <= |data|
    ensures var at := Times(led, layout.channels);
            at + c < |Permuted(data, layout)| && Permuted(data, layout)[at + c] == data[at + layout.fetchIdx[c]]
  {
    var n := layout.channels;
    if led > 0 {
      AtLeast(led, n);
      PermutedAt(data[n..], layout, led - 1, c);
    }
  }

  lemma AtLeast(led: nat, n: nat)
    requires led > 0
    ensures Times(led + 1, n) >= 2 * n
  {
    assert Times(led, n) >= n;
  }

  // ----- What a WS28xx chain sees

  /** The line while one byte is sent: start bit low, seven data bits, stop bit high; inverted by
      the output stage. */
  function InvertedLine(b: Byte): Bits {
    [T, !b[0], !b[1], !b[2], !b[3], !b[4], !b[5], !b[6], F]
  }

  function Line(sent: seq<Byte>): (levels: Bits)
    ensures |levels| == 9 * |sent|
  {
    seq(9 * |sent|, k requires 0 <= k < 9 * |sent| => InvertedLine(sent[k / 9])[k % 9])
  }

  /** The WS28xx code: every data bit d is the level triple 1, d, 0. */
  function Triples(bits: Bits): (levels: Bits)
    ensures |levels| == 3 * |bits|
  {
    seq(3 * |bits|, k requires 0 <= k < 3 * |bits| => k % 3 == 0 || (k % 3 == 1 && bits[k / 3]))
  }

  /** A receiver that samples every triple in the middle. */
  function Sampled(levels: Bits): Bits {
    seq(|levels| / 3, k requires 0 <= k < |levels| / 3 => levels[3 * k + 1])
  }

  function BytesFromBits(bits: Bits): (bytes: seq<Byte>)
    ensures |bytes| == |bits| / 8
  {
    seq(|bits| / 8, i requires 0 <= i < |bits| / 8 => ByteAt(bits, 8 * i))
  }

  function ByteAt(bits: Bits, k: nat): Byte
    requires k + 8 <= |bits|
  {
    seq(8, j requires 0 <= j < 8 => bits[k + 7 - j])
  }

  /** The line carries exactly the WS28xx code of the first 3 * |sent| bits. */
  lemma LineIsCode(bits: Bits, sent: seq<Byte>)
    requires Produced(bits, sent)
    ensures Line(sent) == Triples(bits[..3 * |sent|])
  {
    forall k | 0 <= k < 9 * |sent|
      ensures Line(sent)[k] == Triples(bits[..3 * |sent|])[k]
    {
      CharacterIsCode(bits, sent, k / 9, k % 9);
      ThirdsOf(k);
    }
  }

  /** Main result on the line: bit j of byte i, counted from the most significant one, is a high level, the
      bit, and a low level. */
  lemma LineLevels(bytes: seq<Byte>, sent: seq<Byte>, i: nat, j: nat)
    requires Produced(SignalBits(bytes), sent) && i < |bytes| && j < 8 && 8 * i + j < 3 * |sent|
    ensures var at, levels := 3 * (8 * i + j), Line(sent);
            levels[at] && levels[at + 1] == bytes[i][7 - j] && !levels[at + 2]
  {
    BitLevels(SignalBits(bytes), sent, 8 * i + j);
    SignalBitAt(bytes, i, j);
  }

  lemma BitLevels(bits: Bits, sent: seq<Byte>, k: nat)
    requires Produced(bits, sent) && k < 3 * |sent|
    ensures var levels := Line(sent); levels[3 * k] && levels[3 * k + 1] == bits[k] && !levels[3 * k + 2]
  {
    LineIsCode(bits, sent);
    TripleAt(bits[..3 * |sent|], k);
  }

  lemma TripleAt(bits: Bits, k: nat)
    requires k < |bits|
    ensures var levels := Triples(bits); levels[3 * k] && levels[3 * k + 1] == bits[k] && !levels[3 * k + 2]
  {
  }

  /** One level of one character. */
  lemma CharacterIsCode(bits: Bits, sent: seq<Byte>, m: nat, j: nat)
    requires Produced(bits, sent) && m < |sent| && j < 9
    ensures 3 * m + j / 3 < 3 * |sent|
    ensures InvertedLine(sent[m])[j] == (j % 3 == 0 || (j % 3 == 1 && bits[3 * m + j / 3]))
  {
    assert sent[m] == Invert(Full(bits[3 * m], bits[3 * m + 1], bits[3 * m + 2]));
  }

  lemma ThirdsOf(k: nat)
    ensures k / 3 == 3 * (k / 9) + k % 9 / 3 && k % 3 == k % 9 % 3
  {
  }

  lemma SignalBitAt(bytes: seq<Byte>, i: nat, j: nat)
    requires i < |bytes| && j < 8
    ensures SignalBits(bytes)[8 * i + j] == bytes[i][7 - j]
  {
  }

  lemma BytesOfSignal(bytes: seq<Byte>)
    ensures BytesFromBits(SignalBits(bytes)) == bytes
  {
    var bits := SignalBits(bytes);
    forall i | 0 <= i < |bytes|
      ensures BytesFromBits(bits)[i] == bytes[i]
    {
      forall j | 0 <= j < 8
        ensures ByteAt(bits, 8 * i)[j] == bytes[i][j]
      {
        SignalBitAt(bytes, i, 7 - j);
      }
    }
  }

  /** The three data bits a receiver samples from a character. */
  function CharacterBits(c: Byte): (bits: Bits)
    ensures |bits| == 3
  {
    [!c[0], !c[3], !c[6]]
  }

  lemma SampledAt(sent: seq<Byte>, m: nat, j: nat)
    requires m < |sent| && j < 3
    ensures |Sampled(Line(sent))| == 3 * |sent|
    ensures Sampled(Line(sent))[3 * m + j] == CharacterBits(sent[m])[j]
  {
    var k := 3 * (3 * m + j) + 1;
    assert k / 9 == m && k % 9 == 3 * j + 1;
  }

  /** The complete characters are sampled as the bits they were made of. */
  lemma CompleteBits(bits: Bits, sent: seq<Byte>, whole: seq<Byte>, k: nat)
    requires Produced(bits, sent) && sent <= whole && k < 3 * |sent|
    ensures |Sampled(Line(whole))| == 3 * |whole| && Sampled(Line(whole))[k] == bits[k]
  {
    var m, j := k / 3, k % 3;
    SampledAt(whole, m, j);
    assert sent[m] == Invert(Full(bits[3 * m], bits[3 * m + 1], bits[3 * m + 2]));
  }

  lemma BitsOfBytes(bits: Bits)
    ensures SignalBits(BytesFromBits(bits)) == bits[..8 * (|bits| / 8)]
  {
    var bytes := BytesFromBits(bits);
    forall k | 0 <= k < 8 * |bytes|
      ensures SignalBits(bytes)[k] == bits[k]
    {
      assert bytes[k / 8] == ByteAt(bits, 8 * (k / 8));
    }
  }

  /** The data bits that are left over for the character that is not complete. */
  function LeftOver(data: seq<Byte>, layout: Layout): (bits: Bits)
    requires layout.Valid() && WholeLeds(|data|, layout)
    ensures |bits| < 3
  {
    PermutedLength(data, layout);
    SignalBits(Permuted(data, layout))[3 * (8 * |data| / 3)..]
  }

  function LastBits(whole: seq<Byte>): (bits: Bits)
    ensures |bits| == 3
  {
    if whole == [] then [F, F, F] else CharacterBits(whole[|whole| - 1])
  }

  /** What the last character happens to hold is what is left over. */
  predicate Holds(last: Bits, rest: Bits)
    requires |rest| <= |last|
  {
    last[..|rest|] == rest
  }

  /** Main result: whatever the layout and the size, a receiver of the whole line gets the complete
      characters right, and all the data exactly if the last character, where it has not been written,
      happens to hold the bits that are left over. */
  lemma LineDecodesToData(data: seq<Byte>, layout: Layout, sent: seq<Byte>, whole: seq<Byte>)
    requires layout.Valid() && WholeLeds(|data|, layout)
    requires Produced(SignalBits(Permuted(data, layout)), sent)
    requires |whole| == (8 * |data| + 2) / 3 && sent <= whole
    ensures |Sampled(Line(whole))| == 3 * |whole|
    ensures Sampled(Line(whole))[..3 * |sent|] == SignalBits(Permuted(data, layout))[..3 * |sent|]
    ensures BytesFromBits(Sampled(Line(whole))) == Permuted(data, layout)
            <==> Holds(LastBits(whole), LeftOver(data, layout))
  {
    var bytes := Permuted(data, layout);
    PermutedLength(data, layout);
    CompletePart(SignalBits(bytes), sent, whole);
    Third(8 * |data|, |sent|);
    WholeDecodes(bytes, sent, whole);
  }

  lemma CompletePart(bits: Bits, sent: seq<Byte>, whole: seq<Byte>)
    requires Produced(bits, sent) && sent <= whole
    ensures |Sampled(Line(whole))| == 3 * |whole|
    ensures Sampled(Line(whole))[..3 * |sent|] == bits[..3 * |sent|]
  {
    var sampled := Sampled(Line(whole));
    forall k | 0 <= k < 3 * |sent|
      ensures sampled[k] == bits[k]
    {
      CompleteBits(bits, sent, whole, k);
    }
  }

  lemma Third(a: nat, m: nat)
    requires 3 * m <= a < 3 * m + 3
    ensures a / 3 == m
  {
  }

  lemma WholeDecodes(bytes: seq<Byte>, sent: seq<Byte>, whole: seq<Byte>)
    requires Produced(SignalBits(bytes), sent) && sent <= whole && |whole| == (8 * |bytes| + 2) / 3
    ensures BytesFromBits(Sampled(Line(whole))) == bytes <==> Holds(LastBits(whole), SignalBits(bytes)[3 * |sent|..])
  {
    var bits, sampled, n := SignalBits(bytes), Sampled(Line(whole)), |sent|;
    CompletePart(bits, sent, whole);
    DecodesIff(bytes, sampled);
    if 3 * n < |bits| {
      assert |whole| == n + 1;
      LastSampled(whole, n);
    }
    LastDecides(bits, sampled, LastBits(whole), n);
  }

  lemma LastSampled(whole: seq<Byte>, n: nat)
    requires |whole| == n + 1
    ensures |Sampled(Line(whole))| == 3 * n + 3
    ensures forall j :: 0 <= j < 3 ==> Sampled(Line(whole))[3 * n + j] == LastBits(whole)[j]
  {
    forall j | 0 <= j < 3
      ensures Sampled(Line(whole))[3 * n + j] == LastBits(whole)[j]
    {
      SampledAt(whole, n, j);
    }
  }

  lemma LastDecides(bits: Bits, sampled: Bits, last: Bits, n: nat)
    requires 3 * n <= |bits| < 3 * n + 3 && |bits| <= |sampled| && |last| == 3
    requires sampled[..3 * n] == bits[..3 * n]
    requires 3 * n < |bits| ==> |sampled| == 3 * n + 3 && forall j :: 0 <= j < 3 ==> sampled[3 * n + j] == last[j]
    ensures sampled[..|bits|] == bits <==> Holds(last, bits[3 * n..])
  {
    var r := |bits| - 3 * n;
    assert sampled[..|bits|] == sampled[..3 * n] + sampled[3 * n..|bits|];
    assert bits == bits[..3 * n] + bits[3 * n..];
    assert sampled[3 * n..|bits|] == last[..r];
    SameFront(bits[..3 * n], last[..r], bits[3 * n..]);
  }

  lemma SameFront(a: Bits, b: Bits, c: Bits)
    requires |b| == |c|
    ensures a + b == a + c <==> b == c
  {
    if a + b == a + c {
      assert (a + b)[|a|..] == b && (a + c)[|a|..] == c;
    }
  }

  lemma DecodesIff(bytes: seq<Byte>, sampled: Bits)
    requires 8 * |bytes| <= |sampled| < 8 * |bytes| + 8
    ensures BytesFromBits(sampled) == bytes <==> sampled[..8 * |bytes|] == SignalBits(bytes)
  {
    BitsOfBytes(sampled);
    BytesOfSignal(bytes);
    if sampled[..8 * |bytes|] == SignalBits(bytes) {
      forall i | 0 <= i < |bytes|
        ensures BytesFromBits(sampled)[i] == BytesFromBits(SignalBits(bytes))[i]
      {
        assert ByteAt(sampled, 8 * i) == ByteAt(sampled[..8 * |bytes|], 8 * i);
      }
    }
  }

  /** Nothing is left to chance exactly when the number of bytes is a multiple of 3: then every byte
      sent has been written. */
  lemma NothingLeftOverIff(data: seq<Byte>, layout: Layout, sent: seq<Byte>)
    requires layout.Valid() && WholeLeds(|data|, layout)
    requires Produced(SignalBits(Permuted(data, layout)), sent)
    ensures LeftOver(data, layout) == [] <==> |data| % 3 == 0
    ensures |sent| == (8 * |data| + 2) / 3 <==> |data| % 3 == 0
  {
    PermutedLength(data, layout);
    WholeTriples(|data|, |sent|);
  }

  lemma WholeTriples(n: nat, m: nat)
    requires 3 * m <= 8 * n < 3 * m + 3
    ensures 8 * n % 3 == 0 <==> n % 3 == 0
    ensures m == (8 * n + 2) / 3 <==> n % 3 == 0
  {
  }

  /** Nothing is lost by permuting: the sent order determines the LED data. */
  lemma {:induction false} PermutedIsInjective(a: seq<Byte>, b: seq<Byte>, layout: Layout)
    requires layout.Valid() && WholeLeds(|a|, layout) && WholeLeds(|b|, layout)
    requires Permuted(a, layout) == Permuted(b, layout)
    ensures a == b
  {
    PermutedLength(a, layout);
    PermutedLength(b, layout);
    var n := layout.channels;
    if a != [] {
      var g, h := Group(a[..n], layout), Group(b[..n], layout);
      assert g == Permuted(a, layout)[..n] == Permuted(b, layout)[..n] == h;
      assert Permuted(a[n..], layout) == Permuted(a, layout)[n..];
      assert Permuted(b[n..], layout) == Permuted(b, layout)[n..];
      PermutedIsInjective(a[n..], b[n..], layout);
      forall f | 0 <= f < n
        ensures a[f] == b[f]
      {
        var c := Preimage(layout, f);
        assert g[c] == h[c];
      }
      assert a == a[..n] + a[n..] && b == b[..n] + b[n..];
    }
  }

  /** Every byte of an LED is fetched by some channel. */
  lemma Preimage(layout: Layout, f: nat) returns (c: nat)
    requires layout.Valid() && f < layout.channels
    ensures c < layout.channels && layout.fetchIdx[c] == f
  {
    var s := layout.fetchIdx;
    c := if s[0] == f then 0 else if s[1] == f then 1 else if s[2] == f then 2 else 3;
  }
}
