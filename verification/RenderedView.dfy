/** Rendering a view onto LEDs: LEDChainArrangement::renderViewState() of ledchaincomm.cpp with the
    writes it makes to the chains, in each of its passes.

    A fixture is a chain with the area of the view it shows.  All fixtures here lead to one hardware
    chain, directly or as mappings.
  */
module RenderedView {
  import opened Arithmetic
  import opened LedPowers
  import opened LedChain
  import G = ChainGeometry
  import P = PowerLimiter

  datatype Fixture = Fixture(chain: P.Chain, comm: LedChainComm, x: nat, y: nat)

  predicate Covers(f: Fixture, x: nat, y: nat) {
    x < |f.chain.pixels| && y < |f.chain.pixels[x]|
  }

  function PixelOf(f: Fixture, x: nat, y: nat): G.Pixel {
    G.Pixel(f.x + x, f.y + y)
  }

  /** The chain of the fixture leads to the hardware, and the area lies within it. */
  ghost predicate Fits(f: Fixture, hardware: LedChainComm) {
    && f.comm.Linked() && f.comm.Hardware() == hardware && f.comm.mapping.Valid()
    && f.comm.mapping.numLeds <= hardware.mapping.numLeds
    && forall x: nat, y: nat :: Covers(f, x, y) ==> f.comm.mapping.Inside(PixelOf(f, x, y))
  }

  ghost predicate AllFit(fixtures: seq<Fixture>, hardware: LedChainComm) {
    forall i :: 0 <= i < |fixtures| ==> Fits(fixtures[i], hardware)
  }

  /** No two fixtures share active LEDs. */
  ghost predicate Apart(fixtures: seq<Fixture>)
    requires forall i :: 0 <= i < |fixtures| ==> fixtures[i].comm.mapping.Valid()
  {
    forall i, j :: 0 <= i < |fixtures| && 0 <= j < |fixtures| && i != j ==>
      Disjoint(fixtures[i].comm.mapping, fixtures[j].comm.mapping)
  }

  // ----- The writes of a pass

  function ColumnWrites(f: Fixture, x: nat, column: seq<Powers>): (w: seq<Write>)
    ensures |w| == |column|
  {
    seq(|column|, y requires 0 <= y < |column| => Write(f.comm.mapping, PixelOf(f, x, y), column[y]))
  }

  function ContentWrites(f: Fixture, content: P.Content): seq<Write> {
    if content == [] then []
    else
      var n := |content| - 1;
      ContentWrites(f, content[..n]) + ColumnWrites(f, n, content[n])
  }

  function PassWrites(fixtures: seq<Fixture>, dim: P.Component): seq<Write> {
    if fixtures == [] then []
    else
      var n := |fixtures| - 1;
      PassWrites(fixtures[..n], dim) + ContentWrites(fixtures[n], P.AreaPowers(fixtures[n].chain, dim))
  }

  /** Undimmed first, and again if the final pass is dimmed. */
  function RenderWrites(fixtures: seq<Fixture>, dim: P.Component): seq<Write> {
    if dim == 0 then PassWrites(fixtures, 0) else PassWrites(fixtures, 0) + PassWrites(fixtures, dim)
  }

  /** The chain object each write of a pass goes to. */
  function PassComms(fixtures: seq<Fixture>, dim: P.Component): seq<LedChainComm> {
    if fixtures == [] then []
    else
      var n := |fixtures| - 1;
      var writes := ContentWrites(fixtures[n], P.AreaPowers(fixtures[n].chain, dim));
      PassComms(fixtures[..n], dim) + seq(|writes|, i => fixtures[n].comm)
  }

  lemma {:induction false} ContentWritesAreValid(f: Fixture, hardware: LedChainComm, content: P.Content)
    requires Fits(f, hardware) && |content| <= |f.chain.pixels|
    requires forall x :: 0 <= x < |content| ==> |content[x]| == |f.chain.pixels[x]|
    ensures forall i :: 0 <= i < |ContentWrites(f, content)| ==>
              ContentWrites(f, content)[i].Valid() && ContentWrites(f, content)[i].m == f.comm.mapping
  {
    if content != [] {
      var n := |content| - 1;
      ContentWritesAreValid(f, hardware, content[..n]);
      forall y | 0 <= y < |content[n]|
        ensures ColumnWrites(f, n, content[n])[y].Valid()
      {
        assert Covers(f, n, y);
      }
    }
  }

  lemma {:induction false} PassWritesAreValid(fixtures: seq<Fixture>, hardware: LedChainComm, dim: P.Component)
    requires AllFit(fixtures, hardware)
    ensures var writes, comms := PassWrites(fixtures, dim), PassComms(fixtures, dim);
            && |comms| == |writes|
            && forall i :: 0 <= i < |writes| ==>
                 && writes[i].Valid() && writes[i].m == comms[i].mapping
                 && comms[i].Linked() && comms[i].Hardware() == hardware
                 && exists k :: 0 <= k < |fixtures| && writes[i].m == fixtures[k].comm.mapping
  {
    if fixtures != [] {
      var n := |fixtures| - 1;
      PassWritesAreValid(fixtures[..n], hardware, dim);
      ContentWritesAreValid(fixtures[n], hardware, P.AreaPowers(fixtures[n].chain, dim));
    }
  }

  // ----- The last write to a pixel

  lemma {:induction false} LastOfBoth(a: seq<Write>, b: seq<Write>, m: G.Mapping, p: G.Pixel, initial: Powers)
    ensures LastPower(a + b, m, p, initial) == LastPower(b, m, p, LastPower(a, m, p, initial))
    decreases |b|
  {
    if b == [] {
      assert a + b == a;
    } else {
      assert (a + b)[..|a + b| - 1] == a + b[..|b| - 1];
      LastOfBoth(a, b[..|b| - 1], m, p, initial);
    }
  }

  lemma {:induction false} NoneToPixel(writes: seq<Write>, m: G.Mapping, p: G.Pixel, initial: Powers)
    requires forall i :: 0 <= i < |writes| ==> writes[i].m != m || writes[i].pixel != p
    ensures LastPower(writes, m, p, initial) == initial
  {
    if writes != [] {
      NoneToPixel(writes[..|writes| - 1], m, p, initial);
    }
  }

  lemma LastInColumn(f: Fixture, x: nat, column: seq<Powers>, y: nat, initial: Powers)
    requires y < |column|
    ensures LastPower(ColumnWrites(f, x, column), f.comm.mapping, PixelOf(f, x, y), initial) == column[y]
  {
    var writes := ColumnWrites(f, x, column);
    var front, back := writes[..y + 1], writes[y + 1..];
    assert writes == front + back;
    LastOfBoth(front, back, f.comm.mapping, PixelOf(f, x, y), initial);
    NoneToPixel(back, f.comm.mapping, PixelOf(f, x, y), column[y]);
  }

  lemma {:induction false} LastInContent(f: Fixture, content: P.Content, x: nat, y: nat, initial: Powers)
    requires x < |content| && y < |content[x]|
    ensures LastPower(ContentWrites(f, content), f.comm.mapping, PixelOf(f, x, y), initial) == content[x][y]
  {
    var n := |content| - 1;
    var front, column := ContentWrites(f, content[..n]), ColumnWrites(f, n, content[n]);
    LastOfBoth(front, column, f.comm.mapping, PixelOf(f, x, y), initial);
    if x == n {
      LastInColumn(f, n, content[n], y, LastPower(front, f.comm.mapping, PixelOf(f, x, y), initial));
    } else {
      LastInContent(f, content[..n], x, y, initial);
      NoneToPixel(column, f.comm.mapping, PixelOf(f, x, y), content[x][y]);
    }
  }

  /** A valid mapping has an active LED. */
  lemma NotApartFromItself(m: G.Mapping)
    requires m.Valid()
    ensures !Disjoint(m, m)
  {
    G.IndexOfPixel(m, 0, 0);
    var p := m.PixelAt(0, 0);
    G.PixelHasActiveLed(m, p);
    assert m.Active(m.LedIndexFromXY(p.x, p.y));
  }

  lemma {:induction false} LastInPass(fixtures: seq<Fixture>, hardware: LedChainComm, dim: P.Component,
                                      i: nat, x: nat, y: nat, initial: Powers)
    requires AllFit(fixtures, hardware) && Apart(fixtures) && i < |fixtures| && Covers(fixtures[i], x, y)
    ensures LastPower(PassWrites(fixtures, dim), fixtures[i].comm.mapping, PixelOf(fixtures[i], x, y), initial)
            == P.AreaPowers(fixtures[i].chain, dim)[x][y]
  {
    var n := |fixtures| - 1;
    var m, p := fixtures[i].comm.mapping, PixelOf(fixtures[i], x, y);
    var content := P.AreaPowers(fixtures[n].chain, dim);
    var front, back := PassWrites(fixtures[..n], dim), ContentWrites(fixtures[n], content);
    LastOfBoth(front, back, m, p, initial);
    if i == n {
      LastInContent(fixtures[n], content, x, y, LastPower(front, m, p, initial));
    } else {
      LastInPass(fixtures[..n], hardware, dim, i, x, y, initial);
      NotApartFromItself(m);
      ContentWritesAreValid(fixtures[n], hardware, content);
      NoneToPixel(back, m, p, P.AreaPowers(fixtures[i].chain, dim)[x][y]);
    }
  }

  /** After all passes every pixel of every fixture has its power of the final pass. */
  lemma LastIsFinal(leds: seq<Powers>, fixtures: seq<Fixture>, hardware: LedChainComm, dim: P.Component,
                    i: nat, x: nat, y: nat)
    requires AllFit(fixtures, hardware) && Apart(fixtures) && i < |fixtures| && Covers(fixtures[i], x, y)
    requires |leds| == hardware.mapping.numLeds
    requires forall k :: 0 <= k < |RenderWrites(fixtures, dim)| ==> RenderWrites(fixtures, dim)[k].Valid()
    ensures var m, p := fixtures[i].comm.mapping, PixelOf(fixtures[i], x, y);
            && m.LedIndexFromXY(p.x, p.y) < |leds|
            && Run(leds, RenderWrites(fixtures, dim))[m.LedIndexFromXY(p.x, p.y)]
               == P.AreaPowers(fixtures[i].chain, dim)[x][y]
  {
    var m, p, writes := fixtures[i].comm.mapping, PixelOf(fixtures[i], x, y), RenderWrites(fixtures, dim);
    G.PixelHasActiveLed(m, p);
    var initial := leds[m.LedIndexFromXY(p.x, p.y)];
    WritesAreApart(fixtures, hardware, dim, i);
    PixelShowsLastPower(leds, writes, m, p);
    if dim == 0 {
      LastInPass(fixtures, hardware, 0, i, x, y, initial);
    } else {
      LastOfBoth(PassWrites(fixtures, 0), PassWrites(fixtures, dim), m, p, initial);
      LastInPass(fixtures, hardware, dim, i, x, y, LastPower(PassWrites(fixtures, 0), m, p, initial));
    }
  }

  lemma WritesAreApart(fixtures: seq<Fixture>, hardware: LedChainComm, dim: P.Component, i: nat)
    requires AllFit(fixtures, hardware) && Apart(fixtures) && i < |fixtures|
    ensures var m, writes := fixtures[i].comm.mapping, RenderWrites(fixtures, dim);
            forall k :: 0 <= k < |writes| ==> writes[k].Valid() && (writes[k].m == m || Disjoint(m, writes[k].m))
  {
    var m, writes := fixtures[i].comm.mapping, RenderWrites(fixtures, dim);
    PassWritesAreValid(fixtures, hardware, 0);
    PassWritesAreValid(fixtures, hardware, dim);
    forall k | 0 <= k < |writes|
      ensures writes[k].Valid() && (writes[k].m == m || Disjoint(m, writes[k].m))
    {
      var j :| 0 <= j < |fixtures| && writes[k].m == fixtures[j].comm.mapping;
    }
  }

  // ----- The method

  function Chains(fixtures: seq<Fixture>): seq<P.Chain> {
    seq(|fixtures|, i requires 0 <= i < |fixtures| => fixtures[i].chain)
  }

  /** The bytes for a LED in a buffer with a header, if there are any. */
  function LedBytes(f: Format, header: seq<byte>, buffer: seq<byte>, index: nat): seq<byte> {
    var at := |header| + Times(index, f.LedSize());
    if at + f.LedSize() <= |buffer| then buffer[at..at + f.LedSize()] else []
  }

  lemma BytesOfLed(f: Format, header: seq<byte>, leds: seq<Powers>, index: nat)
    requires index < |leds|
    ensures LedBytes(f, header, header + Image(f, leds), index) == Encode(f, leds[index])
  {
    ImageAt(f, leds, index);
    BehindHeader(header, Image(f, leds), Times(index, f.LedSize()), f.LedSize());
  }

  lemma BehindHeader(header: seq<byte>, image: seq<byte>, at: nat, size: nat)
    requires at + size <= |image|
    ensures (header + image)[|header| + at..|header| + at + size] == image[at..at + size]
  {
  }

  /** Renders the view in one or two passes.  Afterwards the bytes of the LED of every pixel encode the
      powers of the final pass. */
  method RenderOnto(renderer: P.ViewRenderer, hardware: LedChainComm, fixtures: seq<Fixture>)
    requires hardware.Valid() && AllFit(fixtures, hardware) && Apart(fixtures)
    modifies renderer, hardware`leds, hardware.rawBuffer
    ensures hardware.Valid() && renderer.powerLimitMw == old(renderer.powerLimitMw)
    ensures renderer.actualLightPowerMw
            == P.Total(Chains(fixtures), P.FinalDim(Chains(fixtures), renderer.powerLimitMw))
    ensures forall i: nat, x: nat, y: nat :: i < |fixtures| && Covers(fixtures[i], x, y) ==>
              var m, p := fixtures[i].comm.mapping, PixelOf(fixtures[i], x, y);
              var index, dim := m.LedIndexFromXY(p.x, p.y), P.FinalDim(Chains(fixtures), renderer.powerLimitMw);
              LedBytes(hardware.format, hardware.header, hardware.rawBuffer[..], index)
              == Encode(hardware.format, P.AreaPowers(fixtures[i].chain, dim)[x][y])
  {
    ghost var leds := hardware.leds;
    var chains := Chains(fixtures);
    var _ := renderer.RenderViewState(chains);
    var dim := P.FinalDim(chains, renderer.powerLimitMw);
    PassWritesAreValid(fixtures, hardware, 0);
    SetPowers(hardware, PassComms(fixtures, 0), PassWrites(fixtures, 0));
    if dim != 0 {
      PassWritesAreValid(fixtures, hardware, dim);
      RunsAdd(leds, PassWrites(fixtures, 0), PassWrites(fixtures, dim));
      SetPowers(hardware, PassComms(fixtures, dim), PassWrites(fixtures, dim));
    }
    forall i: nat, x: nat, y: nat | i < |fixtures| && Covers(fixtures[i], x, y)
      ensures var m, p := fixtures[i].comm.mapping, PixelOf(fixtures[i], x, y);
              var index := m.LedIndexFromXY(p.x, p.y);
              LedBytes(hardware.format, hardware.header, hardware.rawBuffer[..], index)
              == Encode(hardware.format, P.AreaPowers(fixtures[i].chain, dim)[x][y])
    {
      var m, p := fixtures[i].comm.mapping, PixelOf(fixtures[i], x, y);
      WritesAreApart(fixtures, hardware, dim, i);
      LastIsFinal(leds, fixtures, hardware, dim, i, x, y);
      BytesOfLed(hardware.format, hardware.header, hardware.leds, m.LedIndexFromXY(p.x, p.y));
    }
  }

  lemma {:induction false} RunsAdd(leds: seq<Powers>, a: seq<Write>, b: seq<Write>)
    requires forall i :: 0 <= i < |a| ==> a[i].Valid()
    requires forall i :: 0 <= i < |b| ==> b[i].Valid()
    ensures Run(leds, a + b) == Run(Run(leds, a), b)
    decreases |b|
  {
    if b == [] {
      assert a + b == a;
    } else {
      assert (a + b)[..|a + b| - 1] == a + b[..|b| - 1];
      RunsAdd(leds, a, b[..|b| - 1]);
    }
  }
}
