/** The two-pass power limiter of ledchaincomm.cpp.

    renderViewState() sends every pixel to its LED chain while estimating the power this needs; if
    the estimate exceeds the limit, it repeats the whole pass dimmed.  All accumulators are 32-bit
    unsigned numbers and wrap around.
  */
module PowerLimiter {
  import opened Arithmetic
  import opened LedPowers

  type Component = x: int | 0 <= x < 0x100
  type uint32 = x: int | 0 <= x < 0x1_0000_0000

  datatype Chip = Chip(idleChipMw: nat, rgbChannelMw: nat, whiteChannelMw: nat, rgbCommonCurrent: bool)

  datatype Pixel = Pixel(r: Component, g: Component, b: Component, w: Component)

  /** The brightness-to-power table that is used for all four channels. */
  type Table = t: seq<Pwm> | |t| == 256 witness seq(256, i => 0)

  /** A chain and what the view shows in its area, after main dimming and extraction of the white
      component: one sequence of pixels per column. */
  datatype Chain = Chain(chip: Chip, table: Table, pixels: seq<seq<Pixel>>)

  /** 32-bit wrap-around. */
  function Wrap(n: int): uint32 {
    if 0 <= n < 0x1_0000_0000 then n else n % 0x1_0000_0000
  }

  /** A dim factor of 0 means no dimming. */
  function Dimmed(dim: Component, p: Pwm): Pwm {
    if dim != 0 then
      TimesIsProduct(dim + 1, p);
      Times(dim + 1, p) / 256
    else p
  }

  function PowersForComponents(dim: Component, pix: Pixel, table: Table): Powers {
    Powers(Dimmed(dim, table[pix.r]), Dimmed(dim, table[pix.g]), Dimmed(dim, table[pix.b]), Dimmed(dim, table[pix.w]))
  }

  function PixelPwm(chip: Chip, p: Powers): nat {
    if chip.rgbCommonCurrent then
      (if p.r > p.g then (if p.b > p.r then p.b else p.r) else (if p.b > p.g then p.b else p.g))
    else p.r + p.g + p.b
  }

  /** What a chain has been told to show, by column and row. */
  type Content = seq<seq<Powers>>

  function ColumnPowers(column: seq<Pixel>, table: Table, dim: Component): (s: seq<Powers>) {
    seq(|column|, y requires 0 <= y < |column| => PowersForComponents(dim, column[y], table))
  }

  function AreaPowers(chain: Chain, dim: Component): Content {
    seq(|chain.pixels|, x requires 0 <= x < |chain.pixels| => ColumnPowers(chain.pixels[x], chain.table, dim))
  }

  /** Accumulated PWM values of the colour and of the white channels. */
  datatype Pwms = Pwms(rgb: nat, white: nat)

  // ----- What one pass adds up to, without wrap-around

  /** Colour and white PWM of a list of LEDs. */
  function ColumnSum(chip: Chip, column: seq<Powers>): Pwms {
    if column == [] then Pwms(0, 0)
    else
      var s, p := ColumnSum(chip, column[..|column| - 1]), column[|column| - 1];
      Pwms(s.rgb + PixelPwm(chip, p), s.white + p.w)
  }

  function ContentSum(chip: Chip, content: Content): Pwms {
    if content == [] then Pwms(0, 0)
    else
      var s, t := ContentSum(chip, content[..|content| - 1]), ColumnSum(chip, content[|content| - 1]);
      Pwms(s.rgb + t.rgb, s.white + t.white)
  }

  function AreaSum(chain: Chain, dim: Component): Pwms {
    ContentSum(chain.chip, AreaPowers(chain, dim))
  }

  function LedCount<T>(content: seq<seq<T>>): nat {
    if content == [] then 0 else LedCount(content[..|content| - 1]) + |content[|content| - 1]|
  }

  function ChainIdle(chain: Chain): nat {
    Times(LedCount(chain.pixels), chain.chip.idleChipMw)
  }

  lemma {:induction false} SameLedCount(chain: Chain, dim: Component)
    ensures LedCount(AreaPowers(chain, dim)) == LedCount(chain.pixels)
    decreases |chain.pixels|
  {
    var n := |chain.pixels| - 1;
    if n >= 0 {
      var rest := chain.(pixels := chain.pixels[..n]);
      SameLedCount(rest, dim);
      assert AreaPowers(chain, dim)[..n] == AreaPowers(rest, dim);
    }
  }

  function ChainMw(chip: Chip, pwm: Pwms): nat {
    ChannelMw(pwm.rgb, chip.rgbChannelMw) + ChannelMw(pwm.white, chip.whiteChannelMw)
  }

  /** pwm * mw / 0xFFFF */
  function ChannelMw(pwm: nat, mw: nat): nat {
    Times(mw, pwm) / 0xFFFF
  }

  /** Light power of a list of chains. */
  function LightSum(chains: seq<Chain>, dim: Component): nat {
    if chains == [] then 0
    else
      var n := |chains| - 1;
      LightSum(chains[..n], dim) + ChainMw(chains[n].chip, AreaSum(chains[n], dim))
  }

  function IdleSum(chains: seq<Chain>): nat {
    if chains == [] then 0 else IdleSum(chains[..|chains| - 1]) + ChainIdle(chains[|chains| - 1])
  }

  // ----- What one pass computes, in 32-bit arithmetic

  /** The running sums within a chain; idle power runs on from chain to chain. */
  datatype Acc = Acc(idle: uint32, rgb: uint32, white: uint32)

  function SendLed(a: Acc, chip: Chip, p: Powers): Acc {
    Acc(Wrap(a.idle + chip.idleChipMw), Wrap(a.rgb + PixelPwm(chip, p)), Wrap(a.white + p.w))
  }

  function SendColumn(a: Acc, chip: Chip, column: seq<Powers>): Acc {
    if column == [] then a else SendLed(SendColumn(a, chip, column[..|column| - 1]), chip, column[|column| - 1])
  }

  function SendContent(a: Acc, chip: Chip, content: Content): Acc {
    if content == [] then a
    else SendColumn(SendContent(a, chip, content[..|content| - 1]), chip, content[|content| - 1])
  }

  datatype PassPower = PassPower(light: uint32, idle: uint32)

  function Pass(chains: seq<Chain>, dim: Component): PassPower {
    if chains == [] then PassPower(0, 0)
    else
      var n := |chains| - 1;
      var before := Pass(chains[..n], dim);
      var a := SendContent(Acc(before.idle, 0, 0), chains[n].chip, AreaPowers(chains[n], dim));
      PassPower(Wrap(before.light + ChainMw(chains[n].chip, Pwms(a.rgb, a.white))), a.idle)
  }

  function Light(chains: seq<Chain>, dim: Component): uint32 {
    Pass(chains, dim).light
  }

  /** Idle power as computed by an undimmed pass. */
  function Idle(chains: seq<Chain>): uint32 {
    Pass(chains, 0).idle
  }

  function Total(chains: seq<Chain>, dim: Component): uint32 {
    Wrap(Pass(chains, dim).light + Pass(chains, dim).idle)
  }

  function AllPowers(chains: seq<Chain>, dim: Component): seq<Content> {
    seq(|chains|, c requires 0 <= c < |chains| => AreaPowers(chains[c], dim))
  }

  /** The dim factor of the final pass. */
  function FinalDim(chains: seq<Chain>, limit: uint32): Component {
    if limit != 0 && Total(chains, 0) > limit && Light(chains, 0) > 0
    then DimForLimit(limit, Idle(chains), Light(chains, 0))
    else 0
  }

  /** 255 times the share of the light power that is allowed, in 32-bit arithmetic and cut to 8
      bits. */
  function DimForLimit(limit: uint32, idle: uint32, light: uint32): Component
    requires light > 0
  {
    Wrap(255 * Wrap(limit - idle)) / light % 256
  }

  class ViewRenderer {
    var powerLimitMw: uint32
    var requestedLightPowerMw: uint32
    var actualLightPowerMw: uint32
    var powerLimited: bool
    var output: seq<Content>

    /** The inner loops: sends the pixels of one chain and adds up what they need. */
    static method RenderChain(chain: Chain, dim: Component, idle0: uint32) returns (shown: Content, a: Acc)
      ensures shown == AreaPowers(chain, dim)
      ensures a == SendContent(Acc(idle0, 0, 0), chain.chip, AreaPowers(chain, dim))
    {
      shown, a := [], Acc(idle0, 0, 0);
      ghost var content := AreaPowers(chain, dim);
      for x := 0 to |chain.pixels|
        invariant shown == content[..x]
        invariant a == SendContent(Acc(idle0, 0, 0), chain.chip, content[..x])
      {
        assert content[..x + 1][..x] == content[..x];
        var column := [];
        ghost var before := a;
        for y := 0 to |chain.pixels[x]|
          invariant column == content[x][..y]
          invariant a == SendColumn(before, chain.chip, content[x][..y])
        {
          assert content[x][..y + 1][..y] == content[x][..y];
          var p := PowersForComponents(dim, chain.pixels[x][y], chain.table);
          a := SendLed(a, chain.chip, p);
          column := column + [p];
        }
        assert content[x][..|chain.pixels[x]|] == content[x];
        shown := shown + [column];
      }
      assert content[..|chain.pixels|] == content;
    }

    /** One pass over all chains. */
    static method RenderPass(chains: seq<Chain>, dim: Component)
      returns (shown: seq<Content>, light: uint32, idle: uint32)
      ensures shown == AllPowers(chains, dim)
      ensures PassPower(light, idle) == Pass(chains, dim)
    {
      shown, light, idle := [], 0, 0;
      for c := 0 to |chains|
        invariant |shown| == c && forall i :: 0 <= i < c ==> shown[i] == AreaPowers(chains[i], dim)
        invariant PassPower(light, idle) == Pass(chains[..c], dim)
      {
        assert chains[..c + 1][..c] == chains[..c];
        var content, a := RenderChain(chains[c], dim, idle);
        idle := a.idle;
        light := Wrap(light + ChainMw(chains[c].chip, Pwms(a.rgb, a.white)));
        shown := shown + [content];
      }
      assert chains[..|chains|] == chains;
    }

    /** At most two passes; the last one decides what the LEDs show and what is reported. */
    method RenderViewState(chains: seq<Chain>) returns (ghost passes: nat)
      modifies this`output, this`requestedLightPowerMw, this`actualLightPowerMw, this`powerLimited
      ensures var dim := FinalDim(chains, powerLimitMw);
              && passes == (if dim == 0 then 1 else 2)
              && actualLightPowerMw == Total(chains, dim)
              && output == AllPowers(chains, dim)
      ensures requestedLightPowerMw == Total(chains, 0)
      ensures powerLimited <==> powerLimitMw != 0 && Total(chains, 0) > powerLimitMw && Light(chains, 0) > 0
    {
      var powerDim: Component := 0;
      passes := 0;
      while true
        invariant passes == if powerDim == 0 then 0 else 1
        invariant powerDim != 0 ==> && powerLimitMw != 0 && Total(chains, 0) > powerLimitMw && Light(chains, 0) > 0
                                    && powerLimited && powerDim == FinalDim(chains, powerLimitMw)
                                    && requestedLightPowerMw == Total(chains, 0)
        decreases powerDim == 0
      {
        passes := passes + 1;
        var lightPowerMw: uint32, idlePowerMw: uint32;
        output, lightPowerMw, idlePowerMw := RenderPass(chains, powerDim);
        actualLightPowerMw := Wrap(lightPowerMw + idlePowerMw);
        if powerDim == 0 {
          requestedLightPowerMw := actualLightPowerMw;
        }
        if powerLimitMw != 0 && actualLightPowerMw > powerLimitMw && powerDim == 0 && lightPowerMw > 0 {
          powerDim := DimForLimit(powerLimitMw, idlePowerMw, lightPowerMw);
          powerLimited := true;
          if powerDim != 0 { continue; }
        } else if powerDim == 0 {
          powerLimited := false;
        }
        break;
      }
    }
  }

  // ----- The limit

  /** Nothing wraps: the sums of every chain and the scaled total fit 32 bits. */
  ghost predicate Fits(chains: seq<Chain>) {
    && AllFit(chains)
    && 255 * LightSum(chains, 0) < 0x1_0000_0000
    && LightSum(chains, 0) + IdleSum(chains) < 0x1_0000_0000
  }

  ghost predicate AllFit(chains: seq<Chain>) {
    chains == [] || (AllFit(chains[..|chains| - 1]) && AreaFits(chains[|chains| - 1]))
  }

  ghost predicate AreaFits(chain: Chain) {
    AreaSum(chain, 0).rgb < 0x1_0000_0000 && AreaSum(chain, 0).white < 0x1_0000_0000
  }

  lemma {:induction false} ExactColumn(a: Acc, chip: Chip, column: seq<Powers>)
    requires a.rgb + ColumnSum(chip, column).rgb < 0x1_0000_0000
    requires a.white + ColumnSum(chip, column).white < 0x1_0000_0000
    requires a.idle + Times(|column|, chip.idleChipMw) < 0x1_0000_0000
    ensures var s := ColumnSum(chip, column);
            SendColumn(a, chip, column)
            == Acc(a.idle + Times(|column|, chip.idleChipMw), a.rgb + s.rgb, a.white + s.white)
  {
    if column != [] {
      ExactColumn(a, chip, column[..|column| - 1]);
    }
  }

  lemma {:induction false} ExactContent(a: Acc, chip: Chip, content: Content)
    requires a.rgb + ContentSum(chip, content).rgb < 0x1_0000_0000
    requires a.white + ContentSum(chip, content).white < 0x1_0000_0000
    requires a.idle + Times(LedCount(content), chip.idleChipMw) < 0x1_0000_0000
    ensures var s := ContentSum(chip, content);
            SendContent(a, chip, content)
            == Acc(a.idle + Times(LedCount(content), chip.idleChipMw), a.rgb + s.rgb, a.white + s.white)
  {
    if content != [] {
      var n := |content| - 1;
      TimesOfFactors(LedCount(content[..n]), |content[n]|, chip.idleChipMw);
      ExactContent(a, chip, content[..n]);
      ExactColumn(SendContent(a, chip, content[..n]), chip, content[n]);
    }
  }

  /** Without wrap-around a pass computes the exact sums. */
  lemma {:induction false} ExactPass(chains: seq<Chain>, dim: Component)
    requires AllFit(chains)
    requires LightSum(chains, dim) < 0x1_0000_0000 && IdleSum(chains) < 0x1_0000_0000
    ensures Pass(chains, dim) == PassPower(LightSum(chains, dim), IdleSum(chains))
  {
    if chains != [] {
      var n := |chains| - 1;
      ExactPass(chains[..n], dim);
      ExactChain(chains[n], dim, IdleSum(chains[..n]));
    }
  }

  lemma ExactChain(chain: Chain, dim: Component, idle: nat)
    requires AreaFits(chain) && idle + ChainIdle(chain) < 0x1_0000_0000
    ensures var s := AreaSum(chain, dim);
            && s.rgb < 0x1_0000_0000 && s.white < 0x1_0000_0000
            && SendContent(Acc(idle, 0, 0), chain.chip, AreaPowers(chain, dim))
               == Acc(idle + ChainIdle(chain), s.rgb, s.white)
  {
    SameLedCount(chain, dim);
    if dim != 0 { DimmedChain(chain, dim); }
    ExactContent(Acc(idle, 0, 0), chain.chip, AreaPowers(chain, dim));
  }

  lemma {:induction false} ColumnSumBound(chip: Chip, column: seq<Powers>)
    ensures ColumnSum(chip, column).rgb <= 3 * 0xFFFF * |column| && ColumnSum(chip, column).white <= 0xFFFF * |column|
  {
    if column != [] {
      ColumnSumBound(chip, column[..|column| - 1]);
    }
  }

  lemma {:induction false} ContentSumBound(chip: Chip, content: Content)
    ensures ContentSum(chip, content).rgb <= 3 * 0xFFFF * LedCount(content)
    ensures ContentSum(chip, content).white <= 0xFFFF * LedCount(content)
  {
    if content != [] {
      ContentSumBound(chip, content[..|content| - 1]);
      ColumnSumBound(chip, content[|content| - 1]);
    }
  }

  /** Power of all LEDs fully on. */
  function RatedMw(chains: seq<Chain>): nat {
    if chains == [] then 0
    else
      var n := |chains| - 1;
      var leds, chip := LedCount(chains[n].pixels), chains[n].chip;
      RatedMw(chains[..n]) + 3 * Times(leds, chip.rgbChannelMw) + Times(leds, chip.whiteChannelMw) +
      Times(leds, chip.idleChipMw)
  }

  lemma ChannelMwBound(pwm: nat, mw: nat, leds: nat)
    requires pwm <= 0xFFFF * leds
    ensures ChannelMw(pwm, mw) <= Times(leds, mw)
  {
    TimesIsMonotone(mw, pwm, 0xFFFF * leds);
    TimesOfTimes(0xFFFF, mw, leds);
    TimesIsProduct(mw, leds);
    TimesIsProduct(leds, mw);
  }

  lemma {:induction false} SumsBelowRated(chains: seq<Chain>)
    ensures LightSum(chains, 0) + IdleSum(chains) <= RatedMw(chains)
  {
    if chains != [] {
      var n := |chains| - 1;
      SumsBelowRated(chains[..n]);
      ChainBelowRated(chains[n]);
    }
  }

  lemma ChainBelowRated(chain: Chain)
    ensures var leds, chip := LedCount(chain.pixels), chain.chip;
            ChainMw(chip, AreaSum(chain, 0)) <= 3 * Times(leds, chip.rgbChannelMw) + Times(leds, chip.whiteChannelMw)
  {
    var leds, chip, sum := LedCount(chain.pixels), chain.chip, AreaSum(chain, 0);
    SameLedCount(chain, 0);
    ContentSumBound(chip, AreaPowers(chain, 0));
    ChannelMwBound(sum.rgb, chip.rgbChannelMw, 3 * leds);
    TimesOfFactors(leds, leds, chip.rgbChannelMw);
    TimesOfFactors(2 * leds, leds, chip.rgbChannelMw);
    ChannelMwBound(sum.white, chip.whiteChannelMw, leds);
  }

  /** What can be checked beforehand: chains of at most 21845 LEDs and a rated power of at most
      16.8 kW cannot make anything wrap, whatever is shown. */
  lemma InstallationFits(chains: seq<Chain>)
    requires forall c :: 0 <= c < |chains| ==> LedCount(chains[c].pixels) <= 21845
    requires RatedMw(chains) <= 16_843_009
    ensures Fits(chains)
  {
    SumsBelowRated(chains);
    SmallChainsFit(chains);
  }

  lemma {:induction false} SmallChainsFit(chains: seq<Chain>)
    requires forall c :: 0 <= c < |chains| ==> LedCount(chains[c].pixels) <= 21845
    ensures AllFit(chains)
  {
    if chains != [] {
      var chain := chains[|chains| - 1];
      SmallChainsFit(chains[..|chains| - 1]);
      SameLedCount(chain, 0);
      ContentSumBound(chain.chip, AreaPowers(chain, 0));
    }
  }

  /** All the power figures of an installation that fits. */
  lemma ExactPower(chains: seq<Chain>, dim: Component)
    requires Fits(chains)
    ensures LightSum(chains, dim) <= LightSum(chains, 0)
    ensures Pass(chains, dim) == PassPower(LightSum(chains, dim), IdleSum(chains))
    ensures Total(chains, dim) == LightSum(chains, dim) + IdleSum(chains)
  {
    if dim != 0 { DimmedLightIsLess(chains, dim); }
    ExactPass(chains, dim);
  }

  lemma DimmedValue(dim: Component, p: Pwm)
    requires dim != 0
    ensures 256 * Dimmed(dim, p) <= Times(dim + 1, p)
  {
    TimesIsProduct(dim + 1, p);
  }

  lemma DimmedPixel(chip: Chip, pix: Pixel, table: Table, dim: Component)
    requires dim != 0
    ensures var p, q := PowersForComponents(dim, pix, table), PowersForComponents(0, pix, table);
            256 * PixelPwm(chip, p) <= Times(dim + 1, PixelPwm(chip, q)) && 256 * p.w <= Times(dim + 1, q.w)
  {
    var q := PowersForComponents(0, pix, table);
    var n, total := dim + 1, PixelPwm(chip, q);
    DimmedValue(dim, q.r);
    DimmedValue(dim, q.g);
    DimmedValue(dim, q.b);
    DimmedValue(dim, q.w);
    if chip.rgbCommonCurrent {
      TimesIsMonotone(n, q.r, total);
      TimesIsMonotone(n, q.g, total);
      TimesIsMonotone(n, q.b, total);
    } else {
      TimesOfSum(n, q.r, q.g);
      TimesOfSum(n, q.r + q.g, q.b);
    }
  }

  /** s is at most dim + 1 parts of 256 of t, in colour and in white. */
  ghost predicate Scaled(dim: Component, s: Pwms, t: Pwms) {
    256 * s.rgb <= Times(dim + 1, t.rgb) && 256 * s.white <= Times(dim + 1, t.white)
  }

  lemma ScaledSum(dim: Component, s: Pwms, t: Pwms, u: Pwms, v: Pwms)
    requires Scaled(dim, s, t) && Scaled(dim, u, v)
    ensures Scaled(dim, Pwms(s.rgb + u.rgb, s.white + u.white), Pwms(t.rgb + v.rgb, t.white + v.white))
  {
    TimesOfSum(dim + 1, t.rgb, v.rgb);
    TimesOfSum(dim + 1, t.white, v.white);
  }

  lemma {:induction false} DimmedColumn(chip: Chip, column: seq<Pixel>, table: Table, dim: Component)
    requires dim != 0
    ensures Scaled(dim, ColumnSum(chip, ColumnPowers(column, table, dim)),
                   ColumnSum(chip, ColumnPowers(column, table, 0)))
  {
    if column != [] {
      var n := |column| - 1;
      var p, q := PowersForComponents(dim, column[n], table), PowersForComponents(0, column[n], table);
      DimmedColumn(chip, column[..n], table, dim);
      DimmedPixel(chip, column[n], table, dim);
      assert ColumnPowers(column, table, dim)[..n] == ColumnPowers(column[..n], table, dim);
      assert ColumnPowers(column, table, 0)[..n] == ColumnPowers(column[..n], table, 0);
      ScaledSum(dim, ColumnSum(chip, ColumnPowers(column[..n], table, dim)),
                ColumnSum(chip, ColumnPowers(column[..n], table, 0)),
                Pwms(PixelPwm(chip, p), p.w), Pwms(PixelPwm(chip, q), q.w));
    }
  }

  lemma {:induction false} DimmedArea(chain: Chain, dim: Component)
    requires dim != 0
    ensures Scaled(dim, AreaSum(chain, dim), AreaSum(chain, 0))
    decreases |chain.pixels|
  {
    var n := |chain.pixels| - 1;
    if n >= 0 {
      var rest := chain.(pixels := chain.pixels[..n]);
      DimmedArea(rest, dim);
      DimmedColumn(chain.chip, chain.pixels[n], chain.table, dim);
      assert AreaPowers(chain, dim)[..n] == AreaPowers(rest, dim);
      assert AreaPowers(chain, 0)[..n] == AreaPowers(rest, 0);
      ScaledSum(dim, AreaSum(rest, dim), AreaSum(rest, 0),
                ColumnSum(chain.chip, ColumnPowers(chain.pixels[n], chain.table, dim)),
                ColumnSum(chain.chip, ColumnPowers(chain.pixels[n], chain.table, 0)));
    }
  }

  /** Dimming cannot increase a sum. */
  lemma DimmedIsLess(dim: Component, s: nat, t: nat)
    requires 256 * s <= Times(dim + 1, t)
    ensures s <= t
  {
    TimesIsProduct(dim + 1, t);
    assert (dim + 1) * t <= 256 * t;
  }

  /** Rounding down twice costs each product less than 1 mW. */
  lemma ScaledProduct(a: nat, b: nat, mw: nat, dim: Component)
    requires 256 * a <= Times(dim + 1, b)
    ensures 256 * ChannelMw(a, mw) <= Times(dim + 1, ChannelMw(b, mw) + 1)
  {
    var n := dim + 1;
    TimesOfTimes(256, mw, a);
    TimesIsMonotone(mw, 256 * a, Times(n, b));
    TimesOfTimes(n, mw, b);
    QuotientScale(Times(mw, a), Times(mw, b), n);
  }

  lemma QuotientScale(x: nat, y: nat, n: nat)
    requires 256 * x <= Times(n, y)
    ensures 256 * (x / 0xFFFF) <= Times(n, y / 0xFFFF + 1)
  {
    var r := y / 0xFFFF;
    TimesIsMonotone(n, y, 0xFFFF * (r + 1));
    TimesOfTimes(0xFFFF, n, r + 1);
  }

  lemma ProductIsMonotone(a: nat, b: nat, c: nat)
    requires a <= b
    ensures a * c <= b * c && c * a <= c * b
  {
  }

  lemma {:induction false} DimmedLight(chains: seq<Chain>, dim: Component)
    requires dim != 0
    requires AllFit(chains)
    ensures 256 * LightSum(chains, dim) <= Times(dim + 1, LightSum(chains, 0) + 2 * |chains|)
  {
    if chains != [] {
      DimmedLight(chains[..|chains| - 1], dim);
      DimmedLightOfOneMore(chains, dim, LightSum(chains, 0) + 2 * |chains|);
    }
  }

  lemma DimmedLightOfOneMore(chains: seq<Chain>, dim: Component, light: nat)
    requires dim != 0 && chains != [] && AllFit(chains) && light == LightSum(chains, 0) + 2 * |chains|
    requires var rest := chains[..|chains| - 1];
             256 * LightSum(rest, dim) <= Times(dim + 1, LightSum(rest, 0) + 2 * |rest|)
    ensures 256 * LightSum(chains, dim) <= Times(dim + 1, light)
  {
    var n := |chains| - 1;
    var u, v := DimmedLast(chains[n], dim);
    ScaledLight(dim, LightSum(chains[..n], dim), LightSum(chains[..n], 0), n, u, v, light);
  }

  lemma {:induction false} DimmedLightIsLess(chains: seq<Chain>, dim: Component)
    requires dim != 0
    requires AllFit(chains)
    ensures LightSum(chains, dim) <= LightSum(chains, 0)
  {
    if chains != [] {
      DimmedLightIsLess(chains[..|chains| - 1], dim);
      DimmedChain(chains[|chains| - 1], dim);
    }
  }

  lemma ScaledLight(dim: Component, s: nat, t: nat, n: nat, u: nat, v: nat, light: nat)
    requires 256 * s <= Times(dim + 1, t + 2 * n) && 256 * u <= Times(dim + 1, v + 2)
    requires light == t + v + 2 * (n + 1)
    ensures 256 * (s + u) <= Times(dim + 1, light)
  {
    TimesOfSum(dim + 1, t + 2 * n, v + 2);
  }

  lemma DimmedLast(chain: Chain, dim: Component) returns (u: nat, v: nat)
    requires dim != 0 && AreaFits(chain)
    ensures u == ChainMw(chain.chip, AreaSum(chain, dim)) && v == ChainMw(chain.chip, AreaSum(chain, 0))
    ensures 256 * u <= Times(dim + 1, v + 2)
  {
    DimmedChain(chain, dim);
    u, v := ChainMw(chain.chip, AreaSum(chain, dim)), ChainMw(chain.chip, AreaSum(chain, 0));
  }

  lemma DimmedChain(chain: Chain, dim: Component)
    requires dim != 0 && AreaFits(chain)
    ensures var s, t := AreaSum(chain, dim), AreaSum(chain, 0);
            && s.rgb <= t.rgb && s.white <= t.white
            && 256 * ChainMw(chain.chip, s) <= Times(dim + 1, ChainMw(chain.chip, t) + 2)
            && ChainMw(chain.chip, s) <= ChainMw(chain.chip, t)
  {
    var s, t := AreaSum(chain, dim), AreaSum(chain, 0);
    DimmedArea(chain, dim);
    DimmedIsLess(dim, s.rgb, t.rgb);
    DimmedIsLess(dim, s.white, t.white);
    ScaledChain(chain.chip, s, t, dim);
  }

  lemma ScaledChain(chip: Chip, s: Pwms, t: Pwms, dim: Component)
    requires Scaled(dim, s, t)
    requires s.rgb <= t.rgb && s.white <= t.white
    ensures 256 * ChainMw(chip, s) <= Times(dim + 1, ChainMw(chip, t) + 2)
    ensures ChainMw(chip, s) <= ChainMw(chip, t)
  {
    ScaledProduct(s.rgb, t.rgb, chip.rgbChannelMw, dim);
    ScaledProduct(s.white, t.white, chip.whiteChannelMw, dim);
    TimesOfSum(dim + 1, ChannelMw(t.rgb, chip.rgbChannelMw) + 1, ChannelMw(t.white, chip.whiteChannelMw) + 1);
    TimesIsMonotone(chip.rgbChannelMw, s.rgb, t.rgb);
    TimesIsMonotone(chip.whiteChannelMw, s.white, t.white);
  }

  /** When the limit leaves at least 1/255 of the requested light power, the final pass is dimmed by
      the largest factor that does not exceed the allowed share. */
  lemma DimIsLargestAllowed(chains: seq<Chain>, limit: uint32)
    requires Fits(chains) && limit != 0 && Total(chains, 0) > limit >= Idle(chains)
    requires 255 * (limit - Idle(chains)) >= Light(chains, 0)
    ensures var dim, light, allowed := FinalDim(chains, limit), Light(chains, 0), limit - Idle(chains);
            1 <= dim < 255 && dim * light <= 255 * allowed < (dim + 1) * light
  {
    DimWithoutWrap(chains, limit);
    DimIsShare(limit - Idle(chains), Light(chains, 0));
  }

  /** Main result: under the same conditions the reported power is within the limit up to the
      granularity of 8-bit dimming and 2 mW per chain. */
  lemma LimitIsKept(chains: seq<Chain>, limit: uint32)
    requires Fits(chains) && limit != 0 && Total(chains, 0) > limit >= Idle(chains)
    requires 255 * (limit - Idle(chains)) >= Light(chains, 0)
    ensures 256 * (Total(chains, FinalDim(chains, limit)) - limit - 2 * |chains|)
            <= Light(chains, 0) - (limit - Idle(chains))
  {
    var dim := FinalDim(chains, limit);
    DimIsLargestAllowed(chains, limit);
    ExactPower(chains, 0);
    ExactPower(chains, dim);
    DimmedLight(chains, dim);
    Overshoot(LightSum(chains, dim), Light(chains, 0), limit - Idle(chains), dim, |chains|);
  }

  lemma DimWithoutWrap(chains: seq<Chain>, limit: uint32)
    requires Fits(chains) && limit != 0 && Total(chains, 0) > limit >= Idle(chains)
    ensures var allowed, light := limit - Idle(chains), Light(chains, 0);
            && allowed < light
            && FinalDim(chains, limit) == 255 * allowed / light
  {
    ExactPower(chains, 0);
    DimExact(limit, Idle(chains), Light(chains, 0));
  }

  lemma DimExact(limit: uint32, idle: uint32, light: uint32)
    requires 0 <= limit - idle < light && 255 * light < 0x1_0000_0000
    ensures DimForLimit(limit, idle, light) == 255 * (limit - idle) / light
  {
    var allowed := limit - idle;
    assert Wrap(255 * Wrap(allowed)) == 255 * allowed;
    QuotientBelow(255 * allowed, light);
  }

  lemma QuotientBelow(a: nat, b: nat)
    requires a < 255 * b
    ensures 0 <= a / b < 255
  {
    assert a / b * b <= a;
    FactorBelow(a / b, 255, b);
  }

  lemma FactorBelow(a: nat, b: nat, c: nat)
    requires a * c < b * c
    ensures a < b
  {
  }

  lemma DimIsShare(allowed: nat, light: nat)
    requires allowed < light <= 255 * allowed
    ensures var dim := 255 * allowed / light;
            1 <= dim < 255 && dim * light <= 255 * allowed < (dim + 1) * light
  {
    var dim := 255 * allowed / light;
    assert dim * light <= 255 * allowed < dim * light + light;
    QuotientBelow(255 * allowed, light);
  }

  lemma Overshoot(dimmed: nat, light: nat, allowed: nat, dim: nat, k: nat)
    requires 256 * dimmed <= Times(dim + 1, light + 2 * k)
    requires dim < 255 && dim * light <= 255 * allowed
    ensures 256 * (dimmed - allowed - 2 * k) <= light - allowed
  {
    TimesOfSum(dim + 1, light, 2 * k);
    TimesIsProduct(dim + 1, light);
    TimesIsProduct(dim + 1, 2 * k);
    ProductIsMonotone(dim + 1, 256, 2 * k);
    assert (dim + 1) * light == dim * light + light;
  }

  /** A limit that leaves less than 1/255 of the requested light power does not limit at all: the
      final pass is not dimmed and the full requested power stays on, above the limit. */
  lemma TightLimitIsIgnored(chains: seq<Chain>, limit: uint32)
    requires Fits(chains) && limit != 0 && Total(chains, 0) > limit >= Idle(chains)
    requires 255 * (limit - Idle(chains)) < Light(chains, 0)
    ensures FinalDim(chains, limit) == 0
    ensures Total(chains, FinalDim(chains, limit)) == Total(chains, 0) > limit
  {
    DimWithoutWrap(chains, limit);
    var allowed, light := limit - Idle(chains), Light(chains, 0);
    SmallQuotient(255 * allowed, light);
  }

  /** Main result, in one: a limit not below the idle power dims exactly if more is requested and it
      leaves 1/255 of the requested light power. */
  lemma DimsIff(chains: seq<Chain>, limit: uint32)
    requires Fits(chains) && limit >= Idle(chains)
    ensures FinalDim(chains, limit) != 0 <==>
              && limit != 0 && Light(chains, 0) + Idle(chains) > limit
              && 255 * (limit - Idle(chains)) >= Light(chains, 0)
  {
    ExactPower(chains, 0);
    if limit != 0 && Total(chains, 0) > limit {
      if 255 * (limit - Idle(chains)) >= Light(chains, 0) {
        DimIsLargestAllowed(chains, limit);
      } else {
        TightLimitIsIgnored(chains, limit);
      }
    }
  }

  /** Without a limit, or within it, nothing is dimmed. */
  lemma WithinLimitIsUntouched(chains: seq<Chain>, limit: uint32)
    requires limit == 0 || Total(chains, 0) <= limit
    ensures FinalDim(chains, limit) == 0 && AllPowers(chains, FinalDim(chains, limit)) == AllPowers(chains, 0)
  {
  }

  /** One red LED of 1 W with a limit of 1 mW stays on at full power. */
  lemma TightLimitExample()
    ensures var table := seq(256, i => if i == 255 then 0xFFFF else 0);
            var chain := Chain(Chip(0, 1000, 0, false), table, [[Pixel(255, 0, 0, 0)]]);
            Fits([chain]) && FinalDim([chain], 1) == 0 && Idle([chain]) == 0 && Total([chain], 0) == 1000
  {
    var table: Table := seq(256, i => if i == 255 then 0xFFFF else 0);
    var chain := Chain(Chip(0, 1000, 0, false), table, [[Pixel(255, 0, 0, 0)]]);
    var p := Powers(0xFFFF, 0, 0, 0);
    assert ColumnPowers(chain.pixels[0], table, 0) == [p];
    assert AreaPowers(chain, 0) == [[p]];
    assert [[p]][..0] == [] && [p][..0] == [] && [chain][..0] == [];
    TimesIsProduct(1000, 0xFFFF);
    TimesIsProduct(0, 0);
    TimesIsProduct(1000, 0);
    assert ColumnSum(chain.chip, [p]) == Pwms(0xFFFF, 0);
    assert ContentSum(chain.chip, [[p]]) == Pwms(0xFFFF, 0);
    assert AreaSum(chain, 0) == Pwms(0xFFFF, 0);
    assert LightSum([chain], 0) == 1000;
    ExactPower([chain], 0);
    TightLimitIsIgnored([chain], 1);
  }

  lemma SmallQuotient(a: nat, b: nat)
    requires a < b
    ensures a / b == 0
  {
  }

  /** A limit below the idle power cannot be met by dimming, whatever the wrapped arithmetic makes
      of it. */
  lemma LimitBelowIdleIsExceeded(chains: seq<Chain>, limit: uint32)
    requires Fits(chains) && limit < Idle(chains)
    ensures Total(chains, FinalDim(chains, limit)) > limit
  {
    ExactPower(chains, 0);
    ExactPower(chains, FinalDim(chains, limit));
  }
}
