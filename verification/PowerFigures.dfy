/** What the figures of the power limiter mean, in terms of single pixels: which power each channel gets,
    what a pixel adds to the figures, and that all sums are those of the source modulo 2^32.
  */
module PowerFigures {
  import opened Arithmetic
  import opened LedPowers
  import opened PowerLimiter

  // ----- Pixels

  /** Every channel gets the power of its own component: undimmed that of the table, dimmed dim + 1 parts
      of 256 of it, rounded down. */
  lemma ShownPower(chains: seq<Chain>, dim: Component, c: nat, x: nat, y: nat)
    requires c < |chains| && x < |chains[c].pixels| && y < |chains[c].pixels[x]|
    ensures |AllPowers(chains, dim)| == |chains| && |AllPowers(chains, dim)[c]| == |chains[c].pixels|
    ensures |AllPowers(chains, dim)[c][x]| == |chains[c].pixels[x]|
    ensures var pix, t, p := chains[c].pixels[x][y], chains[c].table, AllPowers(chains, dim)[c][x][y];
            if dim == 0 then p == Powers(t[pix.r], t[pix.g], t[pix.b], t[pix.w])
            else
              && 256 * p.r <= (dim + 1) * t[pix.r] < 256 * (p.r + 1)
              && 256 * p.g <= (dim + 1) * t[pix.g] < 256 * (p.g + 1)
              && 256 * p.b <= (dim + 1) * t[pix.b] < 256 * (p.b + 1)
              && 256 * p.w <= (dim + 1) * t[pix.w] < 256 * (p.w + 1)
  {
    var pix, t := chains[c].pixels[x][y], chains[c].table;
    if dim != 0 {
      TimesIsProduct(dim + 1, t[pix.r]);
      TimesIsProduct(dim + 1, t[pix.g]);
      TimesIsProduct(dim + 1, t[pix.b]);
      TimesIsProduct(dim + 1, t[pix.w]);
    }
  }

  /** LEDs in series need the current of the brightest of the three, others that of all three. */
  lemma PixelNeeds(chip: Chip, p: Powers)
    ensures var pwm := PixelPwm(chip, p);
            if chip.rgbCommonCurrent
            then pwm >= p.r && pwm >= p.g && pwm >= p.b && pwm in {p.r as nat, p.g as nat, p.b as nat}
            else pwm - p.r - p.g == p.b
  {
  }

  // ----- What one pixel, one column, one chain adds to the sums

  lemma {:induction false} ColumnSumOfOther(chip: Chip, column: seq<Powers>, y: nat, p: Powers)
    requires y < |column|
    ensures var s, t := ColumnSum(chip, column), ColumnSum(chip, column[y := p]);
            && t.rgb - s.rgb == PixelPwm(chip, p) - PixelPwm(chip, column[y])
            && t.white - s.white == p.w - column[y].w
  {
    var n := |column| - 1;
    if y < n {
      assert column[y := p][..n] == column[..n][y := p];
      ColumnSumOfOther(chip, column[..n], y, p);
    } else {
      assert column[y := p][..n] == column[..n];
    }
  }

  /** A pixel that gets another power changes the sums by the difference. */
  lemma {:induction false} SumOfOtherPixel(chip: Chip, content: Content, x: nat, y: nat, p: Powers)
    requires x < |content| && y < |content[x]|
    ensures var other := content[x := content[x][y := p]];
            var s, t := ContentSum(chip, content), ContentSum(chip, other);
            && t.rgb - s.rgb == PixelPwm(chip, p) - PixelPwm(chip, content[x][y])
            && t.white - s.white == p.w - content[x][y].w
  {
    var n := |content| - 1;
    var other := content[x := content[x][y := p]];
    if x < n {
      assert other[..n] == content[..n][x := content[x][y := p]];
      SumOfOtherPixel(chip, content[..n], x, y, p);
    } else {
      assert other[..n] == content[..n];
      ColumnSumOfOther(chip, content[n], y, p);
    }
  }

  const DARK := Powers(0, 0, 0, 0)

  lemma {:induction false} DarkColumn(chip: Chip, column: seq<Powers>)
    requires forall y :: 0 <= y < |column| ==> column[y] == DARK
    ensures ColumnSum(chip, column) == Pwms(0, 0)
  {
    if column != [] {
      DarkColumn(chip, column[..|column| - 1]);
    }
  }

  /** With all LEDs dark there is nothing to add up. */
  lemma {:induction false} DarkSum(chip: Chip, content: Content)
    requires forall x, y :: 0 <= x < |content| && 0 <= y < |content[x]| ==> content[x][y] == DARK
    ensures ContentSum(chip, content) == Pwms(0, 0)
  {
    if content != [] {
      var n := |content| - 1;
      DarkSum(chip, content[..n]);
      DarkColumn(chip, content[n]);
    }
  }

  /** A rectangle of LEDs has width times height of them. */
  lemma {:induction false} RectangleHas<T>(content: seq<seq<T>>, height: nat)
    requires forall x :: 0 <= x < |content| ==> |content[x]| == height
    ensures LedCount(content) == Times(|content|, height)
  {
    if content != [] {
      RectangleHas(content[..|content| - 1], height);
    }
  }

  /** The light power of a chain: the PWM sums times the power of a channel at full PWM, each rounded down. */
  lemma ChainNeeds(chip: Chip, pwm: Pwms) returns (rgb: nat, white: nat)
    ensures ChainMw(chip, pwm) == rgb + white
    ensures 65535 * rgb <= pwm.rgb * chip.rgbChannelMw < 65535 * (rgb + 1)
    ensures 65535 * white <= pwm.white * chip.whiteChannelMw < 65535 * (white + 1)
  {
    rgb, white := ChannelMw(pwm.rgb, chip.rgbChannelMw), ChannelMw(pwm.white, chip.whiteChannelMw);
    ChannelNeeds(pwm.rgb, chip.rgbChannelMw);
    ChannelNeeds(pwm.white, chip.whiteChannelMw);
  }

  lemma ChannelNeeds(pwm: nat, mw: nat)
    ensures var p := ChannelMw(pwm, mw); 65535 * p <= pwm * mw < 65535 * (p + 1)
  {
    TimesIsProduct(mw, pwm);
    Commutes(mw, pwm);
  }

  lemma Commutes(a: nat, b: nat)
    ensures a * b == b * a
  {
  }

  /** A chain that is exchanged changes the light power by the difference. */
  lemma {:induction false} LightOfOtherChain(chains: seq<Chain>, c: nat, other: Chain, dim: Component)
    requires c < |chains|
    ensures LightSum(chains[c := other], dim) - LightSum(chains, dim)
            == ChainMw(other.chip, AreaSum(other, dim)) - ChainMw(chains[c].chip, AreaSum(chains[c], dim))
  {
    var n := |chains| - 1;
    if c < n {
      assert chains[c := other][..n] == chains[..n][c := other];
      LightOfOtherChain(chains[..n], c, other, dim);
    } else {
      assert chains[c := other][..n] == chains[..n];
    }
  }

  /** And the idle power by that of its LEDs. */
  lemma {:induction false} IdleOfOtherChain(chains: seq<Chain>, c: nat, other: Chain)
    requires c < |chains|
    ensures var chain := chains[c];
            IdleSum(chains[c := other]) - IdleSum(chains)
            == LedCount(other.pixels) * other.chip.idleChipMw - LedCount(chain.pixels) * chain.chip.idleChipMw
  {
    var n := |chains| - 1;
    TimesIsProduct(LedCount(other.pixels), other.chip.idleChipMw);
    TimesIsProduct(LedCount(chains[c].pixels), chains[c].chip.idleChipMw);
    if c < n {
      assert chains[c := other][..n] == chains[..n][c := other];
      IdleOfOtherChain(chains[..n], c, other);
    } else {
      assert chains[c := other][..n] == chains[..n];
    }
  }

  /** Chains without LEDs need nothing. */
  lemma {:induction false} NothingNeedsNothing(chains: seq<Chain>, dim: Component)
    requires forall c :: 0 <= c < |chains| ==> chains[c].pixels == []
    ensures LightSum(chains, dim) == IdleSum(chains) == 0
  {
    if chains != [] {
      var n := |chains| - 1;
      NothingNeedsNothing(chains[..n], dim);
      TimesIsProduct(chains[n].chip.rgbChannelMw, 0);
      TimesIsProduct(chains[n].chip.whiteChannelMw, 0);
    }
  }

  // ----- With wrap-around

  lemma WrapIsModulo(n: nat)
    ensures Wrap(n) == n % 0x1_0000_0000
  {
  }

  lemma WrapTwice(a: nat, b: nat)
    ensures Wrap(Wrap(a) + b) == Wrap(a + b)
  {
  }

  /** Running sums that have been increased. */
  function Plus(a: Acc, idle: nat, s: Pwms): Acc {
    Acc(Wrap(a.idle + idle), Wrap(a.rgb + s.rgb), Wrap(a.white + s.white))
  }

  lemma PlusTwice(a: Acc, i: nat, s: Pwms, j: nat, t: Pwms)
    ensures Plus(Plus(a, i, s), j, t) == Plus(a, i + j, Pwms(s.rgb + t.rgb, s.white + t.white))
  {
    WrapTwice(a.idle + i, j);
    WrapTwice(a.rgb + s.rgb, t.rgb);
    WrapTwice(a.white + s.white, t.white);
  }

  lemma {:induction false} ColumnWraps(a: Acc, chip: Chip, column: seq<Powers>)
    ensures SendColumn(a, chip, column) == Plus(a, Times(|column|, chip.idleChipMw), ColumnSum(chip, column))
  {
    if column != [] {
      var n := |column| - 1;
      var p := column[n];
      ColumnWraps(a, chip, column[..n]);
      PlusTwice(a, Times(n, chip.idleChipMw), ColumnSum(chip, column[..n]),
                chip.idleChipMw, Pwms(PixelPwm(chip, p), p.w));
    }
  }

  lemma {:induction false} ContentWraps(a: Acc, chip: Chip, content: Content)
    ensures SendContent(a, chip, content)
            == Plus(a, Times(LedCount(content), chip.idleChipMw), ContentSum(chip, content))
  {
    if content != [] {
      var n := |content| - 1;
      var front, last := content[..n], content[n];
      ContentWraps(a, chip, front);
      ColumnWraps(SendContent(a, chip, front), chip, last);
      TimesOfFactors(LedCount(front), |last|, chip.idleChipMw);
      PlusTwice(a, Times(LedCount(front), chip.idleChipMw), ContentSum(chip, front),
                Times(|last|, chip.idleChipMw), ColumnSum(chip, last));
    }
  }

  /** Light power with PWM sums that wrap around. */
  function WrappedLight(chains: seq<Chain>, dim: Component): nat {
    if chains == [] then 0
    else
      var n := |chains| - 1;
      var s := AreaSum(chains[n], dim);
      WrappedLight(chains[..n], dim) + ChainMw(chains[n].chip, Pwms(s.rgb % 0x1_0000_0000, s.white % 0x1_0000_0000))
  }

  lemma ChainWraps(chain: Chain, dim: Component, idle: nat)
    ensures var s := AreaSum(chain, dim);
            SendContent(Acc(Wrap(idle), 0, 0), chain.chip, AreaPowers(chain, dim))
            == Acc(Wrap(idle + ChainIdle(chain)), s.rgb % 0x1_0000_0000, s.white % 0x1_0000_0000)
  {
    var s := AreaSum(chain, dim);
    SameLedCount(chain, dim);
    ContentWraps(Acc(Wrap(idle), 0, 0), chain.chip, AreaPowers(chain, dim));
    WrapTwice(idle, ChainIdle(chain));
    WrapIsModulo(s.rgb);
    WrapIsModulo(s.white);
  }

  lemma {:induction false} PassIsWrapped(chains: seq<Chain>, dim: Component)
    ensures Pass(chains, dim) == PassPower(Wrap(WrappedLight(chains, dim)), Wrap(IdleSum(chains)))
  {
    if chains != [] {
      var n := |chains| - 1;
      var s := AreaSum(chains[n], dim);
      PassIsWrapped(chains[..n], dim);
      ChainWraps(chains[n], dim, IdleSum(chains[..n]));
      WrapTwice(WrappedLight(chains[..n], dim),
                ChainMw(chains[n].chip, Pwms(s.rgb % 0x1_0000_0000, s.white % 0x1_0000_0000)));
    }
  }

  /** Main result: whatever the size of the installation, a pass computes the idle power modulo 2^32, and
      the light power modulo 2^32 for the PWM sums modulo 2^32. */
  lemma PassWraps(chains: seq<Chain>, dim: Component)
    ensures Pass(chains, dim).idle == IdleSum(chains) % 0x1_0000_0000
    ensures Pass(chains, dim).light == WrappedLight(chains, dim) % 0x1_0000_0000
  {
    PassIsWrapped(chains, dim);
    WrapIsModulo(WrappedLight(chains, dim));
    WrapIsModulo(IdleSum(chains));
  }
}
