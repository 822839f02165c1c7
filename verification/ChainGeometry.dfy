/** How the pixels of an area are laid out along a LED chain (ledchaincomm.cpp).

    A chain runs through its rows one after the other, with inactive LEDs before the first row,
    between rows and after the last one.  All quantities are 16-bit unsigned numbers; intermediate
    results are computed as int and cut to 16 bits where the source stores them.
  */
module ChainGeometry {
  import opened Arithmetic

  type uint16 = x: int | 0 <= x < 0x1_0000

  function Wrap16(n: int): uint16 {
    if 0 <= n < 0x1_0000 then n else n % 0x1_0000
  }

  /** Division as in C: truncation toward zero. */
  function Truncate(a: int, b: int): int
    requires b > 0
  {
    if a >= 0 then Quotient(a, b) else 0 - Quotient(-a, b) as int
  }

  /** The numeric part of a chain specification. */
  datatype ChainSpec = ChainSpec(numLeds: uint16, dx: uint16, dy: uint16, firstOffset: uint16, betweenOffset: uint16,
                                 xReversed: bool, alternating: bool, xySwap: bool, yReversed: bool)
  {
    function LedsPerRow(): uint16 {
      if xySwap then dy else dx
    }

    function Rows(): uint16 {
      if xySwap then dx else dy
    }

    /** LEDs left over at the end of the chain; negative if the area needs more than there are. */
    function Remaining(): int {
      numLeds - firstOffset - Times(dx, dy) - (Times(Rows(), betweenOffset) - betweenOffset)
    }

    /** The area is not empty and there are enough LEDs for it. */
    ghost predicate Fits() {
      dx >= 1 && dy >= 1 && Remaining() >= 0
    }

    predicate Specified(p: Pixel) {
      0 <= p.x < dx && 0 <= p.y < dy
    }

    /** The chain as instantiated from the specification. */
    function Instantiate(): Mapping {
      Mapping.Construct(numLeds, LedsPerRow(), xReversed, alternating, xySwap, yReversed, firstOffset, betweenOffset,
                        if Remaining() < 0 then 0 else Wrap16(Remaining()))
    }
  }

  datatype Mapping = Mapping(numLeds: uint16, ledsPerRow: uint16, numRows: uint16,
                             inactiveStart: uint16, inactiveBetween: uint16, inactiveEnd: uint16,
                             xReversed: bool, alternating: bool, xySwap: bool, yReversed: bool)
  {
    /** The constructor: the number of rows is derived from the number of LEDs. */
    static function Construct(numLeds: uint16, ledsPerRow: uint16, xReversed: bool, alternating: bool, xySwap: bool,
                              yReversed: bool, start: uint16, between: uint16, end: uint16): Mapping
    {
      if ledsPerRow == 0 then
        Mapping(numLeds, Wrap16(numLeds - start), 1, start, between, end, xReversed, alternating, xySwap, yReversed)
      else
        var rows := Wrap16(Truncate(numLeds - 1 - start - end, ledsPerRow + between) + 1);
        Mapping(numLeds, ledsPerRow, rows, start, between, end, xReversed, alternating, xySwap, yReversed)
    }

    function NumLeds(): uint16 {
      Wrap16(numLeds - inactiveStart - inactiveEnd - (Times(numRows, inactiveBetween) - inactiveBetween))
    }

    function SizeX(): uint16 {
      if xySwap then numRows else ledsPerRow
    }

    function SizeY(): uint16 {
      if xySwap then ledsPerRow else numRows
    }

    function Stride(): nat {
      ledsPerRow + inactiveBetween
    }

    predicate Backwards(row: uint16) {
      if alternating && row % 2 == 1 then !xReversed else xReversed
    }

    /** The row of the chain that shows a pixel, and the position within it. */
    function RowOf(x: uint16, y: uint16): uint16 {
      var line := if xySwap then x else y;
      if yReversed then Wrap16(numRows - 1 - line) else line
    }

    function PositionOf(x: uint16, y: uint16): int {
      var col := if xySwap then y else x;
      if Backwards(RowOf(x, y)) then ledsPerRow - 1 - col else col
    }

    function Address(row: uint16, position: int): uint16 {
      Wrap16(Wrap16(Wrap16(Times(row, Stride())) + position) + inactiveStart)
    }

    /** The index of a LED along the chain. */
    function LedIndexFromXY(x: uint16, y: uint16): uint16 {
      Address(RowOf(x, y), PositionOf(x, y))
    }

    /** The chain is made up of its rows and its inactive LEDs. */
    ghost predicate Valid() {
      && ledsPerRow >= 1 && numRows >= 1
      && inactiveStart + Times(numRows - 1, Stride()) + ledsPerRow + inactiveEnd == numLeds
    }

    /** A LED that is neither start-, between- nor end-inactive. */
    predicate Active(i: nat)
      requires ledsPerRow >= 1
    {
      inactiveStart <= i < numLeds - inactiveEnd && Remainder(i - inactiveStart, Stride()) < ledsPerRow
    }

    /** The pixel shown by position col of a row, in the direction of the chain. */
    function PixelAt(row: int, col: int): (p: Pixel) {
      var c := if 0 <= row < 0x1_0000 && Backwards(row) then ledsPerRow - 1 - col else col;
      var line := if yReversed then numRows - 1 - row else row;
      if xySwap then Pixel(line, c) else Pixel(c, line)
    }

    function XYFromLedIndex(i: nat): Pixel
      requires ledsPerRow >= 1 && i >= inactiveStart
    {
      PixelAt(Quotient(i - inactiveStart, Stride()), Remainder(i - inactiveStart, Stride()))
    }

    predicate Inside(p: Pixel) {
      0 <= p.x < SizeX() && 0 <= p.y < SizeY()
    }
  }

  datatype Pixel = Pixel(x: int, y: int)

  // ----- The constructor

  /** Main result: a specification whose area fits is recovered exactly: the size of the area, the
      number of its LEDs, and the partition of the chain. */
  lemma AreaIsRecovered(s: ChainSpec)
    requires s.Fits()
    ensures var m := s.Instantiate();
            m.Valid() && m.SizeX() == s.dx && m.SizeY() == s.dy && m.NumLeds() == Times(s.dx, s.dy)
  {
    RowsAreRecovered(s);
    TimesCommutes(s.dx, s.dy);
    TimesOfSum(s.Rows() - 1, s.LedsPerRow(), s.betweenOffset);
  }

  lemma RowsAreRecovered(s: ChainSpec)
    requires s.Fits()
    ensures s.Instantiate().numRows == s.Rows() && s.Instantiate().inactiveEnd == s.Remaining()
  {
    var p: nat, r: nat, b: nat := s.LedsPerRow(), s.Rows(), s.betweenOffset;
    AreaNeeded(s);
    assert s.numLeds - 1 - s.firstOffset - s.Remaining() == Times(r - 1, p + b) + (p - 1);
    QuotientOfTimes(r - 1, p - 1, p + b);
  }

  /** Without a row length, all LEDs behind the inactive ones at the start make up one row.  The chain is then
      partitioned correctly exactly if there are no inactive LEDs at the end: these would be shown as well. */
  lemma SingleRow(numLeds: uint16, start: uint16, between: uint16, end: uint16, xReversed: bool, alternating: bool,
                  xySwap: bool, yReversed: bool)
    requires start < numLeds
    ensures var m := Mapping.Construct(numLeds, 0, xReversed, alternating, xySwap, yReversed, start, between, end);
            m.numRows == 1 && m.ledsPerRow == numLeds - start && (m.Valid() <==> end == 0)
  {
  }

  // ----- Indices

  /** Within a valid mapping nothing wraps. */
  lemma IndexOfPixel(m: Mapping, row: nat, col: nat)
    requires m.Valid() && row < m.numRows && col < m.ledsPerRow
    ensures m.Inside(m.PixelAt(row, col))
    ensures var p := m.PixelAt(row, col);
            m.LedIndexFromXY(p.x, p.y) == m.inactiveStart + Times(row, m.Stride()) + col < m.numLeds - m.inactiveEnd
  {
    PixelIsAt(m, row, col);
    FactorIsMonotone(row, m.numRows - 1, m.Stride());
  }

  lemma PixelIsAt(m: Mapping, row: nat, col: nat)
    requires row < m.numRows && col < m.ledsPerRow
    ensures var p := m.PixelAt(row, col);
            m.Inside(p) && m.RowOf(p.x, p.y) == row && m.PositionOf(p.x, p.y) == col
  {
  }

  /** The row and position that show a given pixel. */
  lemma PlaceOf(m: Mapping, p: Pixel) returns (row: nat, col: nat)
    requires m.Valid() && m.Inside(p)
    ensures row < m.numRows && col < m.ledsPerRow && p == m.PixelAt(row, col)
  {
    var c, line := if m.xySwap then p.y else p.x, if m.xySwap then p.x else p.y;
    row := if m.yReversed then m.numRows - 1 - line else line;
    col := if m.Backwards(row) then m.ledsPerRow - 1 - c else c;
  }

  /** Main result, first half: every pixel of the area is shown by an active LED, from which the
      pixel can be read off. */
  lemma PixelHasActiveLed(m: Mapping, p: Pixel)
    requires m.Valid() && m.Inside(p)
    ensures var i := m.LedIndexFromXY(p.x, p.y);
            m.Active(i) && m.XYFromLedIndex(i) == p
  {
    var row, col := PlaceOf(m, p);
    IndexOfPixel(m, row, col);
    var i := m.LedIndexFromXY(p.x, p.y);
    QuotientOfTimes(row, col, m.Stride());
  }

  /** Main result, second half: every active LED shows exactly one pixel of the area. */
  lemma ActiveLedShowsPixel(m: Mapping, i: nat)
    requires m.Valid() && m.Active(i)
    ensures var p := m.XYFromLedIndex(i);
            m.Inside(p) && m.LedIndexFromXY(p.x, p.y) == i
  {
    var k := i - m.inactiveStart;
    var row, col := Quotient(k, m.Stride()), Remainder(k, m.Stride());
    QuotientAndRemainder(k, m.Stride());
    if row >= m.numRows {
      FactorIsMonotone(m.numRows, row, m.Stride());
      assert false;
    }
    IndexOfPixel(m, row, col);
  }

  /** Different pixels use different LEDs. */
  lemma PixelsDoNotCollide(m: Mapping, p: Pixel, q: Pixel)
    requires m.Valid() && m.Inside(p) && m.Inside(q)
    requires m.LedIndexFromXY(p.x, p.y) == m.LedIndexFromXY(q.x, q.y)
    ensures p == q
  {
    PixelHasActiveLed(m, p);
    PixelHasActiveLed(m, q);
  }

  // ----- When the area does not fit

  /** Every pixel of the specified area has an active LED of its own. */
  ghost predicate ShowsArea(s: ChainSpec)
    requires s.dx >= 1 && s.dy >= 1
  {
    && (forall p: Pixel :: s.Specified(p) ==> HasActiveLed(s, p))
    && (forall p: Pixel, q: Pixel :: s.Specified(p) && s.Specified(q) && SameLed(s, p, q) ==> p == q)
  }

  predicate HasActiveLed(s: ChainSpec, p: Pixel)
    requires s.dx >= 1 && s.dy >= 1 && s.Specified(p)
  {
    var m := s.Instantiate();
    m.Active(m.LedIndexFromXY(p.x, p.y))
  }

  predicate SameLed(s: ChainSpec, p: Pixel, q: Pixel)
    requires s.Specified(p) && s.Specified(q)
  {
    var m := s.Instantiate();
    m.LedIndexFromXY(p.x, p.y) == m.LedIndexFromXY(q.x, q.y)
  }

  /** Main result on whole specifications: a chain shows every pixel of a non-empty area by an active
      LED of its own exactly if there are enough LEDs. */
  lemma ShowsAreaIffFits(s: ChainSpec)
    requires s.dx >= 1 && s.dy >= 1
    ensures ShowsArea(s) <==> s.Fits()
  {
    if s.Fits() {
      FittingAreaIsShown(s);
    } else {
      var p, q := OverfullAreaIsBroken(s);
    }
  }

  lemma FittingAreaIsShown(s: ChainSpec)
    requires s.Fits()
    ensures ShowsArea(s)
  {
    var m := s.Instantiate();
    AreaIsRecovered(s);
    forall p: Pixel | s.Specified(p)
      ensures HasActiveLed(s, p)
    {
      PixelHasActiveLed(m, p);
    }
    forall p: Pixel, q: Pixel | s.Specified(p) && s.Specified(q) && SameLed(s, p, q)
      ensures p == q
    {
      PixelsDoNotCollide(m, p, q);
    }
  }

  /** An area that does not fit has a pixel without an active LED, or two pixels with the same one:
      there are fewer active LEDs than pixels. */
  lemma OverfullAreaIsBroken(s: ChainSpec) returns (p: Pixel, q: Pixel)
    requires s.dx >= 1 && s.dy >= 1 && s.Remaining() < 0
    ensures s.Specified(p) && s.Specified(q)
    ensures !HasActiveLed(s, p) || (p != q && SameLed(s, p, q))
  {
    var n: nat := Times(s.dy, s.dx);
    if k: nat :| k < n && !HasActiveLed(s, PixelOf(s, k)) {
      p := PixelOf(s, k);
      q := p;
    } else {
      var codes := seq(n, k requires 0 <= k < n => Code(s, PixelOf(s, k)));
      forall k | 0 <= k < n
        ensures codes[k] < n - 1
      {
        CodeIsSmall(s, PixelOf(s, k));
      }
      var i, j := Pigeonhole(codes, n - 1);
      p, q := PixelOf(s, i), PixelOf(s, j);
      CodesAreDifferent(s, p, q);
      PixelsOf(s, i, j);
    }
  }

  /** The pixels of the specified area, one after the other. */
  function PixelOf(s: ChainSpec, k: nat): (p: Pixel)
    requires s.dx >= 1 && k < Times(s.dy, s.dx)
    ensures s.Specified(p)
  {
    QuotientAndRemainder(k, s.dx);
    QuotientBelow(k, s.dy, s.dx);
    Pixel(Remainder(k, s.dx), Quotient(k, s.dx))
  }

  lemma PixelsOf(s: ChainSpec, i: nat, j: nat)
    requires s.dx >= 1 && i < j < Times(s.dy, s.dx)
    ensures PixelOf(s, i) != PixelOf(s, j)
  {
    QuotientAndRemainder(i, s.dx);
    QuotientAndRemainder(j, s.dx);
  }

  /** The number of an active LED among the active LEDs. */
  function Code(s: ChainSpec, p: Pixel): nat
    requires s.dx >= 1 && s.dy >= 1 && s.Specified(p) && HasActiveLed(s, p)
  {
    var m := s.Instantiate();
    Counted(m.LedIndexFromXY(p.x, p.y) - s.firstOffset, m.Stride(), m.ledsPerRow)
  }

  function Counted(k: nat, stride: nat, per: nat): nat
    requires stride > 0
  {
    Times(Quotient(k, stride), per) + Remainder(k, stride)
  }

  lemma CountedApart(i: nat, j: nat, stride: nat, per: nat)
    requires stride > 0 && Remainder(i, stride) < per && Remainder(j, stride) < per
    requires Counted(i, stride, per) == Counted(j, stride, per)
    ensures i == j
  {
    QuotientAndRemainder(i, stride);
    QuotientAndRemainder(j, stride);
    QuotientOfTimes(Quotient(i, stride), Remainder(i, stride), per);
    QuotientOfTimes(Quotient(j, stride), Remainder(j, stride), per);
  }

  lemma CodesAreDifferent(s: ChainSpec, p: Pixel, q: Pixel)
    requires s.dx >= 1 && s.dy >= 1 && s.Specified(p) && s.Specified(q) && HasActiveLed(s, p) && HasActiveLed(s, q)
    requires Code(s, p) == Code(s, q)
    ensures SameLed(s, p, q)
  {
    var m := s.Instantiate();
    var i: nat, j: nat := m.LedIndexFromXY(p.x, p.y), m.LedIndexFromXY(q.x, q.y);
    CountedApart(i - s.firstOffset, j - s.firstOffset, m.Stride(), m.ledsPerRow);
  }

  /** Even the last pixel but one uses up all active LEDs. */
  lemma CodeIsSmall(s: ChainSpec, p: Pixel)
    requires s.dx >= 1 && s.dy >= 1 && s.Remaining() < 0 && s.Specified(p) && HasActiveLed(s, p)
    ensures Code(s, p) < Times(s.dy, s.dx) - 1
  {
    var k := PlaceOnChain(s, p);
    AreaNeeded(s);
    CountedIsSmall(k, s.Rows(), s.LedsPerRow(), s.betweenOffset);
  }

  /** The place of an active LED behind the first offset; there are none at the end to be left out. */
  lemma PlaceOnChain(s: ChainSpec, p: Pixel) returns (k: nat)
    requires s.dx >= 1 && s.dy >= 1 && s.Remaining() < 0 && s.Specified(p) && HasActiveLed(s, p)
    ensures k < s.numLeds - s.firstOffset && Remainder(k, s.LedsPerRow() + s.betweenOffset) < s.LedsPerRow()
    ensures Code(s, p) == Counted(k, s.LedsPerRow() + s.betweenOffset, s.LedsPerRow())
  {
    k := s.Instantiate().LedIndexFromXY(p.x, p.y) - s.firstOffset;
  }

  lemma AreaNeeded(s: ChainSpec)
    requires s.dx >= 1 && s.dy >= 1
    ensures Times(s.dx, s.dy) == Times(s.dy, s.dx) == Times(s.Rows(), s.LedsPerRow())
    ensures s.Remaining() == s.numLeds - s.firstOffset
                             - (Times(s.Rows() - 1, s.LedsPerRow() + s.betweenOffset) + s.LedsPerRow())
  {
    TimesCommutes(s.dx, s.dy);
    TimesOfSum(s.Rows() - 1, s.LedsPerRow(), s.betweenOffset);
  }

  lemma CountedIsSmall(k: nat, r: nat, per: nat, b: nat)
    requires r >= 1 && per >= 1 && Remainder(k, per + b) < per
    requires k < Times(r - 1, per + b) + per - 1
    ensures Counted(k, per + b, per) < Times(r, per) - 1
  {
    QuotientAndRemainder(k, per + b);
    CodeBound(Quotient(k, per + b), Remainder(k, per + b), r, per, b);
  }

  lemma CodeBound(row: nat, col: nat, r: nat, per: nat, b: nat)
    requires r >= 1 && col < per && Times(row, per + b) + col < Times(r - 1, per + b) + per - 1
    ensures Times(row, per) + col < Times(r, per) - 1
  {
    if row >= r {
      FactorIsMonotone(r, row, per + b);
    } else if row < r - 1 {
      FactorIsMonotone(row + 1, r - 1, per);
    }
  }

  lemma QuotientBelow(k: nat, q: nat, n: nat)
    requires n > 0 && k < Times(q, n)
    ensures Quotient(k, n) < q
  {
    QuotientAndRemainder(k, n);
    if Quotient(k, n) >= q {
      FactorIsMonotone(q, Quotient(k, n), n);
    }
  }

  lemma {:induction false} Pigeonhole(f: seq<nat>, n: nat) returns (i: nat, j: nat)
    requires |f| > n && forall k :: 0 <= k < |f| ==> f[k] < n
    ensures i < j < |f| && f[i] == f[j]
    decreases n
  {
    assert f[0] < n;
    if a: nat, b: nat :| a < b < |f| && f[a] == f[b] == n - 1 {
      i, j := a, b;
    } else if a: nat :| a < |f| && f[a] == n - 1 {
      var g := f[..a] + f[a + 1..];
      i, j := Pigeonhole(g, n - 1);
      if i >= a { i := i + 1; }
      if j >= a { j := j + 1; }
    } else {
      i, j := Pigeonhole(f, n - 1);
    }
  }

  // ----- In terms of multiplication, division and remainder

  /** Division as in C is division of the absolute value. */
  lemma TruncateIsDivision(a: int, b: int)
    requires b > 0
    ensures Truncate(a, b) == if a >= 0 then a / b else -(-a / b)
  {
    if a >= 0 { QuotientIsDivision(a, b); } else { QuotientIsDivision(-a, b); }
  }

  lemma PixelByDivision(m: Mapping, i: nat)
    requires m.ledsPerRow >= 1 && i >= m.inactiveStart
    ensures m.XYFromLedIndex(i) == m.PixelAt((i - m.inactiveStart) / m.Stride(), (i - m.inactiveStart) % m.Stride())
  {
    QuotientIsDivision(i - m.inactiveStart, m.Stride());
  }

  /** Main result on the layout: with x and y exchanged first, rows counted from the other end if the lines
      are reversed, and rows running backwards if they are reversed or, on an alternating chain, every
      other one, the index is start + row * (LEDs and gap of a row) + position. */
  lemma IndexByMultiplication(m: Mapping, p: Pixel)
    requires m.Valid() && m.Inside(p)
    ensures var u, v := if m.xySwap then p.y else p.x, if m.xySwap then p.x else p.y;
            var row := if m.yReversed then m.numRows - 1 - v else v;
            var backwards := if row % 2 == 0 then m.xReversed else m.xReversed != m.alternating;
            var position := if backwards then m.ledsPerRow - 1 - u else u;
            m.LedIndexFromXY(p.x, p.y) == m.inactiveStart + row * (m.ledsPerRow + m.inactiveBetween) + position
  {
    var row, col := PlaceOf(m, p);
    IndexOfPixel(m, row, col);
    TimesIsProduct(row, m.Stride());
  }

  /** The pixel at u along the rows and v across them. */
  function Across(m: Mapping, u: nat, v: nat): Pixel {
    if m.xySwap then Pixel(v, u) else Pixel(u, v)
  }

  function IndexAt(m: Mapping, u: nat, v: nat): int
    requires u < m.ledsPerRow && v < m.numRows
  {
    var p := Across(m, u, v);
    m.LedIndexFromXY(p.x, p.y)
  }

  /** The chain starts in the corner that the reversals say. */
  lemma FirstLedIsInCorner(m: Mapping)
    requires m.Valid()
    ensures var u, v := if m.xReversed then m.ledsPerRow - 1 else 0, if m.yReversed then m.numRows - 1 else 0;
            IndexAt(m, u, v) == m.inactiveStart
  {
    var u, v := if m.xReversed then m.ledsPerRow - 1 else 0, if m.yReversed then m.numRows - 1 else 0;
    IndexByMultiplication(m, Across(m, u, v));
  }

  /** Neighbours within a row are neighbours on the chain. */
  lemma RowsAreConnected(m: Mapping, u: nat, v: nat)
    requires m.Valid() && u + 1 < m.ledsPerRow && v < m.numRows
    ensures IndexAt(m, u + 1, v) - IndexAt(m, u, v) in {1, -1}
  {
    IndexByMultiplication(m, Across(m, u, v));
    IndexByMultiplication(m, Across(m, u + 1, v));
  }

  /** The index, with the product as repeated addition. */
  lemma IndexInRow(m: Mapping, u: nat, v: nat, row: nat)
    requires m.Valid() && u < m.ledsPerRow && v < m.numRows
    requires row == if m.yReversed then m.numRows - 1 - v else v
    ensures var backwards := if row % 2 == 0 then m.xReversed else m.xReversed != m.alternating;
            IndexAt(m, u, v)
            == m.inactiveStart + Times(row, m.Stride()) + if backwards then m.ledsPerRow - 1 - u else u
  {
    var r, col := PlaceOf(m, Across(m, u, v));
    IndexOfPixel(m, r, col);
  }

  /** Where the row v ends on the chain: at the far end, or at the near end if it runs backwards. */
  function RowEnd(m: Mapping, v: nat): nat
    requires m.ledsPerRow >= 1 && v < m.numRows
  {
    var row := if m.yReversed then m.numRows - 1 - v else v;
    if m.alternating && row % 2 == 1 then (if m.xReversed then m.ledsPerRow - 1 else 0)
    else if m.xReversed then 0 else m.ledsPerRow - 1
  }

  /** An alternating chain turns round at the end of a row: the next LED after the gap is beside it. */
  lemma AlternatingChainTurns(m: Mapping, v: nat, next: nat)
    requires m.Valid() && m.alternating && v < m.numRows && next < m.numRows
    requires next == if m.yReversed then v - 1 else v + 1
    ensures IndexAt(m, RowEnd(m, v), next) == IndexAt(m, RowEnd(m, v), v) + m.inactiveBetween + 1
  {
    var row := if m.yReversed then m.numRows - 1 - v else v;
    IndexInRow(m, RowEnd(m, v), v, row);
    IndexInRow(m, RowEnd(m, v), next, row + 1);
  }

  /** Rows of a chain that is not alternating run in parallel. */
  lemma OtherRowsAreParallel(m: Mapping, u: nat, v: nat, next: nat)
    requires m.Valid() && !m.alternating && u < m.ledsPerRow && v < m.numRows && next < m.numRows
    requires next == if m.yReversed then v - 1 else v + 1
    ensures IndexAt(m, u, next) == IndexAt(m, u, v) + m.ledsPerRow + m.inactiveBetween
  {
    var row := if m.yReversed then m.numRows - 1 - v else v;
    IndexInRow(m, u, v, row);
    IndexInRow(m, u, next, row + 1);
  }
}
