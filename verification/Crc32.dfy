/** The bit-serial CRC-32 of crc32.cpp.

    Words are sequences of bits, least significant bit first: that is the order in which the
    algorithm consumes a message, and the level at which the error-detection guarantee of a CRC is
    stated.
  */
module Crc {

  import opened BitVectors

  /** 0xEDB88320, one hexadecimal digit per group, lowest digit first. */
  const POLYNOMIAL: Word :=
    [F, F, F, F] + [F, T, F, F] + [T, T, F, F] + [F, F, F, T] +
    [F, F, F, T] + [T, T, F, T] + [T, F, T, T] + [F, T, T, T]

  /** 0xFFFFFFFF or 0. */
  function Fill(bit: bool): (w: Word)
    ensures forall i :: 0 <= i < 32 ==> w[i] == bit
  {
    seq(32, i => bit)
  }

  function Xor(a: Word, b: Word): (r: Word)
    ensures forall i :: 0 <= i < 32 ==> r[i] == (a[i] != b[i])
  {
    seq(32, i requires 0 <= i < 32 => a[i] != b[i])
  }

  function ShiftRight(w: Word): Word {
    w[1..] + [false]
  }

  /** The effect of one message bit on the register. */
  function BitStep(crc: Word, bit: bool): Word {
    if crc[0] != bit then Xor(ShiftRight(crc), POLYNOMIAL) else ShiftRight(crc)
  }

  function RunBits(crc: Word, bits: Bits): Word {
    if bits == [] then crc else BitStep(RunBits(crc, bits[..|bits| - 1]), bits[|bits| - 1])
  }

  function MessageBits(bytes: seq<Byte>): (bits: Bits)
    ensures |bits| == 8 * |bytes|
  {
    if bytes == [] then [] else MessageBits(bytes[..|bytes| - 1]) + bytes[|bytes| - 1]
  }

  /** The CRC of a whole message. */
  function Checksum(message: seq<Byte>): Word {
    Xor(RunBits(Fill(true), MessageBits(message)), Fill(true))
  }

  class Crc32 {
    var crc: Word
    ghost var message: seq<Byte>  // everything added since the last reset

    ghost predicate Valid()
      reads this
    {
      crc == RunBits(Fill(true), MessageBits(message))
    }

    constructor ()
      ensures Valid() && message == []
    {
      crc := Fill(true);
      message := [];
    }

    method Reset()
      modifies this
      ensures Valid() && message == []
    {
      crc := Fill(true);
      message := [];
    }

    /** One bit at a time, least significant first, each by a shift and at most one exclusive or. */
    method AddByte(aByte: Byte)
      requires Valid()
      modifies this
      ensures Valid() && message == old(message) + [aByte]
    {
      for j := 0 to 8
        invariant crc == RunBits(old(crc), aByte[..j])
        invariant message == old(message)
      {
        var bit := crc[0];
        crc := ShiftRight(crc);
        if aByte[j] { bit := !bit; }
        if bit { crc := Xor(crc, POLYNOMIAL); }
        assert aByte[..j + 1][..j] == aByte[..j];
      }
      assert aByte[..8] == aByte;
      message := message + [aByte];
      assert message[..|message| - 1] == old(message);
      RunAppend(Fill(true), MessageBits(old(message)), aByte);
    }

    method AddBytes(aBytes: seq<Byte>)
      requires Valid()
      modifies this
      ensures Valid() && message == old(message) + aBytes
    {
      for i := 0 to |aBytes|
        invariant Valid() && message == old(message) + aBytes[..i]
      {
        AddByte(aBytes[i]);
      }
    }

    method GetCRC() returns (r: Word)
      requires Valid()
      ensures r == Checksum(message)
    {
      r := Xor(crc, Fill(true));
    }
  }

  lemma {:induction false} RunAppend(crc: Word, x: Bits, y: Bits)
    ensures RunBits(crc, x + y) == RunBits(RunBits(crc, x), y)
  {
    if y == [] {
      assert x + y == x;
    } else {
      var n := |y| - 1;
      assert (x + y)[..|x + y| - 1] == x + y[..n];
      RunAppend(crc, x, y[..n]);
    }
  }

  // ----- Error detection

  lemma StepIsLinear(c: Word, d: Word, p: bool, q: bool)
    ensures Xor(BitStep(c, p), BitStep(d, q)) == BitStep(Xor(c, d), p != q)
  {
  }

  /** One of the n highest bits of the register is set. */
  ghost predicate High(c: Word, n: nat)
    requires n <= 32
  {
    exists i :: 32 - n <= i < 32 && c[i]
  }

  /** The highest set bit moves down by at most one position per step, whatever the message bit:
      feeding back the polynomial always sets the top bit. */
  lemma StepKeepsHeight(c: Word, n: nat, bit: bool)
    requires n < 32 && High(c, n)
    ensures High(BitStep(c, bit), n + 1)
  {
    var i :| 32 - n <= i < 32 && c[i];
    assert BitStep(c, bit)[31] || BitStep(c, bit)[i - 1];
  }

  lemma XorSelf(c: Word)
    ensures Xor(c, c) == Fill(false)
  {
  }

  lemma QuietStep(c: Word)
    requires c != Fill(false)
    ensures BitStep(c, false) != Fill(false)
  {
    if c[0] {
      assert BitStep(c, false)[31];
    } else {
      var i :| 0 <= i < 32 && c[i] != Fill(false)[i];
      assert BitStep(c, false)[i - 1];
    }
  }

  /** The register difference of two equally long bit streams, after their first n bits. */
  ghost function Difference(crc: Word, x: Bits, y: Bits, n: nat): Word
    requires n <= |x| == |y|
  {
    Xor(RunBits(crc, x[..n]), RunBits(crc, y[..n]))
  }

  lemma DifferenceStep(crc: Word, x: Bits, y: Bits, n: nat)
    requires n < |x| == |y|
    ensures Difference(crc, x, y, n + 1) == BitStep(Difference(crc, x, y, n), x[n] != y[n])
  {
    assert x[..n + 1][..n] == x[..n] && y[..n + 1][..n] == y[..n];
    StepIsLinear(RunBits(crc, x[..n]), RunBits(crc, y[..n]), x[n], y[n]);
  }

  /** From the first differing bit f on, the difference loses at most one bit position per step. */
  lemma {:induction false} DifferenceHigh(crc: Word, x: Bits, y: Bits, f: nat, n: nat)
    requires f < n <= |x| == |y| && n - f <= 32
    requires x[f] != y[f] && x[..f] == y[..f]
    ensures High(Difference(crc, x, y, n), n - f)
  {
    DifferenceStep(crc, x, y, n - 1);
    if n == f + 1 {
      assert Difference(crc, x, y, f) == Fill(false);
      assert Difference(crc, x, y, n)[31];
    } else {
      DifferenceHigh(crc, x, y, f, n - 1);
      StepKeepsHeight(Difference(crc, x, y, n - 1), n - 1 - f, x[n - 1] != y[n - 1]);
    }
  }

  lemma {:induction false} DifferenceStays(crc: Word, x: Bits, y: Bits, m: nat, n: nat)
    requires m <= n <= |x| == |y|
    requires Difference(crc, x, y, m) != Fill(false)
    requires forall k :: m <= k < n ==> x[k] == y[k]
    ensures Difference(crc, x, y, n) != Fill(false)
  {
    if m < n {
      DifferenceStays(crc, x, y, m, n - 1);
      DifferenceStep(crc, x, y, n - 1);
      QuietStep(Difference(crc, x, y, n - 1));
    }
  }

  /** Two different bit streams whose differences lie within 32 consecutive positions never end in
      the same register. */
  lemma BurstBits(crc: Word, x: Bits, y: Bits, f: nat)
    requires f < |x| == |y|
    requires x[f] != y[f] && x[..f] == y[..f]
    requires forall k :: f + 32 <= k < |x| ==> x[k] == y[k]
    ensures RunBits(crc, x) != RunBits(crc, y)
  {
    var m := if f + 32 <= |x| then f + 32 else |x|;
    DifferenceHigh(crc, x, y, f, m);
    DifferenceStays(crc, x, y, m, |x|);
    assert x[..|x|] == x && y[..|x|] == y;
    XorSelf(RunBits(crc, x));
  }

  lemma {:induction false} MessageBitAt(message: seq<Byte>, k: nat)
    requires k < 8 * |message|
    ensures MessageBits(message)[k] == message[k / 8][k % 8]
  {
    var n := |message| - 1;
    if k < 8 * n {
      MessageBitAt(message[..n], k);
    }
  }

  lemma {:induction false} MessageBitsInjective(a: seq<Byte>, b: seq<Byte>)
    requires MessageBits(a) == MessageBits(b)
    ensures a == b
  {
    if a != [] {
      var n := |a| - 1;
      assert MessageBits(a[..n]) == MessageBits(a)[..8 * n];
      assert MessageBits(b[..n]) == MessageBits(b)[..8 * n];
      assert a[n] == MessageBits(a)[8 * n..] == MessageBits(b)[8 * n..] == b[n];
      MessageBitsInjective(a[..n], b[..n]);
    }
  }

  lemma {:induction false} FirstDifference(x: Bits, y: Bits) returns (f: nat)
    requires |x| == |y| && x != y
    ensures f < |x| && x[f] != y[f] && x[..f] == y[..f]
  {
    if x[0] != y[0] {
      f := 0;
    } else {
      assert x == [x[0]] + x[1..] && y == [y[0]] + y[1..];
      var g := FirstDifference(x[1..], y[1..]);
      f := g + 1;
      assert x[..f] == [x[0]] + x[1..][..g] && y[..f] == [y[0]] + y[1..][..g];
    }
  }

  /** Main result: any two different messages of equal length whose differing bits lie within 32
      consecutive bits have different checksums. */
  lemma BurstsAreDetected(a: seq<Byte>, b: seq<Byte>, s: nat)
    requires |a| == |b| && a != b
    requires forall k :: 0 <= k < 8 * |a| && a[k / 8][k % 8] != b[k / 8][k % 8] ==> s <= k < s + 32
    ensures Checksum(a) != Checksum(b)
  {
    var x, y := MessageBits(a), MessageBits(b);
    if x == y {
      MessageBitsInjective(a, b);
    }
    var f := FirstDifference(x, y);
    MessageBitAt(a, f);
    MessageBitAt(b, f);
    forall k | f + 32 <= k < |x|
      ensures x[k] == y[k]
    {
      MessageBitAt(a, k);
      MessageBitAt(b, k);
    }
    BurstBits(Fill(true), x, y, f);
    var c, d := RunBits(Fill(true), x), RunBits(Fill(true), y);
    var i :| 0 <= i < 32 && c[i] != d[i];
    assert Xor(c, Fill(true))[i] != Xor(d, Fill(true))[i];
  }

  /** The usual consequence: replacing up to four adjacent bytes by others is always noticed. */
  lemma FourByteErrorsAreDetected(head: seq<Byte>, good: seq<Byte>, bad: seq<Byte>, tail: seq<Byte>)
    requires |good| == |bad| <= 4 && good != bad
    ensures Checksum(head + good + tail) != Checksum(head + bad + tail)
  {
    var a, b := head + good + tail, head + bad + tail;
    assert a[|head|..|head| + |good|] == good && b[|head|..|head| + |good|] == bad;
    forall k | 0 <= k < 8 * |a| && a[k / 8][k % 8] != b[k / 8][k % 8]
      ensures 8 * |head| <= k < 8 * |head| + 32
    {
      assert a[k / 8] != b[k / 8];
    }
    BurstsAreDetected(a, b, 8 * |head|);
  }

  /** The bound 32 is sharp: the generator itself, spread over 33 bits, goes unnoticed. */
  lemma GeneratorIsNotDetected(crc: Word)
    ensures RunBits(crc, [T] + POLYNOMIAL) == RunBits(crc, [F] + Fill(false))
  {
    var x, y := [T] + POLYNOMIAL, [F] + Fill(false);
    GeneratorDifference(crc, 33);
    assert x[..33] == x && y[..33] == y;
    assert Difference(crc, x, y, 33) == Fill(false);
    var c, d := RunBits(crc, x), RunBits(crc, y);
    assert forall i :: 0 <= i < 32 ==> Xor(c, d)[i] == (c[i] != d[i]);
  }

  lemma {:induction false} GeneratorDifference(crc: Word, n: nat)
    requires 1 <= n <= 33
    ensures Difference(crc, [T] + POLYNOMIAL, [F] + Fill(false), n) == POLYNOMIAL[n - 1..] + Fill(false)[..n - 1]
  {
    var x, y := [T] + POLYNOMIAL, [F] + Fill(false);
    DifferenceStep(crc, x, y, n - 1);
    if n == 1 {
      assert Difference(crc, x, y, 0) == Fill(false);
      assert ShiftRight(Fill(false)) == Fill(false);
    } else {
      GeneratorDifference(crc, n - 1);
      var d := Difference(crc, x, y, n - 1);
      assert d[0] == POLYNOMIAL[n - 2] == x[n - 1] && !y[n - 1];
      Shifted(d, n);
    }
  }

  lemma Shifted(d: Word, n: nat)
    requires 2 <= n <= 33 && d == POLYNOMIAL[n - 2..] + Fill(false)[..n - 2]
    ensures ShiftRight(d) == POLYNOMIAL[n - 1..] + Fill(false)[..n - 1]
  {
    assert POLYNOMIAL[n - 2..][1..] == POLYNOMIAL[n - 1..];
    assert Fill(false)[..n - 1] == Fill(false)[..n - 2] + [F];
  }

  // ----- The table-driven definition of RFC 1952, section 8

  /** The first k rounds of computing one entry of the table. */
  function TableRounds(c: Word, k: nat): Word {
    if k == 0 then c
    else
      var p := TableRounds(c, k - 1);
      if p[0] then Xor(POLYNOMIAL, ShiftRight(p)) else ShiftRight(p)
  }

  /** The table is indexed by a byte. */
  function TableEntry(index: Byte): Word {
    TableRounds(index + seq(24, i => false), 8)
  }

  /** (c ^ byte) & 0xFF */
  function LowByteXor(c: Word, b: Byte): Byte {
    seq(8, i requires 0 <= i < 8 => c[i] != b[i])
  }

  /** c >> 8 */
  function ShiftByte(c: Word): Word {
    c[8..] + seq(8, i => false)
  }

  function UpdateByTable(c: Word, bytes: seq<Byte>): Word {
    if bytes == [] then c
    else
      var p := UpdateByTable(c, bytes[..|bytes| - 1]);
      Xor(TableEntry(LowByteXor(p, bytes[|bytes| - 1])), ShiftByte(p))
  }

  function TableChecksum(bytes: seq<Byte>): Word {
    Xor(UpdateByTable(Xor(Fill(false), Fill(true)), bytes), Fill(true))
  }

  /** What the register still holds of the byte and of its own upper bits after k bits. */
  function Rest(c: Word, b: Byte, k: nat): Word
    requires k <= 8
  {
    (b + c[8..])[k..] + Fill(false)[..k]
  }

  lemma {:induction false} BitsFollowTable(c: Word, b: Byte, k: nat)
    requires k <= 8
    ensures RunBits(c, b[..k]) == Xor(TableRounds(LowByteXor(c, b) + Fill(false)[..24], k), Rest(c, b, k))
  {
    if k > 0 {
      BitsFollowTable(c, b, k - 1);
      assert b[..k][..k - 1] == b[..k - 1];
      var t := TableRounds(LowByteXor(c, b) + Fill(false)[..24], k - 1);
      assert Rest(c, b, k) == ShiftRight(Rest(c, b, k - 1));
    }
  }

  lemma ByteFollowsTable(c: Word, b: Byte)
    ensures RunBits(c, b) == Xor(TableEntry(LowByteXor(c, b)), ShiftByte(c))
  {
    BitsFollowTable(c, b, 8);
    assert b[..8] == b;
    assert Fill(false)[..24] == seq(24, i => false);
    assert Rest(c, b, 8) == ShiftByte(c);
  }

  lemma {:induction false} RunFollowsTable(c: Word, bytes: seq<Byte>)
    ensures RunBits(c, MessageBits(bytes)) == UpdateByTable(c, bytes)
  {
    if bytes != [] {
      var n := |bytes| - 1;
      RunFollowsTable(c, bytes[..n]);
      RunAppend(c, MessageBits(bytes[..n]), bytes[n]);
      ByteFollowsTable(UpdateByTable(c, bytes[..n]), bytes[n]);
    }
  }

  /** Main result: bit-serial and table-driven CRC agree on every byte string. */
  lemma ChecksumMatchesTable(bytes: seq<Byte>)
    ensures Checksum(bytes) == TableChecksum(bytes)
  {
    RunFollowsTable(Fill(true), bytes);
    assert Xor(Fill(false), Fill(true)) == Fill(true);
  }
}
