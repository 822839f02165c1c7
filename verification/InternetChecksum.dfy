/** The checksum of igmp.cpp: native 16-bit words are added into a wide sum, which is folded twice.

    RFC 1071 defines the checksum by one's complement addition.  The two definitions are compared
    for either byte order of the machine.
  */
module InternetChecksum {

  type byte = x: int | 0 <= x < 0x100
  type word = x: int | 0 <= x < 0x1_0000

  /** The largest buffer for which two folds are enough, whatever it contains. */
  const MAX_BYTES := 131076

  /** The 16-bit word a machine reads from two bytes in memory. */
  function WordOf(first: byte, second: byte, bigEndian: bool): word {
    if bigEndian then 256 * first + second else first + 256 * second
  }

  /** The bytes a machine stores for a 16-bit word. */
  function BytesOf(w: word, bigEndian: bool): (byte, byte) {
    if bigEndian then (w / 256, w % 256) else (w % 256, w / 256)
  }

  /** The sum of the words of a buffer; an odd last byte is padded with zero. */
  function Sum(data: seq<byte>, bigEndian: bool): nat {
    if |data| == 0 then 0
    else if |data| == 1 then WordOf(data[0], 0, bigEndian)
    else WordOf(data[0], data[1], bigEndian) + Sum(data[2..], bigEndian)
  }

  /** Adding the part above 16 bits to the part below. */
  function FoldOnce(sum: nat): nat {
    sum / 0x1_0000 + sum % 0x1_0000
  }

  /** The checksum as computed: the second fold adds the carry without masking it off first. */
  function ChecksumOf(data: seq<byte>, bigEndian: bool): word {
    var s := FoldOnce(Sum(data, bigEndian));
    0xFFFF - (s + s / 0x1_0000) % 0x1_0000
  }

  method Csum(data: seq<byte>, bigEndian: bool) returns (answer: word)
    ensures answer == ChecksumOf(data, bigEndian)
  {
    var sum: nat := 0;
    var ptr := 0;
    var nbytes := |data|;
    while nbytes > 1
      invariant 0 <= nbytes && ptr + nbytes == |data|
      invariant sum + Sum(data[ptr..], bigEndian) == Sum(data, bigEndian)
    {
      sum := sum + WordOf(data[ptr], data[ptr + 1], bigEndian);
      assert data[ptr..][2..] == data[ptr + 2..];
      ptr := ptr + 2;
      nbytes := nbytes - 2;
    }
    if nbytes == 1 {
      sum := sum + WordOf(data[ptr], 0, bigEndian);
    }
    assert sum == Sum(data, bigEndian);
    sum := sum / 0x1_0000 + sum % 0x1_0000;
    assert sum == FoldOnce(Sum(data, bigEndian));
    sum := sum + sum / 0x1_0000;
    answer := 0xFFFF - sum % 0x1_0000;
  }

  // ----- RFC 1071, section 1

  /** One's complement addition of 16-bit words: the carry is added back in. */
  function OnesAdd(x: word, y: word): word {
    if x + y > 0xFFFF then x + y - 0xFFFF else x + y
  }

  function OnesSum(data: seq<byte>, bigEndian: bool): word {
    if |data| == 0 then 0
    else if |data| == 1 then WordOf(data[0], 0, bigEndian)
    else OnesAdd(WordOf(data[0], data[1], bigEndian), OnesSum(data[2..], bigEndian))
  }

  /** r is what s comes to in one's complement arithmetic: congruent modulo 65535, with 65535
      rather than 0 standing for the non-zero multiples. */
  ghost predicate Represents(r: int, s: nat, k: int) {
    0 <= r <= 0xFFFF && s == r + 0xFFFF * k && (r == 0 <==> s == 0)
  }

  lemma RepresentativeUnique(q: int, r: int, s: nat, j: int, k: int)
    requires Represents(q, s, j) && Represents(r, s, k)
    ensures q == r
  {
    assert q - r == 0xFFFF * (k - j);
  }

  lemma {:induction false} OnesSumRepresents(data: seq<byte>, bigEndian: bool) returns (k: nat)
    ensures Represents(OnesSum(data, bigEndian), Sum(data, bigEndian), k)
  {
    if |data| <= 1 {
      k := 0;
    } else {
      var j := OnesSumRepresents(data[2..], bigEndian);
      k := if WordOf(data[0], data[1], bigEndian) + OnesSum(data[2..], bigEndian) > 0xFFFF then j + 1 else j;
    }
  }

  /** The second fold is complete unless adding the carry overflows again. */
  predicate TwoFoldsSuffice(sum: nat) {
    FoldOnce(sum) % 0x1_0000 + FoldOnce(sum) / 0x1_0000 < 0x1_0000
  }

  /** For every buffer whose size fits an int, the computed checksum is that of RFC 1071 exactly
      when the second fold does not overflow. */
  lemma ChecksumMeetsRfcIff(data: seq<byte>, bigEndian: bool)
    requires |data| < 0x8000_0000
    ensures ChecksumOf(data, bigEndian) == 0xFFFF - OnesSum(data, bigEndian) <==> TwoFoldsSuffice(Sum(data, bigEndian))
  {
    var sum := Sum(data, bigEndian);
    SumBound(data, bigEndian);
    var k := OnesSumRepresents(data, bigEndian);
    FoldedIff(sum, OnesSum(data, bigEndian), k);
  }

  lemma FoldedIff(sum: nat, ones: word, k: int)
    requires sum <= 0xFFFF * 0x4000_0000 && Represents(ones, sum, k)
    ensures (FoldOnce(sum) + FoldOnce(sum) / 0x1_0000) % 0x1_0000 == ones <==> TwoFoldsSuffice(sum)
  {
    var folded, j := TwoFolds(sum);
    RepresentativeUnique(if TwoFoldsSuffice(sum) then folded else folded + 1, ones, sum, j, k);
  }

  /** Two folds give the representative, or one less than it when the second fold overflows. */
  lemma TwoFolds(sum: nat) returns (folded: word, k: int)
    requires sum <= 0xFFFF * 0x4000_0000
    ensures folded == (FoldOnce(sum) + FoldOnce(sum) / 0x1_0000) % 0x1_0000
    ensures Represents(if TwoFoldsSuffice(sum) then folded else folded + 1, sum, k)
  {
    var h, l := sum / 0x1_0000, sum % 0x1_0000;
    var s := h + l;
    var q, r := s / 0x1_0000, s % 0x1_0000;
    assert s + q == 0x1_0000 * q + (r + q);
    assert q <= 0x4001;
    if r + q <= 0xFFFF {
      SmallRemainder(s + q, q, r + q);
      folded, k := r + q, h + q;
    } else {
      SmallRemainder(s + q, q + 1, r + q - 0x1_0000);
      folded, k := r + q - 0x1_0000, h + q + 1;
    }
  }

  lemma SmallRemainder(n: nat, q: nat, r: word)
    requires n == 0x1_0000 * q + r
    ensures n % 0x1_0000 == r
  {
  }

  lemma {:induction false} SumBound(data: seq<byte>, bigEndian: bool)
    ensures Sum(data, bigEndian) <= 0xFFFF * ((|data| + 1) / 2)
  {
    if |data| > 1 {
      SumBound(data[2..], bigEndian);
      var first: word, n := WordOf(data[0], data[1], bigEndian), (|data[2..]| + 1) / 2;
      assert (|data| + 1) / 2 == n + 1;
      assert Sum(data, bigEndian) == first + Sum(data[2..], bigEndian) <= 0xFFFF + 0xFFFF * n;
    }
  }

  /** A size a caller can check beforehand, far above the 28 bytes of an IGMP datagram. */
  lemma ChecksumMeetsRfc(data: seq<byte>, bigEndian: bool)
    requires |data| <= MAX_BYTES
    ensures ChecksumOf(data, bigEndian) == 0xFFFF - OnesSum(data, bigEndian)
  {
    SumBound(data, bigEndian);
    var sum := Sum(data, bigEndian);
    assert sum <= 65538 * 0xFFFF;
    assert FoldOnce(sum) <= 0x1_FFFE;
    ChecksumMeetsRfcIff(data, bigEndian);
  }

  lemma {:induction false} SumOfOnes(n: nat, bigEndian: bool)
    ensures Sum(seq(2 * n, i => 0xFF), bigEndian) == 0xFFFF * n
  {
    if n > 0 {
      assert seq<byte>(2 * n, i => 0xFF)[2..] == seq<byte>(2 * n - 2, i => 0xFF);
      SumOfOnes(n - 1, bigEndian);
    }
  }

  lemma {:induction false} SumOfZeros(n: nat, bigEndian: bool)
    ensures Sum(seq(n, i => 0), bigEndian) == 0
  {
    if n > 1 {
      assert seq<byte>(n, i => 0)[2..] == seq<byte>(n - 2, i => 0);
      SumOfZeros(n - 2, bigEndian);
    }
  }

  lemma {:induction false} SumConcat(a: seq<byte>, b: seq<byte>, bigEndian: bool)
    requires |a| % 2 == 0
    ensures Sum(a + b, bigEndian) == Sum(a, bigEndian) + Sum(b, bigEndian)
  {
    if a == [] {
      assert a + b == b;
    } else {
      assert (a + b)[2..] == a[2..] + b;
      SumConcat(a[2..], b, bigEndian);
    }
  }

  /** One byte more than MAX_BYTES is too much: every larger size has a buffer with a wrong checksum.
      Its words add up to 0x1_0000_FFFF: words 0xFFFF, a byte 1, and zeros. */
  lemma LargerBuffersFail(n: nat, bigEndian: bool) returns (data: seq<byte>)
    requires MAX_BYTES < n < 0x8000_0000
    ensures |data| == n && ChecksumOf(data, bigEndian) != 0xFFFF - OnesSum(data, bigEndian)
  {
    var first: seq<byte> := if bigEndian then [0xFF, 0] else [0xFF, 0xFF];
    var ones: seq<byte>, zeros: seq<byte> := seq(131074, i => 0xFF), seq(n - 131077, i => 0);
    data := first + (ones + ([1] + zeros));
    SumOfOnes(65537, bigEndian);
    ByteAndZeros(n - 131077, bigEndian);
    SumConcat(ones, [1] + zeros, bigEndian);
    SumConcat(first, ones + ([1] + zeros), bigEndian);
    assert first[2..] == [];
    assert Sum(data, bigEndian) == 4295032831;
    ChecksumMeetsRfcIff(data, bigEndian);
  }

  lemma ByteAndZeros(n: nat, bigEndian: bool)
    ensures Sum([1] + seq(n, i => 0), bigEndian) == WordOf(1, 0, bigEndian)
  {
    var data: seq<byte> := [1] + seq(n, i => 0);
    if n > 0 {
      assert data[2..] == seq<byte>(n - 1, i => 0);
      SumOfZeros(n - 1, bigEndian);
    }
  }

  // ----- What the checksum is for

  lemma {:induction false} SumWithField(data: seq<byte>, at: nat, w: word, bigEndian: bool)
    requires at % 2 == 0 && at + 1 < |data| && data[at] == 0 && data[at + 1] == 0
    ensures var (a, b) := BytesOf(w, bigEndian);
            Sum(data[at := a][at + 1 := b], bigEndian) == Sum(data, bigEndian) + w
  {
    var (a, b) := BytesOf(w, bigEndian);
    var stored := data[at := a][at + 1 := b];
    if at == 0 {
      assert stored[2..] == data[2..];
    } else {
      SumWithField(data[2..], at - 2, w, bigEndian);
      assert stored[2..] == data[2..][at - 2 := a][at - 1 := b];
    }
  }

  /** Main result: storing the checksum into the field that was zero while it was computed makes
      the checksum of the whole buffer zero. */
  lemma SealedBufferChecksToZero(data: seq<byte>, at: nat, bigEndian: bool)
    requires |data| <= MAX_BYTES
    requires at % 2 == 0 && at + 1 < |data| && data[at] == 0 && data[at + 1] == 0
    ensures var (a, b) := BytesOf(ChecksumOf(data, bigEndian), bigEndian);
            ChecksumOf(data[at := a][at + 1 := b], bigEndian) == 0
  {
    var c := ChecksumOf(data, bigEndian);
    var (a, b) := BytesOf(c, bigEndian);
    var stored := data[at := a][at + 1 := b];
    ChecksumMeetsRfc(data, bigEndian);
    ChecksumMeetsRfc(stored, bigEndian);
    SumWithField(data, at, c, bigEndian);
    var k := OnesSumRepresents(data, bigEndian);
    var j := OnesSumRepresents(stored, bigEndian);
    assert Represents(0xFFFF, Sum(stored, bigEndian), k);
    RepresentativeUnique(0xFFFF, OnesSum(stored, bigEndian), Sum(stored, bigEndian), k, j);
  }

  // ----- Byte order

  function Swap(w: word): word {
    w % 256 * 256 + w / 256
  }

  lemma {:induction false} SumsOfBothOrders(data: seq<byte>) returns (k: nat)
    ensures 256 * Sum(data, false) == Sum(data, true) + 0xFFFF * k
    ensures Sum(data, false) == 0 <==> Sum(data, true) == 0
  {
    if |data| == 0 {
      k := 0;
    } else if |data| == 1 {
      k := 0;
    } else {
      var j := SumsOfBothOrders(data[2..]);
      k := j + data[1];
    }
  }

  /** The bytes stored do not depend on the byte order of the machine, although the code reads,
      adds and stores native words. */
  lemma ByteOrderIsIrrelevant(data: seq<byte>)
    requires |data| <= MAX_BYTES
    ensures BytesOf(ChecksumOf(data, true), true) == BytesOf(ChecksumOf(data, false), false)
  {
    ChecksumMeetsRfc(data, true);
    ChecksumMeetsRfc(data, false);
    var big, little := OnesSum(data, true), OnesSum(data, false);
    var k := SumsOfBothOrders(data);
    var i := OnesSumRepresents(data, true);
    var j := OnesSumRepresents(data, false);
    Swapped(big, little, Sum(data, true), Sum(data, false), i, j, k);
    SwapOfComplement(little);
  }

  lemma Swapped(big: word, little: word, sumBig: nat, sumLittle: nat, i: int, j: int, k: int)
    requires Represents(big, sumBig, i) && Represents(little, sumLittle, j)
    requires 256 * sumLittle == sumBig + 0xFFFF * k && (sumLittle == 0 <==> sumBig == 0)
    ensures big == Swap(little)
  {
    SwapRepresents(little, sumLittle, sumBig, j, k);
    RepresentativeUnique(Swap(little), big, sumBig, little / 256 + 256 * j - k, i);
  }

  lemma SwapRepresents(w: word, little: nat, big: nat, j: int, k: int)
    requires Represents(w, little, j)
    requires 256 * little == big + 0xFFFF * k && (little == 0 <==> big == 0)
    ensures Represents(Swap(w), big, w / 256 + 256 * j - k)
  {
    assert Swap(w) == 256 * w - 0xFFFF * (w / 256);
  }

  lemma SwapOfComplement(w: word)
    ensures BytesOf(0xFFFF - Swap(w), true) == BytesOf(0xFFFF - w, false)
  {
    var h, l := w / 256, w % 256;
    assert 0xFFFF - w == 256 * (255 - h) + (255 - l);
    assert 0xFFFF - Swap(w) == 256 * (255 - l) + (255 - h);
  }

  // ----- Use in a datagram

  /** Computes the checksum of one header with its checksum field cleared and stores it there. */
  method Seal(datagram: array<byte>, base: nat, size: nat, at: nat, bigEndian: bool)
    requires base + size <= datagram.Length && size <= MAX_BYTES
    requires at % 2 == 0 && at + 1 < size
    modifies datagram
    ensures ChecksumOf(datagram[base..base + size], bigEndian) == 0
    ensures forall i :: 0 <= i < datagram.Length && i != base + at && i != base + at + 1
                    ==> datagram[i] == old(datagram[i])
  {
    datagram[base + at] := 0;
    datagram[base + at + 1] := 0;
    ghost var cleared: seq<byte> := datagram[base..base + size];
    var c := Csum(datagram[base..base + size], bigEndian);
    var (a, b) := BytesOf(c, bigEndian);
    datagram[base + at] := a;
    datagram[base + at + 1] := b;
    SealedBufferChecksToZero(cleared, at, bigEndian);
    assert datagram[base..base + size] == cleared[at := a][at + 1 := b];
  }

  /** An IP header of 20 bytes followed by an IGMP header of 8 bytes, each with its own checksum. */
  method SealIgmp(datagram: array<byte>, bigEndian: bool)
    requires datagram.Length >= 28
    modifies datagram
    ensures ChecksumOf(datagram[0..20], bigEndian) == 0
    ensures ChecksumOf(datagram[20..28], bigEndian) == 0
    ensures forall i :: 0 <= i < datagram.Length && i !in {10, 11, 22, 23} ==> datagram[i] == old(datagram[i])
  {
    Seal(datagram, 0, 20, 10, bigEndian);
    ghost var header := datagram[0..20];
    Seal(datagram, 20, 8, 2, bigEndian);
    assert datagram[0..20] == header;
  }
}
