/**
 The Internet checksum of `checksum.c`, proved against the one's complement sum of
 section 1 of RFC 1071. The machine's byte order is a parameter, since the routine
 reads its input as host-order 16-bit words.
 */
module Checksum {
  import opened Bytes

  datatype Host = LittleEndian | BigEndian

  newtype int32 = n: int | -0x8000_0000 <= n < 0x8000_0000

  /** The 16-bit word a host reads from two adjacent bytes. */
  function Word(host: Host, first: byte, second: byte): u16 {
    match host
    case LittleEndian => first + 0x100 * second
    case BigEndian => 0x100 * first + second
  }

  /** The plain integer sum of the words of `s`; an odd last byte is padded with zero. */
  function WordSum(host: Host, s: seq<byte>): nat {
    if |s| == 0 then 0
    else if |s| == 1 then Word(host, s[0], 0)
    else Word(host, s[0], s[1]) + WordSum(host, s[2..])
  }

  /** One's complement addition: a carry out of bit 15 is added back at bit 0. */
  function OnesAdd(a: u16, b: u16): u16 {
    if a + b < TWO_16 then a + b else a + b - TWO_16 + 1
  }

  /** The 16-bit one's complement sum of the words of `s`, as RFC 1071 defines it. */
  function OnesSum(host: Host, s: seq<byte>): u16 {
    if |s| == 0 then 0
    else if |s| == 1 then Word(host, s[0], 0)
    else OnesAdd(Word(host, s[0], s[1]), OnesSum(host, s[2..]))
  }

  /** The checksum: the one's complement of the one's complement sum. */
  function Cksum(host: Host, s: seq<byte>): u16 {
    0xffff - OnesSum(host, s)
  }

  // ----- what the one's complement sum is, in ordinary arithmetic

  /** Congruent modulo 65535, and zero for the same sums. */
  predicate Folds(sum: nat, folded: u16) {
    (sum - folded) % 0xffff == 0 && (folded == 0 <==> sum == 0)
  }

  lemma FoldsUniquely(sum: nat, a: u16, b: u16)
    requires Folds(sum, a) && Folds(sum, b)
    ensures a == b
  {
    var p, q := (sum - a) / 0xffff, (sum - b) / 0xffff;
    assert b - a == 0xffff * (p - q);
  }

  lemma {:induction false} OnesSumFolds(host: Host, s: seq<byte>)
    ensures Folds(WordSum(host, s), OnesSum(host, s))
  {
    if |s| > 1 {
      OnesSumFolds(host, s[2..]);
    }
  }

  /** What a receiver tests: the sum of the words is a positive multiple of 65535. */
  lemma ZeroChecksum(host: Host, s: seq<byte>)
    ensures Cksum(host, s) == 0 <==> WordSum(host, s) > 0 && WordSum(host, s) % 0xffff == 0
  {
    OnesSumFolds(host, s);
    TopIsMultiple(WordSum(host, s), OnesSum(host, s));
  }

  lemma TopIsMultiple(sum: nat, folded: u16)
    requires Folds(sum, folded)
    ensures folded == 0xffff <==> sum > 0 && sum % 0xffff == 0
  {
    assert sum == 0xffff * ((sum - folded) / 0xffff) + folded;
  }

  /** Adding the high half to the low half twice leaves the folded sum in the low half. */
  lemma TwoFoldsSuffice(sum: nat)
    requires sum < 0x8000_0000
    ensures var once := sum / TWO_16 + sum % TWO_16;
            var twice := once + once / TWO_16;
            Folds(sum, twice % TWO_16)
  {
    var once := sum / TWO_16 + sum % TWO_16;
    var twice := once + once / TWO_16;
    assert sum - once == 0xffff * (sum / TWO_16);
    if once < TWO_16 {
      assert twice % TWO_16 == once;
    } else {
      assert once < 2 * TWO_16 && once / TWO_16 == 1;
      assert twice % TWO_16 == once - 0xffff;
      assert sum - twice % TWO_16 == 0xffff * (sum / TWO_16 + 1);
    }
  }

  lemma FoldingYieldsOnesSum(host: Host, s: seq<byte>)
    requires WordSum(host, s) < 0x8000_0000
    ensures var once := WordSum(host, s) / TWO_16 + WordSum(host, s) % TWO_16;
            (once + once / TWO_16) % TWO_16 == OnesSum(host, s)
  {
    var sum := WordSum(host, s);
    var once := sum / TWO_16 + sum % TWO_16;
    TwoFoldsSuffice(sum);
    OnesSumFolds(host, s);
    FoldsUniquely(sum, (once + once / TWO_16) % TWO_16, OnesSum(host, s));
  }

  lemma WordSumStep(host: Host, s: seq<byte>, w: nat)
    requires w + 1 < |s|
    ensures WordSum(host, s[w..]) == Word(host, s[w], s[w + 1]) + WordSum(host, s[w + 2..])
  {
    assert s[w..][2..] == s[w + 2..];
  }

  lemma WordSumEnd(host: Host, s: seq<byte>)
    requires |s| <= 1
    ensures WordSum(host, s) == if s == [] then 0 else Word(host, s[0], 0)
  {
  }

  /**
   `in_cksum`. The accumulator is a signed 32-bit integer, so verifying the additions
   shows that it never overflows, and two folds are enough to reach the one's
   complement sum.
   */
  method InCksum(host: Host, addr: array<byte>, len: nat) returns (answer: u16)
    requires len <= addr.Length && len <= TWO_16
    ensures answer == Cksum(host, addr[..len])
  {
    hide OnesSum, Word, WordSum;
    ghost var bytes := addr[..len];
    var sum: int32 := 0;
    var w: nat, nleft := 0, len;
    assert bytes[0..] == bytes;
    while nleft > 1
      invariant w + nleft == len
      invariant 0 <= 2 * (sum as int) <= 0xffff * w
      invariant sum as int + WordSum(host, bytes[w..]) == WordSum(host, bytes)
    {
      WordSumStep(host, bytes, w);
      sum := sum + Word(host, addr[w], addr[w + 1]) as int32;
      w := w + 2;
      nleft := nleft - 2;
    }
    WordSumEnd(host, bytes[w..]);
    if nleft == 1 {
      sum := sum + Word(host, addr[w], 0) as int32;
    }
    assert sum as int == WordSum(host, bytes);
    FoldingYieldsOnesSum(host, bytes);
    answer := Folded(sum);
  }

  /** The end of `in_cksum`: the two folds and the complement. */
  method Folded(total: int32) returns (answer: u16)
    requires total >= 0
    ensures var once := total as int / TWO_16 + total as int % TWO_16;
            answer == 0xffff - (once + once / TWO_16) % TWO_16
  {
    var sum := total / 0x1_0000 + total % 0x1_0000;
    sum := sum + sum / 0x1_0000;
    answer := 0xffff - (sum as int) % TWO_16;
  }

  // ----- a single damaged byte

  lemma {:induction false} WordSumOfUpdate(host: Host, s: seq<byte>, i: nat, b: byte)
    requires i < |s|
    ensures var d := WordSum(host, s[i := b]) - WordSum(host, s);
            d == b - s[i] || d == 0x100 * (b - s[i])
  {
    if i > 1 {
      assert s[i := b][2..] == s[2..][i - 2 := b];
      WordSumOfUpdate(host, s[2..], i - 2, b);
    } else if |s| > 1 {
      assert s[i := b][2..] == s[2..];
    }
  }

  lemma NearMultiple(m: nat, n: nat)
    requires m % 0xffff == 0 && m != n && -0xffff < n - m < 0xffff
    ensures n % 0xffff != 0
  {
    assert n - m == 0xffff * (n / 0xffff - m / 0xffff) + n % 0xffff;
  }

  /**
   No single-byte change goes unnoticed, wherever the byte stands: it moves the word
   sum by a nonzero amount that is too small to be a multiple of 65535.
   */
  lemma SingleByteChangeCaught(host: Host, s: seq<byte>, i: nat, b: byte)
    requires i < |s| && b != s[i]
    requires Cksum(host, s) == 0
    ensures Cksum(host, s[i := b]) != 0
  {
    ZeroChecksum(host, s);
    ZeroChecksum(host, s[i := b]);
    WordSumOfUpdate(host, s, i, b);
    NearMultiple(WordSum(host, s), WordSum(host, s[i := b]));
  }

  // ----- byte order (RFC 1071, section 2(B))

  function Swap16(n: u16): u16 {
    n % 0x100 * 0x100 + n / 0x100
  }

  lemma {:induction false} WordSumsOfBothOrders(s: seq<byte>)
    ensures (0x100 * WordSum(LittleEndian, s) - WordSum(BigEndian, s)) % 0xffff == 0
    ensures WordSum(LittleEndian, s) == 0 <==> WordSum(BigEndian, s) == 0
  {
    if |s| > 1 {
      WordSumsOfBothOrders(s[2..]);
      var q := (0x100 * WordSum(LittleEndian, s[2..]) - WordSum(BigEndian, s[2..])) / 0xffff;
      IsMultiple(0x100 * WordSum(LittleEndian, s) - WordSum(BigEndian, s), q + s[1]);
    }
  }

  lemma SwapFolds(n: u16)
    ensures (0x100 * n - Swap16(n)) % 0xffff == 0
    ensures Swap16(n) == 0 <==> n == 0
    ensures Swap16(0xffff - n) == 0xffff - Swap16(n)
  {
    var high, low := n / 0x100, n % 0x100;
    Halves(n, high, low);
    Halves(0xffff - n, 0xff - high, 0xff - low);
    IsMultiple(0x100 * n - Swap16(n), high);
  }

  lemma Halves(n: nat, high: nat, low: nat)
    requires n == 0x100 * high + low && low < 0x100
    ensures n / 0x100 == high && n % 0x100 == low
  {
  }

  lemma IsMultiple(n: int, q: int)
    requires n == 0xffff * q
    ensures n % 0xffff == 0
  {
  }

  lemma CongruenceChain(sum: nat, swappedSum: nat, folded: nat, swapped: nat)
    requires (sum - folded) % 0xffff == 0
    requires (0x100 * sum - swappedSum) % 0xffff == 0
    requires (0x100 * folded - swapped) % 0xffff == 0
    ensures (swappedSum - swapped) % 0xffff == 0
  {
    var j, k := (sum - folded) / 0xffff, (0x100 * sum - swappedSum) / 0xffff;
    var m := (0x100 * folded - swapped) / 0xffff;
    assert sum - folded == 0xffff * j;
    assert 0x100 * sum - swappedSum == 0xffff * k;
    assert 0x100 * folded - swapped == 0xffff * m;
    IsMultiple(swappedSum - swapped, 0x100 * j - k + m);
  }

  /** Summing with the other byte order yields the same checksum with its bytes swapped. */
  lemma ByteOrderIndependence(s: seq<byte>)
    ensures Cksum(BigEndian, s) == Swap16(Cksum(LittleEndian, s))
  {
    var little, big := OnesSum(LittleEndian, s), OnesSum(BigEndian, s);
    OnesSumFolds(LittleEndian, s);
    OnesSumFolds(BigEndian, s);
    WordSumsOfBothOrders(s);
    SwapFolds(little);
    CongruenceChain(WordSum(LittleEndian, s), WordSum(BigEndian, s), little, Swap16(little));
    FoldsUniquely(WordSum(BigEndian, s), Swap16(little), big);
  }

  // ----- sums of concatenations

  lemma {:induction false} WordSumConcat(host: Host, a: seq<byte>, b: seq<byte>)
    requires |a| % 2 == 0
    ensures WordSum(host, a + b) == WordSum(host, a) + WordSum(host, b)
  {
    if a == [] {
      assert a + b == b;
    } else {
      assert (a + b)[2..] == a[2..] + b;
      WordSumConcat(host, a[2..], b);
    }
  }
}
