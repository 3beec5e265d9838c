/** Bytes, fixed-width unsigned integers, network byte order and concatenation. */
module Bytes {

  type byte = b: int | 0 <= b < 256
  type u16 = n: int | 0 <= n < TWO_16
  type u32 = n: int | 0 <= n < TWO_32

  const TWO_16: int := 0x1_0000
  const TWO_32: int := 0x1_0000_0000

  datatype Option<+T> = None | Some(value: T)

  /** 32-bit addition, which wraps around as it does on the source's `uint32_t`. */
  function Add32(a: u32, b: u32): u32 {
    (a + b) % TWO_32
  }

  lemma AddWraps(a: u32, b: u32)
    ensures Add32(a, b) == if a + b < TWO_32 then a + b else a + b - TWO_32
  {
  }

  /** `htonl` followed by a copy to memory: the most significant byte first. */
  function Be32(n: u32): (s: seq<byte>)
    ensures |s| == 4
  {
    var high, low := n / TWO_16, n % TWO_16;
    [high / 0x100, high % 0x100, low / 0x100, low % 0x100]
  }

  /** A copy from memory followed by `ntohl`. */
  function FromBe32(s: seq<byte>): u32
    requires |s| == 4
  {
    var high: u16 := 0x100 * (s[0] as int) + s[1];
    var low: u16 := 0x100 * (s[2] as int) + s[3];
    high * TWO_16 + low
  }

  lemma FromBe32Inverts(n: u32)
    ensures FromBe32(Be32(n)) == n
  {
  }

  /** The pieces one after another: what a file holds after they are written in this order. */
  function Flatten(pieces: seq<seq<byte>>): seq<byte> {
    if pieces == [] then [] else Flatten(pieces[..|pieces| - 1]) + pieces[|pieces| - 1]
  }

  lemma FlattenSnoc(pieces: seq<seq<byte>>, last: seq<byte>)
    ensures Flatten(pieces + [last]) == Flatten(pieces) + last
  {
    assert (pieces + [last])[..|pieces|] == pieces;
  }

  lemma {:induction false} FlattenConcat(a: seq<seq<byte>>, b: seq<seq<byte>>)
    ensures Flatten(a + b) == Flatten(a) + Flatten(b)
    decreases |b|
  {
    if b == [] {
      assert a + b == a;
    } else {
      var init, last := b[..|b| - 1], b[|b| - 1];
      FlattenConcat(a, init);
      assert a + b == (a + init) + [last];
      FlattenSnoc(a + init, last);
      assert Flatten(a) + Flatten(init) + last == Flatten(a) + (Flatten(init) + last);
    }
  }

  lemma FlattenCons(first: seq<byte>, pieces: seq<seq<byte>>)
    ensures Flatten([first] + pieces) == first + Flatten(pieces)
  {
    FlattenConcat([first], pieces);
    FlattenSnoc([], first);
    assert [] + [first] == [first];
  }

  /** Whole files split anywhere: the leading pieces are a prefix of the file. */
  lemma {:induction false} FlattenPrefix(pieces: seq<seq<byte>>, n: nat)
    requires n <= |pieces|
    ensures Flatten(pieces[..n]) <= Flatten(pieces)
    decreases |pieces|
  {
    if n < |pieces| {
      var rest := pieces[..|pieces| - 1];
      assert rest[..n] == pieces[..n];
      FlattenPrefix(rest, n);
    } else {
      assert pieces[..n] == pieces;
    }
  }

  lemma MoveFirst<T>(a: seq<T>, b: seq<T>)
    requires b != []
    ensures a + [b[0]] + b[1..] == a + b
  {
    assert [b[0]] + b[1..] == b;
  }
}
