// The variable-length integers of the cursor wire format: little-endian groups of seven bits,
// the high bit of a byte saying that another group follows, and zigzag for signed numbers.
module Varint {
  type byte = x: int | 0 <= x < 256

  const TWO_63: int := 0x8000_0000_0000_0000
  const TWO_64: int := 0x1_0000_0000_0000_0000

  type uint64 = x: int | 0 <= x < TWO_64
  type int64 = x: int | -TWO_63 <= x < TWO_63

  const MAX_VARINT_LEN: nat := 10

  /** Why a read from a cursor stopped. `Crash` is a Go panic rather than an error value. */
  datatype ReadError = EndOfStream | UnexpectedEnd | Overflow | ShortRead | MalformedTime | BadBase64 | Crash

  /** A successful read returns its value and the bytes still to be read. */
  datatype Read<+T> = Got(value: T, rest: seq<byte>) | Failed(error: ReadError)

  function PutUvarint(x: nat): seq<byte> {
    if x < 128 then [x] else [x % 128 + 128] + PutUvarint(x / 128)
  }

  /** Reads the byte at position `i` of a number, and all that follow it in the same number. */
  function ReadUvarintFrom(bs: seq<byte>, i: nat): Read<nat>
    decreases |bs|
  {
    if i >= MAX_VARINT_LEN then Failed(Overflow)
    else if bs == [] then Failed(if i > 0 then UnexpectedEnd else EndOfStream)
    else if bs[0] < 128 then
      if i == MAX_VARINT_LEN - 1 && bs[0] > 1 then Failed(Overflow) else Got(bs[0], bs[1..])
    else
      match ReadUvarintFrom(bs[1..], i + 1)
      case Got(high, rest) => Got(bs[0] - 128 + 128 * high, rest)
      case Failed(e) => Failed(e)
  }

  /** The numbers that still fit in 64 bits when `i` groups have already been read. */
  function Room(i: nat): (r: nat)
    requires i < MAX_VARINT_LEN
    ensures r > 0
    decreases MAX_VARINT_LEN - i
  {
    if i == MAX_VARINT_LEN - 1 then 2 else 128 * Room(i + 1)
  }

  lemma RoomIsUint64()
    ensures Room(0) == TWO_64
  {
    assert Room(8) == 256;
    assert Room(6) == 128 * 128 * 256;
    assert Room(4) == 128 * 128 * Room(6);
    assert Room(2) == 128 * 128 * Room(4);
  }

  lemma {:induction false} ReadAfterPut(x: nat, rest: seq<byte>, i: nat)
    requires i < MAX_VARINT_LEN && x < Room(i)
    ensures ReadUvarintFrom(PutUvarint(x) + rest, i) == Got(x, rest)
    ensures 1 <= |PutUvarint(x)| <= MAX_VARINT_LEN - i
    decreases x
  {
    var bs := PutUvarint(x) + rest;
    if x < 128 {
      assert bs[1..] == rest;
    } else {
      ReadAfterPut(x / 128, rest, i + 1);
      assert bs[1..] == PutUvarint(x / 128) + rest;
    }
  }

  function ReadUvarint(bs: seq<byte>): (r: Read<uint64>)
  {
    ReadIsUint64(bs, 0);
    RoomIsUint64();
    match ReadUvarintFrom(bs, 0)
    case Got(v, rest) => Got(v, rest)
    case Failed(e) => Failed(e)
  }

  /** Whatever the bytes are, a number that is read fits in 64 bits, and what is left is a proper suffix. */
  lemma {:induction false} ReadIsUint64(bs: seq<byte>, i: nat)
    requires i < MAX_VARINT_LEN
    ensures var r := ReadUvarintFrom(bs, i);
            r.Got? ==> r.value < Room(i) && |r.rest| < |bs| && r.rest == bs[|bs| - |r.rest|..]
    decreases |bs|
  {
    if bs == [] || bs[0] < 128 || i + 1 == MAX_VARINT_LEN {
    } else {
      ReadIsUint64(bs[1..], i + 1);
    }
  }

  /** Every 64-bit number takes between one and ten bytes, and reading it at the head of any
      stream returns it and leaves exactly the bytes behind it. */
  lemma UvarintRoundTrip(x: uint64, rest: seq<byte>)
    ensures ReadUvarint(PutUvarint(x) + rest) == Got(x, rest)
    ensures 1 <= |PutUvarint(x)| <= MAX_VARINT_LEN
  {
    RoomIsUint64();
    ReadAfterPut(x, rest, 0);
  }

  /** What a failing read has gathered from the groups before the failure, as 64 bits. */
  function PartialUvarint(bs: seq<byte>): uint64 {
    GatheredFrom(bs, 0) % TWO_64
  }

  function GatheredFrom(bs: seq<byte>, i: nat): nat
    decreases |bs|
  {
    if i >= MAX_VARINT_LEN || bs == [] || bs[0] < 128 then 0
    else bs[0] - 128 + 128 * GatheredFrom(bs[1..], i + 1)
  }

  function Power128(m: nat): (r: nat)
    ensures r > 0
  {
    if m == 0 then 1 else 128 * Power128(m - 1)
  }

  lemma LowGroups(x: nat, p: nat)
    requires p > 0
    ensures x % (128 * p) == x % 128 + 128 * (x / 128 % p)
  {
    var q, r := x / 128 / p, x / 128 % p;
    assert x / 128 == p * q + r;
    assert x == (128 * p) * q + (x % 128 + 128 * r);
    Remainder(x, 128 * p, q, x % 128 + 128 * r);
  }

  lemma ModAtMost(x: nat, d: nat)
    requires d > 0
    ensures x % d <= x
  {
    var q := x / d;
    assert x == d * q + x % d;
    assert q >= 0 && d * q >= 0;
  }

  lemma Remainder(x: nat, d: nat, q: nat, r: nat)
    requires x == d * q + r && r < d
    ensures x % d == r
  {
    var k := x / d - q;
    assert d * k == r - x % d;
    assert (k >= 1 ==> d * k >= d) && (k <= -1 ==> d * k + d <= 0);
  }

  lemma SmallIsItself(x: nat)
    requires x < TWO_64
    ensures x % TWO_64 == x
  {
  }

  /** A number cut short ends in an error, and what has been gathered are its low groups. */
  lemma {:induction false} CutShort(x: uint64, m: nat)
    requires m < |PutUvarint(x)|
    ensures ReadUvarint(PutUvarint(x)[..m]) == Failed(if m == 0 then EndOfStream else UnexpectedEnd)
    ensures PartialUvarint(PutUvarint(x)[..m]) == x % Power128(m)
  {
    RoomIsUint64();
    CutShortFrom(x, m, 0);
    ModAtMost(x, Power128(m));
    SmallIsItself(x % Power128(m));
  }

  lemma {:induction false} CutShortFrom(x: nat, m: nat, i: nat)
    requires i < MAX_VARINT_LEN && x < Room(i) && m < |PutUvarint(x)|
    ensures ReadUvarintFrom(PutUvarint(x)[..m], i) == Failed(if i + m == 0 then EndOfStream else UnexpectedEnd)
    ensures GatheredFrom(PutUvarint(x)[..m], i) == x % Power128(m)
    decreases x
  {
    if m == 0 {
      assert PutUvarint(x)[..0] == [];
    } else {
      CutShortFrom(x / 128, m - 1, i + 1);
      assert PutUvarint(x)[..m][1..] == PutUvarint(x / 128)[..m - 1];
      LowGroups(x, Power128(m - 1));
    }
  }

  /** Zigzag: the sign moves to the lowest bit (shift left by one, then complement when negative). */
  function Zigzag(x: int64): uint64 {
    if x < 0 then -2 * x - 1 else 2 * x
  }

  function Unzigzag(u: uint64): int64 {
    if u % 2 == 1 then -1 - u / 2 else u / 2
  }

  function PutVarint(x: int64): seq<byte> {
    PutUvarint(Zigzag(x))
  }

  function ReadVarint(bs: seq<byte>): Read<int64> {
    match ReadUvarint(bs)
    case Got(u, rest) => Got(Unzigzag(u), rest)
    case Failed(e) => Failed(e)
  }

  function PartialVarint(bs: seq<byte>): int64 {
    Unzigzag(PartialUvarint(bs))
  }

  lemma VarintRoundTrip(x: int64, rest: seq<byte>)
    ensures ReadVarint(PutVarint(x) + rest) == Got(x, rest)
    ensures 1 <= |PutVarint(x)| <= MAX_VARINT_LEN
  {
    UvarintRoundTrip(Zigzag(x), rest);
  }

  /** A number of more than ten groups, or of ten with more than one bit in the last, is too long. */
  lemma TooLong(bs: seq<byte>, rest: seq<byte>)
    requires |bs| == 10 && (forall i :: 0 <= i < 9 ==> bs[i] >= 128) && bs[9] > 1
    ensures ReadUvarint(bs + rest) == Failed(Overflow)
  {
    LongFrom(bs + rest, 0);
  }

  lemma {:induction false} LongFrom(bs: seq<byte>, i: nat)
    requires i <= 9 && |bs| >= 10 - i && (forall k :: 0 <= k < 9 - i ==> bs[k] >= 128) && bs[9 - i] > 1
    ensures ReadUvarintFrom(bs, i) == Failed(Overflow)
    decreases 10 - i
  {
    if i == 9 {
    } else {
      LongFrom(bs[1..], i + 1);
    }
  }

  /** The groups of a number, lowest first, are its digits to base 128, each but the last marked by its high bit. */
  lemma {:induction false} Groups(x: nat, i: nat)
    requires i < |PutUvarint(x)|
    ensures PutUvarint(x)[i] % 128 == x / Power128(i) % 128
    ensures PutUvarint(x)[i] >= 128 <==> i < |PutUvarint(x)| - 1
    decreases x
  {
    if i == 0 {
    } else {
      Groups(x / 128, i - 1);
      DivideTwice(x, Power128(i - 1));
    }
  }

  lemma DivideTwice(x: nat, p: nat)
    requires p > 0
    ensures x / (128 * p) == x / 128 / p
  {
    var q, r := x / 128 / p, x / 128 % p;
    assert x / 128 == p * q + r;
    assert x == (128 * p) * q + (x % 128 + 128 * r);
    Quotient(x, 128 * p, q, x % 128 + 128 * r);
  }

  lemma Quotient(x: nat, d: nat, q: nat, r: nat)
    requires x == d * q + r && r < d
    ensures x / d == q
  {
    Remainder(x, d, q, r);
    var k := x / d - q;
    assert d * k == 0;
    assert k != 0 ==> d * k != 0;
  }

  /** Non-negative numbers get the even codes and negative numbers the odd ones, in order of magnitude. */
  lemma ZigzagOrder(x: int64)
    ensures x >= 0 ==> Zigzag(x) == x + x
    ensures x < 0 ==> Zigzag(x) + 1 == (0 - x) + (0 - x)
  {
  }

  /** Zigzag is a bijection, so no unsigned number read back is without a signed meaning. */
  lemma ZigzagIsBijective(x: int64, u: uint64)
    ensures Unzigzag(Zigzag(x)) == x && Zigzag(Unzigzag(u)) == u
  {
  }
}
