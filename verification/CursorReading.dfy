// Reading cursor strings that need not come from packing: empty, malformed, cut short or followed by more.
module CursorReading {
  import opened Wrappers
  import opened Varint
  import opened CursorFormat
  import opened CursorRoundTrip
  import Base64

  /** The bytes of a cursor with one field of each kind but time: numbers take one or two bytes here, strings and
      ids carry their length, and lists their number of ids, zigzagged. */
  lemma SampleBytes()
    ensures EncodeField(Bool(true)) == Some([1]) && EncodeField(Bool(false)) == Some([0])
    ensures EncodeField(Int(-3)) == Some([5]) && EncodeField(Int(3)) == Some([6])
    ensures EncodeField(Float(300)) == Some([172, 2])
    ensures EncodeField(Str([97, 98])) == Some([2, 97, 98])
    ensures EncodeField(IDs([[99], [100]])) == Some([4, 1, 99, 1, 100])
  {
    assert PutUvarint(300) == [172] + PutUvarint(2) == [172, 2];
    assert EncodeText([97, 98]) == [2] + [97, 98] == [2, 97, 98];
    assert EncodeText([99]) == [1] + [99] == [1, 99] && EncodeText([100]) == [1] + [100] == [1, 100];
    assert [[99], [100]][1..] == [[100]] && [[100]][1..] == [];
    assert EncodeTexts([[100]]) == [1, 100] + [] == [1, 100];
    assert EncodeTexts([[99], [100]]) == [1, 99] + [1, 100] == [1, 99, 1, 100];
    assert PutVarint(2) == [4] && [4] + [1, 99, 1, 100] == [4, 1, 99, 1, 100];
  }

  /** The empty string leaves a cursor as it is, and so does a string that is not base64. */
  lemma NothingToRead(fs: seq<Field>, s: string)
    ensures UnpackString(fs, "") == (fs, None)
    ensures s != "" && Base64.Decode(s).None? ==> UnpackString(fs, s) == (fs, Some(BadBase64))
  {
  }

  /** Whether a string can be unpacked, and into what, does not depend on what the cursor held before. */
  lemma {:induction false} UnpackIndependent(into: seq<Field>, other: seq<Field>, bs: seq<byte>)
    requires Kinds(into) == Kinds(other)
    ensures UnpackFields(into, bs).1 == UnpackFields(other, bs).1
    ensures UnpackFields(into, bs).1 == None ==> UnpackFields(into, bs).0 == UnpackFields(other, bs).0
    decreases |into|
  {
    if into == [] {
      assert other == [];
    } else {
      assert other != [];
      SameKinds(into, other);
      match DecodeField(KindOf(into[0]), bs)
      case Failed(e) =>
      case Got(f, rest) => UnpackIndependent(into[1..], other[1..], rest);
    }
  }

  // ---- further bytes ----

  lemma {:induction false} MoreAfterNumber(bs: seq<byte>, x: seq<byte>, i: nat)
    requires ReadUvarintFrom(bs, i).Got?
    ensures ReadUvarintFrom(bs + x, i) == Got(ReadUvarintFrom(bs, i).value, ReadUvarintFrom(bs, i).rest + x)
    decreases |bs|
  {
    if bs[0] < 128 {
      assert (bs + x)[1..] == bs[1..] + x;
    } else {
      assert (bs + x)[1..] == bs[1..] + x;
      MoreAfterNumber(bs[1..], x, i + 1);
    }
  }

  lemma MoreAfterBytes(bs: seq<byte>, x: seq<byte>, n: nat)
    requires ReadBytes(bs, n).Got?
    ensures ReadBytes(bs + x, n) == Got(ReadBytes(bs, n).value, ReadBytes(bs, n).rest + x)
  {
    assert (bs + x)[..n] == bs[..n] && (bs + x)[n..] == bs[n..] + x;
  }

  lemma MoreAfterText(bs: seq<byte>, x: seq<byte>)
    requires ReadText(bs).Got?
    ensures ReadText(bs + x) == Got(ReadText(bs).value, ReadText(bs).rest + x)
  {
    MoreAfterNumber(bs, x, 0);
    MoreAfterBytes(ReadUvarint(bs).rest, x, ReadUvarint(bs).value);
  }

  lemma {:induction false} MoreAfterTexts(bs: seq<byte>, x: seq<byte>, n: nat)
    requires ReadTexts(bs, n).Got?
    ensures ReadTexts(bs + x, n) == Got(ReadTexts(bs, n).value, ReadTexts(bs, n).rest + x)
    decreases n
  {
    if n == 0 {
    } else {
      MoreAfterText(bs, x);
      MoreAfterTexts(ReadText(bs).rest, x, n - 1);
    }
  }

  /** A field that has been read is read alike when more bytes follow, which are left over. */
  lemma MoreAfterField(k: Kind, bs: seq<byte>, x: seq<byte>)
    requires DecodeField(k, bs).Got?
    ensures DecodeField(k, bs + x) == Got(DecodeField(k, bs).value, DecodeField(k, bs).rest + x)
  {
    match k
    case KBool => MoreAfterNumber(bs, x, 0);
    case KStr => MoreAfterText(bs, x);
    case KInt => MoreAfterNumber(bs, x, 0);
    case KFloat => MoreAfterNumber(bs, x, 0);
    case KStamp => MoreAfterText(bs, x);
    case KIDs =>
      MoreAfterNumber(bs, x, 0);
      MoreAfterTexts(ReadVarint(bs).rest, x, ReadVarint(bs).value);
  }

  /** Bytes behind the last field are ignored. */
  lemma {:induction false} TrailingIgnored(into: seq<Field>, bs: seq<byte>, x: seq<byte>)
    requires UnpackFields(into, bs).1 == None
    ensures UnpackFields(into, bs + x) == UnpackFields(into, bs)
    decreases |into|
  {
    if into == [] {
    } else {
      MoreAfterField(KindOf(into[0]), bs, x);
      TrailingIgnored(into[1..], DecodeField(KindOf(into[0]), bs).rest, x);
    }
  }

  // ---- missing bytes ----

  /** A cursor that has been cut short is never read without an error. */
  lemma {:induction false} CutShortFails(fs: seq<Field>, into: seq<Field>, bs: seq<byte>, missing: seq<byte>)
    requires EncodeFields(fs).Some? && Kinds(into) == Kinds(fs)
    requires missing != [] && bs + missing == EncodeFields(fs).value
    ensures UnpackFields(into, bs).1.Some?
    decreases |fs|
  {
    if fs == [] {
      EncodedIsEmptyOnlyWithoutFields(fs);
      assert false;
    } else {
      assert into != [];
      SameKinds(fs, into);
      EncodeFirst(fs);
      var k, tail := KindOf(into[0]), EncodeFields(fs[1..]).value;
      if DecodeField(k, bs).Got? {
        MoreAfterField(k, bs, missing);
        FieldRoundTrip(fs[0], tail);
        CutShortFails(fs[1..], into[1..], DecodeField(k, bs).rest, missing);
      }
    }
  }

  /** A string whose bytes are not all there is a short read, or the end of the stream if none are. */
  lemma CutText(s: Text, m: nat)
    requires m < |s|
    ensures ReadText(PutUvarint(|s|) + s[..m]) == Failed(if m == 0 then EndOfStream else ShortRead)
  {
    UvarintRoundTrip(|s|, s[..m]);
  }

  /** Lengths that cannot be allocated, or are negative, are crashes. */
  lemma BadLengths(n: uint64, l: int64, rest: seq<byte>)
    ensures n > 0x1_0000_0000_0000 ==> DecodeField(KStr, PutUvarint(n) + rest) == Failed(Crash)
    ensures n > 0x1_0000_0000_0000 ==> DecodeField(KStamp, PutUvarint(n) + rest) == Failed(Crash)
    ensures l < 0 || l > 0x1000_0000_0000 ==> DecodeField(KIDs, PutVarint(l) + rest) == Failed(Crash)
    ensures n <= 0x1_0000_0000_0000 ==> DecodeField(KStr, PutUvarint(n) + rest) != Failed(Crash)
  {
    UvarintRoundTrip(n, rest);
    VarintRoundTrip(l, rest);
  }

  /** The binary forms of times that are accepted: 15 bytes of version 1 and 16 bytes of version 2. */
  lemma WhichTimes(bs: Text, rest: seq<byte>)
    requires bs != []
    ensures DecodeField(KStamp, PutUvarint(|bs|) + (bs + rest)) ==
            if (|bs| == 15 && bs[0] == 1) || (|bs| == 16 && bs[0] == 2) then Got(Stamp(Marshals(bs)), rest)
            else Failed(MalformedTime)
  {
    UvarintRoundTrip(|bs|, bs + rest);
    assert (bs + rest)[..|bs|] == bs && (bs + rest)[|bs|..] == rest;
  }

  /** An int that is cut short keeps its low groups. */
  lemma CutInt(x: int64, m: nat, before: int64)
    requires m < |PutVarint(x)|
    ensures UnpackFields([Int(before)], PutVarint(x)[..m])
         == ([Int(Unzigzag(LowPart(x, m)))], Some(if m == 0 then EndOfStream else UnexpectedEnd))
  {
    CutShort(Zigzag(x), m);
    ModAtMost(Zigzag(x), Power128(m));
    var bs := PutVarint(x)[..m];
    var e := if m == 0 then EndOfStream else UnexpectedEnd;
    assert DecodeField(KInt, bs) == Failed(e);
    UnpackStops([Int(before)], bs, e);
    var left := AfterFailure(Int(before), bs);
    assert left == Int(Unzigzag(LowPart(x, m)));
    assert [left] + [Int(before)][1..] == [left];
  }

  /** What the first `m` groups of a number hold. */
  function LowPart(x: int64, m: nat): uint64 {
    ModAtMost(Zigzag(x), Power128(m));
    Zigzag(x) % Power128(m)
  }

  /** Any number above zero reads as true. */
  lemma PositiveIsTrue(n: uint64, rest: seq<byte>)
    ensures DecodeField(KBool, PutUvarint(n) + rest) == Got(Bool(n > 0), rest)
  {
    UvarintRoundTrip(n, rest);
  }

  /** The zero value of a field's type. */
  function Zero(k: Kind): Field {
    match k
    case KBool => Bool(false)
    case KStr => Str([])
    case KInt => Int(0)
    case KFloat => Float(0)
    case KStamp => Stamp(Marshals([1, 0, 0, 0, 0, 0, 0, 0, 0, 0, 0, 0, 0, 255, 255]))
    case KIDs => IDs([])
  }

  /** A field that finds the stream exhausted becomes the zero value of its type, but an id list stays. */
  lemma ZeroAtEnd(f: Field)
    ensures UnpackFields([f], []) == ([if f.IDs? then f else Zero(KindOf(f))], Some(EndOfStream))
  {
    assert DecodeField(KindOf(f), []) == Failed(EndOfStream);
    UnpackStops([f], [], EndOfStream);
    var zero := AfterFailure(f, []);
    assert zero == if f.IDs? then f else Zero(KindOf(f));
    assert [zero] + [f][1..] == [zero];
  }
}
