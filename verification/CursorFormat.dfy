// The byte layout of a pagination cursor and what reading it back yields, as functions.
// CursorCodec holds the stateful encoder and decoder that are proved against these.
module CursorFormat {
  import opened Wrappers
  import opened Varint
  import Base64

  // Go's allocator refuses (by panicking) a slice of more bytes than this.
  const MAX_ALLOC: nat := 0x1_0000_0000_0000
  // A slice of ids holds one two-word string header for each of them.
  const STRING_HEADER: nat := 16

  // Strings and id lists that exist in a Go process, and hence fit in its address space.
  type Text = s: seq<byte> | |s| <= MAX_ALLOC
  type TextList = ids: seq<Text> | |ids| * STRING_HEADER <= MAX_ALLOC

  /** The binary form of a time: a version byte, seconds, nanoseconds and a zone offset. */
  predicate IsTimeImage(bs: seq<byte>) {
    || (|bs| == 15 && bs[0] == 1)
    || (|bs| == 16 && bs[0] == 2)
  }

  const ZERO_TIME_IMAGE: seq<byte> := [1, 0, 0, 0, 0, 0, 0, 0, 0, 0, 0, 0, 0, 255, 255]

  type TimeImage = bs: seq<byte> | IsTimeImage(bs) witness ZERO_TIME_IMAGE

  /** A time stands for its binary form; a few zone offsets have none. */
  datatype Time = Marshals(image: TimeImage) | CannotMarshal

  /** One field of a cursor. `Str` covers strings and ids, which share an encoding. */
  datatype Field =
    | Bool(b: bool)
    | Str(s: Text)
    | Int(i: int64)
    | Float(bits: uint64)
    | Stamp(t: Time)
    | IDs(ids: TextList)

  datatype Kind = KBool | KStr | KInt | KFloat | KStamp | KIDs

  function KindOf(f: Field): Kind {
    match f
    case Bool(_) => KBool
    case Str(_) => KStr
    case Int(_) => KInt
    case Float(_) => KFloat
    case Stamp(_) => KStamp
    case IDs(_) => KIDs
  }

  function Kinds(fs: seq<Field>): (ks: seq<Kind>)
    ensures |ks| == |fs|
  {
    if fs == [] then [] else [KindOf(fs[0])] + Kinds(fs[1..])
  }

  // ---- writing ----

  function EncodeText(s: Text): seq<byte> {
    PutUvarint(|s|) + s
  }

  function EncodeTexts(ids: seq<Text>): seq<byte> {
    if ids == [] then [] else EncodeText(ids[0]) + EncodeTexts(ids[1..])
  }

  function EncodeBool(b: bool): seq<byte> {
    PutUvarint(if b then 1 else 0)
  }

  function EncodeField(f: Field): Option<seq<byte>> {
    match f
    case Bool(b) => Some(EncodeBool(b))
    case Str(s) => Some(EncodeText(s))
    case Int(i) => Some(PutVarint(i))
    case Float(bits) => Some(PutUvarint(bits))
    case Stamp(Marshals(image)) => Some(PutUvarint(|image|) + image)
    case Stamp(CannotMarshal) => None
    case IDs(ids) => Some(PutVarint(|ids|) + EncodeTexts(ids))
  }

  function EncodeFields(fs: seq<Field>): Option<seq<byte>> {
    if fs == [] then Some([])
    else
      match EncodeField(fs[0])
      case None => None
      case Some(head) =>
        match EncodeFields(fs[1..])
        case None => None
        case Some(tail) => Some(head + tail)
  }

  function PackString(fs: seq<Field>): Option<string> {
    match EncodeFields(fs)
    case None => None
    case Some(bs) => Some(Base64.Encode(bs))
  }

  // ---- reading ----

  /** One read of `n` bytes into a fresh buffer. At the end of the stream even an empty read fails. */
  function ReadBytes(bs: seq<byte>, n: nat): Read<Text> {
    if n > MAX_ALLOC then Failed(Crash)
    else if bs == [] then Failed(EndOfStream)
    else if |bs| < n then Failed(ShortRead)
    else Got(bs[..n], bs[n..])
  }

  function ReadText(bs: seq<byte>): Read<Text> {
    match ReadUvarint(bs)
    case Failed(e) => Failed(e)
    case Got(n, rest) => ReadBytes(rest, n)
  }

  function ReadTime(bs: seq<byte>): Read<Time> {
    match ReadText(bs)
    case Failed(e) => Failed(e)
    case Got(image, rest) => if IsTimeImage(image) then Got(Marshals(image), rest) else Failed(MalformedTime)
  }

  function ReadBool(bs: seq<byte>): Read<bool> {
    match ReadUvarint(bs)
    case Failed(e) => Failed(e)
    case Got(u, rest) => Got(u > 0, rest)
  }

  function ReadTexts(bs: seq<byte>, n: nat): (r: Read<seq<Text>>)
    ensures r.Got? ==> |r.value| == n
    decreases n
  {
    if n == 0 then Got([], bs)
    else
      match ReadText(bs)
      case Failed(e) => Failed(e)
      case Got(s, rest) =>
        match ReadTexts(rest, n - 1)
        case Failed(e) => Failed(e)
        case Got(tail, end) => Got([s] + tail, end)
  }

  function ReadIDs(bs: seq<byte>): Read<TextList> {
    match ReadVarint(bs)
    case Failed(e) => Failed(e)
    case Got(n, rest) =>
      if n < 0 || n * STRING_HEADER > MAX_ALLOC then Failed(Crash)
      else
        match ReadTexts(rest, n)
        case Failed(e) => Failed(e)
        case Got(ids, end) => Got(ids, end)
  }

  function DecodeField(k: Kind, bs: seq<byte>): (r: Read<Field>)
    ensures r.Got? ==> KindOf(r.value) == k
  {
    match k
    case KBool => (match ReadBool(bs) case Got(b, rest) => Got(Bool(b), rest) case Failed(e) => Failed(e))
    case KStr => (match ReadText(bs) case Got(s, rest) => Got(Str(s), rest) case Failed(e) => Failed(e))
    case KInt => (match ReadVarint(bs) case Got(i, rest) => Got(Int(i), rest) case Failed(e) => Failed(e))
    case KFloat => (match ReadUvarint(bs) case Got(u, rest) => Got(Float(u), rest) case Failed(e) => Failed(e))
    case KStamp => (match ReadTime(bs) case Got(t, rest) => Got(Stamp(t), rest) case Failed(e) => Failed(e))
    case KIDs => (match ReadIDs(bs) case Got(ids, rest) => Got(IDs(ids), rest) case Failed(e) => Failed(e))
  }

  /** A failed read of the bytes `bs` stores a zero value, except that an int keeps what was gathered of it and
      that a half-read id list leaves the field alone. */
  function AfterFailure(f: Field, bs: seq<byte>): (r: Field)
    ensures KindOf(r) == KindOf(f)
  {
    match f
    case Bool(_) => Bool(false)
    case Str(_) => Str([])
    case Int(_) => Int(PartialVarint(bs))
    case Float(_) => Float(0)
    case Stamp(_) => Stamp(Marshals(ZERO_TIME_IMAGE))
    case IDs(ids) => f
  }

  /** Unpacking writes field after field and stops at the first that cannot be read. */
  function UnpackFields(fs: seq<Field>, bs: seq<byte>): (r: (seq<Field>, Option<ReadError>))
    ensures Kinds(r.0) == Kinds(fs)
  {
    if fs == [] then ([], None)
    else
      match DecodeField(KindOf(fs[0]), bs)
      case Failed(e) => ([AfterFailure(fs[0], bs)] + fs[1..], Some(e))
      case Got(f, rest) =>
        var tail := UnpackFields(fs[1..], rest);
        ([f] + tail.0, tail.1)
  }

  /** Field lists of one shape agree on the kind of the first field and on the shape of the rest. */
  lemma SameKinds(fs: seq<Field>, gs: seq<Field>)
    requires Kinds(fs) == Kinds(gs) && fs != []
    ensures |fs| == |gs| && KindOf(fs[0]) == KindOf(gs[0]) && Kinds(fs[1..]) == Kinds(gs[1..])
  {
    assert Kinds(fs)[0] == Kinds(gs)[0] && Kinds(fs)[1..] == Kinds(gs)[1..];
  }

  lemma UnpackFirst(into: seq<Field>, bs: seq<byte>, f: Field, rest: seq<byte>)
    requires into != [] && DecodeField(KindOf(into[0]), bs) == Got(f, rest)
    ensures UnpackFields(into, bs) ==
            ([f] + UnpackFields(into[1..], rest).0, UnpackFields(into[1..], rest).1)
  {
  }

  lemma UnpackStops(into: seq<Field>, bs: seq<byte>, e: ReadError)
    requires into != [] && DecodeField(KindOf(into[0]), bs) == Failed(e)
    ensures UnpackFields(into, bs) == ([AfterFailure(into[0], bs)] + into[1..], Some(e))
  {
  }

  function UnpackString(fs: seq<Field>, s: string): (r: (seq<Field>, Option<ReadError>))
    ensures Kinds(r.0) == Kinds(fs)
  {
    if s == "" then (fs, None)
    else
      match Base64.Decode(s)
      case None => (fs, Some(BadBase64))
      case Some(bs) => UnpackFields(fs, bs)
  }
}
