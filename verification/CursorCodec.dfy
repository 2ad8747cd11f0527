// The stateful encoder and decoder behind `Pack` and `Unpack`, and the cursor object itself.
module CursorCodec {
  import opened Wrappers
  import opened Varint
  import opened CursorFormat
  import Base64

  /** The bytes `done` are the encoding of the first `i` fields. */
  ghost predicate Packed(fs: seq<Field>, i: nat, done: seq<byte>)
    requires i <= |fs|
  {
    EncodeFields(fs) == match EncodeFields(fs[i..])
                        case None => None
                        case Some(rest) => Some(done + rest)
  }

  lemma PackedStart(fs: seq<Field>)
    ensures Packed(fs, 0, [])
  {
    assert fs[0..] == fs;
    if EncodeFields(fs).Some? {
      assert [] + EncodeFields(fs).value == EncodeFields(fs).value;
    }
  }

  lemma PackedEnd(fs: seq<Field>, done: seq<byte>)
    requires Packed(fs, |fs|, done)
    ensures EncodeFields(fs) == Some(done)
  {
    assert fs[|fs|..] == [] && done + [] == done;
  }

  lemma PackedStep(fs: seq<Field>, i: nat, done: seq<byte>)
    requires i < |fs| && Packed(fs, i, done)
    ensures EncodeField(fs[i]).None? ==> EncodeFields(fs).None?
    ensures EncodeField(fs[i]).Some? ==> Packed(fs, i + 1, done + EncodeField(fs[i]).value)
  {
    var pending := fs[i..];
    assert pending[0] == fs[i] && pending[1..] == fs[i + 1..];
    if EncodeField(fs[i]).Some? && EncodeFields(fs[i + 1..]).Some? {
      var head, rest := EncodeField(fs[i]).value, EncodeFields(fs[i + 1..]).value;
      assert done + (head + rest) == (done + head) + rest;
    }
  }

  /** Appends fields to a growing buffer. */
  class Encoder {
    var buffer: seq<byte>

    constructor ()
      ensures buffer == []
    {
      buffer := [];
    }

    method AsBase64() returns (s: string)
      ensures Base64.Decode(s) == Some(buffer)
      ensures s == Base64.Encode(buffer)
    {
      Base64.RoundTrip(buffer);
      s := Base64.Encode(buffer);
    }

    method AppendUInt64(u: uint64)
      modifies this
      ensures buffer == old(buffer) + PutUvarint(u)
    {
      UvarintRoundTrip(u, []);
      var bytes: seq<byte> := PutUvarint(u);
      buffer := buffer + bytes;
    }

    method AppendInt64(i: int64)
      modifies this
      ensures buffer == old(buffer) + PutVarint(i)
    {
      var bytes: seq<byte> := PutVarint(i);
      buffer := buffer + bytes;
    }

    method AppendBool(b: bool)
      modifies this
      ensures buffer == old(buffer) + EncodeBool(b)
    {
      var val := 0;
      if b {
        val := 1;
      }
      AppendUInt64(val);
    }

    method AppendFloat64(bits: uint64)
      modifies this
      ensures buffer == old(buffer) + PutUvarint(bits)
    {
      AppendUInt64(bits);
    }

    method AppendString(s: Text)
      modifies this
      ensures buffer == old(buffer) + EncodeText(s)
    {
      AppendUInt64(|s|);
      if |s| != 0 {
        buffer := buffer + s;
      }
    }

    method AppendTime(t: Time) returns (ok: bool)
      modifies this
      ensures ok == t.Marshals?
      ensures buffer == if ok then old(buffer) + EncodeText(t.image) else old(buffer)
    {
      match t
      case CannotMarshal =>
        ok := false;
      case Marshals(image) =>
        AppendUInt64(|image|);
        buffer := buffer + image;
        ok := true;
    }

    /** The length of the list, then every id. */
    method PackIDs(ids: TextList)
      modifies this
      ensures buffer == old(buffer) + (PutVarint(|ids|) + EncodeTexts(ids))
    {
      AppendInt64(|ids|);
      for i := 0 to |ids|
        invariant buffer + EncodeTexts(ids[i..]) == old(buffer) + (PutVarint(|ids|) + EncodeTexts(ids))
      {
        assert ids[i..][1..] == ids[i + 1..];
        AppendString(ids[i]);
      }
    }

    method PackVal(f: Field) returns (ok: bool)
      modifies this
      ensures ok == EncodeField(f).Some?
      ensures ok ==> buffer == old(buffer) + EncodeField(f).value
    {
      ok := true;
      match f
      case Bool(b) => AppendBool(b);
      case Str(s) => AppendString(s);
      case Int(i) => AppendInt64(i);
      case Float(bits) => AppendFloat64(bits);
      case Stamp(t) => ok := AppendTime(t);
      case IDs(ids) => PackIDs(ids);
    }

    method PackVals(fs: seq<Field>) returns (ok: bool)
      modifies this
      ensures ok == EncodeFields(fs).Some?
      ensures ok ==> buffer == old(buffer) + EncodeFields(fs).value
    {
      ghost var done: seq<byte> := [];
      PackedStart(fs);
      for i := 0 to |fs|
        invariant buffer == old(buffer) + done
        invariant Packed(fs, i, done)
      {
        ok := PackVal(fs[i]);
        PackedStep(fs, i, done);
        if !ok {
          return;
        }
        done := done + EncodeField(fs[i]).value;
      }
      PackedEnd(fs, done);
      ok := true;
    }
  }

  /** A read method delivers what its specification says, and `rest` is what it leaves in the stream. */
  predicate Delivers<T(==)>(spec: Read<T>, r: Result<T, ReadError>, rest: seq<byte>) {
    match r
    case Ok(v) => spec == Got(v, rest)
    case Err(e) => spec == Failed(e)
  }

  /** Reads fields off the front of a byte stream. */
  class Decoder {
    var rest: seq<byte>

    constructor ()
      ensures rest == []
    {
      rest := [];
    }

    method SetReader(s: string) returns (ok: bool)
      modifies this
      ensures ok == Base64.Decode(s).Some?
      ensures rest == if ok then Base64.Decode(s).value else old(rest)
    {
      match Base64.Decode(s)
      case None => ok := false;
      case Some(bs) => rest := bs; ok := true;
    }

    method ReadUInt64() returns (r: Result<uint64, ReadError>)
      modifies this
      ensures Delivers(ReadUvarint(old(rest)), r, rest)
    {
      match ReadUvarint(rest)
      case Got(u, tail) => rest := tail; r := Ok(u);
      case Failed(e) => r := Err(e);
    }

    method ReadInt64() returns (r: Result<int64, ReadError>)
      modifies this
      ensures Delivers(ReadVarint(old(rest)), r, rest)
    {
      match ReadVarint(rest)
      case Got(i, tail) => rest := tail; r := Ok(i);
      case Failed(e) => r := Err(e);
    }

    /** Fills a buffer of `n` bytes and fails unless all of them are there. */
    method ReadFull(n: nat) returns (r: Result<Text, ReadError>)
      modifies this
      ensures Delivers(ReadBytes(old(rest), n), r, rest)
    {
      if n > MAX_ALLOC {
        return Err(Crash);
      }
      if rest == [] {
        return Err(EndOfStream);
      }
      var numRead := if n <= |rest| then n else |rest|;
      var bytes := rest[..numRead];
      rest := rest[numRead..];
      if numRead != n {
        return Err(ShortRead);
      }
      r := Ok(bytes);
    }

    method ReadString() returns (r: Result<Text, ReadError>)
      modifies this
      ensures Delivers(ReadText(old(rest)), r, rest)
    {
      var n := ReadUInt64();
      if n.Err? {
        return Err(n.error);
      }
      r := ReadFull(n.value);
    }

    method ReadTimestamp() returns (r: Result<Time, ReadError>)
      modifies this
      ensures Delivers(ReadTime(old(rest)), r, rest)
    {
      var n := ReadUInt64();
      if n.Err? {
        return Err(n.error);
      }
      var image := ReadFull(n.value);
      if image.Err? {
        return Err(image.error);
      }
      r := if IsTimeImage(image.value) then Ok(Marshals(image.value)) else Err(MalformedTime);
    }

    method ReadBoolean() returns (r: Result<bool, ReadError>)
      modifies this
      ensures Delivers(ReadBool(old(rest)), r, rest)
    {
      var u := ReadUInt64();
      r := if u.Err? then Err(u.error) else Ok(u.value > 0);
    }

    method ReadIDList() returns (r: Result<TextList, ReadError>)
      modifies this
      ensures Delivers(ReadIDs(old(rest)), r, rest)
    {
      var l := ReadInt64();
      if l.Err? {
        return Err(l.error);
      }
      if l.value < 0 || l.value * STRING_HEADER > MAX_ALLOC {
        return Err(Crash);
      }
      ghost var start := rest;
      var items: seq<Text> := [];
      assert forall tail: seq<Text> {:trigger items + tail} :: items + tail == tail;
      for i := 0 to l.value
        invariant |items| == i
        invariant match ReadTexts(rest, l.value - i)
                  case Got(tail, end) => ReadTexts(start, l.value) == Got(items + tail, end)
                  case Failed(e) => ReadTexts(start, l.value) == Failed(e)
      {
        var id := ReadString();
        if id.Err? {
          return Err(id.error);
        }
        ghost var done := items;
        items := items + [id.value];
        assert forall tail: seq<Text> {:trigger items + tail} :: done + ([id.value] + tail) == items + tail;
      }
      assert items + [] == items;
      r := Ok(items);
    }

    method ReadField(k: Kind) returns (r: Result<Field, ReadError>)
      modifies this
      ensures Delivers(DecodeField(k, old(rest)), r, rest)
    {
      match k
      case KBool =>
        var b := ReadBoolean();
        r := if b.Err? then Err(b.error) else Ok(Bool(b.value));
      case KStr =>
        var s := ReadString();
        r := if s.Err? then Err(s.error) else Ok(Str(s.value));
      case KInt =>
        var i := ReadInt64();
        r := if i.Err? then Err(i.error) else Ok(Int(i.value));
      case KFloat =>
        var u := ReadUInt64();
        r := if u.Err? then Err(u.error) else Ok(Float(u.value));
      case KStamp =>
        var t := ReadTimestamp();
        r := if t.Err? then Err(t.error) else Ok(Stamp(t.value));
      case KIDs =>
        var ids := ReadIDList();
        r := if ids.Err? then Err(ids.error) else Ok(IDs(ids.value));
    }
  }

  /** After `i` fields have been overwritten, unpacking has the rest of them to do from `rest`. */
  ghost predicate Partly(before: seq<Field>, bs: seq<byte>, fs: seq<Field>, i: nat, rest: seq<byte>) {
    && |fs| == |before| && i <= |fs| && fs[i..] == before[i..]
    && UnpackFields(before, bs) == (fs[..i] + UnpackFields(before[i..], rest).0, UnpackFields(before[i..], rest).1)
  }

  lemma UnpackStart(before: seq<Field>, bs: seq<byte>)
    ensures Partly(before, bs, before, 0, bs)
  {
    assert before[0..] == before;
    assert before[..0] + UnpackFields(before, bs).0 == UnpackFields(before, bs).0;
  }

  lemma WrittenPrefix(fs: seq<Field>, i: nat, f: Field)
    requires i < |fs|
    ensures fs[i := f][..i + 1] == fs[..i] + [f] && fs[i := f][i + 1..] == fs[i..][1..] == fs[i + 1..]
  {
  }

  lemma Regroup(head: seq<Field>, f: Field, tail: seq<Field>)
    ensures head + ([f] + tail) == (head + [f]) + tail
  {
  }

  lemma UnpackStep(before: seq<Field>, bs: seq<byte>, fs: seq<Field>, i: nat, stream: seq<byte>, f: Field,
                   rest: seq<byte>)
    requires i < |fs| && Partly(before, bs, fs, i, stream)
    requires DecodeField(KindOf(fs[i]), stream) == Got(f, rest)
    ensures Partly(before, bs, fs[i := f], i + 1, rest)
  {
    var pending := before[i..];
    assert pending[0] == fs[i];
    UnpackFirst(pending, stream, f, rest);
    WrittenPrefix(fs, i, f);
    WrittenPrefix(before, i, before[i]);
    Regroup(fs[..i], f, UnpackFields(pending[1..], rest).0);
  }

  lemma UnpackStop(before: seq<Field>, bs: seq<byte>, fs: seq<Field>, i: nat, stream: seq<byte>, e: ReadError)
    requires i < |fs| && Partly(before, bs, fs, i, stream)
    requires DecodeField(KindOf(fs[i]), stream) == Failed(e)
    ensures UnpackFields(before, bs) == (fs[i := AfterFailure(fs[i], stream)], Some(e))
  {
    var pending, zero := before[i..], AfterFailure(fs[i], stream);
    assert pending[0] == fs[i];
    UnpackStops(pending, stream, e);
    WrittenPrefix(fs, i, zero);
    Regroup(fs[..i], zero, pending[1..]);
    assert fs[i := zero] == fs[i := zero][..i + 1] + fs[i := zero][i + 1..];
  }

  lemma UnpackEnd(before: seq<Field>, bs: seq<byte>, fs: seq<Field>, rest: seq<byte>)
    requires Partly(before, bs, fs, |fs|, rest)
    ensures UnpackFields(before, bs) == (fs, None)
  {
    assert before[|fs|..] == [];
    assert fs[..|fs|] + [] == fs;
  }

  /** A cursor: the fields its type registered, in order, and the decoder they are read with. */
  class Cursor {
    var fields: seq<Field>
    const d: Decoder

    constructor (zero: seq<Field>)
      ensures fields == zero && fresh(d)
    {
      fields := zero;
      d := new Decoder();
    }

    method Pack() returns (s: Option<string>)
      ensures s == PackString(fields)
    {
      var e := new Encoder();
      var ok := e.PackVals(fields);
      if !ok {
        return None;
      }
      assert e.buffer == EncodeFields(fields).value;
      var str := e.AsBase64();
      s := Some(str);
    }

    /** Overwrites the fields from a cursor string; the empty string leaves them as they are. */
    method Unpack(s: string) returns (err: Option<ReadError>)
      modifies this, d
      ensures (fields, err) == UnpackString(old(fields), s)
      ensures s == "" ==> err == None && fields == old(fields)
      ensures s != "" && Base64.Decode(s).None? ==> err == Some(BadBase64) && fields == old(fields)
    {
      if s == "" {
        return None;
      }
      var ok := d.SetReader(s);
      if !ok {
        return Some(BadBase64);
      }
      ghost var before, bs := fields, d.rest;
      UnpackStart(before, bs);
      for i := 0 to |fields|
        invariant Partly(before, bs, fields, i, d.rest)
      {
        var stream := d.rest;
        var r := d.ReadField(KindOf(fields[i]));
        if r.Err? {
          UnpackStop(before, bs, fields, i, stream, r.error);
          fields := fields[i := AfterFailure(fields[i], stream)];
          return Some(r.error);
        }
        UnpackStep(before, bs, fields, i, stream, r.value, d.rest);
        fields := fields[i := r.value];
      }
      UnpackEnd(before, bs, fields, d.rest);
      err := None;
    }
  }
}
