// What a cursor string restores: reading inverts writing exactly when the last field does not
// end in an empty string, and two cursors of one type with the same string are the same cursor.
module CursorRoundTrip {
  import opened Wrappers
  import opened Varint
  import opened CursorFormat
  import Base64

  /** The encoding ends with a zero-length string, whose read finds the stream exhausted. */
  predicate EndsEmpty(f: Field) {
    match f
    case Str(s) => s == []
    case IDs(ids) => ids != [] && ids[|ids| - 1] == []
    case _ => false
  }

  predicate LastEndsEmpty(fs: seq<Field>) {
    fs != [] && EndsEmpty(fs[|fs| - 1])
  }

  lemma TextRoundTrip(s: Text, rest: seq<byte>)
    requires s != [] || rest != []
    ensures ReadText(EncodeText(s) + rest) == Got(s, rest)
  {
    UvarintRoundTrip(|s|, s + rest);
    assert EncodeText(s) + rest == PutUvarint(|s|) + (s + rest);
  }

  lemma EmptyTextAtEnd()
    ensures ReadText(EncodeText([])) == Failed(EndOfStream)
  {
    UvarintRoundTrip(0, []);
  }

  lemma EncodeTextNonEmpty(s: Text)
    ensures EncodeText(s) != []
  {
    UvarintRoundTrip(|s|, []);
  }

  lemma FirstText(s: Text, behind: seq<byte>, n: nat)
    requires s != [] || behind != []
    ensures ReadTexts(EncodeText(s) + behind, n + 1) ==
            match ReadTexts(behind, n)
            case Failed(e) => Failed(e)
            case Got(tail, end) => Got([s] + tail, end)
  {
    TextRoundTrip(s, behind);
  }

  lemma OnlyEmptyText()
    ensures ReadTexts(EncodeText([]), 1) == Failed(EndOfStream)
  {
    EmptyTextAtEnd();
  }

  lemma TextsBehind(ids: seq<Text>, rest: seq<byte>)
    requires ids != []
    ensures EncodeTexts(ids) + rest == EncodeText(ids[0]) + (EncodeTexts(ids[1..]) + rest)
    ensures |ids| > 1 ==> EncodeTexts(ids[1..]) + rest != []
    ensures |ids| == 1 ==> EncodeTexts(ids[1..]) + rest == rest
  {
    if |ids| > 1 {
      EncodeTextNonEmpty(ids[1]);
    }
  }

  /** A list of ids reads back, or runs out exactly at an empty last id with nothing behind it. */
  lemma {:induction false} TextsRoundTrip(ids: seq<Text>, rest: seq<byte>)
    ensures ReadTexts(EncodeTexts(ids) + rest, |ids|) ==
            if rest == [] && ids != [] && ids[|ids| - 1] == [] then Failed(EndOfStream) else Got(ids, rest)
  {
    if ids == [] {
      assert EncodeTexts(ids) + rest == rest;
    } else {
      var behind := EncodeTexts(ids[1..]) + rest;
      TextsBehind(ids, rest);
      if ids[0] == [] && behind == [] {
        assert ids == [[]] && EncodeText([]) + behind == EncodeText([]);
        OnlyEmptyText();
      } else {
        FirstText(ids[0], behind, |ids| - 1);
        TextsRoundTrip(ids[1..], rest);
        assert ids == [ids[0]] + ids[1..];
      }
    }
  }

  lemma ReadCounted(n: nat, stream: seq<byte>)
    requires n * STRING_HEADER <= MAX_ALLOC
    ensures ReadIDs(PutVarint(n) + stream) ==
            match ReadTexts(stream, n)
            case Failed(e) => Failed(e)
            case Got(ids, end) => Got(ids, end)
  {
    VarintRoundTrip(n, stream);
  }

  lemma IDsRoundTrip(ids: TextList, rest: seq<byte>)
    ensures ReadIDs(PutVarint(|ids|) + EncodeTexts(ids) + rest) ==
            if rest == [] && ids != [] && ids[|ids| - 1] == [] then Failed(EndOfStream) else Got(ids, rest)
  {
    assert PutVarint(|ids|) + EncodeTexts(ids) + rest == PutVarint(|ids|) + (EncodeTexts(ids) + rest);
    ReadCounted(|ids|, EncodeTexts(ids) + rest);
    TextsRoundTrip(ids, rest);
  }

  lemma StrRoundTrip(s: Text, rest: seq<byte>)
    ensures EncodeText(s) != []
    ensures ReadText(EncodeText(s) + rest) == if rest == [] && s == [] then Failed(EndOfStream) else Got(s, rest)
  {
    EncodeTextNonEmpty(s);
    if s == [] && rest == [] {
      assert EncodeText(s) + rest == EncodeText([]);
      EmptyTextAtEnd();
    } else {
      TextRoundTrip(s, rest);
    }
  }

  lemma StampRoundTrip(image: TimeImage, rest: seq<byte>)
    ensures ReadTime(EncodeText(image) + rest) == Got(Marshals(image), rest)
  {
    TextRoundTrip(image, rest);
  }

  /** Each field delimits itself: it is read back whatever follows, and what follows is left over. */
  lemma FieldRoundTrip(f: Field, rest: seq<byte>)
    requires EncodeField(f).Some?
    ensures EncodeField(f).value != []
    ensures DecodeField(KindOf(f), EncodeField(f).value + rest) ==
            if rest == [] && EndsEmpty(f) then Failed(EndOfStream) else Got(f, rest)
  {
    match f
    case Bool(b) => UvarintRoundTrip(if b then 1 else 0, rest);
    case Str(s) => StrRoundTrip(s, rest);
    case Int(i) => VarintRoundTrip(i, rest);
    case Float(bits) => UvarintRoundTrip(bits, rest);
    case Stamp(t) =>
      EncodeTextNonEmpty(t.image);
      StampRoundTrip(t.image, rest);
    case IDs(ids) =>
      VarintRoundTrip(|ids|, []);
      IDsRoundTrip(ids, rest);
  }

  lemma EncodeFirst(fs: seq<Field>)
    requires fs != [] && EncodeFields(fs).Some?
    ensures EncodeField(fs[0]).Some? && EncodeFields(fs[1..]).Some?
    ensures EncodeFields(fs).value == EncodeField(fs[0]).value + EncodeFields(fs[1..]).value
  {
  }

  /** What is left of a field whose last string finds the stream exhausted: an id list stays as it was. */
  function Missed(f: Field): Field {
    if f.IDs? then f else Str([])
  }

  /** What unpacking should leave when the cursor `into` receives the string of `fs`. */
  ghost function Restored(fs: seq<Field>, into: seq<Field>): (seq<Field>, Option<ReadError>)
    requires |into| == |fs|
  {
    if LastEndsEmpty(fs) then (fs[..|fs| - 1] + [Missed(into[|fs| - 1])], Some(EndOfStream))
    else (fs, None)
  }

  lemma RestoredCons(fs: seq<Field>, into: seq<Field>)
    requires |into| == |fs| > 1
    ensures Restored(fs, into) == ([fs[0]] + Restored(fs[1..], into[1..]).0, Restored(fs[1..], into[1..]).1)
  {
    assert fs == [fs[0]] + fs[1..];
    var x := Missed(into[|fs| - 1]);
    assert fs[..|fs| - 1] + [x] == [fs[0]] + (fs[1..][..|fs| - 2] + [x]);
  }

  /** The exact outcome of unpacking what was packed, over any earlier contents `into` of the cursor. */
  lemma {:induction false} FieldsRoundTrip(fs: seq<Field>, into: seq<Field>)
    requires EncodeFields(fs).Some? && Kinds(into) == Kinds(fs)
    ensures UnpackFields(into, EncodeFields(fs).value) == Restored(fs, into)
    decreases |fs|
  {
    if fs == [] {
      assert into == [];
    } else {
      SameKinds(fs, into);
      EncodeFirst(fs);
      var bs, tail := EncodeFields(fs).value, EncodeFields(fs[1..]).value;
      FieldRoundTrip(fs[0], tail);
      EncodedIsEmptyOnlyWithoutFields(fs[1..]);
      FieldsRoundTrip(fs[1..], into[1..]);
      if |fs| > 1 {
        UnpackFirst(into, bs, fs[0], tail);
        RestoredCons(fs, into);
      } else if EndsEmpty(fs[0]) {
        UnpackStops(into, bs, EndOfStream);
        assert AfterFailure(into[0], bs) == Missed(into[0]);
        assert fs[..0] + [Missed(into[0])] == [Missed(into[0])] + into[1..];
      } else {
        UnpackFirst(into, bs, fs[0], tail);
        assert [fs[0]] + fs[1..] == fs;
      }
    }
  }

  lemma {:induction false} EncodedIsEmptyOnlyWithoutFields(fs: seq<Field>)
    requires EncodeFields(fs).Some?
    ensures EncodeFields(fs).value == [] <==> fs == []
  {
    if fs != [] {
      FieldRoundTrip(fs[0], []);
    }
  }

  /** Packing fails exactly when a time has no binary form, and gives an empty string only for no fields. */
  lemma {:induction false} WhatPacks(fs: seq<Field>)
    ensures PackString(fs).Some? <==> Stamp(CannotMarshal) !in fs
    ensures PackString(fs) == Some("") <==> fs == []
  {
    if fs == [] {
    } else {
      assert fs == [fs[0]] + fs[1..];
      WhatPacks(fs[1..]);
      if EncodeFields(fs).Some? {
        EncodedIsEmptyOnlyWithoutFields(fs);
        Base64.EmptyOnlyForEmpty(EncodeFields(fs).value);
      }
    }
  }

  /** Unpacking a packed cursor restores every field without error if and only if the last field does
      not end in an empty string. Otherwise all fields but the last are restored and the end of the
      stream is reported. */
  lemma PackUnpack(fs: seq<Field>, into: seq<Field>)
    requires PackString(fs).Some? && Kinds(into) == Kinds(fs)
    ensures UnpackString(into, PackString(fs).value) == (fs, None) <==> !LastEndsEmpty(fs)
    ensures LastEndsEmpty(fs) ==>
              UnpackString(into, PackString(fs).value)
              == (fs[..|fs| - 1] + [Missed(into[|fs| - 1])], Some(EndOfStream))
  {
    var bs := EncodeFields(fs).value;
    FieldsRoundTrip(fs, into);
    Base64.RoundTrip(bs);
    Base64.EmptyOnlyForEmpty(bs);
    EncodedIsEmptyOnlyWithoutFields(fs);
    if fs == [] {
      assert into == [];
    }
  }

  lemma SameFirst(f: Field, g: Field, f': seq<byte>, g': seq<byte>)
    requires KindOf(f) == KindOf(g) && EncodeField(f).Some? && EncodeField(g).Some? && f' != [] && g' != []
    requires EncodeField(f).value + f' == EncodeField(g).value + g'
    ensures f == g && f' == g'
  {
    FieldRoundTrip(f, f');
    FieldRoundTrip(g, g');
  }

  /** Field lists of one shape have distinct encodings, even in front of further bytes. */
  lemma {:induction false} EncodeInjective(fs: seq<Field>, gs: seq<Field>, after: seq<byte>)
    requires Kinds(fs) == Kinds(gs) && EncodeFields(fs).Some? && EncodeFields(gs).Some?
    requires after != [] && EncodeFields(fs).value + after == EncodeFields(gs).value + after
    ensures fs == gs
    decreases |fs|
  {
    if fs == [] {
    } else {
      SameKinds(fs, gs);
      EncodeFirst(fs);
      EncodeFirst(gs);
      var f, g := EncodeFields(fs[1..]).value, EncodeFields(gs[1..]).value;
      assert EncodeField(fs[0]).value + (f + after) == EncodeFields(fs).value + after;
      assert EncodeField(gs[0]).value + (g + after) == EncodeFields(gs).value + after;
      SameFirst(fs[0], gs[0], f + after, g + after);
      EncodeInjective(fs[1..], gs[1..], after);
      assert fs == [fs[0]] + fs[1..] && gs == [gs[0]] + gs[1..];
    }
  }

  /** Cursors of one type with equal strings are equal, trailing empty strings included. */
  lemma PackInjective(fs: seq<Field>, gs: seq<Field>)
    requires Kinds(fs) == Kinds(gs) && PackString(fs).Some? && PackString(gs) == PackString(fs)
    ensures fs == gs
  {
    Base64.RoundTrip(EncodeFields(fs).value);
    Base64.RoundTrip(EncodeFields(gs).value);
    EncodeInjective(fs, gs, [0]);
  }

  // ---- the cursor types ----

  datatype CursorType = TimeID | BoolBoolIntID | BoolTimeID | StringID | IntTimeID | Position | BoolIDFloatID

  function Layout(c: CursorType): seq<Kind> {
    match c
    case TimeID => [KStamp, KStr]
    case BoolBoolIntID => [KBool, KBool, KInt, KStr]
    case BoolTimeID => [KBool, KStamp, KStr]
    case StringID => [KStr, KStr]
    case IntTimeID => [KInt, KStamp, KStr]
    case Position => [KInt, KIDs]
    case BoolIDFloatID => [KBool, KStr, KFloat, KStr]
  }

  lemma {:induction false} LastKind(fs: seq<Field>)
    requires fs != []
    ensures KindOf(fs[|fs| - 1]) == Kinds(fs)[|fs| - 1]
  {
    if |fs| <= 1 {
    } else {
      LastKind(fs[1..]);
    }
  }

  lemma LayoutEnds(c: CursorType)
    ensures Layout(c) != [] && (Layout(c)[|Layout(c)| - 1] == KStr || Layout(c)[|Layout(c)| - 1] == KIDs)
  {
  }

  /** Every cursor type ends with an id or with a list of ids. */
  lemma LastFieldHoldsIDs(c: CursorType, fs: seq<Field>)
    requires Kinds(fs) == Layout(c)
    ensures fs != [] && (fs[|fs| - 1].Str? || fs[|fs| - 1].IDs?)
  {
    LayoutEnds(c);
    LastKind(fs);
  }

  /** What it means for such a field not to end in an empty string. */
  lemma EndsInID(fs: seq<Field>)
    requires fs != [] && (fs[|fs| - 1].Str? || fs[|fs| - 1].IDs?)
    ensures !LastEndsEmpty(fs) <==>
            match fs[|fs| - 1]
            case Str(id) => id != []
            case IDs(ids) => ids == [] || ids[|ids| - 1] != []
            case _ => false
  {
  }

  /** For every cursor type: the string restores the cursor exactly when its final id is not empty, or,
      for a position cursor, when its list of ids is empty or does not end in an empty id. */
  lemma EveryCursorType(c: CursorType, fs: seq<Field>, into: seq<Field>)
    requires Kinds(fs) == Layout(c) && Kinds(into) == Kinds(fs) && PackString(fs).Some?
    ensures UnpackString(into, PackString(fs).value) == (fs, None) <==>
            match fs[|fs| - 1]
            case Str(id) => id != []
            case IDs(ids) => ids == [] || ids[|ids| - 1] != []
            case _ => false
  {
    LastFieldHoldsIDs(c, fs);
    EndsInID(fs);
    PackUnpack(fs, into);
  }
}
