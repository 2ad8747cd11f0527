// Keyset pagination over (time, id) keys whose cursors are packed by the cursor codec.
module TimeIDPaging {
  import opened Wrappers
  import opened Varint
  import opened CursorFormat
  import opened CursorRoundTrip
  import opened CursorReading
  import opened CursorCodec
  import opened Pages
  import opened Keyset
  import opened KeysetRelay
  import opened KeysetWalk
  import opened KeysetFixedWalk
  import Base64

  datatype Key = Key(time: TimeImage, id: Text)

  datatype RowData = Row(time: TimeImage, id: Text, data: int)

  // Rows are identified by a non-empty id.
  type Row = r: RowData | r.id != [] witness Row(ZERO_TIME_IMAGE, [97], 0)

  // 3000-01-01T01:01:01.000000001Z and 1970-01-01T01:01:01.000000001Z, with empty ids.
  const BEFORE_TIME: seq<byte> := [1, 0, 0, 0, 22, 8, 240, 209, 77, 0, 0, 0, 1, 255, 255]
  const AFTER_TIME: seq<byte> := [1, 0, 0, 0, 14, 119, 146, 5, 77, 0, 0, 0, 1, 255, 255]

  function Fields(k: Key): seq<Field> {
    [Stamp(Marshals(k.time)), Str(k.id)]
  }

  function KeyOf(r: Row): Key {
    Key(r.time, r.id)
  }

  /** The cursor string of a row. Packing cannot fail: a row's time has a binary form. */
  function CursorOf(r: Row): string {
    match PackString(Fields(KeyOf(r)))
    case Some(s) => s
    case None => ""
  }

  /** Unpacks a cursor string over the default bound `over`. */
  function DecodeOver(over: Key, s: string): Option<Key> {
    var (fields, err) := UnpackString(Fields(over), s);
    if err == None && |fields| == 2 && fields[0].Stamp? && fields[0].t.Marshals? && fields[1].Str?
    then Some(Key(fields[0].t.image, fields[1].s))
    else None
  }

  function Decode(s: string): Option<Key> {
    DecodeOver(Key(AFTER_TIME, []), s)
  }

  /** `less` is the order in which the database sorts (time, id) pairs. */
  function TimeIDKeying(less: (Key, Key) -> bool): Keying<Row, Key> {
    Keying(KeyOf, less, CursorOf, Decode, Key(AFTER_TIME, []), Key(BEFORE_TIME, []))
  }

  ghost predicate StrictTotalOrder(less: (Key, Key) -> bool) {
    && (forall x, y, z :: less(x, y) && less(y, z) ==> less(x, z))
    && (forall x :: !less(x, x))
    && (forall x, y :: x == y || less(x, y) || less(y, x))
  }

  lemma KindsOfKey(k: Key)
    ensures Kinds(Fields(k)) == [KStamp, KStr] == Layout(TimeID)
  {
    assert Fields(k)[1..] == [Str(k.id)];
  }

  /** A row's cursor string decodes to its key, over either default bound. */
  lemma CursorDecodes(r: Row, over: Key)
    ensures CursorOf(r) != "" && DecodeOver(over, CursorOf(r)) == Some(KeyOf(r))
  {
    var fs, into := Fields(KeyOf(r)), Fields(over);
    KindsOfKey(KeyOf(r));
    KindsOfKey(over);
    WhatPacks(fs);
    PackUnpack(fs, into);
  }

  lemma KeyingIsValid(less: (Key, Key) -> bool)
    requires StrictTotalOrder(less)
    ensures TimeIDKeying(less).Valid()
  {
    forall r: Row
      ensures CursorOf(r) != "" && Decode(CursorOf(r)) == Some(KeyOf(r))
    {
      CursorDecodes(r, Key(AFTER_TIME, []));
    }
  }

  // ---- the paginator ----

  /** The bound that a cursor argument stands for: unpacked over the default. */
  function UnpackedBound(c: Option<string>, default: Key): Option<Key> {
    match c
    case None => Some(default)
    case Some(s) => DecodeOver(default, s)
  }

  /** Unpacking does not depend on the default, except that the empty string keeps it. */
  lemma BoundIsUnpacked(less: (Key, Key) -> bool, c: Option<string>, default: Key)
    ensures DecodeOver(default, "") == Some(default)
    ensures TimeIDKeying(less).Bound(c, default) == UnpackedBound(c, default)
  {
    NothingToRead(Fields(default), "");
    match c
    case None =>
    case Some(s) =>
      if s != "" && Base64.Decode(s).Some? {
        KindsOfKey(default);
        KindsOfKey(Key(AFTER_TIME, []));
        UnpackIndependent(Fields(default), Fields(Key(AFTER_TIME, [])), Base64.Decode(s).value);
      }
  }

  /** A new cursor with default values, into which the argument is unpacked if there is one. */
  method UnpackBound(c: Option<string>, default: Key) returns (r: Option<Key>)
    ensures r == UnpackedBound(c, default)
  {
    var cur := new Cursor(Fields(default));
    if c.None? {
      return Some(default);
    }
    var err := cur.Unpack(c.value);
    if err.Some? {
      return None;
    }
    UnpackedKey(default, c.value, cur.fields);
    r := Some(Key(cur.fields[0].t.image, cur.fields[1].s));
  }

  lemma UnpackedKey(default: Key, s: string, fs: seq<Field>)
    requires UnpackString(Fields(default), s) == (fs, None)
    ensures |fs| == 2 && fs[0].Stamp? && fs[0].t.Marshals? && fs[1].Str?
  {
    KindsOfKey(default);
    SameKinds(Fields(default), fs);
    SameKinds(Fields(default)[1..], fs[1..]);
    if s != "" {
      ReadStampMarshals(Fields(default), Base64.Decode(s).value);
    }
  }

  /** A time that has been read has a binary form. */
  lemma ReadStampMarshals(into: seq<Field>, bs: seq<byte>)
    requires into != [] && into[0].Stamp? && UnpackFields(into, bs).1 == None
    ensures UnpackFields(into, bs).0[0].Stamp? && UnpackFields(into, bs).0[0].t.Marshals?
  {
  }

  /** Both cursors are unpacked over the default bounds, and the rows strictly between them are paged. */
  method Paginate(less: (Key, Key) -> bool, rows: seq<Row>, count: Count, before: Option<string>, after: Option<string>,
                  first: Option<nat>, last: Option<nat>)
    returns (r: Result<Page<Row>, PageError>)
    requires first.Some? || last.Some?
    ensures r == TimeIDKeying(less).Page(rows, count, before, after, first, last)
    ensures UnpackedBound(before, Key(BEFORE_TIME, [])).None? || UnpackedBound(after, Key(AFTER_TIME, [])).None? ==>
              r == Err(BadCursor)
  {
    var k := TimeIDKeying(less);
    var hi := UnpackBound(before, Key(BEFORE_TIME, []));
    var lo := UnpackBound(after, Key(AFTER_TIME, []));
    BoundIsUnpacked(less, before, Key(BEFORE_TIME, []));
    BoundIsUnpacked(less, after, Key(AFTER_TIME, []));
    var query: Query<Row> :=
      (limit, forward) =>
        if hi.None? || lo.None? then Err(BadCursor) else k.Select(rows, lo.value, hi.value, limit, forward);
    r := Keyset.Paginate(query, count, Packing(CursorOf), before, after, first, last);
    var limit := Int32(Limit(first, last));
    assert query(limit, first.Some?) == k.RangeQuery(rows, before, after)(limit, first.Some?);
  }

  // ---- ordinary dates ----

  /** Four bytes, the highest first. */
  function Word(a: int, b: int, c: int, d: int): int {
    0x100_0000 * a + 0x1_0000 * b + 0x100 * c + d
  }

  /** Seconds since the beginning of year 1, and nanoseconds within the second, as their binary form has them. */
  function SecondsOf(t: TimeImage): int {
    var u := 0x1_0000_0000 * Word(t[1], t[2], t[3], t[4]) + Word(t[5], t[6], t[7], t[8]);
    if u >= TWO_63 then u - TWO_64 else u
  }

  function NanosOf(t: TimeImage): int {
    Word(t[9], t[10], t[11], t[12])
  }

  predicate EarlierThan(t: TimeImage, seconds: int, nanos: int) {
    SecondsOf(t) < seconds || (SecondsOf(t) == seconds && NanosOf(t) < nanos)
  }

  predicate LaterThan(t: TimeImage, seconds: int, nanos: int) {
    SecondsOf(t) > seconds || (SecondsOf(t) == seconds && NanosOf(t) > nanos)
  }

  ghost predicate SortsByInstant(less: (Key, Key) -> bool) {
    forall x: Key, y: Key :: EarlierThan(x.time, SecondsOf(y.time), NanosOf(y.time)) ==> less(x, y)
  }

  /** Strictly between 1970-01-01T01:01:01.000000001Z and 3000-01-01T01:01:01.000000001Z. */
  predicate OrdinaryDate(t: TimeImage) {
    LaterThan(t, 62_135_600_461, 1) && EarlierThan(t, 94_639_280_461, 1)
  }

  lemma DefaultBounds()
    ensures SecondsOf(AFTER_TIME) == 62_135_600_461 && NanosOf(AFTER_TIME) == 1
    ensures SecondsOf(BEFORE_TIME) == 94_639_280_461 && NanosOf(BEFORE_TIME) == 1
  {
  }

  /** In an order that sorts by instant, ordinary dates lie inside the default bounds. */
  lemma OrdinaryDatesInside(less: (Key, Key) -> bool, k: Key)
    requires SortsByInstant(less) && OrdinaryDate(k.time)
    ensures less(TimeIDKeying(less).lowest, k) && less(k, TimeIDKeying(less).highest)
  {
    DefaultBounds();
    assert EarlierThan(AFTER_TIME, SecondsOf(k.time), NanosOf(k.time));
    assert EarlierThan(k.time, SecondsOf(BEFORE_TIME), NanosOf(BEFORE_TIME));
  }

  /** Rows of ordinary dates, in order. */
  ghost predicate Dated(less: (Key, Key) -> bool, rows: seq<Row>) {
    TimeIDKeying(less).Ascending(rows) && forall r :: r in rows ==> OrdinaryDate(r.time)
  }

  lemma DatedIsTable(less: (Key, Key) -> bool, rows: seq<Row>)
    requires SortsByInstant(less) && Dated(less, rows)
    ensures TimeIDKeying(less).Table(rows)
  {
    var k := TimeIDKeying(less);
    forall i | 0 <= i < |rows|
      ensures k.less(k.lowest, k.key(rows[i])) && k.less(k.key(rows[i]), k.highest)
    {
      assert rows[i] in rows;
      OrdinaryDatesInside(less, KeyOf(rows[i]));
    }
  }

  /** Pages of rows of ordinary dates are Relay pages. */
  lemma DatedPageIsRelay(less: (Key, Key) -> bool, rows: seq<Row>, total: Option<int>,
                         before: Option<string>, after: Option<string>, first: Option<nat>, last: Option<nat>)
    requires StrictTotalOrder(less) && SortsByInstant(less) && Dated(less, rows) && first.Some? != last.Some?
    requires TimeIDKeying(less).NamesRow(rows, before) && TimeIDKeying(less).NamesRow(rows, after)
    ensures var k := TimeIDKeying(less);
            k.Page(rows, Known(total), before, after, first, last)
            == Ok(RelayPage(rows, total, CursorOf, before, after, first, last))
            <==> if k.Precedes(after, before) then
                   LimitFits(Limit(first, last), |RelayApply(rows, CursorOf, before, after)|)
                 else After(k, rows, after) == |rows| && Int32(Limit(first, last)) >= 0
  {
    DatedIsTable(less, rows);
    TimeIDPageIsRelay(less, rows, total, before, after, first, last);
  }

  /** Walks over rows of ordinary dates receive every lasting key exactly once, and on a fixed table everything. */
  lemma DatedWalk(less: (Key, Key) -> bool, tables: seq<seq<Row>>, rows: seq<Row>, perPage: nat, x: Key, forward: bool)
    requires StrictTotalOrder(less) && SortsByInstant(less) && 1 <= perPage < MAX_INT32
    requires (forall t :: t in tables ==> Dated(less, t)) && AlwaysThere(TimeIDKeying(less), tables, x)
    requires Dated(less, rows)
    ensures var k := TimeIDKeying(less);
            var walk := if forward then Forward(k, tables, None, perPage) else Backward(k, tables, None, perPage);
            walk.finished ==> Times(k, walk.nodes, x) == 1
    ensures var k, requests := TimeIDKeying(less), Repeat(rows, PageCount(|rows|, perPage));
            Forward(k, requests, None, perPage) == Backward(k, requests, None, perPage) == Walk(rows, true)
  {
    forall t | t in tables
      ensures TimeIDKeying(less).Table(t)
    {
      DatedIsTable(less, t);
    }
    TimeIDWalk(less, tables, perPage, x, forward);
    KeyingIsValid(less);
    DatedIsTable(less, rows);
    WalksOfFixedTable(TimeIDKeying(less), rows, perPage);
  }

  // ---- what pages and walks give ----

  /** A (time, id) page with cursors of existing rows is the Relay page of the whole table under the exact
      condition for keyset pages. */
  lemma TimeIDPageIsRelay(less: (Key, Key) -> bool, rows: seq<Row>, total: Option<int>,
                          before: Option<string>, after: Option<string>, first: Option<nat>, last: Option<nat>)
    requires StrictTotalOrder(less) && first.Some? != last.Some?
    requires var k := TimeIDKeying(less); k.Table(rows) && k.NamesRow(rows, before) && k.NamesRow(rows, after)
    ensures var k := TimeIDKeying(less);
            k.Page(rows, Known(total), before, after, first, last)
            == Ok(RelayPage(rows, total, CursorOf, before, after, first, last))
            <==> if k.Precedes(after, before) then
                   LimitFits(Limit(first, last), |RelayApply(rows, CursorOf, before, after)|)
                 else After(k, rows, after) == |rows| && Int32(Limit(first, last)) >= 0
  {
    KeyingIsValid(less);
    KeysetIsRelay(TimeIDKeying(less), rows, total, before, after, first, last);
  }

  /** A finished walk over (time, id) pages, forward or backward, receives every key that stays in the table
      exactly once, and every row that stays unchanged as it is. */
  lemma TimeIDWalk(less: (Key, Key) -> bool, tables: seq<seq<Row>>, perPage: nat, x: Key, forward: bool)
    requires StrictTotalOrder(less) && 1 <= perPage < MAX_INT32
    requires AllTables(TimeIDKeying(less), tables) && AlwaysThere(TimeIDKeying(less), tables, x)
    ensures var k := TimeIDKeying(less);
            var walk := if forward then Forward(k, tables, None, perPage) else Backward(k, tables, None, perPage);
            walk.finished ==>
              && Times(k, walk.nodes, x) == 1
              && forall r: Row :: KeyOf(r) == x && (forall t :: t in tables ==> r in t) ==> r in walk.nodes
  {
    var k := TimeIDKeying(less);
    KeyingIsValid(less);
    ForwardExactlyOnce(k, tables, perPage, x);
    BackwardExactlyOnce(k, tables, perPage, x);
    var walk := if forward then Forward(k, tables, None, perPage) else Backward(k, tables, None, perPage);
    forall r: Row | walk.finished && KeyOf(r) == x && forall t :: t in tables ==> r in t
      ensures r in walk.nodes
    {
      UnchangedRow(k, tables, walk.nodes, r);
    }
  }
}
