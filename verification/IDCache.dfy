// A lazy cache of id lists that stores the list as a packed position cursor.
module IDCache {
  import opened Wrappers
  import opened Varint
  import opened CursorFormat
  import opened CursorRoundTrip
  import opened CursorCodec
  import opened PositionPaging

  datatype CacheError = Unavailable | CalculationFailed | Corrupt(error: ReadError)

  /** What filling the cache stores: position zero and the ids. */
  function Stored(ids: TextList): string {
    match PackString([Int(0), IDs(ids)])
    case Some(s) => s
    case None => ""
  }

  /** What loading returns for a stored value. */
  function Loaded(s: string): Result<TextList, CacheError> {
    var (fields, err) := UnpackString(ZERO_CURSOR, s);
    if err.Some? then Err(Corrupt(err.value))
    else if |fields| == 2 && fields[1].IDs? then Ok(fields[1].ids)
    else Ok([])
  }

  class DBIDCache {
    var entry: Option<string>

    constructor ()
      ensures entry == None
    {
      entry := None;
    }

    /** Returns the cached list, calculating and storing it when there is none. `ids` is the outcome the
        calculation has if it is needed; `readable` and `writable` say whether the store answers. */
    method Load(ids: Option<TextList>, readable: bool, writable: bool) returns (r: Result<TextList, CacheError>)
      modifies this
      ensures !readable ==> r == Err(Unavailable) && entry == old(entry)
      ensures readable && old(entry).Some? ==> r == Loaded(old(entry).value) && entry == old(entry)
      ensures readable && old(entry).None? && ids.None? ==> r == Err(CalculationFailed) && entry == None
      ensures readable && old(entry).None? && ids.Some? ==>
                && entry == (if writable then Some(Stored(ids.value)) else None)
                && r == if writable then Loaded(Stored(ids.value)) else Err(Unavailable)
    {
      if !readable {
        return Err(Unavailable);
      }
      var b: string;
      if entry.Some? {
        b := entry.value;
      } else {
        if ids.None? {
          return Err(CalculationFailed);
        }
        var filled := new PositionCursor();
        filled.base.fields := [Int(0), IDs(ids.value)];
        var packed := filled.base.Pack();
        WhatPacks(filled.base.fields);
        b := packed.value;
        if !writable {
          return Err(Unavailable);
        }
        entry := Some(b);
      }
      var cur := new PositionCursor();
      var err := cur.Unpack(b);
      r := if err.Some? then Err(Corrupt(err.value)) else Ok(cur.base.fields[1].ids);
    }
  }

  /** The cache is transparent: what was stored is what is loaded, on the filling call and on every later
      one, if and only if the list is empty or its last id is not. Otherwise loading reports the end of
      the stream. */
  lemma CacheIsTransparent(ids: TextList)
    ensures Loaded(Stored(ids)) == Ok(ids) <==> ids == [] || ids[|ids| - 1] != []
    ensures !(ids == [] || ids[|ids| - 1] != []) ==> Loaded(Stored(ids)) == Err(Corrupt(EndOfStream))
    ensures UnpackString(ZERO_CURSOR, Stored(ids)).0[0] == Int(0)
  {
    var fs := [Int(0), IDs(ids)];
    assert fs[1..] == [IDs(ids)] && ZERO_CURSOR[1..] == [IDs([])];
    assert Kinds(fs) == [KInt, KIDs] == Kinds(ZERO_CURSOR);
    WhatPacks(fs);
    PackUnpack(fs, ZERO_CURSOR);
  }
}
