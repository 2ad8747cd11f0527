// Paging through a fixed list of ids by position, in its two forms: querying the rows between two
// positions, and cutting an unfiltered result list at the cursors.
module PositionPaging {
  import opened Wrappers
  import opened Varint
  import opened CursorFormat
  import opened CursorRoundTrip
  import opened CursorReading
  import opened CursorCodec
  import opened Pages
  import opened Keyset
  import opened KeysetRelay
  import opened KeysetDeparted

  const DEFAULT_BEFORE_POSITION: int := MAX_INT32 - 1
  const DEFAULT_AFTER_POSITION: int := -1

  datatype User = User(id: Text, data: int)

  // ---- the position cursor ----

  /** The lookup of each element's index; a repeated element keeps its last one. */
  function IndexOf(s: seq<Text>): (m: map<Text, int>)
    ensures forall v :: v in m ==> 0 <= m[v] < |s|
  {
    if s == [] then map[] else IndexOf(s[..|s| - 1])[s[|s| - 1] := |s| - 1]
  }

  predicate Distinct(s: seq<Text>) {
    forall i, j :: 0 <= i < j < |s| ==> s[i] != s[j]
  }

  /** A lookup finds the last place of an element, and every element has one. */
  lemma {:induction false} IndexIsLastPlace(s: seq<Text>, v: Text)
    ensures v in IndexOf(s) <==> v in s
    ensures v in IndexOf(s) ==>
              s[IndexOf(s)[v]] == v && forall i :: IndexOf(s)[v] < i < |s| ==> s[i] != v
    decreases |s|
  {
    if s == [] {
    } else {
      var head := s[..|s| - 1];
      assert s == head + [s[|s| - 1]];
      IndexIsLastPlace(head, v);
    }
  }

  method SliceToMapIndex(s: seq<Text>) returns (result: map<Text, int>)
    ensures result == IndexOf(s)
  {
    result := map[];
    for i := 0 to |s|
      invariant result == IndexOf(s[..i])
    {
      assert s[..i + 1][..i] == s[..i];
      result := result[s[i] := i];
    }
    assert s[..|s|] == s;
  }

  class PositionCursor {
    const base: Cursor
    var positions: map<Text, int>

    ghost predicate Valid()
      reads this, base
    {
      |base.fields| == 2 && base.fields[0].Int? && base.fields[1].IDs?
    }

    function IDList(): TextList
      requires Valid()
      reads this, base
    {
      base.fields[1].ids
    }

    constructor ()
      ensures Valid() && fresh(base) && fresh(base.d)
      ensures base.fields == ZERO_CURSOR && positions == map[]
    {
      base := new Cursor(ZERO_CURSOR);
      positions := map[];
    }

    /** Reads the position and the ids, then indexes the ids. On error the index is left as it was. */
    method Unpack(s: string) returns (err: Option<ReadError>)
      requires Valid()
      modifies this, base, base.d
      ensures Valid()
      ensures (base.fields, err) == UnpackString(old(base.fields), s)
      ensures positions == if err == None then IndexOf(IDList()) else old(positions)
    {
      err := base.Unpack(s);
      SameKinds(old(base.fields), base.fields);
      SameKinds(old(base.fields)[1..], base.fields[1..]);
      if err.Some? {
        return;
      }
      positions := SliceToMapIndex(base.fields[1].ids);
    }
  }

  const ZERO_CURSOR: seq<Field> := [Int(0), IDs([])]

  // ---- cursors of users ----

  /** The index lookup of Go: a missing key reads as zero. */
  function PositionOf(ids: TextList, u: User): int64
    requires |ids| <= MAX_INT32
  {
    if u.id in IndexOf(ids) then IndexOf(ids)[u.id] else 0
  }

  function CursorOf(ids: TextList, u: User): string
    requires |ids| <= MAX_INT32
  {
    match PackString([Int(PositionOf(ids, u)), IDs(ids)])
    case Some(s) => s
    case None => ""
  }

  /** The position a cursor string carries, cut to 32 bits. The empty string leaves the zero of a new cursor. */
  function PositionIn(s: string): Option<int> {
    var (fields, err) := UnpackString(ZERO_CURSOR, s);
    if err == None && |fields| == 2 && fields[0].Int? then Some(Int32(fields[0].i)) else None
  }

  function PositionBound(c: Option<string>, default: int): Option<int> {
    match c
    case None => Some(default)
    case Some(s) => PositionIn(s)
  }

  /** Positions as sort keys: a list of ids defines the order and the cursors of its users. */
  ghost function PositionKeying(ids: TextList): Keying<User, int>
    requires |ids| <= MAX_INT32
  {
    Keying(u => PositionOf(ids, u), (x: int, y: int) => x < y, u => CursorOf(ids, u),
           PositionIn, DEFAULT_AFTER_POSITION, DEFAULT_BEFORE_POSITION)
  }

  type PositionQuery = (int, int) -> Result<seq<User>, PageError>

  /** Filtering in the database: ordinals count from one, so both bounds are shifted (in 32 bits). */
  function QueryByPosition(ids: TextList, users: seq<User>): PositionQuery
    requires |ids| <= MAX_INT32
  {
    (beforePos, afterPos) => Ok(Filter(WithOrdinal(ids, beforePos, afterPos), users))
  }

  function WithOrdinal(ids: TextList, beforePos: int, afterPos: int): User -> bool
    requires |ids| <= MAX_INT32
  {
    (u: User) => Int32(afterPos + 1) < PositionOf(ids, u) + 1 < Int32(beforePos + 1)
  }

  /** Results that are already at hand are returned whole, whatever the bounds. */
  function QueryResults(users: seq<User>): PositionQuery {
    (_, _) => Ok(users)
  }

  function PositionPage(query: PositionQuery, pack: Packer<User>, before: Option<string>, after: Option<string>,
                        first: Option<nat>, last: Option<nat>): Result<Page<User>, PageError>
  {
    match PositionBound(before, DEFAULT_BEFORE_POSITION)
    case None => Err(BadCursor)
    case Some(beforePos) =>
      match PositionBound(after, DEFAULT_AFTER_POSITION)
      case None => Err(BadCursor)
      case Some(afterPos) =>
        match query(beforePos, afterPos)
        case Err(e) => Err(e)
        case Ok(results) => PageFrom(results, None, pack, before, after, first, last)
  }

  method UnpackPosition(s: string) returns (pos: Option<int>)
    ensures pos == PositionIn(s)
  {
    var cur := new PositionCursor();
    var err := cur.Unpack(s);
    pos := if err.Some? then None else Some(Int32(cur.base.fields[0].i));
  }

  method Paginate(query: PositionQuery, pack: Packer<User>, before: Option<string>, after: Option<string>,
                  first: Option<nat>, last: Option<nat>)
    returns (r: Result<Page<User>, PageError>)
    ensures r == PositionPage(query, pack, before, after, first, last)
  {
    var beforePos, afterPos := DEFAULT_BEFORE_POSITION, DEFAULT_AFTER_POSITION;
    if before.Some? {
      var pos := UnpackPosition(before.value);
      if pos.None? {
        return Err(BadCursor);
      }
      beforePos := pos.value;
    }
    if after.Some? {
      var pos := UnpackPosition(after.value);
      if pos.None? {
        return Err(BadCursor);
      }
      afterPos := pos.value;
    }
    var results := query(beforePos, afterPos);
    if results.Err? {
      return Err(results.error);
    }
    r := BuildPage(results.value, None, pack, before, after, first, last);
  }

  /** The empty cursor string stands for position zero, and a string that cannot be unpacked for none; the
      page then fails. */
  lemma OddCursors(s: string, other: Option<string>, query: PositionQuery, pack: Packer<User>,
                   first: Option<nat>, last: Option<nat>)
    ensures PositionIn("") == Some(0)
    ensures PositionIn(s) == None <==> UnpackString(ZERO_CURSOR, s).1.Some?
    ensures PositionIn(s) == None ==>
              && PositionPage(query, pack, Some(s), other, first, last) == Err(BadCursor)
              && PositionPage(query, pack, other, Some(s), first, last) == Err(BadCursor)
  {
    NothingToRead(ZERO_CURSOR, "");
    var (fields, err) := UnpackString(ZERO_CURSOR, s);
    ZeroKinds();
    SameKinds(ZERO_CURSOR, fields);
  }

  lemma ZeroKinds()
    ensures Kinds(ZERO_CURSOR) == [KInt, KIDs] == Layout(Position)
  {
    assert ZERO_CURSOR[1..] == [IDs([])];
  }

  /** A position beyond 32 bits wraps. */
  lemma AnyPosition(ids: TextList, p: int64)
    requires ids == [] || ids[|ids| - 1] != []
    ensures PackString([Int(p), IDs(ids)]).Some?
    ensures PositionIn(PackString([Int(p), IDs(ids)]).value) == Some(Int32(p))
  {
    var fs := [Int(p), IDs(ids)];
    assert fs[1..] == [IDs(ids)];
    ZeroKinds();
    WhatPacks(fs);
    PackUnpack(fs, ZERO_CURSOR);
  }

  /** Shifting the highest position wraps as well, and nothing is selected. */
  lemma ShiftWraps(ids: TextList, users: seq<User>, lo: int)
    requires |ids| <= MAX_INT32
    ensures QueryByPosition(ids, users)(MAX_INT32, lo) == Ok([])
  {
    assert Int32(MAX_INT32 + 1) < 0;
    FilterNone(WithOrdinal(ids, MAX_INT32, lo), users);
  }

  /** A user who is not in the list gets the first position. */
  lemma UnknownUser(ids: TextList, u: User)
    requires |ids| <= MAX_INT32 && u.id !in ids
    ensures PositionOf(ids, u) == 0
  {
    IndexIsLastPlace(ids, u.id);
  }

  // ---- the two forms agree ----

  /** The ids can be put into a cursor and read back, and every position is below the default bound. */
  predicate Pageable(ids: TextList) {
    Distinct(ids) && |ids| < MAX_INT32 && (ids == [] || ids[|ids| - 1] != [])
  }

  /** Users of the list in the order of the list; some ids may have no user any more. */
  predicate InListOrder(ids: TextList, users: seq<User>)
    requires |ids| <= MAX_INT32
  {
    && (forall u :: u in users ==> u.id in ids)
    && (forall i, j :: 0 <= i < j < |users| ==> PositionOf(ids, users[i]) < PositionOf(ids, users[j]))
  }

  lemma PositionCursorDecodes(ids: TextList, u: User)
    requires Pageable(ids)
    ensures CursorOf(ids, u) != "" && PositionIn(CursorOf(ids, u)) == Some(PositionOf(ids, u))
  {
    var fs := [Int(PositionOf(ids, u)), IDs(ids)];
    assert Kinds(fs) == [KInt, KIDs] == Kinds(ZERO_CURSOR);
    WhatPacks(fs);
    PackUnpack(fs, ZERO_CURSOR);
  }

  lemma KeyingIsValid(ids: TextList)
    requires Pageable(ids)
    ensures PositionKeying(ids).Valid()
  {
    var k := PositionKeying(ids);
    forall u: User
      ensures k.cursor(u) != "" && k.decode(k.cursor(u)) == Some(k.key(u))
    {
      PositionCursorDecodes(ids, u);
    }
  }

  lemma UsersAreTable(ids: TextList, users: seq<User>)
    requires Pageable(ids) && InListOrder(ids, users)
    ensures PositionKeying(ids).Table(users)
  {
    forall i | 0 <= i < |users|
      ensures -1 < PositionOf(ids, users[i]) < DEFAULT_BEFORE_POSITION
    {
      assert users[i] in users;
      IndexIsLastPlace(ids, users[i].id);
    }
  }

  /** The shifted bounds of the query select the positions strictly between the unshifted ones. */
  lemma {:induction false} ShiftedBounds(ids: TextList, users: seq<User>, lo: int, hi: int)
    requires |ids| <= MAX_INT32 && -1 <= lo <= DEFAULT_BEFORE_POSITION && -1 <= hi <= DEFAULT_BEFORE_POSITION
    ensures QueryByPosition(ids, users)(hi, lo) == Ok(PositionKeying(ids).Between(users, lo, hi))
  {
    var k := PositionKeying(ids);
    if users == [] {
    } else {
      ShiftedBounds(ids, users[1..], lo, hi);
      assert k.Inside(lo, hi, users[0]) <==> Int32(lo + 1) < PositionOf(ids, users[0]) + 1 < Int32(hi + 1);
      assert k.Between(users[1..], lo, hi) == QueryByPosition(ids, users[1..])(hi, lo).value;
    }
  }

  /** The users strictly between two cursors. */
  ghost function UsersBetween(ids: TextList, users: seq<User>, before: Option<string>,
                              after: Option<string>): seq<User>
    requires |ids| <= MAX_INT32
    requires var k := PositionKeying(ids); k.Bound(before, k.highest).Some? && k.Bound(after, k.lowest).Some?
  {
    var k := PositionKeying(ids);
    k.Between(users, k.Bound(after, k.lowest).value, k.Bound(before, k.highest).value)
  }

  lemma NothingMoreIsCut(ids: TextList, users: seq<User>, before: Option<string>, after: Option<string>)
    requires Pageable(ids)
    requires var k := PositionKeying(ids); k.Bound(before, k.highest).Some? && k.Bound(after, k.lowest).Some?
    ensures var edges := UsersBetween(ids, users, before, after);
            CutCursors(edges, Packing(PositionKeying(ids).cursor), before, after) == Some(edges)
  {
    var k, edges := PositionKeying(ids), UsersBetween(ids, users, before, after);
    KeyingIsValid(ids);
    CursorsOutside(k, users, before, after);
    CutIsIdentity(edges, Packing(k.cursor), before, after);
  }

  /** The cursor was made for a user of the list, who may have left since. */
  ghost predicate Minted(ids: TextList, c: Option<string>)
    requires |ids| <= MAX_INT32
  {
    c.Some? ==> exists u: User :: u.id in ids && c.value == CursorOf(ids, u)
  }

  lemma NamedIsMinted(ids: TextList, users: seq<User>, c: Option<string>)
    requires Pageable(ids) && InListOrder(ids, users) && PositionKeying(ids).NamesRow(users, c)
    ensures Minted(ids, c)
  {
    if c.Some? {
      var i :| 0 <= i < |users| && c.value == PositionKeying(ids).cursor(users[i]);
      assert users[i] in users && c.value == CursorOf(ids, users[i]);
    }
  }

  /** The filtered query fetches exactly the users between the cursors, and nothing more is cut from them. */
  lemma FilteredEdges(ids: TextList, users: seq<User>, before: Option<string>, after: Option<string>,
                      first: Option<nat>, last: Option<nat>)
    requires Pageable(ids) && InListOrder(ids, users) && Minted(ids, before) && Minted(ids, after)
    ensures var k := PositionKeying(ids); k.Bound(before, k.highest).Some? && k.Bound(after, k.lowest).Some?
    ensures var pack := Packing(PositionKeying(ids).cursor);
            PositionPage(QueryByPosition(ids, users), pack, before, after, first, last)
            == Finish(UsersBetween(ids, users, before, after), None, pack, first, last)
  {
    var k := PositionKeying(ids);
    BoundAgrees(ids, before, DEFAULT_BEFORE_POSITION);
    BoundAgrees(ids, after, DEFAULT_AFTER_POSITION);
    ShiftedBounds(ids, users, k.Bound(after, k.lowest).value, k.Bound(before, k.highest).value);
    NothingMoreIsCut(ids, users, before, after);
  }

  /** What the unfiltered form keeps are the edges that the specification keeps. */
  lemma WholeEdges(ids: TextList, users: seq<User>, before: Option<string>, after: Option<string>,
                   first: Option<nat>, last: Option<nat>)
    requires Pageable(ids) && InListOrder(ids, users)
    requires PositionKeying(ids).NamesRow(users, before) && PositionKeying(ids).NamesRow(users, after)
    ensures var k := PositionKeying(ids);
            PositionPage(QueryResults(users), Packing(k.cursor), before, after, first, last)
            == Finish(RelayApply(users, k.cursor, before, after), None, Packing(k.cursor), first, last)
  {
    var k := PositionKeying(ids);
    KeyingIsValid(ids);
    UsersAreTable(ids, users);
    NamedIsMinted(ids, users, before);
    NamedIsMinted(ids, users, after);
    BoundAgrees(ids, before, DEFAULT_BEFORE_POSITION);
    BoundAgrees(ids, after, DEFAULT_AFTER_POSITION);
    DistinctCursors(k, users);
    CutIsRelayApply(users, k.cursor, before, after);
  }

  /** Whatever is asked for, a page of no edges is the page of no other edges. */
  lemma EmptyFinish(edges: seq<User>, cursor: User -> string, first: Option<nat>, last: Option<nat>)
    ensures Finish(edges, None, Packing(cursor), first, last) == Finish([], None, Packing(cursor), first, last)
       <==> edges == []
  {
    if edges != [] {
      var page := Finish(edges, None, Packing(cursor), first, last).value;
      var none := Finish([], None, Packing(cursor), first, last).value;
      assert !none.info.hasNextPage && !none.info.hasPreviousPage && none.nodes == [];
      assert page.info.hasNextPage || page.info.hasPreviousPage || page.nodes == edges;
    }
  }

  /** Paging by a filtered query and paging the whole fixed list give the same page for cursors of users in
      the list, whatever `first` and `last` are, if and only if `after` is ahead of `before` or `after` is the
      last user of all. */
  lemma FormsAgree(ids: TextList, users: seq<User>, before: Option<string>, after: Option<string>,
                   first: Option<nat>, last: Option<nat>)
    requires Pageable(ids) && InListOrder(ids, users)
    requires PositionKeying(ids).NamesRow(users, before) && PositionKeying(ids).NamesRow(users, after)
    ensures var k := PositionKeying(ids);
            PositionPage(QueryByPosition(ids, users), Packing(k.cursor), before, after, first, last)
            == PositionPage(QueryResults(users), Packing(k.cursor), before, after, first, last)
            <==> k.Precedes(after, before) || After(k, users, after) == |users|
  {
    var k := PositionKeying(ids);
    KeyingIsValid(ids);
    UsersAreTable(ids, users);
    NamedIsMinted(ids, users, before);
    NamedIsMinted(ids, users, after);
    FilteredEdges(ids, users, before, after, first, last);
    WholeEdges(ids, users, before, after, first, last);
    RangeIsRelay(k, users, before, after);
    if !k.Precedes(after, before) {
      NothingBetween(k, users, before, after);
      EmptyFinish(RelayApply(users, k.cursor, before, after), k.cursor, first, last);
    }
  }

  /** The unfiltered form gives the Relay page of the whole list. */
  lemma WholeFormIsRelay(ids: TextList, users: seq<User>, before: Option<string>, after: Option<string>,
                         first: Option<nat>, last: Option<nat>)
    requires Pageable(ids) && InListOrder(ids, users) && !(first.Some? && last.Some?)
    requires PositionKeying(ids).NamesRow(users, before) && PositionKeying(ids).NamesRow(users, after)
    ensures var k := PositionKeying(ids);
            PositionPage(QueryResults(users), Packing(k.cursor), before, after, first, last)
            == Ok(RelayPage(users, None, k.cursor, before, after, first, last))
  {
    var k := PositionKeying(ids);
    WholeEdges(ids, users, before, after, first, last);
    FinishIsRelayCut(RelayApply(users, k.cursor, before, after), None, k.cursor, first, last);
    assert Known(None) == None;
  }

  /** The filtered form gives it under the same condition. */
  lemma FilteredFormIsRelay(ids: TextList, users: seq<User>, before: Option<string>, after: Option<string>,
                            first: Option<nat>, last: Option<nat>)
    requires Pageable(ids) && InListOrder(ids, users) && !(first.Some? && last.Some?)
    requires PositionKeying(ids).NamesRow(users, before) && PositionKeying(ids).NamesRow(users, after)
    ensures var k := PositionKeying(ids);
            PositionPage(QueryByPosition(ids, users), Packing(k.cursor), before, after, first, last)
            == Ok(RelayPage(users, None, k.cursor, before, after, first, last))
            <==> k.Precedes(after, before) || After(k, users, after) == |users|
  {
    FormsAgree(ids, users, before, after, first, last);
    WholeFormIsRelay(ids, users, before, after, first, last);
  }

  lemma BoundAgrees(ids: TextList, c: Option<string>, default: int)
    requires Pageable(ids) && Minted(ids, c) && -1 <= default <= DEFAULT_BEFORE_POSITION
    ensures PositionBound(c, default) == PositionKeying(ids).Bound(c, default)
    ensures PositionBound(c, default).Some? && -1 <= PositionBound(c, default).value <= DEFAULT_BEFORE_POSITION
  {
    if c.Some? {
      var u: User :| u.id in ids && c.value == CursorOf(ids, u);
      PositionCursorDecodes(ids, u);
    }
  }

  // ---- users who have left the list ----

  /** A user at this user's position is among the users. */
  ghost predicate StillThere(ids: TextList, users: seq<User>, gone: User)
    requires |ids| <= MAX_INT32
  {
    exists u :: u in users && PositionOf(ids, u) == PositionOf(ids, gone)
  }

  lemma ThereIsNamed(ids: TextList, users: seq<User>, gone: User)
    requires Pageable(ids) && StillThere(ids, users, gone)
    ensures PositionKeying(ids).NamesRow(users, Some(CursorOf(ids, gone)))
  {
    var u :| u in users && PositionOf(ids, u) == PositionOf(ids, gone);
    var i :| 0 <= i < |users| && users[i] == u;
    assert CursorOf(ids, gone) == PositionKeying(ids).cursor(users[i]);
  }

  lemma DepartedIsGone(ids: TextList, users: seq<User>, gone: User)
    requires Pageable(ids) && gone.id in ids && !StillThere(ids, users, gone)
    ensures Gone(PositionKeying(ids), users, CursorOf(ids, gone), PositionOf(ids, gone))
  {
    PositionCursorDecodes(ids, gone);
    forall u | u in users
      ensures CursorOf(ids, u) != CursorOf(ids, gone)
    {
      PositionCursorDecodes(ids, u);
    }
  }

  /** Without the cursor's user, the unfiltered form pages all users. */
  lemma WholeIgnoresDeparted(ids: TextList, users: seq<User>, gone: User, first: Option<nat>, last: Option<nat>)
    requires Pageable(ids) && gone.id in ids && !StillThere(ids, users, gone) && !(first.Some? && last.Some?)
    ensures var k := PositionKeying(ids);
            var c, page := Some(CursorOf(ids, gone)), RelayCut(users, None, k.cursor, first, last);
            && PositionPage(QueryResults(users), Packing(k.cursor), None, c, first, last) == Ok(page)
            && PositionPage(QueryResults(users), Packing(k.cursor), c, None, first, last) == Ok(page)
  {
    var k, c := PositionKeying(ids), Some(CursorOf(ids, gone));
    DepartedIsGone(ids, users, gone);
    assert Minted(ids, c);
    BoundAgrees(ids, c, DEFAULT_BEFORE_POSITION);
    BoundAgrees(ids, c, DEFAULT_AFTER_POSITION);
    CutIsIdentity(users, Packing(k.cursor), None, c);
    CutIsIdentity(users, Packing(k.cursor), c, None);
    FinishIsRelayCut(users, None, k.cursor, first, last);
    assert Known(None) == None;
  }

  /** When the user that an `after` cursor was made for may have left, the two forms give the same page if and
      only if that user is still there, nobody is at an earlier position, or the page hides those who are. */
  lemma DepartedAfter(ids: TextList, users: seq<User>, gone: User, first: Option<nat>, last: Option<nat>)
    requires Pageable(ids) && InListOrder(ids, users) && gone.id in ids && !(first.Some? && last.Some?)
    ensures var k, c := PositionKeying(ids), Some(CursorOf(ids, gone));
            var later := |k.Between(users, PositionOf(ids, gone), DEFAULT_BEFORE_POSITION)|;
            PositionPage(QueryByPosition(ids, users), Packing(k.cursor), None, c, first, last)
            == PositionPage(QueryResults(users), Packing(k.cursor), None, c, first, last)
            <==> StillThere(ids, users, gone) || later == |users| || StartHidden(later, first, last)
  {
    var k, c := PositionKeying(ids), Some(CursorOf(ids, gone));
    if StillThere(ids, users, gone) {
      ThereIsNamed(ids, users, gone);
      FormsAgree(ids, users, None, c, first, last);
    } else {
      PositionCursorDecodes(ids, gone);
      assert Minted(ids, c);
      FilteredEdges(ids, users, None, c, first, last);
      WholeIgnoresDeparted(ids, users, gone, first, last);
      KeyingIsValid(ids);
      UsersAreTable(ids, users);
      var i := AboveIsSuffix(k, users, PositionOf(ids, gone));
      FinishIsRelayCut(users[i..], None, k.cursor, first, last);
      RowsAreDistinct(k, users);
      CutOfSuffix(users, i, None, k.cursor, first, last);
    }
  }

  /** The same for a `before` cursor and those at later positions. */
  lemma DepartedBefore(ids: TextList, users: seq<User>, gone: User, first: Option<nat>, last: Option<nat>)
    requires Pageable(ids) && InListOrder(ids, users) && gone.id in ids && !(first.Some? && last.Some?)
    ensures var k, c := PositionKeying(ids), Some(CursorOf(ids, gone));
            var earlier := |k.Between(users, DEFAULT_AFTER_POSITION, PositionOf(ids, gone))|;
            PositionPage(QueryByPosition(ids, users), Packing(k.cursor), c, None, first, last)
            == PositionPage(QueryResults(users), Packing(k.cursor), c, None, first, last)
            <==> StillThere(ids, users, gone) || earlier == |users| || EndHidden(earlier, first, last)
  {
    var k, c := PositionKeying(ids), Some(CursorOf(ids, gone));
    if StillThere(ids, users, gone) {
      ThereIsNamed(ids, users, gone);
      FormsAgree(ids, users, c, None, first, last);
    } else {
      PositionCursorDecodes(ids, gone);
      assert Minted(ids, c);
      FilteredEdges(ids, users, c, None, first, last);
      WholeIgnoresDeparted(ids, users, gone, first, last);
      KeyingIsValid(ids);
      UsersAreTable(ids, users);
      var j := BelowIsPrefix(k, users, PositionOf(ids, gone));
      FinishIsRelayCut(users[..j], None, k.cursor, first, last);
      RowsAreDistinct(k, users);
      CutOfPrefix(users, j, None, k.cursor, first, last);
    }
  }
}
