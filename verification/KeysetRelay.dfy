// Keyset pages against the Relay algorithm on the whole table.
module KeysetRelay {
  import opened Wrappers
  import opened Pages
  import opened Keyset

  /** The fetch limit survives its conversion to 32 bits, or everything in range fits under what is left of it. */
  predicate LimitFits(limit: nat, inRange: nat) {
    Int32(limit) == limit || inRange <= Int32(limit)
  }

  /** What is fetched, in ascending order, from the rows `range` of the queried key range. */
  function Fetched<T>(range: seq<T>, limit: nat, forward: bool): seq<T> {
    if |range| <= limit then range
    else if forward then range[..limit]
    else range[|range| - limit..]
  }

  lemma FetchedInOrder<T>(range: seq<T>, limit: nat, forward: bool)
    ensures (if forward then Take(range, limit) else Reversed(Take(Reversed(range), limit)))
            == Fetched(range, limit, forward)
  {
  }

  /** One extra row is enough to cut the page and to tell whether more rows follow; with any less, and more
      rows in the range, the result is wrong. */
  lemma OneMoreIsEnough<Node>(range: seq<Node>, total: Option<int>, cursor: Node -> string,
                              first: Option<nat>, last: Option<nat>, limit: nat)
    requires first.Some? != last.Some?
    ensures Limit(first, last) == limit ==>
              RelayCut(Fetched(range, limit, first.Some?), total, cursor, first, last)
              == RelayCut(range, total, cursor, first, last)
    ensures limit < |range| && limit < Limit(first, last) ==>
              RelayCut(Fetched(range, limit, first.Some?), total, cursor, first, last)
              != RelayCut(range, total, cursor, first, last)
  {
    var all := RelayCut(range, total, cursor, first, last);
    var cut := RelayCut(Fetched(range, limit, first.Some?), total, cursor, first, last);
    if Limit(first, last) == limit {
      assert cut.nodes == all.nodes;
    } else if limit < |range| && limit + 1 == Limit(first, last) {
      assert cut.info != all.info;
    } else if limit < |range| && limit < Limit(first, last) {
      assert |cut.nodes| < |all.nodes|;
    }
  }

  /** No row strictly inside the range carries one of the two cursor strings that bound it. */
  lemma CursorsOutside<Node(!new), Key(!new)>(k: Keying<Node, Key>, rows: seq<Node>,
                                              before: Option<string>, after: Option<string>)
    requires k.Valid() && k.Bound(before, k.highest).Some? && k.Bound(after, k.lowest).Some?
    ensures var range := k.Between(rows, k.Bound(after, k.lowest).value, k.Bound(before, k.highest).value);
            forall n :: n in range ==>
              && k.Inside(k.Bound(after, k.lowest).value, k.Bound(before, k.highest).value, n)
              && (before.Some? ==> k.cursor(n) != before.value) && (after.Some? ==> k.cursor(n) != after.value)
  {
    var lo, hi := k.Bound(after, k.lowest).value, k.Bound(before, k.highest).value;
    forall n | n in k.Between(rows, lo, hi)
      ensures k.Inside(lo, hi, n)
      ensures (before.Some? ==> k.cursor(n) != before.value) && (after.Some? ==> k.cursor(n) != after.value)
    {
      FilterMember(m => k.Inside(lo, hi, m), rows, n);
      assert k.decode(k.cursor(n)) == Some(k.key(n));
    }
  }

  /** The query refuses a limit that is negative in 32 bits. */
  lemma NegativeLimit<Node(!new), Key(!new)>(k: Keying<Node, Key>, rows: seq<Node>, count: Count,
                                             before: Option<string>, after: Option<string>,
                                             first: Option<nat>, last: Option<nat>)
    requires k.Bound(before, k.highest).Some? && k.Bound(after, k.lowest).Some?
    requires first.Some? != last.Some? && Int32(Limit(first, last)) < 0
    ensures k.Page(rows, count, before, after, first, last) == Err(QueryFailed)
  {
    assert k.RangeQuery(rows, before, after)(Int32(Limit(first, last)), first.Some?) == Err(QueryFailed);
  }

  /** A keyset page is the specification's cut of the rows that were fetched. */
  lemma PageOfFetched<Node(!new), Key(!new)>(k: Keying<Node, Key>, rows: seq<Node>, total: Option<int>,
                                             before: Option<string>, after: Option<string>,
                                             first: Option<nat>, last: Option<nat>)
    requires k.Valid() && k.Bound(before, k.highest).Some? && k.Bound(after, k.lowest).Some?
    requires first.Some? != last.Some? && Int32(Limit(first, last)) >= 0
    ensures var range := k.Between(rows, k.Bound(after, k.lowest).value, k.Bound(before, k.highest).value);
            var results := Fetched(range, Int32(Limit(first, last)), first.Some?);
            k.Page(rows, Known(total), before, after, first, last)
            == Ok(RelayCut(results, total, k.cursor, first, last))
  {
    var range := k.Between(rows, k.Bound(after, k.lowest).value, k.Bound(before, k.highest).value);
    var limit := Int32(Limit(first, last));
    var results := Fetched(range, limit, first.Some?);
    FetchedInOrder(range, limit, first.Some?);
    assert InOrder(k.RangeQuery(rows, before, after)(limit, first.Some?), first.Some?) == Ok(results);
    CursorsOutside(k, rows, before, after);
    CutIsIdentity(results, Packing(k.cursor), before, after);
    FinishIsRelayCut(results, total, k.cursor, first, last);
  }

  /** A keyset page is the specification's cut of the rows in the key range, if and only if the limit fits. */
  lemma PageOfRange<Node(!new), Key(!new)>(k: Keying<Node, Key>, rows: seq<Node>, total: Option<int>,
                                           before: Option<string>, after: Option<string>,
                                           first: Option<nat>, last: Option<nat>)
    requires k.Valid() && k.Bound(before, k.highest).Some? && k.Bound(after, k.lowest).Some?
    requires first.Some? != last.Some?
    ensures var range := k.Between(rows, k.Bound(after, k.lowest).value, k.Bound(before, k.highest).value);
            k.Page(rows, Known(total), before, after, first, last) == Ok(RelayCut(range, total, k.cursor, first, last))
            <==> LimitFits(Limit(first, last), |range|)
  {
    var lo, hi := k.Bound(after, k.lowest).value, k.Bound(before, k.highest).value;
    var range, limit := k.Between(rows, lo, hi), Int32(Limit(first, last));
    if limit >= 0 {
      PageOfFetched(k, rows, total, before, after, first, last);
      OneMoreIsEnough(range, total, k.cursor, first, last, limit);
    } else {
      NegativeLimit(k, rows, Known(total), before, after, first, last);
    }
  }

  /** With `after` ahead of `before`, the range is what the specification keeps, and the limit decides. */
  lemma InOrderCursors<Node(!new), Key(!new)>(k: Keying<Node, Key>, rows: seq<Node>, total: Option<int>,
                                              before: Option<string>, after: Option<string>,
                                              first: Option<nat>, last: Option<nat>)
    requires k.Valid() && k.Table(rows) && k.NamesRow(rows, before) && k.NamesRow(rows, after)
    requires first.Some? != last.Some? && k.Precedes(after, before)
    ensures k.Page(rows, Known(total), before, after, first, last)
            == Ok(RelayPage(rows, total, k.cursor, before, after, first, last))
            <==> LimitFits(Limit(first, last), |RelayApply(rows, k.cursor, before, after)|)
  {
    RangeIsRelay(k, rows, before, after);
    PageOfRange(k, rows, total, before, after, first, last);
  }

  /** When `after` does not precede `before` (both existing rows), the range is empty, and the two agree only if
      `after` is the last row and the query accepts its limit. */
  lemma OutOfOrderCursors<Node(!new), Key(!new)>(k: Keying<Node, Key>, rows: seq<Node>, total: Option<int>,
                                                 before: Option<string>, after: Option<string>,
                                                 first: Option<nat>, last: Option<nat>)
    requires k.Valid() && k.Table(rows) && k.NamesRow(rows, before) && k.NamesRow(rows, after)
    requires first.Some? != last.Some? && !k.Precedes(after, before)
    ensures k.Page(rows, Known(total), before, after, first, last)
            == Ok(RelayPage(rows, total, k.cursor, before, after, first, last))
            <==> After(k, rows, after) == |rows| && Int32(Limit(first, last)) >= 0
  {
    NothingBetween(k, rows, before, after);
    RelayIsSlice(k, rows, before, after);
    if Int32(Limit(first, last)) < 0 {
      NegativeLimit(k, rows, Known(total), before, after, first, last);
    } else {
      PageOfRange(k, rows, total, before, after, first, last);
      EmptyCut(rows[After(k, rows, after)..], total, k.cursor, first, last);
    }
  }

  /** On a table in key order, for cursors of existing rows in either order, a keyset page (nodes, flags and
      cursors) is the page of the Relay algorithm run on the whole table if and only if: with `after` ahead of
      `before`, the limit of one more than `first` or `last` fits in 32 bits (or nothing beyond it is in range);
      otherwise, `after` is the last row and the limit is not negative in 32 bits. */
  lemma KeysetIsRelay<Node(!new), Key(!new)>(k: Keying<Node, Key>, rows: seq<Node>, total: Option<int>,
                                             before: Option<string>, after: Option<string>,
                                             first: Option<nat>, last: Option<nat>)
    requires k.Valid() && k.Table(rows) && k.NamesRow(rows, before) && k.NamesRow(rows, after)
    requires first.Some? != last.Some?
    ensures k.Page(rows, Known(total), before, after, first, last)
            == Ok(RelayPage(rows, total, k.cursor, before, after, first, last))
            <==> if k.Precedes(after, before) then
                   LimitFits(Limit(first, last), |RelayApply(rows, k.cursor, before, after)|)
                 else After(k, rows, after) == |rows| && Int32(Limit(first, last)) >= 0
  {
    if k.Precedes(after, before) {
      InOrderCursors(k, rows, total, before, after, first, last);
    } else {
      OutOfOrderCursors(k, rows, total, before, after, first, last);
    }
  }

  lemma NothingBetween<Node(!new), Key(!new)>(k: Keying<Node, Key>, rows: seq<Node>,
                                              before: Option<string>, after: Option<string>)
    requires k.Valid() && k.Table(rows) && k.NamesRow(rows, before) && k.NamesRow(rows, after)
    requires !k.Precedes(after, before)
    ensures Before(k, rows, before) < After(k, rows, after)
    ensures k.Bound(before, k.highest).Some? && k.Bound(after, k.lowest).Some?
    ensures k.Between(rows, k.Bound(after, k.lowest).value, k.Bound(before, k.highest).value) == []
  {
    RangeIsSlice(k, rows, before, after);
    var i, j := After(k, rows, after), Before(k, rows, before);
    assert k.decode(after.value) == Some(k.key(rows[i - 1])) && k.decode(before.value) == Some(k.key(rows[j]));
  }

  lemma EmptyCut<Node>(edges: seq<Node>, total: Option<int>, cursor: Node -> string,
                       first: Option<nat>, last: Option<nat>)
    requires first.Some? != last.Some?
    ensures RelayCut(edges, total, cursor, first, last) == RelayCut([], total, cursor, first, last) <==> edges == []
  {
    if edges != [] {
      var page := RelayCut(edges, total, cursor, first, last);
      if Limit(first, last) == 1 {
        assert page.info.hasNextPage || page.info.hasPreviousPage;
      } else {
        assert page.nodes != [];
      }
    }
  }
}
