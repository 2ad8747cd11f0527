// Cursors whose row is no longer in the table: a key range still starts (or ends) where the row was, while
// the Relay algorithm ignores a cursor that names no edge.
module KeysetDeparted {
  import opened Wrappers
  import opened Pages
  import opened Keyset
  import opened KeysetRelay

  // ---- pages that do not show what was cut off ----

  /** A page of the last `kept` edges looks as if no edges before them had been cut off. */
  predicate StartHidden(kept: nat, first: Option<nat>, last: Option<nat>) {
    (first == Some(0) && kept > 0) || (last.Some? && kept > last.value)
  }

  /** A page of the first `kept` edges looks as if no edges behind them had been cut off. */
  predicate EndHidden(kept: nat, first: Option<nat>, last: Option<nat>) {
    (last == Some(0) && kept > 0) || (first.Some? && kept > first.value)
  }

  ghost predicate DistinctNodes<Node(!new)>(edges: seq<Node>) {
    forall i, j :: 0 <= i < j < |edges| ==> edges[i] != edges[j]
  }

  /** The cut differs from the whole exactly if its nodes or the flag of its direction do. */
  lemma SameCut<Node>(edges: seq<Node>, all: seq<Node>, total: Option<int>, cursor: Node -> string,
                      first: Option<nat>, last: Option<nat>)
    requires !(first.Some? && last.Some?)
    ensures RelayCut(edges, total, cursor, first, last) == RelayCut(all, total, cursor, first, last)
       <==> && RelayTrim(edges, first, last) == RelayTrim(all, first, last)
            && (first.Some? ==> (|edges| > first.value <==> |all| > first.value))
            && (last.Some? ==> (|edges| > last.value <==> |all| > last.value))
  {
  }

  lemma CutOfSuffix<Node(!new)>(edges: seq<Node>, i: nat, total: Option<int>, cursor: Node -> string,
                                first: Option<nat>, last: Option<nat>)
    requires i <= |edges| && DistinctNodes(edges) && !(first.Some? && last.Some?)
    ensures RelayCut(edges[i..], total, cursor, first, last) == RelayCut(edges, total, cursor, first, last)
       <==> i == 0 || StartHidden(|edges| - i, first, last)
  {
    SameCut(edges[i..], edges, total, cursor, first, last);
    if i == 0 {
      assert edges[0..] == edges;
    } else if first.Some? {
      FirstOfSuffix(edges, i, first.value);
    } else if last.Some? {
      LastOfSuffix(edges, i, last.value);
    } else {
      assert |RelayTrim(edges[i..], None, None)| < |RelayTrim(edges, None, None)|;
    }
  }

  lemma FirstOfSuffix<Node(!new)>(edges: seq<Node>, i: nat, first: nat)
    requires 0 < i <= |edges| && DistinctNodes(edges)
    ensures RelayTrim(edges[i..], Some(first), None) == RelayTrim(edges, Some(first), None) <==> first == 0
  {
    if first > 0 && i < |edges| {
      assert RelayTrim(edges[i..], Some(first), None)[0] == edges[i];
      assert RelayTrim(edges, Some(first), None)[0] == edges[0];
    }
  }

  lemma LastOfSuffix<Node>(edges: seq<Node>, i: nat, last: nat)
    requires 0 < i <= |edges|
    ensures RelayTrim(edges[i..], None, Some(last)) == RelayTrim(edges, None, Some(last)) <==> |edges| - i >= last
  {
    var page, all := RelayTrim(edges[i..], None, Some(last)), RelayTrim(edges, None, Some(last));
    if |edges| - i >= last {
      assert page == edges[i..][|edges| - i - last..] == edges[|edges| - last..] == all;
    } else {
      assert |page| < |all|;
    }
  }

  lemma CutOfPrefix<Node(!new)>(edges: seq<Node>, j: nat, total: Option<int>, cursor: Node -> string,
                                first: Option<nat>, last: Option<nat>)
    requires j <= |edges| && DistinctNodes(edges) && !(first.Some? && last.Some?)
    ensures RelayCut(edges[..j], total, cursor, first, last) == RelayCut(edges, total, cursor, first, last)
       <==> j == |edges| || EndHidden(j, first, last)
  {
    SameCut(edges[..j], edges, total, cursor, first, last);
    if j == |edges| {
      assert edges[..j] == edges;
    } else if last.Some? {
      LastOfPrefix(edges, j, last.value);
    } else if first.Some? {
      FirstOfPrefix(edges, j, first.value);
    } else {
      assert |RelayTrim(edges[..j], None, None)| < |RelayTrim(edges, None, None)|;
    }
  }

  lemma LastOfPrefix<Node(!new)>(edges: seq<Node>, j: nat, last: nat)
    requires j < |edges| && DistinctNodes(edges)
    ensures RelayTrim(edges[..j], None, Some(last)) == RelayTrim(edges, None, Some(last)) <==> last == 0
  {
    if last > 0 && j > 0 {
      var page, all := RelayTrim(edges[..j], None, Some(last)), RelayTrim(edges, None, Some(last));
      assert page[|page| - 1] == edges[j - 1] && all[|all| - 1] == edges[|edges| - 1];
    }
  }

  lemma FirstOfPrefix<Node>(edges: seq<Node>, j: nat, first: nat)
    requires j < |edges|
    ensures RelayTrim(edges[..j], Some(first), None) == RelayTrim(edges, Some(first), None) <==> j >= first
  {
    var page, all := RelayTrim(edges[..j], Some(first), None), RelayTrim(edges, Some(first), None);
    if j >= first {
      assert page == edges[..j][..first] == edges[..first] == all;
    } else {
      assert |page| < |all|;
    }
  }

  // ---- the rows on one side of a key ----

  lemma {:induction false} RowsAbove<Node(!new), Key(!new)>(k: Keying<Node, Key>, rows: seq<Node>, x: Key)
    returns (i: nat)
    requires k.Valid() && k.Ascending(rows)
    ensures i <= |rows| && forall m :: 0 <= m < |rows| ==> (k.less(x, k.key(rows[m])) <==> i <= m)
  {
    if rows == [] {
      i := 0;
    } else if k.less(x, k.key(rows[0])) {
      i := 0;
    } else {
      i := RowsAbove(k, rows[1..], x);
      assert forall m :: 1 <= m < |rows| ==> rows[m] == rows[1..][m - 1];
      i := i + 1;
    }
  }

  lemma {:induction false} RowsBelow<Node(!new), Key(!new)>(k: Keying<Node, Key>, rows: seq<Node>, x: Key)
    returns (j: nat)
    requires k.Valid() && k.Ascending(rows)
    ensures j <= |rows| && forall m :: 0 <= m < |rows| ==> (k.less(k.key(rows[m]), x) <==> m < j)
  {
    if rows == [] {
      j := 0;
    } else if !k.less(k.key(rows[0]), x) {
      j := 0;
    } else {
      j := RowsBelow(k, rows[1..], x);
      assert forall m :: 1 <= m < |rows| ==> rows[m] == rows[1..][m - 1];
      j := j + 1;
    }
  }

  lemma AboveIsSuffix<Node(!new), Key(!new)>(k: Keying<Node, Key>, rows: seq<Node>, x: Key) returns (i: nat)
    requires k.Valid() && k.Table(rows)
    ensures i <= |rows| && k.Between(rows, x, k.highest) == rows[i..]
  {
    i := RowsAbove(k, rows, x);
    FilterSlice(n => k.Inside(x, k.highest, n), rows, i, |rows|);
    assert rows[i..|rows|] == rows[i..];
  }

  lemma BelowIsPrefix<Node(!new), Key(!new)>(k: Keying<Node, Key>, rows: seq<Node>, x: Key) returns (j: nat)
    requires k.Valid() && k.Table(rows)
    ensures j <= |rows| && k.Between(rows, k.lowest, x) == rows[..j]
  {
    j := RowsBelow(k, rows, x);
    FilterSlice(n => k.Inside(k.lowest, x, n), rows, 0, j);
    assert rows[0..j] == rows[..j];
  }

  lemma RowsAreDistinct<Node(!new), Key(!new)>(k: Keying<Node, Key>, rows: seq<Node>)
    requires k.Valid() && k.Ascending(rows)
    ensures DistinctNodes(rows)
  {
    forall i, j | 0 <= i < j < |rows|
      ensures rows[i] != rows[j]
    {
      assert k.less(k.key(rows[i]), k.key(rows[j]));
    }
  }

  // ---- keyset pages ----

  /** The cursor can be decoded, and no row of the table carries it (any more). */
  ghost predicate Gone<Node(!new), Key(!new)>(k: Keying<Node, Key>, rows: seq<Node>, c: string, x: Key) {
    c != "" && k.decode(c) == Some(x) && forall r :: r in rows ==> k.cursor(r) != c
  }

  lemma NoEdge<Node(!new), Key(!new)>(k: Keying<Node, Key>, rows: seq<Node>, c: string, x: Key)
    requires Gone(k, rows, c, x)
    ensures RelayApply(rows, k.cursor, None, Some(c)) == rows == RelayApply(rows, k.cursor, Some(c), None)
  {
    assert !HasEdge(rows, k.cursor, Some(c)) && !HasEdge(rows, k.cursor, None);
  }

  /** A limit that does not fit gives a page that is too short, or none. */
  lemma TooShort<Node(!new), Key(!new)>(k: Keying<Node, Key>, rows: seq<Node>, all: seq<Node>, total: Option<int>,
                                        before: Option<string>, after: Option<string>,
                                        first: Option<nat>, last: Option<nat>)
    requires k.Valid() && k.Bound(before, k.highest).Some? && k.Bound(after, k.lowest).Some?
    requires first.Some? != last.Some?
    requires var range := k.Between(rows, k.Bound(after, k.lowest).value, k.Bound(before, k.highest).value);
             !LimitFits(Limit(first, last), |range|) && |range| <= |all|
    ensures k.Page(rows, Known(total), before, after, first, last) != Ok(RelayCut(all, total, k.cursor, first, last))
  {
    var range := k.Between(rows, k.Bound(after, k.lowest).value, k.Bound(before, k.highest).value);
    var limit := Int32(Limit(first, last));
    if limit >= 0 {
      PageOfFetched(k, rows, total, before, after, first, last);
      Wrapped(Limit(first, last));
      var results := Fetched(range, limit, first.Some?);
      assert |results| == limit;
      FewerNodes(results, all, total, k.cursor, first, last);
    } else {
      NegativeLimit(k, rows, Known(total), before, after, first, last);
    }
  }

  lemma Wrapped(limit: nat)
    requires Int32(limit) != limit
    ensures Int32(limit) + 1 < limit
  {
  }

  lemma FewerNodes<Node>(edges: seq<Node>, all: seq<Node>, total: Option<int>, cursor: Node -> string,
                         first: Option<nat>, last: Option<nat>)
    requires first.Some? != last.Some? && |edges| < |all| && |edges| + 1 < Limit(first, last)
    ensures RelayCut(edges, total, cursor, first, last) != RelayCut(all, total, cursor, first, last)
  {
    assert |RelayTrim(edges, first, last)| < |RelayTrim(all, first, last)|;
  }

  /** After a row that is gone, a keyset page is the Relay page if and only if the limit fits and either no row
      comes before the gap or the page hides those that do. */
  lemma GoneAfter<Node(!new), Key(!new)>(k: Keying<Node, Key>, rows: seq<Node>, total: Option<int>, c: string, x: Key,
                                         first: Option<nat>, last: Option<nat>)
    requires k.Valid() && k.Table(rows) && Gone(k, rows, c, x) && first.Some? != last.Some?
    ensures var later := |k.Between(rows, x, k.highest)|;
            k.Page(rows, Known(total), None, Some(c), first, last)
            == Ok(RelayPage(rows, total, k.cursor, None, Some(c), first, last))
            <==> LimitFits(Limit(first, last), later) && (later == |rows| || StartHidden(later, first, last))
  {
    var i := AboveIsSuffix(k, rows, x);
    NoEdge(k, rows, c, x);
    RowsAreDistinct(k, rows);
    CutOfSuffix(rows, i, total, k.cursor, first, last);
    PageOfRange(k, rows, total, None, Some(c), first, last);
    if !LimitFits(Limit(first, last), |rows[i..]|) {
      TooShort(k, rows, rows, total, None, Some(c), first, last);
    }
  }

  /** The same before a row that is gone. */
  lemma GoneBefore<Node(!new), Key(!new)>(k: Keying<Node, Key>, rows: seq<Node>, total: Option<int>, c: string, x: Key,
                                          first: Option<nat>, last: Option<nat>)
    requires k.Valid() && k.Table(rows) && Gone(k, rows, c, x) && first.Some? != last.Some?
    ensures var earlier := |k.Between(rows, k.lowest, x)|;
            k.Page(rows, Known(total), Some(c), None, first, last)
            == Ok(RelayPage(rows, total, k.cursor, Some(c), None, first, last))
            <==> LimitFits(Limit(first, last), earlier) && (earlier == |rows| || EndHidden(earlier, first, last))
  {
    var j := BelowIsPrefix(k, rows, x);
    NoEdge(k, rows, c, x);
    RowsAreDistinct(k, rows);
    CutOfPrefix(rows, j, total, k.cursor, first, last);
    PageOfRange(k, rows, total, Some(c), None, first, last);
    if !LimitFits(Limit(first, last), |rows[..j]|) {
      TooShort(k, rows, rows, total, Some(c), None, first, last);
    }
  }
}
