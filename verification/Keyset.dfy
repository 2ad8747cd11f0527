// Keyset pagination: one row more than asked for is fetched from a range of keys, put back into
// order when paging backward, and trimmed. It is proved to be the Relay algorithm on the whole table.
module Keyset {
  import opened Wrappers
  import opened Pages

  const MAX_INT32: int := 0x7fff_ffff

  /** Go's conversion to `int32` keeps the low 32 bits. */
  function Int32(x: int): (r: int)
    ensures -MAX_INT32 - 1 <= r <= MAX_INT32
    ensures r == x <==> -MAX_INT32 - 1 <= x <= MAX_INT32
    ensures (x - r) % 0x1_0000_0000 == 0
  {
    var low := x % 0x1_0000_0000;
    if low > MAX_INT32 then low - 0x1_0000_0000 else low
  }

  /** How the rows of a table are ordered and named: the sort key of a row, the strict order the
      database sorts keys by, the row's cursor string, what a cursor string decodes to, and the
      default bounds used when no cursor is given. */
  datatype Keying<!Node(!new), !Key(!new)> = Keying(
    key: Node -> Key,
    less: (Key, Key) -> bool,
    cursor: Node -> string,
    decode: string -> Option<Key>,
    lowest: Key,
    highest: Key)
  {
    ghost predicate Valid() {
      && (forall x, y, z :: less(x, y) && less(y, z) ==> less(x, z))
      && (forall x :: !less(x, x))
      && (forall x, y :: x == y || less(x, y) || less(y, x))
      && (forall n :: cursor(n) != "" && decode(cursor(n)) == Some(key(n)))
    }

    /** Rows in key order, without duplicate keys, all strictly inside the default bounds. */
    ghost predicate Table(rows: seq<Node>) {
      && Ascending(rows)
      && (forall i :: 0 <= i < |rows| ==> less(lowest, key(rows[i])) && less(key(rows[i]), highest))
    }

    ghost predicate Ascending(rows: seq<Node>) {
      forall i, j :: 0 <= i < j < |rows| ==> less(key(rows[i]), key(rows[j]))
    }

    /** The bound a cursor argument stands for. Unpacking the empty string keeps the default. */
    function Bound(c: Option<string>, default: Key): Option<Key> {
      match c
      case None => Some(default)
      case Some(s) => if s == "" then Some(default) else decode(s)
    }

    predicate Inside(lo: Key, hi: Key, n: Node) {
      less(lo, key(n)) && less(key(n), hi)
    }

    function Between(rows: seq<Node>, lo: Key, hi: Key): seq<Node> {
      Filter(n => Inside(lo, hi, n), rows)
    }

    /** The SQL query: rows strictly between the bounds, in the requested direction, up to the limit. */
    function Select(rows: seq<Node>, lo: Key, hi: Key, limit: int, forward: bool): Result<seq<Node>, PageError> {
      var all := Between(rows, lo, hi);
      if limit < 0 then Err(QueryFailed) else Ok(Take(if forward then all else Reversed(all), limit))
    }

    /** The query function of a paginator that was called with these cursors. */
    function RangeQuery(rows: seq<Node>, before: Option<string>, after: Option<string>): Query<Node> {
      (limit, forward) =>
        match Bound(before, highest)
        case None => Err(BadCursor)
        case Some(hi) =>
          match Bound(after, lowest)
          case None => Err(BadCursor)
          case Some(lo) => Select(rows, lo, hi, limit, forward)
    }

    ghost predicate NamesRow(rows: seq<Node>, c: Option<string>) {
      c.Some? ==> exists i :: 0 <= i < |rows| && c.value == cursor(rows[i])
    }

    ghost predicate Precedes(after: Option<string>, before: Option<string>) {
      after.Some? && before.Some? ==>
        && decode(after.value).Some? && decode(before.value).Some?
        && less(decode(after.value).value, decode(before.value).value)
    }

    function Page(rows: seq<Node>, count: Count, before: Option<string>, after: Option<string>,
                  first: Option<nat>, last: Option<nat>): Result<Page<Node>, PageError>
      requires first.Some? || last.Some?
    {
      KeysetPage(RangeQuery(rows, before, after), count, Packing(cursor), before, after, first, last)
    }
  }

  type Query<!Node> = (int, bool) -> Result<seq<Node>, PageError>

  function Filter<T>(p: T -> bool, s: seq<T>): seq<T> {
    if s == [] then [] else (if p(s[0]) then [s[0]] else []) + Filter(p, s[1..])
  }

  function Take<T>(s: seq<T>, n: nat): seq<T> {
    if |s| <= n then s else s[..n]
  }

  function Reversed<T>(s: seq<T>): seq<T> {
    seq(|s|, i requires 0 <= i < |s| => s[|s| - 1 - i])
  }

  /** The number of rows asked for: one more than the page, to see whether another page follows. */
  function Limit(first: Option<nat>, last: Option<nat>): nat
    requires first.Some? || last.Some?
  {
    1 + if first.Some? then first.value else last.value
  }

  function KeysetPage<Node>(query: Query<Node>, count: Count, pack: Packer<Node>,
                            before: Option<string>, after: Option<string>,
                            first: Option<nat>, last: Option<nat>): Result<Page<Node>, PageError>
    requires first.Some? || last.Some?
  {
    match InOrder(query(Int32(Limit(first, last)), first.Some?), first.Some?)
    case Err(e) => Err(e)
    case Ok(results) => PageFrom(results, count, pack, before, after, first, last)
  }

  /** Rows fetched backward are turned round. */
  function InOrder<Node>(fetched: Result<seq<Node>, PageError>, pagingForward: bool): Result<seq<Node>, PageError> {
    match fetched
    case Err(e) => Err(e)
    case Ok(rows) => Ok(if pagingForward then rows else Reversed(rows))
  }

  method ReverseInPlace<Node>(results: array<Node>)
    modifies results
    ensures results[..] == Reversed(old(results[..]))
  {
    var i, j := 0, results.Length - 1;
    while i < j
      invariant 0 <= i && i + j == results.Length - 1
      invariant i <= j + 1
      invariant forall k :: 0 <= k < i || j < k < results.Length ==> results[k] == old(results[results.Length - 1 - k])
      invariant forall k :: i <= k <= j ==> results[k] == old(results[k])
      decreases j - i
    {
      results[i], results[j] := results[j], results[i];
      i, j := i + 1, j - 1;
    }
  }

  /** Runs the query and puts its rows into ascending order. */
  method Fetch<Node>(query: Query<Node>, limit: int, pagingForward: bool)
    returns (r: Result<seq<Node>, PageError>)
    ensures r == InOrder(query(limit, pagingForward), pagingForward)
  {
    var fetched := query(limit, pagingForward);
    if fetched.Err? {
      return Err(fetched.error);
    }
    var results := new Node[|fetched.value|](i requires 0 <= i < |fetched.value| => fetched.value[i]);
    assert results[..] == fetched.value;
    if !pagingForward {
      ReverseInPlace(results);
    }
    r := Ok(results[..]);
  }

  method Paginate<Node>(query: Query<Node>, count: Count, pack: Packer<Node>,
                        before: Option<string>, after: Option<string>, first: Option<nat>, last: Option<nat>)
    returns (r: Result<Page<Node>, PageError>)
    requires first.Some? || last.Some?
    ensures r == KeysetPage(query, count, pack, before, after, first, last)
  {
    var limit := 1;
    if first.Some? {
      limit := limit + first.value;
    } else {
      limit := limit + last.value;
    }
    assert limit == Limit(first, last);
    var pagingForward := first.Some?;
    var results := Fetch(query, Int32(limit), pagingForward);
    if results.Err? {
      return Err(results.error);
    }
    r := BuildPage(results.value, count, pack, before, after, first, last);
  }

  /** A cursor that cannot be decoded makes the page fail, whatever else was asked for. */
  lemma UndecodableCursor<Node(!new), Key(!new)>(k: Keying<Node, Key>, rows: seq<Node>, count: Count, c: string,
                                                 other: Option<string>, first: Option<nat>, last: Option<nat>)
    requires c != "" && k.decode(c) == None && (first.Some? || last.Some?)
    ensures k.Page(rows, count, Some(c), other, first, last) == Err(BadCursor)
    ensures k.Page(rows, count, other, Some(c), first, last) == Err(BadCursor)
  {
    var limit, forward := Int32(Limit(first, last)), first.Some?;
    assert k.RangeQuery(rows, Some(c), other)(limit, forward) == Err(BadCursor);
    assert k.RangeQuery(rows, other, Some(c))(limit, forward) == Err(BadCursor);
  }

  // ---- ranges of a table ----

  lemma {:induction false} FilterAppend<T>(p: T -> bool, s: seq<T>, t: seq<T>)
    ensures Filter(p, s + t) == Filter(p, s) + Filter(p, t)
  {
    if s == [] {
      assert s + t == t;
    } else {
      assert (s + t)[1..] == s[1..] + t && (s + t)[0] == s[0];
      FilterAppend(p, s[1..], t);
      var head := if p(s[0]) then [s[0]] else [];
      assert head + (Filter(p, s[1..]) + Filter(p, t)) == (head + Filter(p, s[1..])) + Filter(p, t);
    }
  }

  lemma {:induction false} FilterAll<T>(p: T -> bool, s: seq<T>)
    requires forall x :: x in s ==> p(x)
    ensures Filter(p, s) == s
  {
    if s == [] {
    } else {
      FilterAll(p, s[1..]);
    }
  }

  lemma {:induction false} FilterNone<T>(p: T -> bool, s: seq<T>)
    requires forall x :: x in s ==> !p(x)
    ensures Filter(p, s) == []
  {
    if s == [] {
    } else {
      FilterNone(p, s[1..]);
    }
  }

  lemma {:induction false} FilterMember<T>(p: T -> bool, s: seq<T>, x: T)
    ensures x in Filter(p, s) <==> x in s && p(x)
  {
    if s == [] {
    } else {
      assert s == [s[0]] + s[1..];
      FilterMember(p, s[1..], x);
    }
  }

  lemma TailOf<T>(p: T -> bool, s: seq<T>, i: nat, j: nat)
    requires 0 < i <= |s| && j <= |s|
    requires forall k :: 0 <= k < |s| ==> (p(s[k]) <==> i <= k < j)
    ensures forall k :: 0 <= k < |s[1..]| ==> (p(s[1..][k]) <==> i - 1 <= k < j - 1)
  {
    assert forall k :: 0 <= k < |s[1..]| ==> s[1..][k] == s[k + 1];
  }

  lemma {:induction false} FilterPrefix<T>(p: T -> bool, s: seq<T>, j: nat)
    requires j <= |s| && forall k :: 0 <= k < |s| ==> (p(s[k]) <==> k < j)
    ensures Filter(p, s) == s[..j]
  {
    if j == 0 {
      FilterNone(p, s);
    } else {
      assert forall k :: 0 <= k < |s[1..]| ==> s[1..][k] == s[k + 1];
      FilterPrefix(p, s[1..], j - 1);
      assert s[..j] == [s[0]] + s[1..][..j - 1];
    }
  }

  lemma {:induction false} FilterSlice<T>(p: T -> bool, s: seq<T>, i: nat, j: nat)
    requires i <= j <= |s|
    requires forall k :: 0 <= k < |s| ==> (p(s[k]) <==> i <= k < j)
    ensures Filter(p, s) == s[i..j]
  {
    if i == 0 {
      FilterPrefix(p, s, j);
    } else {
      TailOf(p, s, i, j);
      FilterSlice(p, s[1..], i - 1, j - 1);
      assert s[i..j] == s[1..][i - 1..j - 1];
    }
  }

  lemma {:induction false} FilterAscending<Node(!new), Key(!new)>(k: Keying<Node, Key>, p: Node -> bool, s: seq<Node>)
    requires k.Ascending(s)
    ensures k.Ascending(Filter(p, s))
  {
    if s == [] {
    } else {
      assert k.Ascending(s[1..]);
      FilterAscending(k, p, s[1..]);
      var tail := Filter(p, s[1..]);
      forall j | 0 <= j < |tail|
        ensures k.less(k.key(s[0]), k.key(tail[j]))
      {
        FilterMember(p, s[1..], tail[j]);
        var m :| 0 <= m < |s[1..]| && s[1..][m] == tail[j];
        assert s[m + 1] == tail[j];
      }
    }
  }

  lemma {:induction false} AscendingOccursOnce<Node(!new), Key(!new)>(k: Keying<Node, Key>, s: seq<Node>, r: Node)
    requires k.Valid() && k.Ascending(s)
    ensures multiset(s)[r] == if r in s then 1 else 0
  {
    if s == [] {
    } else {
      assert s == [s[0]] + s[1..];
      assert k.Ascending(s[1..]);
      AscendingOccursOnce(k, s[1..], r);
      assert forall m :: 0 <= m < |s[1..]| ==> s[1..][m] == s[m + 1];
      assert s[0] !in s[1..];
    }
  }

  /** The rows between two positions of a table are those between the keys next to them. */
  lemma BetweenIsSlice<Node(!new), Key(!new)>(k: Keying<Node, Key>, rows: seq<Node>, lo: Key, hi: Key, i: nat, j: nat)
    requires k.Valid() && k.Table(rows) && i <= |rows| && j <= |rows|
    requires lo == (if i == 0 then k.lowest else k.key(rows[i - 1]))
    requires hi == (if j == |rows| then k.highest else k.key(rows[j]))
    ensures k.Between(rows, lo, hi) == if i <= j then rows[i..j] else []
  {
    var p := n => k.Inside(lo, hi, n);
    if i <= j {
      forall m | 0 <= m < |rows|
        ensures p(rows[m]) <==> i <= m < j
      {
        BoundsAtPositions(k, rows, lo, hi, i, j, m);
      }
      FilterSlice(p, rows, i, j);
    } else {
      forall x | x in rows
        ensures !p(x)
      {
        var m :| 0 <= m < |rows| && rows[m] == x;
        BoundsAtPositions(k, rows, lo, hi, i, j, m);
      }
      FilterNone(p, rows);
    }
  }

  lemma BoundsAtPositions<Node(!new), Key(!new)>(k: Keying<Node, Key>, rows: seq<Node>, lo: Key, hi: Key, i: nat,
                               j: nat, m: nat)
    requires k.Valid() && k.Table(rows) && i <= |rows| && j <= |rows| && m < |rows|
    requires lo == (if i == 0 then k.lowest else k.key(rows[i - 1]))
    requires hi == (if j == |rows| then k.highest else k.key(rows[j]))
    ensures k.less(lo, k.key(rows[m])) <==> i <= m
    ensures k.less(k.key(rows[m]), hi) <==> m < j
  {
    if i > 0 && m < i - 1 {
      assert k.less(k.key(rows[m]), k.key(rows[i - 1]));
    }
    if j < |rows| && j < m {
      assert k.less(k.key(rows[j]), k.key(rows[m]));
    }
  }

  lemma DistinctCursors<Node(!new), Key(!new)>(k: Keying<Node, Key>, rows: seq<Node>)
    requires k.Valid() && k.Ascending(rows)
    ensures forall i, j :: 0 <= i < j < |rows| ==> k.cursor(rows[i]) != k.cursor(rows[j])
  {
    forall i, j | 0 <= i < j < |rows|
      ensures k.cursor(rows[i]) != k.cursor(rows[j])
    {
      assert k.less(k.key(rows[i]), k.key(rows[j]));
      assert k.decode(k.cursor(rows[i])) == Some(k.key(rows[i]));
      assert k.decode(k.cursor(rows[j])) == Some(k.key(rows[j]));
    }
  }

  lemma EdgeIs<Node(!new), Key(!new)>(k: Keying<Node, Key>, rows: seq<Node>, i: nat)
    requires k.Valid() && k.Ascending(rows) && i < |rows|
    ensures HasEdge(rows, k.cursor, Some(k.cursor(rows[i]))) && EdgeAt(rows, k.cursor, Some(k.cursor(rows[i]))) == i
  {
    DistinctCursors(k, rows);
    assert HasEdge(rows, k.cursor, Some(k.cursor(rows[i])));
  }

  /** The position just behind the `after` row, and of the `before` row. */
  ghost function After<Node(!new), Key(!new)>(k: Keying<Node, Key>, rows: seq<Node>, c: Option<string>): (i: nat)
    requires k.NamesRow(rows, c)
    ensures i <= |rows| && (c.None? ==> i == 0)
    ensures c.Some? ==> i > 0 && c.value == k.cursor(rows[i - 1])
  {
    if c.None? then 0
    else
      var i :| 0 <= i < |rows| && c.value == k.cursor(rows[i]);
      i + 1
  }

  ghost function Before<Node(!new), Key(!new)>(k: Keying<Node, Key>, rows: seq<Node>, c: Option<string>): (j: nat)
    requires k.NamesRow(rows, c)
    ensures j <= |rows| && (c.None? ==> j == |rows|)
    ensures c.Some? ==> j < |rows| && c.value == k.cursor(rows[j])
  {
    if c.None? then |rows|
    else
      var j :| 0 <= j < |rows| && c.value == k.cursor(rows[j]);
      j
  }

  lemma RelayIsSlice<Node(!new), Key(!new)>(k: Keying<Node, Key>, rows: seq<Node>, before: Option<string>,
                          after: Option<string>)
    requires k.Valid() && k.Table(rows) && k.NamesRow(rows, before) && k.NamesRow(rows, after)
    ensures var i, j := After(k, rows, after), Before(k, rows, before);
            RelayApply(rows, k.cursor, before, after) == rows[i..if i <= j then j else |rows|]
  {
    var i, j := After(k, rows, after), Before(k, rows, before);
    RelayAfter(k, rows, after, i);
    RelayBefore(k, rows, before, i, j);
  }

  lemma RelayAfter<Node(!new), Key(!new)>(k: Keying<Node, Key>, rows: seq<Node>, after: Option<string>, i: nat)
    requires k.Valid() && k.Table(rows) && i <= |rows|
    requires if after.None? then i == 0 else i > 0 && after.value == k.cursor(rows[i - 1])
    ensures DropThrough(rows, k.cursor, after) == rows[i..]
  {
    if after.Some? {
      EdgeIs(k, rows, i - 1);
    } else {
      assert !HasEdge(rows, k.cursor, after) && rows[0..] == rows;
    }
  }

  lemma RelayBefore<Node(!new), Key(!new)>(k: Keying<Node, Key>, rows: seq<Node>, before: Option<string>, i: nat,
                         j: nat)
    requires k.Valid() && k.Table(rows) && i <= |rows| && j <= |rows|
    requires if before.None? then j == |rows| else j < |rows| && before.value == k.cursor(rows[j])
    ensures DropFrom(rows[i..], k.cursor, before) == rows[i..if i <= j then j else |rows|]
  {
    var rest := rows[i..];
    if before.Some? && i <= j {
      assert k.Ascending(rest);
      assert rest[j - i] == rows[j];
      EdgeIs(k, rest, j - i);
      assert rest[..j - i] == rows[i..j];
    } else if before.Some? {
      forall m | 0 <= m < |rest|
        ensures before != Some(k.cursor(rest[m]))
      {
        DistinctCursors(k, rows);
        assert rest[m] == rows[i + m];
      }
      assert !HasEdge(rest, k.cursor, before);
    }
  }

  /** The rows the query ranges over. */
  lemma RangeIsSlice<Node(!new), Key(!new)>(k: Keying<Node, Key>, rows: seq<Node>, before: Option<string>,
                          after: Option<string>)
    requires k.Valid() && k.Table(rows) && k.NamesRow(rows, before) && k.NamesRow(rows, after)
    ensures k.Bound(before, k.highest).Some? && k.Bound(after, k.lowest).Some?
    ensures var i, j := After(k, rows, after), Before(k, rows, before);
            k.Between(rows, k.Bound(after, k.lowest).value, k.Bound(before, k.highest).value)
            == if i <= j then rows[i..j] else []
  {
    var i, j := After(k, rows, after), Before(k, rows, before);
    BetweenIsSlice(k, rows, k.Bound(after, k.lowest).value, k.Bound(before, k.highest).value, i, j);
  }

  /** Cursors of existing rows select, by key range, the edges that the specification keeps, if and
      only if the `after` row precedes the `before` row or is the last row of all. */
  lemma RangeIsRelay<Node(!new), Key(!new)>(k: Keying<Node, Key>, rows: seq<Node>, before: Option<string>,
                          after: Option<string>)
    requires k.Valid() && k.Table(rows) && k.NamesRow(rows, before) && k.NamesRow(rows, after)
    ensures k.Bound(before, k.highest).Some? && k.Bound(after, k.lowest).Some?
    ensures k.Between(rows, k.Bound(after, k.lowest).value, k.Bound(before, k.highest).value)
            == RelayApply(rows, k.cursor, before, after)
            <==> k.Precedes(after, before) || After(k, rows, after) == |rows|
  {
    RangeIsSlice(k, rows, before, after);
    RelayIsSlice(k, rows, before, after);
    var i, j := After(k, rows, after), Before(k, rows, before);
    if after.Some? && before.Some? {
      assert k.decode(after.value) == Some(k.key(rows[i - 1])) && k.decode(before.value) == Some(k.key(rows[j]));
      if i <= j {
        assert k.less(k.key(rows[i - 1]), k.key(rows[j]));
      } else if j < i - 1 {
        assert k.less(k.key(rows[j]), k.key(rows[i - 1]));
      }
    }
  }
}
