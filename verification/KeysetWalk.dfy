// Reading a whole table page by page, following the end (or start) cursor of each page, while the
// table may change between requests.
module KeysetWalk {
  import opened Wrappers
  import opened Pages
  import opened Keyset
  import opened KeysetRelay

  /** The nodes received, in page order, and whether the last page said that no page follows. */
  datatype Walk<+Node> = Walk(nodes: seq<Node>, finished: bool)

  /** Request `i` is answered from the contents `tables[i]` that the table has at that moment. */
  function Forward<Node(!new), Key(!new)>(k: Keying<Node, Key>, tables: seq<seq<Node>>, after: Option<string>,
                        first: nat)
    : Walk<Node>
  {
    if tables == [] then Walk([], false)
    else
      match k.Page(tables[0], None, None, after, Some(first), None)
      case Err(_) => Walk([], false)
      case Ok(page) =>
        if !page.info.hasNextPage then Walk(page.nodes, true)
        else
          var rest := Forward(k, tables[1..], Some(page.info.endCursor), first);
          Walk(page.nodes + rest.nodes, rest.finished)
  }

  /** Walking backward, each further page goes in front of what was received so far. */
  function Backward<Node(!new), Key(!new)>(k: Keying<Node, Key>, tables: seq<seq<Node>>, before: Option<string>,
                         last: nat)
    : Walk<Node>
  {
    if tables == [] then Walk([], false)
    else
      match k.Page(tables[0], None, before, None, None, Some(last))
      case Err(_) => Walk([], false)
      case Ok(page) =>
        if !page.info.hasPreviousPage then Walk(page.nodes, true)
        else
          var rest := Backward(k, tables[1..], Some(page.info.startCursor), last);
          Walk(rest.nodes + page.nodes, rest.finished)
  }

  ghost predicate AllTables<Node(!new), Key(!new)>(k: Keying<Node, Key>, tables: seq<seq<Node>>) {
    forall t :: t in tables ==> k.Table(t)
  }

  ghost predicate HasKey<Node(!new), Key(!new)>(k: Keying<Node, Key>, rows: seq<Node>, x: Key) {
    exists n :: n in rows && k.key(n) == x
  }

  /** A row with this key is there at every request; its data may change. */
  ghost predicate AlwaysThere<Node(!new), Key(!new)>(k: Keying<Node, Key>, tables: seq<seq<Node>>, x: Key) {
    forall t :: t in tables ==> HasKey(k, t, x)
  }

  /** How often a row with this key is among the nodes. */
  ghost function Times<Node(!new), Key(!new)>(k: Keying<Node, Key>, nodes: seq<Node>, x: Key): nat {
    |Filter(n => k.key(n) == x, nodes)|
  }

  ghost predicate AscendingAbove<Node(!new), Key(!new)>(k: Keying<Node, Key>, nodes: seq<Node>, a: Key) {
    k.Ascending(nodes) && forall n :: n in nodes ==> k.less(a, k.key(n))
  }

  ghost predicate AscendingBelow<Node(!new), Key(!new)>(k: Keying<Node, Key>, nodes: seq<Node>, b: Key) {
    k.Ascending(nodes) && forall n :: n in nodes ==> k.less(k.key(n), b)
  }

  /** Every node was in the table at one of the requests. */
  ghost predicate FromTables<Node(!new)>(nodes: seq<Node>, tables: seq<seq<Node>>) {
    forall n :: n in nodes ==> exists t :: t in tables && n in t
  }

  /** In an ascending list, a key occurs once or not at all. */
  lemma {:induction false} AtMostOnce<Node(!new), Key(!new)>(k: Keying<Node, Key>, nodes: seq<Node>, x: Key)
    requires k.Valid() && k.Ascending(nodes)
    ensures Times(k, nodes, x) == if HasKey(k, nodes, x) then 1 else 0
  {
    if nodes == [] {
    } else {
      var rest := nodes[1..];
      assert nodes == [nodes[0]] + rest;
      assert k.Ascending(rest) && forall m :: 0 <= m < |rest| ==> rest[m] == nodes[m + 1];
      AtMostOnce(k, rest, x);
      if k.key(nodes[0]) == x {
        assert !HasKey(k, rest, x);
      } else {
        assert HasKey(k, nodes, x) <==> HasKey(k, rest, x);
      }
    }
  }

  lemma HasKeyEither<Node(!new), Key(!new)>(k: Keying<Node, Key>, s: seq<Node>, t: seq<Node>, x: Key)
    requires HasKey(k, s, x) || HasKey(k, t, x)
    ensures HasKey(k, s + t, x)
  {
    var n :| n in s + t && k.key(n) == x;
  }

  lemma HasKeyFrom<Node(!new), Key(!new)>(k: Keying<Node, Key>, s: seq<Node>, i: nat, r: Node)
    requires k.Valid() && k.Ascending(s) && i < |s| && r in s
    ensures k.less(k.key(r), k.key(s[i])) || HasKey(k, s[i..], k.key(r))
  {
    var j :| 0 <= j < |s| && s[j] == r;
    if j >= i {
      assert s[i..][j - i] == r;
    }
  }

  lemma BothFromTables<Node(!new)>(s: seq<Node>, t: seq<Node>, tables: seq<seq<Node>>)
    requires tables != [] && (forall n :: n in s ==> n in tables[0]) && FromTables(t, tables[1..])
    ensures FromTables(s + t, tables) && FromTables(t + s, tables)
  {
    assert tables[0] in tables;
    assert forall t :: t in tables[1..] ==> t in tables;
  }

  // ---- one request ----

  /** A page of rows that are known to be those in the key range. */
  lemma PageOf<Node(!new), Key(!new)>(k: Keying<Node, Key>, rows: seq<Node>, range: seq<Node>,
                                      before: Option<string>, after: Option<string>,
                                      first: Option<nat>, last: Option<nat>)
    requires k.Valid() && k.Bound(before, k.highest).Some? && k.Bound(after, k.lowest).Some?
    requires first.Some? != last.Some? && Limit(first, last) <= MAX_INT32
    requires range == k.Between(rows, k.Bound(after, k.lowest).value, k.Bound(before, k.highest).value)
    ensures k.Page(rows, None, before, after, first, last) == Ok(RelayCut(range, None, k.cursor, first, last))
  {
    PageOfRange(k, rows, None, before, after, first, last);
    assert Known(None) == None;
  }

  /** The page of one forward request: a prefix of the ascending rows above the cursor's key. */
  lemma ForwardPage<Node(!new), Key(!new)>(k: Keying<Node, Key>, rows: seq<Node>, after: Option<string>, first: nat,
                                           a: Key)
    returns (range: seq<Node>)
    requires k.Valid() && k.Table(rows) && k.Bound(after, k.lowest) == Some(a) && 1 <= first < MAX_INT32
    ensures k.Ascending(range) && forall r :: r in range <==> r in rows && k.less(a, k.key(r))
    ensures k.Page(rows, None, None, after, Some(first), None)
         == Ok(RelayCut(range, None, k.cursor, Some(first), None))
  {
    range := k.Between(rows, a, k.highest);
    PageOf(k, rows, range, None, after, Some(first), None);
    FilterAscending(k, n => k.Inside(a, k.highest, n), rows);
    forall r: Node
      ensures r in range <==> r in rows && k.less(a, k.key(r))
    {
      FilterMember(n => k.Inside(a, k.highest, n), rows, r);
    }
  }

  /** The page of one backward request: a suffix of the ascending rows below the cursor's key. */
  lemma BackwardPage<Node(!new), Key(!new)>(k: Keying<Node, Key>, rows: seq<Node>, before: Option<string>, last: nat,
                                            b: Key)
    returns (range: seq<Node>)
    requires k.Valid() && k.Table(rows) && k.Bound(before, k.highest) == Some(b) && 1 <= last < MAX_INT32
    ensures k.Ascending(range) && forall r :: r in range <==> r in rows && k.less(k.key(r), b)
    ensures k.Page(rows, None, before, None, None, Some(last))
         == Ok(RelayCut(range, None, k.cursor, None, Some(last)))
  {
    range := k.Between(rows, k.lowest, b);
    PageOf(k, rows, range, before, None, None, Some(last));
    FilterAscending(k, n => k.Inside(k.lowest, b, n), rows);
    forall r: Node
      ensures r in range <==> r in rows && k.less(k.key(r), b)
    {
      FilterMember(n => k.Inside(k.lowest, b, n), rows, r);
    }
  }

  /** One request of a forward walk. */
  lemma ForwardStep<Node(!new), Key(!new)>(k: Keying<Node, Key>, tables: seq<seq<Node>>, after: Option<string>,
                                           first: nat, range: seq<Node>)
    requires tables != [] && first >= 1
    requires k.Page(tables[0], None, None, after, Some(first), None)
          == Ok(RelayCut(range, None, k.cursor, Some(first), None))
    ensures |range| <= first ==> Forward(k, tables, after, first) == Walk(range, true)
    ensures |range| > first ==>
              var rest := Forward(k, tables[1..], Some(k.cursor(range[first - 1])), first);
              Forward(k, tables, after, first) == Walk(range[..first] + rest.nodes, rest.finished)
  {
  }

  lemma BackwardStep<Node(!new), Key(!new)>(k: Keying<Node, Key>, tables: seq<seq<Node>>, before: Option<string>,
                                            last: nat, range: seq<Node>)
    requires tables != [] && last >= 1
    requires k.Page(tables[0], None, before, None, None, Some(last))
          == Ok(RelayCut(range, None, k.cursor, None, Some(last)))
    ensures |range| <= last ==> Backward(k, tables, before, last) == Walk(range, true)
    ensures |range| > last ==>
              var rest := Backward(k, tables[1..], Some(k.cursor(range[|range| - last])), last);
              Backward(k, tables, before, last) == Walk(rest.nodes + range[|range| - last..], rest.finished)
  {
    LastRows(range, k.cursor, last);
  }

  /** What a backward request needs from its page. */
  lemma LastRows<Node>(range: seq<Node>, cursor: Node -> string, last: nat)
    requires last >= 1
    ensures var page := RelayCut(range, None, cursor, None, Some(last));
            if |range| <= last then !page.info.hasPreviousPage && page.nodes == range
            else
              && page.info.hasPreviousPage && page.nodes == range[|range| - last..]
              && page.info.startCursor == cursor(range[|range| - last])
  {
    if |range| > last {
      var nodes := range[|range| - last..];
      assert RelayTrim(range, None, Some(last)) == nodes && nodes[0] == range[|range| - last];
    }
  }

  // ---- a table that changes between requests ----

  /** Whatever happens to the table between requests, the rows received are strictly ascending. */
  lemma {:induction false} ForwardAscends<Node(!new), Key(!new)>(k: Keying<Node, Key>, tables: seq<seq<Node>>,
                                                                 after: Option<string>, first: nat, a: Key)
    requires k.Valid() && AllTables(k, tables)
    requires k.Bound(after, k.lowest) == Some(a) && 1 <= first < MAX_INT32
    ensures AscendingAbove(k, Forward(k, tables, after, first).nodes, a)
    decreases |tables|
  {
    if tables == [] {
    } else {
      var range := ForwardPage(k, tables[0], after, first, a);
      ForwardStep(k, tables, after, first, range);
      if |range| > first {
        var end := range[first - 1];
        assert k.Bound(Some(k.cursor(end)), k.lowest) == Some(k.key(end));
        ForwardAscends(k, tables[1..], Some(k.cursor(end)), first, k.key(end));
        var rest := Forward(k, tables[1..], Some(k.cursor(end)), first).nodes;
        PageThenRest(k, range, first, rest, a);
      }
    }
  }

  /** Every row received was in the table at some request. */
  lemma {:induction false} ForwardReceives<Node(!new), Key(!new)>(k: Keying<Node, Key>, tables: seq<seq<Node>>,
                                                                  after: Option<string>, first: nat, a: Key)
    requires k.Valid() && AllTables(k, tables)
    requires k.Bound(after, k.lowest) == Some(a) && 1 <= first < MAX_INT32
    ensures FromTables(Forward(k, tables, after, first).nodes, tables)
    decreases |tables|
  {
    if tables == [] {
    } else {
      assert tables[0] in tables;
      var range := ForwardPage(k, tables[0], after, first, a);
      ForwardStep(k, tables, after, first, range);
      if |range| > first {
        var end := range[first - 1];
        ForwardReceives(k, tables[1..], Some(k.cursor(end)), first, k.key(end));
        BothFromTables(range[..first], Forward(k, tables[1..], Some(k.cursor(end)), first).nodes, tables);
      }
    }
  }

  lemma PageThenRest<Node(!new), Key(!new)>(k: Keying<Node, Key>, range: seq<Node>, first: nat, rest: seq<Node>,
                          a: Key)
    requires k.Valid() && AscendingAbove(k, range, a) && 1 <= first <= |range|
    requires AscendingAbove(k, rest, k.key(range[first - 1]))
    ensures AscendingAbove(k, range[..first] + rest, a)
  {
    var end := range[first - 1];
    assert end in range;
    forall i, j | 0 <= i < first && 0 <= j < |rest|
      ensures k.less(k.key(range[i]), k.key(rest[j]))
    {
      assert rest[j] in rest;
      assert i < first - 1 ==> k.less(k.key(range[i]), k.key(end));
    }
  }

  /** A key above the starting cursor that is in the table at every request is received before the end. */
  lemma {:induction false} ForwardFinds<Node(!new), Key(!new)>(k: Keying<Node, Key>, tables: seq<seq<Node>>,
                                                               after: Option<string>, first: nat, a: Key, x: Key)
    requires k.Valid() && AllTables(k, tables) && AlwaysThere(k, tables, x) && k.less(a, x)
    requires k.Bound(after, k.lowest) == Some(a) && 1 <= first < MAX_INT32
    requires Forward(k, tables, after, first).finished
    ensures HasKey(k, Forward(k, tables, after, first).nodes, x)
    decreases |tables|
  {
    var range := ForwardPage(k, tables[0], after, first, a);
    ForwardStep(k, tables, after, first, range);
    assert HasKey(k, tables[0], x);
    var r :| r in tables[0] && k.key(r) == x;
    var j :| 0 <= j < |range| && range[j] == r;
    if |range| > first {
      var end := range[first - 1];
      var cursor := Some(k.cursor(end));
      var rest := Forward(k, tables[1..], cursor, first);
      if j < first {
        assert range[..first][j] == r;
      } else {
        assert k.Bound(cursor, k.lowest) == Some(k.key(end));
        assert k.less(k.key(end), x);
        ForwardFinds(k, tables[1..], cursor, first, k.key(end), x);
      }
      HasKeyEither(k, range[..first], rest.nodes, x);
    }
  }

  /** Whatever rows (the cursor rows included) come, go and change between the requests of a forward walk: no
      key is received twice, every row received was in the table at some request, and a key that is in the
      table at every request of a completed walk is received exactly once. */
  lemma ForwardExactlyOnce<Node(!new), Key(!new)>(k: Keying<Node, Key>, tables: seq<seq<Node>>, first: nat, x: Key)
    requires k.Valid() && AllTables(k, tables) && 1 <= first < MAX_INT32
    ensures var walk := Forward(k, tables, None, first);
            && Times(k, walk.nodes, x) <= 1 && FromTables(walk.nodes, tables)
            && (walk.finished && AlwaysThere(k, tables, x) ==> Times(k, walk.nodes, x) == 1)
  {
    var walk := Forward(k, tables, None, first);
    ForwardAscends(k, tables, None, first, k.lowest);
    ForwardReceives(k, tables, None, first, k.lowest);
    AtMostOnce(k, walk.nodes, x);
    if walk.finished && AlwaysThere(k, tables, x) {
      InsideBounds(k, tables, x);
      ForwardFinds(k, tables, None, first, k.lowest, x);
    }
  }

  lemma InsideBounds<Node(!new), Key(!new)>(k: Keying<Node, Key>, tables: seq<seq<Node>>, x: Key)
    requires AllTables(k, tables) && AlwaysThere(k, tables, x) && tables != []
    ensures k.less(k.lowest, x) && k.less(x, k.highest)
  {
    assert tables[0] in tables && HasKey(k, tables[0], x);
    var m :| 0 <= m < |tables[0]| && k.key(tables[0][m]) == x;
  }

  /** A page behind rows that ascend up to it. */
  lemma BackwardJoin<Node(!new), Key(!new)>(k: Keying<Node, Key>, tables: seq<seq<Node>>, before: Option<string>,
                                            last: nat, range: seq<Node>, b: Key)
    requires k.Valid() && tables != [] && last >= 1 && AscendingBelow(k, range, b)
    requires k.Page(tables[0], None, before, None, None, Some(last))
          == Ok(RelayCut(range, None, k.cursor, None, Some(last)))
    requires |range| > last ==>
               var start := range[|range| - last];
               AscendingBelow(k, Backward(k, tables[1..], Some(k.cursor(start)), last).nodes, k.key(start))
    ensures AscendingBelow(k, Backward(k, tables, before, last).nodes, b)
  {
    if |range| <= last {
      BackwardStep(k, tables, before, last, range);
    } else {
      var i := |range| - last;
      var rest := Backward(k, tables[1..], Some(k.cursor(range[i])), last).nodes;
      var nodes := rest + range[i..];
      assert AscendingBelow(k, nodes, b) by {
        RestThenPage(k, range, i, rest, b);
      }
      assert Backward(k, tables, before, last).nodes == nodes by {
        BackwardStep(k, tables, before, last, range);
      }
    }
  }

  /** Backward, each page again comes in front of what was received before. */
  lemma {:induction false} BackwardAscends<Node(!new), Key(!new)>(k: Keying<Node, Key>, tables: seq<seq<Node>>,
                                                                  before: Option<string>, last: nat, b: Key)
    requires k.Valid() && AllTables(k, tables)
    requires k.Bound(before, k.highest) == Some(b) && 1 <= last < MAX_INT32
    ensures AscendingBelow(k, Backward(k, tables, before, last).nodes, b)
    decreases |tables|
  {
    if tables == [] {
    } else {
      var range := BackwardPage(k, tables[0], before, last, b);
      if |range| > last {
        var start := range[|range| - last];
        assert k.Bound(Some(k.cursor(start)), k.highest) == Some(k.key(start));
        BackwardAscends(k, tables[1..], Some(k.cursor(start)), last, k.key(start));
      }
      assert forall n :: n in range ==> n in tables[0] && k.less(k.key(n), b);
      BackwardJoin(k, tables, before, last, range, b);
    }
  }

  lemma {:induction false} BackwardReceives<Node(!new), Key(!new)>(k: Keying<Node, Key>, tables: seq<seq<Node>>,
                                                                   before: Option<string>, last: nat, b: Key)
    requires k.Valid() && AllTables(k, tables)
    requires k.Bound(before, k.highest) == Some(b) && 1 <= last < MAX_INT32
    ensures FromTables(Backward(k, tables, before, last).nodes, tables)
    decreases |tables|
  {
    if tables == [] {
    } else {
      assert tables[0] in tables;
      var range := BackwardPage(k, tables[0], before, last, b);
      BackwardStep(k, tables, before, last, range);
      if |range| > last {
        var i := |range| - last;
        BackwardReceives(k, tables[1..], Some(k.cursor(range[i])), last, k.key(range[i]));
        BothFromTables(range[i..], Backward(k, tables[1..], Some(k.cursor(range[i])), last).nodes, tables);
      }
    }
  }

  lemma RestThenPage<Node(!new), Key(!new)>(k: Keying<Node, Key>, range: seq<Node>, i: nat, rest: seq<Node>, b: Key)
    requires k.Valid() && AscendingBelow(k, range, b) && i < |range|
    requires AscendingBelow(k, rest, k.key(range[i]))
    ensures AscendingBelow(k, rest + range[i..], b)
  {
    assert range[i] in range;
    forall m, j | 0 <= m < |rest| && i <= j < |range|
      ensures k.less(k.key(rest[m]), k.key(range[j]))
    {
      assert rest[m] in rest;
      assert i < j ==> k.less(k.key(range[i]), k.key(range[j]));
    }
  }

  lemma {:induction false} BackwardFinds<Node(!new), Key(!new)>(k: Keying<Node, Key>, tables: seq<seq<Node>>,
                                                                before: Option<string>, last: nat, b: Key, x: Key)
    requires k.Valid() && AllTables(k, tables) && AlwaysThere(k, tables, x) && k.less(x, b)
    requires k.Bound(before, k.highest) == Some(b) && 1 <= last < MAX_INT32
    requires Backward(k, tables, before, last).finished
    ensures HasKey(k, Backward(k, tables, before, last).nodes, x)
    decreases |tables|
  {
    var range := BackwardPage(k, tables[0], before, last, b);
    BackwardStep(k, tables, before, last, range);
    assert HasKey(k, tables[0], x);
    var r :| r in tables[0] && k.key(r) == x;
    if |range| > last {
      var i := |range| - last;
      var start := range[i];
      var cursor := Some(k.cursor(start));
      HasKeyFrom(k, range, i, r);
      if k.less(x, k.key(start)) {
        assert k.Bound(cursor, k.highest) == Some(k.key(start));
        BackwardFinds(k, tables[1..], cursor, last, k.key(start), x);
      }
      HasKeyEither(k, Backward(k, tables[1..], cursor, last).nodes, range[i..], x);
    }
  }

  /** The same for a backward walk. */
  lemma BackwardExactlyOnce<Node(!new), Key(!new)>(k: Keying<Node, Key>, tables: seq<seq<Node>>, last: nat, x: Key)
    requires k.Valid() && AllTables(k, tables) && 1 <= last < MAX_INT32
    ensures var walk := Backward(k, tables, None, last);
            && Times(k, walk.nodes, x) <= 1 && FromTables(walk.nodes, tables)
            && (walk.finished && AlwaysThere(k, tables, x) ==> Times(k, walk.nodes, x) == 1)
  {
    var walk := Backward(k, tables, None, last);
    BackwardAscends(k, tables, None, last, k.highest);
    BackwardReceives(k, tables, None, last, k.highest);
    AtMostOnce(k, walk.nodes, x);
    if walk.finished && AlwaysThere(k, tables, x) {
      InsideBounds(k, tables, x);
      BackwardFinds(k, tables, None, last, k.highest, x);
    }
  }

  /** A row that does not change is received as it is. */
  lemma UnchangedRow<Node(!new), Key(!new)>(k: Keying<Node, Key>, tables: seq<seq<Node>>, nodes: seq<Node>, r: Node)
    requires k.Valid() && AllTables(k, tables) && FromTables(nodes, tables) && Times(k, nodes, k.key(r)) == 1
    requires forall t :: t in tables ==> r in t
    ensures r in nodes
  {
    var n := Filter(m => k.key(m) == k.key(r), nodes)[0];
    FilterMember(m => k.key(m) == k.key(r), nodes, n);
    var t :| t in tables && n in t;
    var i :| 0 <= i < |t| && t[i] == n;
    var j :| 0 <= j < |t| && t[j] == r;
  }
}
