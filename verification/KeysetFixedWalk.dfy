// Reading a table that does not change, page by page.
module KeysetFixedWalk {
  import opened Wrappers
  import opened Pages
  import opened Keyset
  import opened KeysetWalk

  function Repeat<T>(x: T, n: nat): (s: seq<T>)
    ensures |s| == n && forall t :: t in s ==> t == x
  {
    seq(n, _ => x)
  }

  /** The number of pages a list of `size` rows takes; an empty list takes one. */
  function PageCount(size: nat, perPage: nat): (n: nat)
    requires perPage >= 1
    ensures n >= 1 && size <= n * perPage && (n > 1 ==> (n - 1) * perPage < size)
  {
    if size <= perPage then 1
    else
      var n := PageCount(size - perPage, perPage);
      assert (n + 1) * perPage == n * perPage + perPage && n * perPage == (n - 1) * perPage + perPage;
      n + 1
  }

  /** One page fewer, with as many rows fewer. */
  lemma OnePageFewer(size: nat, n: nat, perPage: nat)
    requires n >= 1 && perPage < size <= n * perPage
    ensures n >= 2 && size - perPage <= (n - 1) * perPage
  {
    assert n * perPage == (n - 1) * perPage + perPage;
  }

  lemma RepeatTail<T>(x: T, n: nat)
    requires n > 0
    ensures Repeat(x, n)[0] == x && Repeat(x, n)[1..] == Repeat(x, n - 1)
  {
  }

  /** The page of one forward request. */
  lemma ForwardPageAt<Node(!new), Key(!new)>(k: Keying<Node, Key>, rows: seq<Node>, i: nat, after: Option<string>,
                                             first: nat)
    requires k.Valid() && k.Table(rows) && 1 <= first < MAX_INT32 && i <= |rows|
    requires after == if i == 0 then None else Some(k.cursor(rows[i - 1]))
    ensures k.Page(rows, None, None, after, Some(first), None)
         == Ok(RelayCut(rows[i..], None, k.cursor, Some(first), None))
  {
    BetweenIsSlice(k, rows, k.Bound(after, k.lowest).value, k.highest, i, |rows|);
    assert rows[i..|rows|] == rows[i..];
    PageOf(k, rows, rows[i..], None, after, Some(first), None);
  }

  lemma SplitSuffix<T>(s: seq<T>, i: nat, n: nat)
    requires 1 <= n && i + n <= |s|
    ensures s[i..][n - 1] == s[i + n - 1] && s[i..] == s[i..][..n] + s[i + n..]
  {
  }

  /** One page in front of a walk that receives everything behind it. */
  lemma ForwardOn<Node(!new), Key(!new)>(k: Keying<Node, Key>, rows: seq<Node>, n: nat, i: nat, after: Option<string>,
                                         first: nat)
    requires k.Valid() && k.Table(rows) && 1 <= first < MAX_INT32 && n > 0 && i + first < |rows|
    requires after == if i == 0 then None else Some(k.cursor(rows[i - 1]))
    requires Forward(k, Repeat(rows, n - 1), Some(k.cursor(rows[i + first - 1])), first)
          == Walk(rows[i + first..], true)
    ensures Forward(k, Repeat(rows, n), after, first) == Walk(rows[i..], true)
  {
    ForwardPageAt(k, rows, i, after, first);
    SplitSuffix(rows, i, first);
    RepeatTail(rows, n);
    ForwardStep(k, Repeat(rows, n), after, first, rows[i..]);
  }

  lemma {:induction false} ForwardFrom<Node(!new), Key(!new)>(k: Keying<Node, Key>, rows: seq<Node>, n: nat, i: nat,
                                                              after: Option<string>, first: nat)
    requires k.Valid() && k.Table(rows) && 1 <= first < MAX_INT32 && i <= |rows|
    requires after == if i == 0 then None else Some(k.cursor(rows[i - 1]))
    requires n >= 1 && |rows| - i <= n * first
    ensures Forward(k, Repeat(rows, n), after, first) == Walk(rows[i..], true)
    decreases n
  {
    if |rows| - i <= first {
      ForwardPageAt(k, rows, i, after, first);
      ForwardStep(k, Repeat(rows, n), after, first, rows[i..]);
    } else {
      OnePageFewer(|rows| - i, n, first);
      ForwardFrom(k, rows, n - 1, i + first, Some(k.cursor(rows[i + first - 1])), first);
      ForwardOn(k, rows, n, i, after, first);
    }
  }

  /** The page of one backward request. */
  lemma BackwardPageAt<Node(!new), Key(!new)>(k: Keying<Node, Key>, rows: seq<Node>, j: nat, before: Option<string>,
                                              last: nat)
    requires k.Valid() && k.Table(rows) && 1 <= last < MAX_INT32 && j <= |rows|
    requires before == if j == |rows| then None else Some(k.cursor(rows[j]))
    ensures k.Page(rows, None, before, None, None, Some(last))
         == Ok(RelayCut(rows[..j], None, k.cursor, None, Some(last)))
  {
    BetweenIsSlice(k, rows, k.lowest, k.Bound(before, k.highest).value, 0, j);
    assert rows[0..j] == rows[..j];
    PageOf(k, rows, rows[..j], before, None, None, Some(last));
  }

  lemma SplitPrefix<T>(s: seq<T>, j: nat, n: nat)
    requires 1 <= n && n <= j <= |s|
    ensures s[..j][j - n] == s[j - n] && s[..j] == s[..j - n] + s[..j][j - n..]
  {
  }

  lemma BackwardOn<Node(!new), Key(!new)>(k: Keying<Node, Key>, rows: seq<Node>, n: nat, j: nat,
                        before: Option<string>,
                                          last: nat)
    requires k.Valid() && k.Table(rows) && 1 <= last < MAX_INT32 && n > 0 && last < j <= |rows|
    requires before == if j == |rows| then None else Some(k.cursor(rows[j]))
    requires Backward(k, Repeat(rows, n - 1), Some(k.cursor(rows[j - last])), last) == Walk(rows[..j - last], true)
    ensures Backward(k, Repeat(rows, n), before, last) == Walk(rows[..j], true)
  {
    BackwardPageAt(k, rows, j, before, last);
    SplitPrefix(rows, j, last);
    RepeatTail(rows, n);
    BackwardStep(k, Repeat(rows, n), before, last, rows[..j]);
  }

  lemma {:induction false} BackwardFrom<Node(!new), Key(!new)>(k: Keying<Node, Key>, rows: seq<Node>, n: nat, j: nat,
                                                               before: Option<string>, last: nat)
    requires k.Valid() && k.Table(rows) && 1 <= last < MAX_INT32 && j <= |rows|
    requires before == if j == |rows| then None else Some(k.cursor(rows[j]))
    requires n >= 1 && j <= n * last
    ensures Backward(k, Repeat(rows, n), before, last) == Walk(rows[..j], true)
    decreases n
  {
    if j <= last {
      BackwardPageAt(k, rows, j, before, last);
      BackwardStep(k, Repeat(rows, n), before, last, rows[..j]);
    } else {
      OnePageFewer(j, n, last);
      BackwardFrom(k, rows, n - 1, j - last, Some(k.cursor(rows[j - last])), last);
      BackwardOn(k, rows, n, j, before, last);
    }
  }

  /** On a fixed table both walks end within one request per page, and the pages of either, put in order,
      are the whole table. */
  lemma WalksOfFixedTable<Node(!new), Key(!new)>(k: Keying<Node, Key>, rows: seq<Node>, perPage: nat)
    requires k.Valid() && k.Table(rows) && 1 <= perPage < MAX_INT32
    ensures var requests := Repeat(rows, PageCount(|rows|, perPage));
            Forward(k, requests, None, perPage) == Backward(k, requests, None, perPage) == Walk(rows, true)
  {
    ForwardFrom(k, rows, PageCount(|rows|, perPage), 0, None, perPage);
    BackwardFrom(k, rows, PageCount(|rows|, perPage), |rows|, None, perPage);
    assert rows[0..] == rows == rows[..|rows|];
  }

  /** A page size of zero never gets anywhere: the empty page has an empty end cursor, which starts over. */
  lemma {:induction false} ZeroPageNeverEnds<Node(!new), Key(!new)>(k: Keying<Node, Key>, rows: seq<Node>, n: nat,
                                                                    after: Option<string>)
    requires k.Valid() && k.Table(rows) && rows != [] && (after == None || after == Some(""))
    ensures Forward(k, Repeat(rows, n), after, 0) == Walk([], false)
    decreases n
  {
    if n == 0 {
    } else {
      BetweenIsSlice(k, rows, k.lowest, k.highest, 0, |rows|);
      assert rows[0..|rows|] == rows[0..];
      PageOf(k, rows, rows[0..], None, after, Some(0), None);
      var page := RelayCut(rows[0..], None, k.cursor, Some(0), None);
      assert page.nodes == [] && page.info.hasNextPage && page.info.endCursor == "";
      RepeatTail(rows, n);
      ZeroPageNeverEnds(k, rows, n - 1, Some(""));
    }
  }
}
