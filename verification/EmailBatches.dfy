// Running a callback for every user who receives an email type, one batch of users at a time.
module EmailBatches {
  import opened Keyset

  const EMAILS_AT_A_TIME: nat := 10_000

  /** The users in (creation time, id) order; only those created before the end time and subscribed count. */
  datatype Mailing<!User(!new), !Key(!new)> = Mailing(
    table: Keying<User, Key>,
    users: seq<User>,
    end: Key,
    eligible: User -> bool)
  {
    ghost predicate Valid() {
      table.Valid() && table.Table(users)
    }

    predicate Due(after: Key, u: User) {
      table.less(after, table.key(u)) && table.less(table.key(u), end) && eligible(u)
    }

    /** All users who are to be mailed and come after the cursor. */
    function DueAfter(after: Key): seq<User> {
      Filter(u => Due(after, u), users)
    }

    function Batch(after: Key): seq<User> {
      Take(DueAfter(after), EMAILS_AT_A_TIME)
    }
  }

  lemma {:induction false} FilterTwice<T>(p: T -> bool, q: T -> bool, r: T -> bool, s: seq<T>)
    requires forall x :: r(x) <==> p(x) && q(x)
    ensures Filter(q, Filter(p, s)) == Filter(r, s)
  {
    if s == [] {
    } else {
      FilterTwice(p, q, r, s[1..]);
      FilterAppend(q, if p(s[0]) then [s[0]] else [], Filter(p, s[1..]));
    }
  }

  /** Moving the cursor to the i-th user who is due leaves exactly the users after that one due. */
  lemma CursorSkips<User(!new), Key(!new)>(m: Mailing<User, Key>, after: Key, i: nat)
    requires m.Valid() && i < |m.DueAfter(after)|
    ensures m.DueAfter(m.table.key(m.DueAfter(after)[i])) == m.DueAfter(after)[i + 1..]
  {
    var k, due := m.table, m.DueAfter(after);
    var last := k.key(due[i]);
    FilterAscending(k, u => m.Due(after, u), m.users);
    FilterMember(u => m.Due(after, u), m.users, due[i]);
    FilterTwice(u => m.Due(after, u), u => k.less(last, k.key(u)), u => m.Due(last, u), m.users);
    forall j | 0 <= j < |due|
      ensures k.less(last, k.key(due[j])) <==> i + 1 <= j
    {
      if j < i {
        assert k.less(k.key(due[j]), last);
      }
    }
    FilterSlice(u => k.less(last, k.key(u)), due, i + 1, |due|);
    assert due[i + 1..|due|] == due[i + 1..];
  }

  /** A short batch is all that is due; behind the last user of a full one come the others. */
  lemma NextBatch<User(!new), Key(!new)>(m: Mailing<User, Key>, after: Key)
    requires m.Valid()
    ensures var users, due := m.Batch(after), m.DueAfter(after);
            if |users| < EMAILS_AT_A_TIME then users == due
            else |users| == EMAILS_AT_A_TIME && due == users + m.DueAfter(m.table.key(users[|users| - 1]))
  {
    var users, due := m.Batch(after), m.DueAfter(after);
    if |users| >= EMAILS_AT_A_TIME {
      CursorSkips(m, after, |users| - 1);
      assert due == users + due[|users|..];
    }
  }

  /** How many full batches there are in all, when `q` have been made and `left` users remain. */
  lemma BatchesMade(total: nat, q: nat, left: nat)
    requires total == q * EMAILS_AT_A_TIME + left
    ensures q <= total / EMAILS_AT_A_TIME && (q * EMAILS_AT_A_TIME) % EMAILS_AT_A_TIME == 0
    ensures left < EMAILS_AT_A_TIME ==> q == total / EMAILS_AT_A_TIME
  {
  }

  /** After `queries` full batches, `called` have been called and those behind `last` are still due. */
  ghost predicate Underway<User(!new), Key(!new)>(m: Mailing<User, Key>, start: Key, called: seq<User>, last: Key,
                                                  queries: nat)
  {
    called + m.DueAfter(last) == m.DueAfter(start) && |called| == queries * EMAILS_AT_A_TIME
  }

  lemma UnderwayCounts<User(!new), Key(!new)>(m: Mailing<User, Key>, start: Key, called: seq<User>, last: Key,
                                              queries: nat)
    requires Underway(m, start, called, last, queries)
    ensures called <= m.DueAfter(start) && |called| % EMAILS_AT_A_TIME == 0
    ensures queries <= |m.DueAfter(start)| / EMAILS_AT_A_TIME
    ensures |m.DueAfter(last)| < EMAILS_AT_A_TIME ==> queries == |m.DueAfter(start)| / EMAILS_AT_A_TIME
  {
    assert called <= called + m.DueAfter(last);
    BatchesMade(|m.DueAfter(start)|, queries, |m.DueAfter(last)|);
  }

  lemma Regroup<User>(called: seq<User>, users: seq<User>, rest: seq<User>)
    ensures called + (users + rest) == called + users + rest
  {
  }

  /** A batch ends the run or leads on. */
  lemma BatchLeadsOn<User(!new), Key(!new)>(m: Mailing<User, Key>, start: Key, called: seq<User>, last: Key,
                                            queries: nat)
    requires m.Valid() && Underway(m, start, called, last, queries)
    ensures var users := m.Batch(last);
            if |users| < EMAILS_AT_A_TIME then called + users == m.DueAfter(start) && users == m.DueAfter(last)
            else
              var next := m.table.key(users[|users| - 1]);
              Underway(m, start, called + users, next, queries + 1) && |m.DueAfter(next)| < |m.DueAfter(last)|
  {
    var users := m.Batch(last);
    NextBatch(m, last);
    if |users| >= EMAILS_AT_A_TIME {
      Regroup(called, users, m.DueAfter(m.table.key(users[|users| - 1])));
    }
  }

  /** Calls back every due user once, in table order, batch after batch until a short one. `failing` says
      which query (counted from zero) fails; the callbacks started before that have been made. */
  method RunForUsers<User(!new), Key(!new)>(m: Mailing<User, Key>, start: Key, failing: nat -> bool)
    returns (called: seq<User>, ok: bool, queries: nat)
    requires m.Valid()
    ensures ok ==> called == m.DueAfter(start)
    ensures ok ==> queries == |m.DueAfter(start)| / 10_000 + 1
    ensures !ok ==> called <= m.DueAfter(start) && |called| % EMAILS_AT_A_TIME == 0
    ensures ok <==> forall q: nat :: q <= |m.DueAfter(start)| / EMAILS_AT_A_TIME ==> !failing(q)
  {
    var last := start;
    called, queries := [], 0;
    assert [] + m.DueAfter(start) == m.DueAfter(start);
    while true
      invariant Underway(m, start, called, last, queries)
      invariant forall q: nat :: q < queries ==> !failing(q)
      decreases |m.DueAfter(last)|
    {
      UnderwayCounts(m, start, called, last, queries);
      queries := queries + 1;
      if failing(queries - 1) {
        return called, false, queries;
      }
      var users := m.Batch(last);
      BatchLeadsOn(m, start, called, last, queries - 1);
      called := called + users;
      if |users| < EMAILS_AT_A_TIME {
        break;
      }
      if |users| > 0 {
        last := m.table.key(users[|users| - 1]);
      }
    }
    ok := true;
  }

  /** Without failing queries nobody is mailed twice and nobody who is due is left out. */
  lemma EveryDueUserOnce<User(!new), Key(!new)>(m: Mailing<User, Key>, start: Key, u: User)
    requires m.Valid()
    ensures var k := m.table;
            multiset(m.DueAfter(start))[u]
            == if u in m.users && k.less(start, k.key(u)) && k.less(k.key(u), m.end) && m.eligible(u) then 1 else 0
  {
    FilterMember(x => m.Due(start, x), m.users, u);
    FilterAscending(m.table, x => m.Due(start, x), m.users);
    AscendingOccursOnce(m.table, m.DueAfter(start), u);
  }
}
