// Merging the data of grouped notifications.
module Notifications {
  import opened Wrappers
  import opened HexQuantity

  // ---- lists without duplicates ----

  /** The elements of `s` in order of their first occurrences. */
  function Unique<T(==)>(s: seq<T>): seq<T> {
    if s == [] then []
    else
      var before, x := s[..|s| - 1], s[|s| - 1];
      if x in before then Unique(before) else Unique(before) + [x]
  }

  method UniqueIDs<T(==)>(ids: seq<T>) returns (result: seq<T>)
    ensures result == Unique(ids)
  {
    var seen: set<T> := {};
    result := [];
    for i := 0 to |ids|
      invariant forall x :: x in seen <==> x in ids[..i]
      invariant result == Unique(ids[..i])
    {
      assert ids[..i + 1][..i] == ids[..i];
      if ids[i] !in seen {
        seen := seen + {ids[i]};
        result := result + [ids[i]];
      }
    }
    assert ids[..|ids|] == ids;
  }

  /** `x` occurs in `s` before `y` first does. */
  ghost predicate Precedes<T(!new)>(s: seq<T>, x: T, y: T) {
    exists p :: 0 <= p <= |s| && x in s[..p] && y !in s[..p]
  }

  /** The same elements, in order of first occurrence (so none twice). */
  ghost predicate FirstOccurrences<T(!new)>(u: seq<T>, s: seq<T>) {
    && (forall x :: x in u <==> x in s)
    && (forall i, j :: 0 <= i < j < |u| ==> Precedes(s, u[i], u[j]))
  }

  lemma PrecedesInPrefix<T(!new)>(s: seq<T>, x: T, a: T, b: T)
    requires a in s
    ensures b in s ==> (Precedes(s + [x], a, b) <==> Precedes(s, a, b))
    ensures b !in s ==> Precedes(s + [x], a, b)
  {
    assert forall p :: 0 <= p <= |s| ==> (s + [x])[..p] == s[..p];
    assert (s + [x])[..|s|] == s && (s + [x])[..|s| + 1] == s + [x];
  }

  lemma NothingPrecedesAtEnd<T(!new)>(s: seq<T>, x: T, b: T)
    requires x !in s && (b in s || b == x)
    ensures !Precedes(s + [x], x, b)
  {
    assert forall p :: 0 <= p <= |s| ==> (s + [x])[..p] == s[..p];
    assert (s + [x])[..|s| + 1] == s + [x];
  }

  lemma {:induction false} UniqueMembers<T>(s: seq<T>)
    ensures forall x :: x in Unique(s) <==> x in s
  {
    if s == [] {
    } else {
      UniqueMembers(s[..|s| - 1]);
      assert s == s[..|s| - 1] + [s[|s| - 1]];
    }
  }

  /** `Unique` is the one list with the same elements in order of first occurrence. */
  lemma {:induction false} UniqueIsFirstOccurrences<T(!new)>(u: seq<T>, s: seq<T>)
    ensures u == Unique(s) <==> FirstOccurrences(u, s)
    decreases |s|
  {
    if s == [] {
      assert u != [] ==> u[0] in u;
    } else {
      var before, x := s[..|s| - 1], s[|s| - 1];
      assert s == before + [x];
      UniqueIsFirstOccurrences(Unique(before), before);
      if u == Unique(s) {
        UniqueExtends(before, x);
      }
      if FirstOccurrences(u, s) {
        if x in before {
          forall i, j | 0 <= i < j < |u|
            ensures Precedes(before, u[i], u[j])
          {
            assert u[i] in u && u[j] in u;
            PrecedesInPrefix(before, x, u[i], u[j]);
          }
          UniqueIsFirstOccurrences(u, before);
        } else {
          LastIsNew(u, before, x);
          UniqueIsFirstOccurrences(u[..|u| - 1], before);
        }
      }
    }
  }

  lemma UniqueExtends<T(!new)>(before: seq<T>, x: T)
    requires FirstOccurrences(Unique(before), before)
    ensures FirstOccurrences(Unique(before + [x]), before + [x])
  {
    UniqueMembers(before + [x]);
    var v := Unique(before);
    assert (before + [x])[..|before|] == before;
    forall i, j | 0 <= i < j < |Unique(before + [x])|
      ensures Precedes(before + [x], Unique(before + [x])[i], Unique(before + [x])[j])
    {
      assert Unique(before + [x])[i] == v[i] && v[i] in v;
      assert j < |v| ==> v[j] in v;
      PrecedesInPrefix(before, x, v[i], Unique(before + [x])[j]);
    }
  }

  lemma LastIsNew<T(!new)>(u: seq<T>, before: seq<T>, x: T)
    requires FirstOccurrences(u, before + [x]) && x !in before
    ensures u != [] && u[|u| - 1] == x && FirstOccurrences(u[..|u| - 1], before)
  {
    assert x in u;
    var k :| 0 <= k < |u| && u[k] == x;
    if k < |u| - 1 {
      assert u[k + 1] in u;
      NothingPrecedesAtEnd(before, x, u[k + 1]);
    }
    var v := u[..|u| - 1];
    forall i | 0 <= i < |v|
      ensures v[i] in before
    {
      assert u[i] in u;
      NothingPrecedesAtEnd(before, x, x);
      assert Precedes(before + [x], u[i], u[k]);
    }
    assert u == v + [x];
    forall y
      ensures y in v <==> y in before
    {
      assert y in u <==> y in v || y == x;
      assert y in v ==> exists i :: 0 <= i < |v| && v[i] == y;
    }
    forall i, j | 0 <= i < j < |v|
      ensures Precedes(before, v[i], v[j])
    {
      PrecedesInPrefix(before, x, v[i], v[j]);
    }
  }

  lemma UniqueSnoc<T>(s: seq<T>, x: T)
    ensures Unique(s + [x]) == if x in s then Unique(s) else Unique(s) + [x]
  {
    assert (s + [x])[..|s|] == s;
  }

  lemma {:induction false} UniqueOfLeft<T>(a: seq<T>, b: seq<T>)
    ensures Unique(Unique(a) + b) == Unique(a + b)
    decreases |b|
  {
    if b == [] {
      assert a + b == a && Unique(a) + b == Unique(a);
      UniqueTwice(a);
    } else {
      var before, x := b[..|b| - 1], b[|b| - 1];
      UniqueOfLeft(a, before);
      UniqueMembers(a);
      assert a + b == (a + before) + [x] && Unique(a) + b == (Unique(a) + before) + [x];
      UniqueSnoc(a + before, x);
      UniqueSnoc(Unique(a) + before, x);
    }
  }

  lemma {:induction false} UniqueOfRight<T>(a: seq<T>, b: seq<T>)
    ensures Unique(a + Unique(b)) == Unique(a + b)
    decreases |b|
  {
    if b == [] {
    } else {
      var before, x := b[..|b| - 1], b[|b| - 1];
      UniqueOfRight(a, before);
      UniqueMembers(before);
      assert a + b == (a + before) + [x];
      UniqueSnoc(a + before, x);
      if x !in before {
        assert a + Unique(b) == (a + Unique(before)) + [x];
        UniqueSnoc(a + Unique(before), x);
      }
    }
  }

  /** Removing duplicates early changes nothing. */
  lemma UniqueOfParts<T>(a: seq<T>, b: seq<T>)
    ensures Unique(Unique(a) + b) == Unique(a + b) == Unique(a + Unique(b))
  {
    UniqueOfLeft(a, b);
    UniqueOfRight(a, b);
  }

  lemma {:induction false} UniqueTwice<T>(a: seq<T>)
    ensures Unique(Unique(a)) == Unique(a)
  {
    if a == [] {
    } else {
      var before, x := a[..|a| - 1], a[|a| - 1];
      UniqueTwice(before);
      UniqueMembers(before);
      if x !in before {
        assert Unique(a)[..|Unique(a)| - 1] == Unique(before);
      }
    }
  }

  // ---- notification data ----

  datatype AnnouncementDetails = AnnouncementDetails(
    platform: string, internalID: string, imageURL: string, title: string,
    description: string, ctaText: string, ctaLink: string, pushNotificationText: string)

  datatype NotificationData = NotificationData(
    authedViewerIDs: seq<string>,
    unauthedViewerIDs: seq<string>,
    newTokenID: string,
    newTokenQuantity: string,
    activityBadgeThreshold: int,
    newTopActiveUser: bool,
    announcementDetails: Option<AnnouncementDetails>)

  const EMPTY := NotificationData([], [], "", "", 0, false, None)

  function FirstNonEmpty(a: string, b: string): string {
    if a != "" then a else b
  }

  function FirstPositive(a: int, b: int): int {
    if a > 0 then a else if b > 0 then b else 0
  }

  function FirstSome<T>(a: Option<T>, b: Option<T>): Option<T> {
    if a.Some? then a else b
  }

  function Validated(n: NotificationData): NotificationData {
    n.(authedViewerIDs := Unique(n.authedViewerIDs), unauthedViewerIDs := Unique(n.unauthedViewerIDs))
  }

  function Merged(n: NotificationData, other: NotificationData): NotificationData {
    Validated(NotificationData(
      other.authedViewerIDs + n.authedViewerIDs,
      other.unauthedViewerIDs + n.unauthedViewerIDs,
      FirstNonEmpty(other.newTokenID, n.newTokenID),
      Add(other.newTokenQuantity, n.newTokenQuantity),
      FirstPositive(other.activityBadgeThreshold, n.activityBadgeThreshold),
      other.newTopActiveUser || n.newTopActiveUser,
      FirstSome(other.announcementDetails, n.announcementDetails)))
  }

  method Validate(n: NotificationData) returns (result: NotificationData)
    ensures result == Validated(n)
  {
    var authed := UniqueIDs(n.authedViewerIDs);
    var unauthed := UniqueIDs(n.unauthedViewerIDs);
    result := NotificationData(authed, unauthed, n.newTokenID, n.newTokenQuantity, n.activityBadgeThreshold,
      n.newTopActiveUser, n.announcementDetails);
  }

  method Concat(n: NotificationData, other: NotificationData) returns (result: NotificationData)
    ensures result == Merged(n, other) == Summary([other, n])
  {
    result := NotificationData(
      other.authedViewerIDs + n.authedViewerIDs,
      other.unauthedViewerIDs + n.unauthedViewerIDs,
      FirstNonEmpty(other.newTokenID, n.newTokenID),
      Add(other.newTokenQuantity, n.newTokenQuantity),
      FirstPositive(other.activityBadgeThreshold, n.activityBadgeThreshold),
      other.newTopActiveUser || n.newTopActiveUser,
      if other.announcementDetails.Some? then other.announcementDetails else n.announcementDetails);
    result := Validate(result);
    ConcatIsSummary(n, other);
  }

  // ---- merging a batch in any grouping ----

  /** A way of merging a batch: which values are concatenated with which. */
  datatype Grouping = One(data: NotificationData) | Join(n: Grouping, other: Grouping)

  function Evaluate(g: Grouping): NotificationData {
    match g
    case One(d) => d
    case Join(n, other) => Merged(Evaluate(n), Evaluate(other))
  }

  /** The values of a batch; the argument of a concatenation comes before its receiver. */
  function Batch(g: Grouping): seq<NotificationData> {
    match g
    case One(d) => [d]
    case Join(n, other) => Batch(other) + Batch(n)
  }

  // What each field of a batch should be, from the whole batch.

  function AllAuthed(ds: seq<NotificationData>): seq<string> {
    if ds == [] then [] else ds[0].authedViewerIDs + AllAuthed(ds[1..])
  }

  function AllUnauthed(ds: seq<NotificationData>): seq<string> {
    if ds == [] then [] else ds[0].unauthedViewerIDs + AllUnauthed(ds[1..])
  }

  function TotalQuantity(ds: seq<NotificationData>): int {
    if ds == [] then 0 else BigInt(ds[0].newTokenQuantity) + TotalQuantity(ds[1..])
  }

  function TokenID(ds: seq<NotificationData>): string {
    if ds == [] then "" else FirstNonEmpty(ds[0].newTokenID, TokenID(ds[1..]))
  }

  function Threshold(ds: seq<NotificationData>): int {
    if ds == [] then 0 else FirstPositive(ds[0].activityBadgeThreshold, Threshold(ds[1..]))
  }

  function Announcement(ds: seq<NotificationData>): Option<AnnouncementDetails> {
    if ds == [] then None else FirstSome(ds[0].announcementDetails, Announcement(ds[1..]))
  }

  predicate AnyTopActive(ds: seq<NotificationData>) {
    ds != [] && (ds[0].newTopActiveUser || AnyTopActive(ds[1..]))
  }

  function Summary(ds: seq<NotificationData>): NotificationData {
    NotificationData(
      Unique(AllAuthed(ds)), Unique(AllUnauthed(ds)), TokenID(ds), Text(TotalQuantity(ds)), Threshold(ds),
      AnyTopActive(ds), Announcement(ds))
  }

  /** The token id of a batch is that of the first value that has one. */
  lemma {:induction false} FirstTokenID(ds: seq<NotificationData>)
    ensures if TokenID(ds) == "" then forall d :: d in ds ==> d.newTokenID == ""
            else exists i :: 0 <= i < |ds| && ds[i].newTokenID == TokenID(ds)
                             && forall j :: 0 <= j < i ==> ds[j].newTokenID == ""
  {
    if ds == [] {
    } else if ds[0].newTokenID != "" {
      assert TokenID(ds) == ds[0].newTokenID;
    } else {
      FirstTokenID(ds[1..]);
      if TokenID(ds[1..]) != "" {
        var i :| 0 <= i < |ds[1..]| && ds[1..][i].newTokenID == TokenID(ds[1..])
                 && forall j :: 0 <= j < i ==> ds[1..][j].newTokenID == "";
        assert ds[i + 1] == ds[1..][i] && forall j :: 1 <= j < i + 1 ==> ds[j] == ds[1..][j - 1];
      } else {
        assert ds == [ds[0]] + ds[1..];
      }
    }
  }

  /** The threshold of a batch is the first positive one, or zero. */
  lemma {:induction false} FirstThreshold(ds: seq<NotificationData>)
    ensures if Threshold(ds) == 0 then forall d :: d in ds ==> d.activityBadgeThreshold <= 0
            else Threshold(ds) > 0 && exists i :: 0 <= i < |ds| && ds[i].activityBadgeThreshold == Threshold(ds)
                                                  && forall j :: 0 <= j < i ==> ds[j].activityBadgeThreshold <= 0
  {
    if ds == [] {
    } else if ds[0].activityBadgeThreshold > 0 {
      assert Threshold(ds) == ds[0].activityBadgeThreshold;
    } else {
      FirstThreshold(ds[1..]);
      if Threshold(ds[1..]) != 0 {
        var i :| 0 <= i < |ds[1..]| && ds[1..][i].activityBadgeThreshold == Threshold(ds[1..])
                 && forall j :: 0 <= j < i ==> ds[1..][j].activityBadgeThreshold <= 0;
        assert ds[i + 1] == ds[1..][i] && forall j :: 1 <= j < i + 1 ==> ds[j] == ds[1..][j - 1];
      } else {
        assert ds == [ds[0]] + ds[1..];
      }
    }
  }

  /** The announcement of a batch is the first one present. */
  lemma {:induction false} FirstAnnouncement(ds: seq<NotificationData>)
    ensures if Announcement(ds) == None then forall d :: d in ds ==> d.announcementDetails == None
            else exists i :: 0 <= i < |ds| && ds[i].announcementDetails == Announcement(ds)
                             && forall j :: 0 <= j < i ==> ds[j].announcementDetails == None
  {
    if ds == [] {
    } else if ds[0].announcementDetails != None {
      assert Announcement(ds) == ds[0].announcementDetails;
    } else {
      FirstAnnouncement(ds[1..]);
      if Announcement(ds[1..]) != None {
        var i :| 0 <= i < |ds[1..]| && ds[1..][i].announcementDetails == Announcement(ds[1..])
                 && forall j :: 0 <= j < i ==> ds[1..][j].announcementDetails == None;
        assert ds[i + 1] == ds[1..][i] && forall j :: 1 <= j < i + 1 ==> ds[j] == ds[1..][j - 1];
      } else {
        assert ds == [ds[0]] + ds[1..];
      }
    }
  }

  /** Around any value of a batch: its ids stand between those before and behind it, its quantity is added, and
      the flag is set if any value sets it. */
  lemma AroundValue(ds: seq<NotificationData>, i: nat)
    requires i < |ds|
    ensures AllAuthed(ds) == AllAuthed(ds[..i]) + ds[i].authedViewerIDs + AllAuthed(ds[i + 1..])
    ensures AllUnauthed(ds) == AllUnauthed(ds[..i]) + ds[i].unauthedViewerIDs + AllUnauthed(ds[i + 1..])
    ensures TotalQuantity(ds) == TotalQuantity(ds[..i]) + BigInt(ds[i].newTokenQuantity) + TotalQuantity(ds[i + 1..])
    ensures ds[i].newTopActiveUser ==> AnyTopActive(ds)
  {
    var before, rest, behind := ds[..i], ds[i..], ds[i + 1..];
    assert ds == before + rest;
    FromValue(ds, i);
    ListsOfBoth(before, rest);
    FieldsOfBoth(before, rest);
    Between(AllAuthed(before), ds[i].authedViewerIDs, AllAuthed(behind));
    Between(AllUnauthed(before), ds[i].unauthedViewerIDs, AllUnauthed(behind));
  }

  lemma FromValue(ds: seq<NotificationData>, i: nat)
    requires i < |ds|
    ensures AllAuthed(ds[i..]) == ds[i].authedViewerIDs + AllAuthed(ds[i + 1..])
    ensures AllUnauthed(ds[i..]) == ds[i].unauthedViewerIDs + AllUnauthed(ds[i + 1..])
    ensures TotalQuantity(ds[i..]) == BigInt(ds[i].newTokenQuantity) + TotalQuantity(ds[i + 1..])
    ensures ds[i].newTopActiveUser ==> AnyTopActive(ds[i..])
  {
    var rest := ds[i..];
    assert rest[0] == ds[i] && rest[1..] == ds[i + 1..];
  }

  lemma Between(a: seq<string>, b: seq<string>, c: seq<string>)
    ensures a + (b + c) == a + b + c
  {
  }

  lemma {:induction false} SomeTopActive(ds: seq<NotificationData>)
    ensures AnyTopActive(ds) <==> exists d :: d in ds && d.newTopActiveUser
  {
    if ds == [] {
    } else {
      assert ds == [ds[0]] + ds[1..];
      SomeTopActive(ds[1..]);
    }
  }

  lemma {:induction false} ListsOfBoth(ds: seq<NotificationData>, es: seq<NotificationData>)
    ensures AllAuthed(ds + es) == AllAuthed(ds) + AllAuthed(es)
    ensures AllUnauthed(ds + es) == AllUnauthed(ds) + AllUnauthed(es)
  {
    if ds == [] {
      assert ds + es == es;
    } else {
      assert (ds + es)[1..] == ds[1..] + es;
      ListsOfBoth(ds[1..], es);
    }
  }

  lemma {:induction false} FieldsOfBoth(ds: seq<NotificationData>, es: seq<NotificationData>)
    ensures TotalQuantity(ds + es) == TotalQuantity(ds) + TotalQuantity(es)
    ensures TokenID(ds + es) == FirstNonEmpty(TokenID(ds), TokenID(es))
    ensures Threshold(ds + es) == FirstPositive(Threshold(ds), Threshold(es))
    ensures Threshold(es) >= 0
    ensures Announcement(ds + es) == FirstSome(Announcement(ds), Announcement(es))
    ensures AnyTopActive(ds + es) <==> AnyTopActive(ds) || AnyTopActive(es)
    decreases |ds| + |es|
  {
    if ds == [] {
      assert ds + es == es;
      if es != [] {
        FieldsOfBoth([], es[1..]);
      }
    } else {
      assert (ds + es)[1..] == ds[1..] + es;
      FieldsOfBoth(ds[1..], es);
    }
  }

  /** The fields of one value, as a batch. */
  lemma OneAsBatch(d: NotificationData)
    ensures AllAuthed([d]) == d.authedViewerIDs && AllUnauthed([d]) == d.unauthedViewerIDs
    ensures TotalQuantity([d]) == BigInt(d.newTokenQuantity)
    ensures TokenID([d]) == d.newTokenID && Announcement([d]) == d.announcementDetails
    ensures Threshold([d]) == FirstPositive(d.activityBadgeThreshold, 0)
    ensures AnyTopActive([d]) == d.newTopActiveUser
  {
    assert [d][1..] == [];
  }

  lemma ConcatIsSummary(n: NotificationData, other: NotificationData)
    ensures Merged(n, other) == Summary([other, n])
  {
    var ds, es := [other], [n];
    assert [other, n] == ds + es;
    ListsOfBoth(ds, es);
    FieldsOfBoth(ds, es);
    OneAsBatch(other);
    OneAsBatch(n);
  }

  /** A summary can stand for its batch. */
  lemma SummaryOfSummary(ds: seq<NotificationData>)
    ensures Summary([Summary(ds)]) == Summary(ds)
  {
    OneAsBatch(Summary(ds));
    UniqueTwice(AllAuthed(ds));
    UniqueTwice(AllUnauthed(ds));
    TextRoundTrip(TotalQuantity(ds));
    FieldsOfBoth([], ds);
  }

  /** Batches with equal summaries can replace each other inside a larger batch. */
  lemma SummaryIsCongruence(ds: seq<NotificationData>, ds': seq<NotificationData>, es: seq<NotificationData>,
                            es': seq<NotificationData>)
    requires Summary(ds) == Summary(ds') && Summary(es) == Summary(es')
    ensures Summary(ds + es) == Summary(ds' + es')
  {
    CongruentLists(ds, ds', es, es');
    CongruentFields(ds, ds', es, es');
  }

  lemma CongruentLists(ds: seq<NotificationData>, ds': seq<NotificationData>, es: seq<NotificationData>,
                       es': seq<NotificationData>)
    requires Summary(ds) == Summary(ds') && Summary(es) == Summary(es')
    ensures Unique(AllAuthed(ds + es)) == Unique(AllAuthed(ds' + es'))
    ensures Unique(AllUnauthed(ds + es)) == Unique(AllUnauthed(ds' + es'))
  {
    ListsOfBoth(ds, es);
    ListsOfBoth(ds', es');
    SameLists(AllAuthed(ds), AllAuthed(ds'), AllAuthed(es), AllAuthed(es'));
    SameLists(AllUnauthed(ds), AllUnauthed(ds'), AllUnauthed(es), AllUnauthed(es'));
  }

  lemma CongruentFields(ds: seq<NotificationData>, ds': seq<NotificationData>, es: seq<NotificationData>,
                        es': seq<NotificationData>)
    requires Summary(ds) == Summary(ds') && Summary(es) == Summary(es')
    ensures TokenID(ds + es) == TokenID(ds' + es') && TotalQuantity(ds + es) == TotalQuantity(ds' + es')
    ensures Threshold(ds + es) == Threshold(ds' + es') && Announcement(ds + es) == Announcement(ds' + es')
    ensures AnyTopActive(ds + es) <==> AnyTopActive(ds' + es')
  {
    FieldsOfBoth(ds, es);
    FieldsOfBoth(ds', es');
    SameTotal(ds, ds');
    SameTotal(es, es');
  }

  lemma SameTotal(ds: seq<NotificationData>, es: seq<NotificationData>)
    requires Summary(ds) == Summary(es)
    ensures TotalQuantity(ds) == TotalQuantity(es)
  {
    TextRoundTrip(TotalQuantity(ds));
    TextRoundTrip(TotalQuantity(es));
  }

  lemma SameLists(a: seq<string>, a': seq<string>, b: seq<string>, b': seq<string>)
    requires Unique(a) == Unique(a') && Unique(b) == Unique(b')
    ensures Unique(a + b) == Unique(a' + b')
  {
    UniqueOfParts(a, b);
    UniqueOfParts(a', b);
    UniqueOfParts(a', b');
    assert Unique(a + b) == Unique(Unique(a) + b) == Unique(a' + b);
    assert Unique(a' + b) == Unique(a' + Unique(b)) == Unique(a' + b');
  }

  /** However a batch of two or more values is grouped, concatenating them gives its summary. */
  lemma {:induction false} SummaryOfGrouping(g: Grouping)
    ensures Summary([Evaluate(g)]) == Summary(Batch(g))
    ensures g.Join? ==> Evaluate(g) == Summary(Batch(g))
  {
    if g.One? {
    } else {
      var n, other := Evaluate(g.n), Evaluate(g.other);
      SummaryOfGrouping(g.n);
      SummaryOfGrouping(g.other);
      SummaryIsCongruence([other], Batch(g.other), [n], Batch(g.n));
      assert [other] + [n] == [other, n];
      ConcatIsSummary(n, other);
      SummaryOfSummary(Batch(g));
    }
  }

  lemma {:induction false} BatchNotEmpty(g: Grouping)
    ensures Batch(g) != [] && (g.Join? ==> |Batch(g)| > 1)
  {
    match g
    case One(_) =>
    case Join(n, other) =>
      BatchNotEmpty(n);
      BatchNotEmpty(other);
  }

  /** Concatenation is associative over any batch: two ways of grouping the same batch give the same result. */
  lemma GroupingDoesNotMatter(g: Grouping, h: Grouping)
    requires Batch(g) == Batch(h)
    ensures Evaluate(g) == Evaluate(h)
  {
    SummaryOfGrouping(g);
    SummaryOfGrouping(h);
    BatchNotEmpty(g);
    BatchNotEmpty(h);
    if g.One? {
      assert Batch(g)[0] == Batch(h)[0];
    }
  }

  /** Concatenating with the empty value equals validation if and only if the threshold is not negative and
      the quantity is written as addition writes it. */
  lemma EmptyIsValidate(n: NotificationData)
    ensures Merged(n, EMPTY) == Merged(EMPTY, n)
    ensures Merged(n, EMPTY) == Validated(n) <==> n.activityBadgeThreshold >= 0 && Canonical(n.newTokenQuantity)
  {
    assert BigInt("") == 0;
    assert n.authedViewerIDs + [] == n.authedViewerIDs == [] + n.authedViewerIDs;
    assert n.unauthedViewerIDs + [] == n.unauthedViewerIDs == [] + n.unauthedViewerIDs;
  }
}
