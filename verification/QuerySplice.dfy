// Cutting the scrubbed ranges out of a query's text.
module QuerySplice {
  import opened Wrappers
  import opened ScrubVariables

  /** The end of each scrubbed range, by its start, in runes. A later range with the same start replaces an
      earlier one. */
  type Ranges = m: map<nat, nat> | forall a :: a in m ==> a <= m[a]

  /** No two ranges overlap and all of them lie within the text. */
  predicate Fit(n: nat, ranges: Ranges) {
    && (forall a :: a in ranges ==> ranges[a] <= n)
    && (forall a, b :: a in ranges && b in ranges && a < b ==> ranges[a] <= b)
  }

  predicate Inside(ranges: Ranges, i: nat) {
    exists a :: a in ranges && a <= i < ranges[a]
  }

  // ---- what the result should be, rune by rune ----

  function Marker(mark: string, ranges: Ranges, i: nat): string {
    if i in ranges then mark else ""
  }

  /** The first `i` runes with a marker before each rune that starts a range, without the runes inside ranges. */
  function Upto(mark: string, runes: string, ranges: Ranges, i: nat): string
    requires i <= |runes|
  {
    if i == 0 then ""
    else
      Upto(mark, runes, ranges, i - 1) + Marker(mark, ranges, i - 1)
      + if Inside(ranges, i - 1) then "" else [runes[i - 1]]
  }

  function Redacted(mark: string, runes: string, ranges: Ranges): string {
    Upto(mark, runes, ranges, |runes|) + Marker(mark, ranges, |runes|)
  }

  // ---- the code ----

  /** The keys of a map in some order. */
  ghost predicate Enumerates(keys: seq<nat>, ranges: Ranges) {
    && (forall a :: a in keys <==> a in ranges)
    && (forall i, j :: 0 <= i < j < |keys| ==> keys[i] != keys[j])
  }

  ghost predicate Ascending(keys: seq<nat>) {
    forall i, j :: 0 <= i < j < |keys| ==> keys[i] < keys[j]
  }

  function Insert(x: nat, keys: seq<nat>): seq<nat> {
    if keys == [] || x <= keys[0] then [x] + keys else [keys[0]] + Insert(x, keys[1..])
  }

  function Sort(keys: seq<nat>): seq<nat> {
    if keys == [] then [] else Insert(keys[0], Sort(keys[1..]))
  }

  lemma {:induction false} InsertAscending(x: nat, keys: seq<nat>)
    requires Ascending(keys) && x !in keys
    ensures Ascending(Insert(x, keys)) && forall y :: y in Insert(x, keys) <==> y == x || y in keys
  {
    if keys == [] {
    } else {
      assert keys == [keys[0]] + keys[1..];
      if x > keys[0] {
        InsertAscending(x, keys[1..]);
        var rest := Insert(x, keys[1..]);
        forall i | 0 <= i < |rest|
          ensures keys[0] < rest[i]
        {
          assert rest[i] in rest;
        }
      }
    }
  }

  lemma {:induction false} SortAscending(keys: seq<nat>)
    requires forall i, j :: 0 <= i < j < |keys| ==> keys[i] != keys[j]
    ensures Ascending(Sort(keys)) && forall y :: y in Sort(keys) <==> y in keys
  {
    if keys == [] {
    } else {
      SortAscending(keys[1..]);
      assert keys == [keys[0]] + keys[1..];
      InsertAscending(keys[0], Sort(keys[1..]));
    }
  }

  /** Splices the marker in place of each range; nothing if a slice expression is out of range. */
  method Splice(mark: string, runes: string, ranges: Ranges, keys: seq<nat>) returns (r: Option<string>)
    requires Enumerates(keys, ranges)
    ensures r == if Fit(|runes|, ranges) then Some(Redacted(mark, runes, ranges)) else None
  {
    var sortedKeys := Sort(keys);
    SortAscending(keys);
    var builder, strIndex := "", 0;
    for k := 0 to |sortedKeys|
      invariant Chained(|runes|, ranges, sortedKeys, k)
      invariant builder == Written(mark, runes, ranges, sortedKeys, k)
      invariant strIndex == WrittenUpto(ranges, sortedKeys, k)
    {
      var start := sortedKeys[k];
      if strIndex > start || start > |runes| {
        Unfit(|runes|, ranges, sortedKeys, k);
        return None;
      }
      WriteNext(mark, runes, ranges, sortedKeys, k);
      builder := builder + runes[strIndex..start] + mark;
      strIndex := ranges[start];
    }
    if strIndex > |runes| {
      Unfit(|runes|, ranges, sortedKeys, |sortedKeys|);
      return None;
    }
    WriteRest(mark, runes, ranges, sortedKeys);
    r := Some(builder + runes[strIndex..]);
  }

  /** The logged form of a query. */
  method ScrubbedQuery(runes: string, ranges: Ranges, keys: seq<nat>) returns (r: Option<string>)
    requires Enumerates(keys, ranges)
    ensures r == if Fit(|runes|, ranges) then Some(Redacted("<scrubbed>", runes, ranges)) else None
  {
    r := Splice(SCRUB_TEXT, runes, ranges, keys);
  }

  // ---- the pieces that the loop writes ----

  ghost predicate Sorted(ranges: Ranges, keys: seq<nat>) {
    Ascending(keys) && forall a :: a in keys <==> a in ranges
  }

  /** The first `k` ranges start within the text, and none overlaps the next. */
  ghost predicate Chained(n: nat, ranges: Ranges, keys: seq<nat>, k: nat)
    requires Sorted(ranges, keys) && k <= |keys|
  {
    && (k > 0 ==> keys[k - 1] <= n)
    && (forall i :: 0 <= i < k - 1 ==> ranges[keys[i]] <= keys[i + 1])
  }

  /** What has been written after `k` ranges, and how much of the text that covers. */
  ghost function Written(mark: string, runes: string, ranges: Ranges, keys: seq<nat>, k: nat): string
    requires Sorted(ranges, keys) && k <= |keys| && Chained(|runes|, ranges, keys, k)
  {
    if k == 0 then "" else Upto(mark, runes, ranges, keys[k - 1]) + mark
  }

  ghost function WrittenUpto(ranges: Ranges, keys: seq<nat>, k: nat): nat
    requires Sorted(ranges, keys) && k <= |keys|
  {
    if k == 0 then 0 else ranges[keys[k - 1]]
  }

  lemma Unfit(n: nat, ranges: Ranges, keys: seq<nat>, k: nat)
    requires Sorted(ranges, keys) && k <= |keys|
    requires n < WrittenUpto(ranges, keys, k) || (k < |keys| && (n < keys[k] || keys[k] < WrittenUpto(ranges, keys, k)))
    ensures !Fit(n, ranges)
  {
    assert (k < |keys| ==> keys[k] in ranges) && (k > 0 ==> keys[k - 1] in ranges);
  }

  lemma WriteNext(mark: string, runes: string, ranges: Ranges, keys: seq<nat>, k: nat)
    requires Sorted(ranges, keys) && k < |keys| && Chained(|runes|, ranges, keys, k)
    requires WrittenUpto(ranges, keys, k) <= keys[k] <= |runes|
    ensures Chained(|runes|, ranges, keys, k + 1)
    ensures Written(mark, runes, ranges, keys, k + 1)
         == Written(mark, runes, ranges, keys, k) + runes[WrittenUpto(ranges, keys, k)..keys[k]] + mark
  {
    if k == 0 {
      NothingBefore(ranges, keys);
      BeforeFirstKey(mark, runes, ranges, keys[0]);
      assert "" + runes[0..keys[0]] == runes[..keys[0]];
    } else {
      BetweenKeys(mark, runes, ranges, keys, k);
    }
  }

  lemma WriteRest(mark: string, runes: string, ranges: Ranges, keys: seq<nat>)
    requires Sorted(ranges, keys) && Chained(|runes|, ranges, keys, |keys|)
    requires WrittenUpto(ranges, keys, |keys|) <= |runes|
    ensures Fit(|runes|, ranges)
    ensures Redacted(mark, runes, ranges)
         == Written(mark, runes, ranges, keys, |keys|) + runes[WrittenUpto(ranges, keys, |keys|)..]
  {
    StepwiseFit(|runes|, ranges, keys);
    AfterLastKey(mark, runes, ranges, keys);
  }

  lemma LastKey(ranges: Ranges, keys: seq<nat>, a: nat)
    requires Sorted(ranges, keys) && a in ranges
    requires forall i :: 0 <= i < |keys| - 1 ==> ranges[keys[i]] <= keys[i + 1]
    ensures keys != [] && ranges[a] <= ranges[keys[|keys| - 1]]
  {
    var i :| 0 <= i < |keys| && keys[i] == a;
    var last: nat := keys[|keys| - 1];
    assert last in ranges && last <= ranges[last];
    if i < |keys| - 1 {
      assert ranges[keys[i]] <= keys[i + 1] <= last;
    }
  }

  /** Ranges that do not overlap their successor do not overlap at all. */
  lemma StepwiseFit(n: nat, ranges: Ranges, keys: seq<nat>)
    requires Sorted(ranges, keys)
    requires forall i :: 0 <= i < |keys| - 1 ==> ranges[keys[i]] <= keys[i + 1]
    requires keys != [] ==> ranges[keys[|keys| - 1]] <= n
    ensures Fit(n, ranges)
  {
    forall a | a in ranges
      ensures ranges[a] <= n
    {
      LastKey(ranges, keys, a);
    }
    forall a, b | a in ranges && b in ranges && a < b
      ensures ranges[a] <= b
    {
      Successor(ranges, keys, a, b);
    }
  }

  lemma Successor(ranges: Ranges, keys: seq<nat>, a: nat, b: nat)
    requires Sorted(ranges, keys) && a in ranges && b in ranges && a < b
    requires forall i :: 0 <= i < |keys| - 1 ==> ranges[keys[i]] <= keys[i + 1]
    ensures ranges[a] <= b
  {
    var i :| 0 <= i < |keys| && keys[i] == a;
    var j :| 0 <= j < |keys| && keys[j] == b;
    assert i < j && keys[i + 1] <= keys[j];
  }

  /** One rune further, inside a range and outside. */
  lemma NextInside(mark: string, runes: string, ranges: Ranges, i: nat)
    requires i < |runes| && Inside(ranges, i)
    ensures Upto(mark, runes, ranges, i + 1) == Upto(mark, runes, ranges, i) + Marker(mark, ranges, i)
  {
  }

  lemma NextOutside(mark: string, runes: string, ranges: Ranges, i: nat)
    requires i < |runes| && !Inside(ranges, i)
    ensures Upto(mark, runes, ranges, i + 1) == Upto(mark, runes, ranges, i) + Marker(mark, ranges, i) + [runes[i]]
  {
  }

  /** From the start of a range to its end, nothing but its marker. */
  lemma {:induction false} WithinRange(mark: string, runes: string, ranges: Ranges, a: nat, t: nat)
    requires a in ranges && a < t <= ranges[a] && t <= |runes|
    requires forall b :: b in ranges && a < b ==> t <= b
    ensures Upto(mark, runes, ranges, t) == Upto(mark, runes, ranges, a) + mark
  {
    var i := t - 1;
    assert Inside(ranges, i);
    NextInside(mark, runes, ranges, i);
    if i == a {
    } else {
      WithinRange(mark, runes, ranges, a, i);
      assert Marker(mark, ranges, i) == "";
    }
  }

  lemma Longer(head: string, runes: string, e: nat, i: nat)
    requires e <= i < |runes|
    ensures head + runes[e..i] + "" + [runes[i]] == head + runes[e..i + 1]
  {
    assert runes[e..i + 1] == runes[e..i] + [runes[i]];
  }

  lemma OneFurther(mark: string, runes: string, ranges: Ranges, head: string, e: nat, i: nat)
    requires e <= i < |runes| && i !in ranges && !Inside(ranges, i)
    requires Upto(mark, runes, ranges, i) == head + runes[e..i]
    ensures Upto(mark, runes, ranges, i + 1) == head + runes[e..i + 1]
  {
    NextOutside(mark, runes, ranges, i);
    Longer(head, runes, e, i);
  }

  /** Right at the end of a range. */
  lemma AtRangeEnd(mark: string, runes: string, ranges: Ranges, a: nat, t: nat)
    requires a in ranges && a < t == ranges[a] <= |runes|
    requires forall b :: b in ranges && a < b ==> t <= b
    ensures Upto(mark, runes, ranges, t) == Upto(mark, runes, ranges, a) + mark + runes[t..t]
  {
    WithinRange(mark, runes, ranges, a, t);
    assert runes[t..t] == "";
  }

  /** Just behind an empty range. */
  lemma AfterEmptyRange(mark: string, runes: string, ranges: Ranges, a: nat)
    requires a in ranges && ranges[a] == a < |runes| && !Inside(ranges, a)
    ensures Upto(mark, runes, ranges, a + 1) == Upto(mark, runes, ranges, a) + mark + runes[a..a + 1]
  {
    NextOutside(mark, runes, ranges, a);
    assert runes[a..a + 1] == [runes[a]];
  }

  /** Between the starts of two neighbouring ranges lie the first one's marker and the runes after its end. */
  lemma {:induction false} AfterKey(mark: string, runes: string, ranges: Ranges, a: nat, t: nat)
    requires a in ranges && a < t && ranges[a] <= t <= |runes|
    requires forall b :: b in ranges && b < a ==> ranges[b] <= a
    requires forall b :: b in ranges && a < b ==> t <= b
    ensures Upto(mark, runes, ranges, t) == Upto(mark, runes, ranges, a) + mark + runes[ranges[a]..t]
  {
    var e, i := ranges[a], t - 1;
    if t == e {
      AtRangeEnd(mark, runes, ranges, a, t);
    } else {
      OutsideBetween(ranges, a, t, i);
      if a == i {
        AfterEmptyRange(mark, runes, ranges, a);
      } else {
        AfterKey(mark, runes, ranges, a, i);
        OneFurther(mark, runes, ranges, Upto(mark, runes, ranges, a) + mark, e, i);
      }
    }
  }

  lemma OutsideBetween(ranges: Ranges, a: nat, t: nat, i: nat)
    requires a in ranges && a <= i < t && ranges[a] <= i
    requires forall b :: b in ranges && b < a ==> ranges[b] <= a
    requires forall b :: b in ranges && a < b ==> t <= b
    ensures !Inside(ranges, i)
  {
  }

  lemma {:induction false} BeforeFirstKey(mark: string, runes: string, ranges: Ranges, t: nat)
    requires t <= |runes| && forall b :: b in ranges ==> t <= b
    ensures Upto(mark, runes, ranges, t) == runes[..t]
  {
    if t == 0 {
    } else {
      var i := t - 1;
      BeforeFirstKey(mark, runes, ranges, i);
      assert !Inside(ranges, i) && Marker(mark, ranges, i) == "";
      NextOutside(mark, runes, ranges, i);
      assert runes[..t] == runes[..i] + [runes[i]];
    }
  }

  lemma NothingBefore(ranges: Ranges, keys: seq<nat>)
    requires Sorted(ranges, keys) && keys != []
    ensures forall b :: b in ranges ==> keys[0] <= b
  {
    forall b | b in ranges
      ensures keys[0] <= b
    {
      var i :| 0 <= i < |keys| && keys[i] == b;
    }
  }

  lemma NothingBetween(ranges: Ranges, keys: seq<nat>, k: nat)
    requires Sorted(ranges, keys) && 0 < k < |keys|
    ensures forall b :: b in ranges && keys[k - 1] < b ==> keys[k] <= b
  {
    forall b | b in ranges && keys[k - 1] < b
      ensures keys[k] <= b
    {
      var i :| 0 <= i < |keys| && keys[i] == b;
    }
  }

  lemma BetweenKeys(mark: string, runes: string, ranges: Ranges, keys: seq<nat>, k: nat)
    requires Sorted(ranges, keys) && 0 < k < |keys| && keys[k] <= |runes|
    requires forall i :: 0 <= i < k ==> ranges[keys[i]] <= keys[i + 1]
    ensures Upto(mark, runes, ranges, keys[k])
         == Upto(mark, runes, ranges, keys[k - 1]) + mark + runes[ranges[keys[k - 1]]..keys[k]]
  {
    EarlierEnd(ranges, keys, k - 1);
    NothingBetween(ranges, keys, k);
    assert keys[k - 1] in keys && keys[k - 1] < keys[k];
    AfterKey(mark, runes, ranges, keys[k - 1], keys[k]);
  }

  lemma EarlierEnd(ranges: Ranges, keys: seq<nat>, k: nat)
    requires Sorted(ranges, keys) && k < |keys|
    requires forall i :: 0 <= i < k ==> ranges[keys[i]] <= keys[i + 1]
    ensures forall b :: b in ranges && b < keys[k] ==> ranges[b] <= keys[k]
  {
    forall b | b in ranges && b < keys[k]
      ensures ranges[b] <= keys[k]
    {
      var i :| 0 <= i < |keys| && keys[i] == b;
      assert keys[i + 1] <= keys[k];
    }
  }

  lemma AfterLastKey(mark: string, runes: string, ranges: Ranges, keys: seq<nat>)
    requires Sorted(ranges, keys) && Fit(|runes|, ranges)
    ensures Redacted(mark, runes, ranges)
         == if keys == [] then runes
            else var a := keys[|keys| - 1]; Upto(mark, runes, ranges, a) + mark + runes[ranges[a]..]
  {
    if keys == [] {
      BeforeFirstKey(mark, runes, ranges, |runes|);
    } else {
      assert keys[|keys| - 1] in ranges;
      AfterLastRange(mark, runes, ranges, keys[|keys| - 1]);
    }
  }

  lemma AfterLastRange(mark: string, runes: string, ranges: Ranges, a: nat)
    requires a in ranges && Fit(|runes|, ranges) && forall b :: b in ranges ==> b <= a
    ensures Redacted(mark, runes, ranges) == Upto(mark, runes, ranges, a) + mark + runes[ranges[a]..]
  {
    if a < |runes| {
      AfterKey(mark, runes, ranges, a, |runes|);
      assert Marker(mark, ranges, |runes|) == "";
      assert runes[ranges[a]..|runes|] == runes[ranges[a]..];
    } else {
      assert runes[ranges[a]..] == "";
    }
  }

  // ---- what the result keeps ----

  /** Where an outside rune ends up. */
  function Place(mark: string, runes: string, ranges: Ranges, i: nat): nat
    requires i < |runes|
  {
    |Upto(mark, runes, ranges, i)| + |Marker(mark, ranges, i)|
  }

  lemma UptoGrows(mark: string, runes: string, ranges: Ranges, i: nat)
    requires i < |runes|
    ensures Upto(mark, runes, ranges, i) <= Upto(mark, runes, ranges, i + 1)
  {
  }

  lemma {:induction false} UptoIsPrefix(mark: string, runes: string, ranges: Ranges, i: nat, j: nat)
    requires i <= j <= |runes|
    ensures Upto(mark, runes, ranges, i) <= Upto(mark, runes, ranges, j)
    decreases j - i
  {
    if i == j {
    } else {
      UptoIsPrefix(mark, runes, ranges, i, j - 1);
      UptoGrows(mark, runes, ranges, j - 1);
      var p, q, r := Upto(mark, runes, ranges, i), Upto(mark, runes, ranges, j - 1), Upto(mark, runes, ranges, j);
      assert p <= q <= r;
    }
  }

  /** Every rune outside the ranges is kept, and outside runes stay in order. */
  lemma OutsideIsKept(mark: string, runes: string, ranges: Ranges, i: nat, j: nat)
    requires i < j < |runes| && !Inside(ranges, i) && !Inside(ranges, j)
    ensures Place(mark, runes, ranges, i) < Place(mark, runes, ranges, j) < |Redacted(mark, runes, ranges)|
    ensures Redacted(mark, runes, ranges)[Place(mark, runes, ranges, i)] == runes[i]
    ensures Redacted(mark, runes, ranges)[Place(mark, runes, ranges, j)] == runes[j]
  {
    OutsideIsAt(mark, runes, ranges, i);
    OutsideIsAt(mark, runes, ranges, j);
    PlacesAscend(mark, runes, ranges, i, j);
  }

  lemma PlacesAscend(mark: string, runes: string, ranges: Ranges, i: nat, j: nat)
    requires i < j < |runes| && !Inside(ranges, i)
    ensures Place(mark, runes, ranges, i) < Place(mark, runes, ranges, j)
  {
    BehindPlace(mark, runes, ranges, i);
    UptoIsPrefix(mark, runes, ranges, i + 1, j);
    var p, q := Upto(mark, runes, ranges, i + 1), Upto(mark, runes, ranges, j);
    assert |p| <= |q|;
  }

  lemma BehindPlace(mark: string, runes: string, ranges: Ranges, i: nat)
    requires i < |runes| && !Inside(ranges, i)
    ensures |Upto(mark, runes, ranges, i + 1)| == Place(mark, runes, ranges, i) + 1
  {
  }

  lemma OutsideIsAt(mark: string, runes: string, ranges: Ranges, i: nat)
    requires i < |runes| && !Inside(ranges, i)
    ensures Place(mark, runes, ranges, i) < |Redacted(mark, runes, ranges)|
    ensures Redacted(mark, runes, ranges)[Place(mark, runes, ranges, i)] == runes[i]
  {
    UptoIsPrefix(mark, runes, ranges, i + 1, |runes|);
    assert Upto(mark, runes, ranges, i + 1)[Place(mark, runes, ranges, i)] == runes[i];
  }

  /** The marker of a range stands behind all outside runes before the range and before all others. */
  lemma MarkerInPlace(mark: string, runes: string, ranges: Ranges, a: nat, i: nat)
    requires a in ranges && a <= |runes| && i < |runes| && !Inside(ranges, i)
    ensures Upto(mark, runes, ranges, a) + mark <= Redacted(mark, runes, ranges)
    ensures i < a ==> Place(mark, runes, ranges, i) < |Upto(mark, runes, ranges, a)|
    ensures i >= a ==> |Upto(mark, runes, ranges, a)| + |mark| <= Place(mark, runes, ranges, i)
  {
    MarkerIsWritten(mark, runes, ranges, a);
    if i < a {
      RuneBeforeMarker(mark, runes, ranges, a, i);
    } else {
      RuneBehindMarker(mark, runes, ranges, a, i);
    }
  }

  lemma RuneBeforeMarker(mark: string, runes: string, ranges: Ranges, a: nat, i: nat)
    requires i < a <= |runes| && !Inside(ranges, i)
    ensures Place(mark, runes, ranges, i) < |Upto(mark, runes, ranges, a)|
  {
    BehindPlace(mark, runes, ranges, i);
    NotShorter(mark, runes, ranges, i + 1, a);
  }

  lemma RuneBehindMarker(mark: string, runes: string, ranges: Ranges, a: nat, i: nat)
    requires a in ranges && a <= i < |runes|
    ensures |Upto(mark, runes, ranges, a)| + |mark| <= Place(mark, runes, ranges, i)
  {
    if a < i {
      LongerByMarker(mark, runes, ranges, a);
      NotShorter(mark, runes, ranges, a + 1, i);
      var p, q := Upto(mark, runes, ranges, a) + mark, Upto(mark, runes, ranges, a + 1);
      assert p <= q && |p| == |Upto(mark, runes, ranges, a)| + |mark|;
    }
  }

  lemma NotShorter(mark: string, runes: string, ranges: Ranges, i: nat, j: nat)
    requires i <= j <= |runes|
    ensures |Upto(mark, runes, ranges, i)| <= |Upto(mark, runes, ranges, j)|
  {
    UptoIsPrefix(mark, runes, ranges, i, j);
  }

  lemma LongerByMarker(mark: string, runes: string, ranges: Ranges, a: nat)
    requires a in ranges && a < |runes|
    ensures Upto(mark, runes, ranges, a) + mark <= Upto(mark, runes, ranges, a + 1)
  {
  }

  lemma MarkerIsWritten(mark: string, runes: string, ranges: Ranges, a: nat)
    requires a in ranges && a <= |runes|
    ensures Upto(mark, runes, ranges, a) + mark <= Redacted(mark, runes, ranges)
  {
    if a < |runes| {
      LongerByMarker(mark, runes, ranges, a);
      UptoIsPrefix(mark, runes, ranges, a + 1, |runes|);
      var p, q := Upto(mark, runes, ranges, a) + mark, Upto(mark, runes, ranges, a + 1);
      var r := Upto(mark, runes, ranges, |runes|);
      assert p <= q <= r <= Redacted(mark, runes, ranges);
    }
  }

  lemma {:induction false} UptoDependsOnOutside(mark: string, runes: string, other: string, ranges: Ranges, i: nat)
    requires i <= |runes| == |other|
    requires forall k :: 0 <= k < i && !Inside(ranges, k) ==> runes[k] == other[k]
    ensures Upto(mark, runes, ranges, i) == Upto(mark, other, ranges, i)
  {
    if i == 0 {
    } else {
      UptoDependsOnOutside(mark, runes, other, ranges, i - 1);
    }
  }

  lemma {:induction false} UptoLength(mark: string, runes: string, other: string, ranges: Ranges, i: nat)
    requires i <= |runes| == |other|
    ensures |Upto(mark, runes, ranges, i)| == |Upto(mark, other, ranges, i)|
  {
    if i == 0 {
    } else {
      UptoLength(mark, runes, other, ranges, i - 1);
    }
  }

  /** Two queries of the same length are logged alike exactly when they differ inside scrubbed ranges only. */
  lemma ShowsOutsideOnly(mark: string, runes: string, other: string, ranges: Ranges)
    requires |runes| == |other|
    ensures Redacted(mark, runes, ranges) == Redacted(mark, other, ranges)
       <==> forall i :: 0 <= i < |runes| && !Inside(ranges, i) ==> runes[i] == other[i]
  {
    if Redacted(mark, runes, ranges) == Redacted(mark, other, ranges) {
      forall i | 0 <= i < |runes| && !Inside(ranges, i)
        ensures runes[i] == other[i]
      {
        OutsideIsAt(mark, runes, ranges, i);
        OutsideIsAt(mark, other, ranges, i);
        UptoLength(mark, runes, other, ranges, i);
      }
    }
    if forall i :: 0 <= i < |runes| && !Inside(ranges, i) ==> runes[i] == other[i] {
      UptoDependsOnOutside(mark, runes, other, ranges, |runes|);
    }
  }

  /** The number of runes in the ranges that start at the given keys. */
  function TotalLength(ranges: Ranges, keys: seq<nat>): nat
    requires forall a :: a in keys ==> a in ranges
  {
    if keys == [] then 0
    else
      var a := keys[|keys| - 1];
      TotalLength(ranges, keys[..|keys| - 1]) + ranges[a] - a
  }

  lemma OneMore(ranges: Ranges, keys: seq<nat>, k: nat, m: nat)
    requires 0 < k <= |keys| && forall a :: a in keys ==> a in ranges
    ensures TotalLength(ranges, keys[..k]) == TotalLength(ranges, keys[..k - 1]) + ranges[keys[k - 1]] - keys[k - 1]
    ensures k * m == (k - 1) * m + m
  {
    assert keys[..k][..k - 1] == keys[..k - 1];
  }

  lemma FitsChained(n: nat, ranges: Ranges, keys: seq<nat>)
    requires Sorted(ranges, keys) && Fit(n, ranges)
    ensures forall i :: 0 <= i < |keys| ==> keys[i] <= ranges[keys[i]] <= n
    ensures forall i :: 0 <= i < |keys| - 1 ==> ranges[keys[i]] <= keys[i + 1]
  {
    forall i | 0 <= i < |keys|
      ensures keys[i] <= ranges[keys[i]] <= n && (i < |keys| - 1 ==> ranges[keys[i]] <= keys[i + 1])
    {
      assert keys[i] in ranges && (i < |keys| - 1 ==> keys[i + 1] in ranges);
    }
  }

  lemma LengthStep(mark: string, runes: string, ranges: Ranges, keys: seq<nat>, k: nat)
    requires Sorted(ranges, keys) && 0 < k < |keys| && Fit(|runes|, ranges)
    ensures ranges[keys[k - 1]] <= keys[k] <= |runes|
    ensures |Upto(mark, runes, ranges, keys[k])|
         == |Upto(mark, runes, ranges, keys[k - 1])| + |mark| + keys[k] - ranges[keys[k - 1]]
  {
    FitsChained(|runes|, ranges, keys);
    BetweenKeys(mark, runes, ranges, keys, k);
    var between := runes[ranges[keys[k - 1]]..keys[k]];
    assert |between| == keys[k] - ranges[keys[k - 1]];
  }

  lemma {:induction false} LengthAtKey(mark: string, runes: string, ranges: Ranges, keys: seq<nat>, k: nat)
    requires Sorted(ranges, keys) && k < |keys| && Fit(|runes|, ranges)
    ensures keys[k] <= |runes|
    ensures |Upto(mark, runes, ranges, keys[k])| == keys[k] - TotalLength(ranges, keys[..k]) + k * |mark|
  {
    if k == 0 {
      FitsChained(|runes|, ranges, keys);
      NothingBefore(ranges, keys);
      BeforeFirstKey(mark, runes, ranges, keys[0]);
    } else {
      LengthAtKey(mark, runes, ranges, keys, k - 1);
      LengthStep(mark, runes, ranges, keys, k);
      OneMore(ranges, keys, k, |mark|);
    }
  }

  /** The result has the query's length, less all range lengths, plus one marker per range. */
  lemma RedactedLength(mark: string, runes: string, ranges: Ranges, keys: seq<nat>)
    requires Sorted(ranges, keys) && Fit(|runes|, ranges)
    ensures |Redacted(mark, runes, ranges)| == |runes| - TotalLength(ranges, keys) + |keys| * |mark|
  {
    AfterLastKey(mark, runes, ranges, keys);
    if keys != [] {
      LengthAtKey(mark, runes, ranges, keys, |keys| - 1);
      OneMore(ranges, keys, |keys|, |mark|);
      assert keys[..|keys|] == keys;
    }
  }
}
