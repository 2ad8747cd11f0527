# Proofs about pagination, sessions, migrations, scrubbing and notifications

This project models five parts of the SplitFi backend in Dafny and proves what they promise.

**Cursor pagination.** `Varint`, `Base64` and `CursorFormat` describe the bytes of a cursor string; `CursorCodec` has the
encoder, decoder and cursor as objects that are updated step by step; `CursorRoundTrip` proves that reading inverts
writing, and `CursorReading` what becomes of strings that were not written by packing. `Pages` cuts and describes a page and holds the "Pagination algorithm" of the GraphQL Cursor Connections
Specification; `Keyset` and `KeysetRelay` prove that fetching one row more than asked for from a key range gives the page
of that algorithm run on the whole table; `KeysetWalk` follows cursors, forward and backward, through a table that
changes between requests, and `KeysetFixedWalk` through one that does not. `KeysetDeparted` treats cursors of deleted rows.
`TimeIDPaging` and `PositionPaging` are two concrete paginators, `IDCache` and `EmailBatches` two clients.

**Sessions.** `SessionStore` has tokens, session rows and the forced-refresh cache with their atomic operations.
`SessionProtocol` is a transition system in which any number of requests issue tokens, end sessions and continue them, one
step at a time, on a clock that may or may not advance between steps. `SessionSafety` and `RefreshTree` prove invariants of every reachable state;
`SessionScenarios` has runs that show where the guarantees end, and shows that requests that are not interrupted do what the methods of
`SessionRequest` (one request's context and cookies) do.

**Migrations.** `Migrations` scans the migration files, `MigrationRun` alternates between the superuser and the ordinary
client on one database.

**Scrubbing.** `ScrubVariables` and `ScrubProperties` treat request variables, `QuerySplice` the query text.

**Notification merging.** `HexQuantity` and `Notifications`.

The main results are stated exactly, as if-and-only-if, wherever the code does less than one would expect:

- A cursor whose last field is an empty string cannot be read back (`CursorRoundTrip.PackUnpack`), because a read of no bytes at the end
  of the stream reports the end of the stream.
- The fetch limit is converted to 32 bits; beyond that a page is wrong unless everything fits (`KeysetRelay.KeysetIsRelay`).
- Token claims and the forced-refresh time are whole seconds. `service/auth/auth.go:456-477` compares them strictly, so an
  auth token issued in the very second its session is ended keeps working until it expires or the user is forced to refresh again (`SessionSafety.EndedSession`,
  `SessionScenarios.SameSecondSurvives`).
- The extra minute on the cache entry covers the time between parsing a cookie and reading the cache. Since a refresh that
  rejects a token is at least one whole second later than the token, requests may take up to 61 seconds for that, and
  no longer (`SessionScenarios.HowSlowIsSafe`).
- Scrubbing looks through one list layer only; deeper types show marked data (`ScrubProperties.RequestIndependentUnlessLeaking`).
- `RunMigrations` without an ordinary client at the start crashes exactly under `MigrationRun.UsesMissing`, and succeeds exactly
  under `MigrationRun.RoleAppears` with a clean database and no failing script pending. A run without the superuser and without pending
  migrations returns the no-change error, while a run with the superuser hides it.
- Given cursors in the wrong order, the position paginator that filters in the database returns nothing, while the one that
  cuts results at hand ignores the before cursor (`PositionPaging.FormsAgree`).
- A cursor whose row was deleted still bounds a key range, while the Relay algorithm, and the paginator that cuts results at
  hand, ignore it. The pages agree only when nothing was cut off or the page does not show it (`KeysetDeparted.GoneAfter`,
  `PositionPaging.DepartedAfter`).
- An auth token carries the id of the refresh token that was used to obtain it, not of the one issued with it.
- The comment at `service/auth/auth.go:587-590` says that an issuing error changes neither cookies nor context. That holds for the
  issuing function itself; its callers then clear the context, and, for a new or an invalidated session, the cookies.

Requests, clocks, generated ids, role lookups and failing calls are parameters. A time stands for its binary form and a float
for its 64 bits. Queries are ordered, exclusive range queries on unique keys.

## Model

| member | source | states |
|---|---|---|
| `Varint.ReadAfterPut` | publicapi/pagination.go:803-807 | Reading a number at any stage of a varint gives it back with the bytes behind it untouched, in no more groups than are left of ten |
| `Varint.ReadIsUint64` | publicapi/pagination.go:914-916 | Whatever the bytes are, a number that is read fits in 64 bits, and what is left is a proper suffix of the stream |
| `Varint.CutShort` | publicapi/pagination.go:914-922 | A number cut short ends in an error, and what the failing read has gathered are its low groups |
| `Varint.TooLong` | publicapi/pagination.go:914-922 | Ten groups with more than one bit in the last are an overflow |
| `Varint.Groups` | publicapi/pagination.go:803-807 | The written groups, lowest first, are the digits to base 128, all but the last marked by the high bit |
| `Varint.UvarintRoundTrip` | publicapi/pagination.go:803-807 | Every uint64 takes one to ten bytes and is read back at the head of any stream, leaving exactly the remaining bytes |
| `Varint.VarintRoundTrip` | publicapi/pagination.go:811-815 | The same for every int64 through zigzag |
| `Varint.ZigzagIsBijective` | publicapi/pagination.go:811-815 | Zigzag and its inverse undo each other on all 64-bit values, so no unsigned number is without a signed meaning |
| `Varint.ZigzagOrder` | publicapi/pagination.go:811-815 | Non-negative numbers get the even codes and negative ones the odd codes, in order of magnitude |
| `Base64.RoundTrip` | publicapi/pagination.go:756-758 | Decoding an encoded buffer with unpadded standard base64 gives the buffer back |
| `Base64.StandardAlphabet` | publicapi/pagination.go:756-758 | The letters are those of Table 1 in RFC 4648 |
| `Base64.SameBits` | publicapi/pagination.go:756-758 | Three bytes and their four letters are the same 24 bits, highest byte first |
| `Base64.WhatDecodes` | publicapi/pagination.go:833-840 | Line breaks are skipped, and exactly strings of letters that leave no single letter over decode; padding does not |
| `Base64.EmptyOnlyForEmpty` | publicapi/pagination.go:1208-1211 | Only the empty buffer encodes to the empty string, which Unpack treats as no cursor |
| `CursorRoundTrip.TextsRoundTrip` | publicapi/pagination.go:1195-1199 | A list of strings is read back whatever follows, and runs out exactly when its last string is empty and nothing follows |
| `CursorRoundTrip.FieldRoundTrip` | publicapi/pagination.go:1154-1184 | Each field delimits itself: bools, ints, floats, times, strings and id lists are read back in front of any further bytes; an empty string at the end of the stream is the one exception |
| `CursorRoundTrip.FieldsRoundTrip` | publicapi/pagination.go:1186-1193 | The exact outcome, fields and error, of unpacking a packed sequence of fields over any earlier contents |
| `CursorRoundTrip.WhatPacks` | publicapi/pagination.go:1146-1152 | Packing fails exactly when a time has no binary form, and gives the empty string exactly for no fields |
| `CursorRoundTrip.PackUnpack` | publicapi/pagination.go:1146-1221 | Unpack after Pack restores every field without error if and only if the last field does not end in an empty string; otherwise all but the last field are restored and the end of the stream is reported |
| `CursorRoundTrip.EncodeInjective` | publicapi/pagination.go:1186-1199 | Field lists of one shape have distinct encodings, even in front of further bytes |
| `CursorRoundTrip.PackInjective` | publicapi/pagination.go:1146-1152 | Two cursors of one type with the same string are the same cursor, trailing empty strings included |
| `CursorRoundTrip.EveryCursorType` | publicapi/pagination.go:1019-1131 | For each of the seven cursor types: the string restores the cursor if and only if the final id is not empty (for position cursors: the id list is empty or its last id is not) |
| `CursorReading.SampleBytes` | publicapi/pagination.go:760-821 | The bytes of sample fields of each kind but time |
| `CursorReading.NothingToRead` | publicapi/pagination.go:1208-1214 | The empty string, and a string that is not base64, leave the fields as they are; only the latter is an error |
| `CursorReading.UnpackIndependent` | publicapi/pagination.go:1208-1257 | Whether bytes can be unpacked, and into what, does not depend on what the cursor held before |
| `CursorReading.MoreAfterField` | publicapi/pagination.go:843-932 | A field that has been read is read alike when more bytes follow, which are left over |
| `CursorReading.TrailingIgnored` | publicapi/pagination.go:1208-1221 | Bytes behind the last field are ignored |
| `CursorReading.CutShortFails` | publicapi/pagination.go:1208-1280 | A cursor that has been cut short, anywhere, is never read without an error |
| `CursorReading.CutText` | publicapi/pagination.go:882-900 | A string whose bytes are not all there is a short read, or the end of the stream if none are |
| `CursorReading.CutInt` | publicapi/pagination.go:1252-1257 | An int that is cut short keeps its low groups |
| `CursorReading.WhichTimes` | publicapi/pagination.go:854-879 | Exactly binary forms of 15 bytes and version 1, or of 16 bytes and version 2, are accepted as times |
| `CursorReading.BadLengths` | publicapi/pagination.go:854-900 | Lengths that cannot be allocated, and negative list lengths, are crashes |
| `CursorReading.PositiveIsTrue` | publicapi/pagination.go:843-851 | Any written number above zero reads as true |
| `CursorReading.ZeroAtEnd` | publicapi/pagination.go:1252-1280 | A field that finds the stream exhausted becomes its zero value, but an id list stays |
| `CursorCodec.Encoder.AsBase64` | publicapi/pagination.go:756-758 | The returned string decodes to the buffer |
| `CursorCodec.Encoder.AppendBool` | publicapi/pagination.go:760-768 | Appends the field's encoding and changes nothing else |
| `CursorCodec.Encoder.AppendTime` | publicapi/pagination.go:770-783 | Appends length and binary form of a time, or leaves the buffer alone when there is no binary form |
| `CursorCodec.Encoder.AppendString` | publicapi/pagination.go:785-799 | Appends the length and the bytes of a string or id |
| `CursorCodec.Encoder.AppendUInt64` | publicapi/pagination.go:803-807 | Appends the varint of a number |
| `CursorCodec.Encoder.AppendInt64` | publicapi/pagination.go:811-815 | Appends the zigzag varint of a number |
| `CursorCodec.Encoder.PackIDs` | publicapi/pagination.go:1195-1199 | Appends the length of the list and every id in order |
| `CursorCodec.Encoder.PackVal` | publicapi/pagination.go:1154-1184 | Appends the encoding of any field kind, or reports the one that has none |
| `CursorCodec.Encoder.PackVals` | publicapi/pagination.go:1186-1193 | Appends the fields in order, or fails exactly when one of them cannot be encoded |
| `CursorCodec.Decoder.SetReader` | publicapi/pagination.go:833-840 | Replaces the stream by the decoded bytes, or fails and leaves it alone |
| `CursorCodec.Decoder.ReadUInt64` | publicapi/pagination.go:914-916 | Delivers the specified value, rest and error of reading a varint |
| `CursorCodec.Decoder.ReadInt64` | publicapi/pagination.go:920-922 | Delivers the specified value, rest and error of reading a zigzag varint |
| `CursorCodec.Decoder.ReadString` | publicapi/pagination.go:882-910 | Reads a length and then that many bytes; an empty read at the end of the stream fails |
| `CursorCodec.Decoder.ReadTimestamp` | publicapi/pagination.go:854-879 | Reads a length and the binary form of a time, refusing malformed ones |
| `CursorCodec.Decoder.ReadBoolean` | publicapi/pagination.go:843-851 | Any number above zero reads as true |
| `CursorCodec.Decoder.ReadIDList` | publicapi/pagination.go:1259-1280 | Reads as many ids as the length says; a negative or unallocatable length is a crash |
| `CursorCodec.Decoder.ReadField` | publicapi/pagination.go:1223-1242 | Dispatches on the kind of the registered field |
| `CursorCodec.UnpackStep` | publicapi/pagination.go:1244-1257 | Overwriting one field after a successful read keeps the invariant of the unpacking loop |
| `CursorCodec.Cursor.Pack` | publicapi/pagination.go:1146-1152 | The string of the registered fields in order |
| `CursorCodec.Cursor.Unpack` | publicapi/pagination.go:1208-1257 | Fields and error after unpacking, on every path: empty string, bad base64, a field that cannot be read (with what a failed read stores), success |
| `Pages.Find` | publicapi/pagination.go:142-152 | The first node with the cursor, unless a node whose cursor cannot be computed comes before it |
| `Pages.ApplyCursors` | publicapi/pagination.go:139-169 | Both cutting loops, with their error path, give the specified cut |
| `Pages.BuildPage` | publicapi/pagination.go:67-80 | Cut, trim and describe, in that order and with their errors |
| `Pages.CountDecides` | publicapi/pagination.go:90-125 | When every node can be packed, only a failing count makes a page fail, and the total is the count |
| `Pages.UnpackableFirst` | publicapi/pagination.go:90-152 | A first node that cannot be packed makes a page that compares or shows it fail, before anything is counted |
| `Pages.CutIsIdentity` | publicapi/pagination.go:139-169 | Nothing is cut from nodes that do not carry the cursors |
| `Pages.TrimIsRelayTrim` | publicapi/pagination.go:127-137 | The trimming code is EdgesToReturn of the Relay specification if and only if it is not the case that both first and last are given, first cuts and last would cut more |
| `Pages.FinishIsRelayCut` | publicapi/pagination.go:90-137 | Nodes, size, total, both flags and both cursors of a page are those of the Relay cut |
| `Pages.CutIsRelayApply` | publicapi/pagination.go:139-169 | The cutting loops are ApplyCursorsToEdges of the Relay specification for distinct cursors |
| `Pages.PageFromIsRelay` | publicapi/pagination.go:67-137 | Paging an unfiltered list with distinct cursors is the Relay pagination algorithm |
| `Keyset.ReverseInPlace` | publicapi/pagination.go:206-210 | The swap loop reverses the array in place |
| `Keyset.Fetch` | publicapi/pagination.go:197-210 | Rows fetched backward are turned round; a failing query is passed on |
| `Keyset.Paginate` | publicapi/pagination.go:186-213 | The paginator fetches limit + 1 (cut to 32 bits), reverses, and pages |
| `Keyset.UndecodableCursor` | publicapi/pagination.go:260-270 | A cursor that cannot be decoded makes the page fail, whatever else was asked for |
| `Keyset.BetweenIsSlice` | publicapi/pagination.go:248-279 | The exclusive key range between two rows of a table is the slice between their positions |
| `Keyset.RangeIsRelay` | publicapi/pagination.go:248-279 | The key range selected by cursors of existing rows is what the Relay algorithm keeps, if and only if after precedes before or after is the last row |
| `KeysetRelay.OneMoreIsEnough` | publicapi/pagination.go:187-193 | One row more than the page gives the same page and flags as the whole range; any fewer give a different one whenever the range is longer |
| `KeysetRelay.CursorsOutside` | publicapi/pagination.go:139-169 | No row in the key range carries a cursor that bounds it |
| `KeysetRelay.PageOfRange` | publicapi/pagination.go:186-213 | A keyset page is the Relay cut of the rows in its key range if and only if the limit fits in 32 bits or the range is no longer than what is left of it |
| `KeysetRelay.InOrderCursors` | publicapi/pagination.go:186-213 | With after ahead of before, a keyset page equals the Relay algorithm on the whole table if and only if the limit fits |
| `KeysetRelay.KeysetIsRelay` | publicapi/pagination.go:171-213 | For cursors of existing rows in either order, a keyset page equals the Relay algorithm on the whole table (nodes, flags, cursors) if and only if: with after ahead of before, the limit fits; otherwise, after is the last row and the limit is not negative in 32 bits |
| `KeysetRelay.OutOfOrderCursors` | publicapi/pagination.go:186-213 | With after not ahead of before the two agree if and only if after is the last row and the limit is not negative in 32 bits |
| `KeysetDeparted.CutOfSuffix` | publicapi/pagination.go:90-137 | A page of the last edges of a list is the page of all of them if and only if none were cut off or the page does not show that |
| `KeysetDeparted.CutOfPrefix` | publicapi/pagination.go:90-137 | The same for the first edges of a list |
| `KeysetDeparted.GoneAfter` | publicapi/pagination.go:186-213 | With an after cursor that names no row (any more), a keyset page equals the Relay page if and only if the limit fits and either no row comes before the gap or the page hides those that do |
| `KeysetDeparted.GoneBefore` | publicapi/pagination.go:186-213 | The same for a before cursor and the rows behind the gap |
| `KeysetWalk.ForwardAscends` | publicapi/pagination.go:186-213 | However the table changes between requests, the rows received on a forward walk are strictly ascending |
| `KeysetWalk.ForwardFinds` | publicapi/pagination.go:186-213 | A key in the table at every request is received before a forward walk finishes, whatever its row's data |
| `KeysetWalk.ForwardExactlyOnce` | publicapi/pagination.go:171-213 | Whatever rows, cursor rows included, come, go and change between the requests of a forward walk: no key is received twice, every row received was in the table at some request, and a key that is in the table at every request of a completed walk is received exactly once |
| `KeysetWalk.BackwardAscends` | publicapi/pagination.go:186-213 | However the table changes, the rows received on a backward walk, each page put in front, are strictly ascending |
| `KeysetWalk.BackwardFinds` | publicapi/pagination.go:186-213 | A key in the table at every request is received before a backward walk finishes |
| `KeysetWalk.BackwardExactlyOnce` | publicapi/pagination.go:171-213 | The same as for forward walks: no key twice, only rows of the table, and every lasting key exactly once |
| `KeysetWalk.UnchangedRow` | publicapi/pagination.go:186-213 | A lasting row whose data does not change is received as it is |
| `KeysetFixedWalk.PageCount` | publicapi/pagination.go:186-213 | The least number of pages, at least one, that hold all rows |
| `KeysetFixedWalk.WalksOfFixedTable` | publicapi/pagination.go:186-213 | On a fixed table the forward and the backward walk both finish within one request per page and both give the whole ordered table |
| `KeysetFixedWalk.ZeroPageNeverEnds` | publicapi/pagination.go:108-114 | A page size of zero on a table with rows starts over at every request and never finishes |
| `TimeIDPaging.CursorDecodes` | publicapi/pagination.go:248-270 | A row's (time, id) cursor decodes to its key over either default bound |
| `TimeIDPaging.KeyingIsValid` | publicapi/pagination.go:215-292 | (time, id) keys with their packed cursors meet the assumptions of keyset paging for any strict total order |
| `TimeIDPaging.BoundIsUnpacked` | publicapi/pagination.go:248-270 | The bound of a cursor argument is what unpacking it over the default gives; the empty string keeps the default |
| `TimeIDPaging.UnpackBound` | publicapi/pagination.go:250-270 | A new cursor with default values, into which the argument is unpacked if there is one |
| `TimeIDPaging.Paginate` | publicapi/pagination.go:248-292 | The (time, id) paginator: both cursors unpacked over the default bounds, the range queried, the page built; a cursor that cannot be unpacked is an error |
| `TimeIDPaging.OrdinaryDatesInside` | publicapi/pagination.go:21-24 | In an order that sorts by instant, every date strictly between the two stated instants lies inside the default bounds |
| `TimeIDPaging.DatedPageIsRelay` | publicapi/pagination.go:248-292 | Pages of rows of such dates are Relay pages under the exact condition for keyset pages |
| `TimeIDPaging.DatedWalk` | publicapi/pagination.go:248-292 | Walks over rows of such dates receive every lasting key exactly once, and on a fixed table both directions receive everything |
| `TimeIDPaging.TimeIDPageIsRelay` | publicapi/pagination.go:248-292 | A (time, id) page with cursors of existing rows is the Relay page of the whole table under the same exact condition |
| `TimeIDPaging.TimeIDWalk` | publicapi/pagination.go:248-292 | A (time, id) key that stays in the table is received exactly once on a finished walk in either direction, and a row that does not change is received as it is |
| `PositionPaging.IndexIsLastPlace` | publicapi/pagination.go:993-1000 | The index has every element and gives its last place |
| `PositionPaging.SliceToMapIndex` | publicapi/pagination.go:993-1000 | The loop builds that index |
| `PositionPaging.PositionCursor.Unpack` | publicapi/pagination.go:1102-1109 | Fields and error as for any cursor; the index is rebuilt on success and left alone on error |
| `PositionPaging.Paginate` | publicapi/pagination.go:646-675 | The position paginator: default bounds, cursor positions cut to 32 bits, query, page |
| `PositionPaging.OddCursors` | publicapi/pagination.go:652-668 | The empty string stands for position zero; a string that cannot be unpacked makes the page fail |
| `PositionPaging.AnyPosition` | publicapi/pagination.go:655-668 | The position of a cursor is cut to 32 bits |
| `PositionPaging.ShiftWraps` | publicapi/user.go:194-204 | The shift of the highest position wraps, and nothing is selected |
| `PositionPaging.UnknownUser` | publicapi/user.go:211-216 | A user who is not in the list gets the first position |
| `PositionPaging.ShiftedBounds` | publicapi/user.go:194-204 | The 1-based bounds of the query select the positions strictly between the 0-based ones |
| `PositionPaging.FilteredFormIsRelay` | publicapi/user.go:194-204 | The form that filters in the database gives the Relay page of the whole list, for cursors of listed users, if and only if after is ahead of before or after is the last user |
| `PositionPaging.WholeFormIsRelay` | publicapi/user.go:206-209 | The form that only cuts at cursors gives the Relay page of the whole list, for cursors in any order |
| `PositionPaging.FormsAgree` | publicapi/user.go:194-216 | For cursors of listed users and any first and last, both forms give the same page if and only if after is ahead of before or after is the last user |
| `PositionPaging.DepartedAfter` | publicapi/user.go:194-216 | When the user behind an after cursor may have left, the two forms give the same page if and only if that user is still there, nobody is at an earlier position, or the page hides those who are |
| `PositionPaging.DepartedBefore` | publicapi/user.go:194-216 | The same for a before cursor and those at later positions |
| `IDCache.DBIDCache.Load` | publicapi/publicapi.go:127-151 | Result and stored value on every path: hit, miss, failing store, failing calculation |
| `IDCache.CacheIsTransparent` | publicapi/publicapi.go:127-151 | What is loaded is what was calculated if and only if the list is empty or its last id is not; otherwise the end of the stream is reported; the stored position is zero |
| `EmailBatches.CursorSkips` | emails/send.go:341-345 | Moving the cursor to a due user leaves exactly the users behind that one due |
| `EmailBatches.NextBatch` | emails/send.go:316-345 | A short batch is all that is due; behind a full one come exactly the others |
| `EmailBatches.RunForUsers` | emails/send.go:303-350 | The loop ends after one query more than full batches, having called back all due users in table order; it fails if and only if one of those queries fails, and then a whole number of batches has been called back |
| `EmailBatches.EveryDueUserOnce` | emails/send.go:303-350 | Every due user is in that list exactly once and nobody else is |
| `SessionSafety.OwnershipStep` | service/auth/auth.go:482-634 | Every step keeps rows, tokens and requests tied to the user a session was started for |
| `SessionSafety.TimingStep` | service/auth/auth.go:570-634 | Every step keeps: tokens that are granted for a session were stamped no later than its invalidation, which was no later than its forced refresh |
| `SessionSafety.MemoryStep` | service/auth/auth.go:456-460 | Every step keeps: a forced refresh stays in the cache until an extra minute after the tokens it rejects have expired |
| `SessionSafety.ReachableInvariant` | service/auth/auth.go:482-634 | All of that holds in every reachable state of any interleaving |
| `SessionSafety.FastPathIsExact` | service/auth/auth.go:462-477 | In every reachable state, a request with an unexpired auth token that reads the cache within 61 seconds of parsing it takes the fast path if and only if no completed forced refresh of its user is later than the second the token was issued in |
| `SessionSafety.EndedSession` | service/auth/auth.go:570-634 | Once a session has been ended with both writes done, every later upsert for it is refused, and one of its auth tokens passes the fast path (read within 61 seconds) if and only if it was issued in the very second of the end and that is the user's latest forced refresh |
| `SessionSafety.EndIsCached` | service/auth/auth.go:456-477 | Within a minute of parsing such a token, the forced refresh is still in the cache, and its second decides |
| `SessionSafety.EndedForGood` | service/auth/auth.go:503-634 | A session ended in a later second than its tokens were issued in stays over after any further steps: every upsert for it is refused and none of its auth tokens, read within 61 seconds, passes the fast path |
| `SessionSafety.GrantedBeforeTheEnd` | service/auth/auth.go:591-634 | An issuance that saw the row valid stamped its token no later than the forced refresh of the session's end |
| `SessionSafety.CirculatingTokensNameSessions` | service/auth/auth.go:482-497 | Every token in circulation carries non-empty user and session ids |
| `SessionSafety.OnlyLiveTokens` | service/auth/jwt.go:69-107 | Only tokens that are alive are renewed from or parsed, and given-out ids were never used before |
| `SessionScenarios.RenewalAtOnce` | service/auth/auth.go:591-634 | Uninterrupted, the steps of renewing give the row and the tokens that the request method gives |
| `SessionScenarios.EndAtOnce` | service/auth/auth.go:570-585 | Uninterrupted, the steps of ending a session give the row and the cache entry that the request method gives |
| `SessionScenarios.SameSecondSurvives` | service/auth/auth.go:570-585 | A run in which a session that was ended in the second of its login still authenticates on the fast path |
| `SessionScenarios.SlowReaderSurvives` | service/auth/auth.go:462-477 | For any token lifetime, a run in which a request that reads the cache 61 seconds and a nanosecond after parsing its cookie is authenticated after the end |
| `SessionScenarios.HowSlowIsSafe` | service/auth/auth.go:456-477 | The fast path is exact, and tokens of sessions ended in a later second stay out, for requests that read the cache within a given delay of parsing their cookie, if and only if the delay is at most 61 seconds (or tokens never live) |
| `RefreshTree.GrowingStep` | service/auth/auth.go:482-634 | Every step keeps the refresh tokens a forest within sessions |
| `RefreshTree.RefreshTokensFormATree` | service/auth/auth.go:482-634 | In every reachable state, from any refresh token the parents lead through earlier tokens of the same session and user to the one token of the session without a parent |
| `SessionRequest.Request.SetSessionState` | service/auth/auth.go:423-443 | Authenticated with both ids and no error, or, with an id missing, cleared with an error and deleted cookies |
| `SessionRequest.Request.ClearSessionState` | service/auth/auth.go:445-451 | The context acts for nobody and stores the error |
| `SessionRequest.Request.IssueSessionTokens` | service/auth/auth.go:591-634 | Row, error, context and both cookies on every path; on an error neither context nor cookies change |
| `SessionRequest.Request.StartSession` | service/auth/auth.go:482-497 | Authenticated as the new session with a root refresh token, or cleared with the returned error and deleted cookies |
| `SessionRequest.Request.ContinueSession` | service/auth/auth.go:503-567 | By the fields of the cookies and the clock: without valid tokens an error, a cleared context and untouched rows; without a valid auth token only an upsert for the refresh token's session authenticates, and sets both new tokens; a valid auth token that is not forced to refresh authenticates with its own roles and touches nothing else; an error always leaves the context cleared with it, and which cookies survive which failure |
| `SessionRequest.Request.ContinueByRefresh` | service/auth/auth.go:526-567 | Without a usable auth cookie: error, row, context and both cookies for every refresh cookie and every failing call |
| `SessionRequest.Request.EndSession` | service/auth/auth.go:570-585 | Row invalidated and refresh forced for an authenticated request (a failing write is skipped), then the context cleared and cookies deleted |
| `SessionRequest.Request.ForceAuthTokenRefresh` | service/auth/auth.go:456-460 | Writes the current second with its expiry, unless a live entry is at least as late |
| `SessionRequest.EndedRowStaysEnded` | db/queries/core/query.sql:434-450 | An upsert after an invalidation leaves the row exactly as the invalidation did |
| `SessionRequest.UpsertRecords` | db/queries/core/query.sql:434-447 | An upsert records the refresh token in the session's own row unless that is invalidated, and keeps its user and all other rows |
| `SessionRequest.InvalidateMarks` | db/queries/core/query.sql:449-450 | Invalidating marks one row and touches nothing else |
| `SessionRequest.LaterTimeStays` | service/redis/redis.go:260-273 | A forced refresh leaves the later of two live times in the cache; an entry at least as late keeps its expiry |
| `SessionRequest.IssuedTokensLive` | service/auth/jwt.go:54-97 | Issued tokens carry what they were issued for and are accepted for their own lifetime, counted in full seconds, and no longer |
| `Migrations.FindSuperMigrations` | db/migrate.go:30-66 | The scan collects the superuser versions and the one listed last, or fails on a bad file name |
| `Migrations.SuperOfContiguous` | db/migrate.go:30-66 | With contiguous versions, exactly the versions whose first line asks for the superuser are found, and the last listed is the highest |
| `Migrations.BadNameIsRefused` | db/migrate.go:54-60 | The scan fails exactly when a script that asks for the superuser has no version |
| `Migrations.LatestIsListedLast` | db/migrate.go:54-62 | The latest script for the superuser is the one listed last, whatever its number |
| `MigrationRun.LatestIsEnough` | db/migrate.go:98-103 | With contiguous versions, comparing with the latest superuser script decides whether any is pending |
| `MigrationRun.SuperUserRequired` | db/migrate.go:78-104 | With contiguous versions, the superuser is needed if and only if the role does not exist or some pending script asks for it; errors otherwise |
| `MigrationRun.PlanIsExact` | db/migrate.go:109-222 | A plan names every pending version once, in ascending order, with the superuser for exactly the marked versions |
| `MigrationRun.SeriesEnd` | db/migrate.go:182-198 | The end of the unbroken series of superuser versions that starts at a version |
| `MigrationRun.OpenSeries` | db/migrate.go:186-193 | Before a superuser series, everything since the last one goes through the ordinary client; a missing client crashes the run exactly as stated for it |
| `MigrationRun.CloseSeries` | db/migrate.go:194-202 | Behind a superuser series its scripts have gone through the superuser client, and the ordinary client is loaded if it can be |
| `MigrationRun.LoadMigrate` | db/migrate.go:122-136 | A client is loaded once; a missing role is no error yet, any other refusal is |
| `MigrationRun.Alternate` | db/migrate.go:182-203 | The alternating loop stops behind the last superuser version with the last series still to run, everything applied so far being a prefix of the plan, or it is left early for exactly the stated reasons |
| `MigrationRun.RunLast` | db/migrate.go:205-221 | The last superuser series, the check for the client, and the final Up, with the exact conditions of crash and success |
| `MigrationRun.RunRequired` | db/migrate.go:163-222 | A run that needs the superuser, from current version to final Up, with its exact outcomes |
| `MigrationRun.RunMigrations` | db/migrate.go:109-222 | Success applies the whole plan and nothing else; any outcome applies a prefix of it; every Migrate call is upward; for every run, failing scripts and dirty databases included, it crashes on a missing ordinary client, succeeds, and (without the superuser) reports that nothing was pending, if and only if the stated conditions hold |
| `ScrubVariables.ScrubVariableField` | graphql/resolver/handlers.go:505-537 | What is written for one field of an input object, or nothing |
| `ScrubVariables.ScrubVariableChildFields` | graphql/resolver/handlers.go:539-559 | What is written for an object, a list, or any other value of an input type |
| `ScrubVariables.ScrubVariableSlice` | graphql/resolver/handlers.go:561-585 | The scrubbed entries in order, without entries that are neither objects nor lists |
| `ScrubVariables.ScrubVariable` | graphql/resolver/handlers.go:471-503 | What is written for one variable of a request |
| `ScrubProperties.SameScrub` | graphql/resolver/handlers.go:505-585 | Without a leak, values that agree outside marked fields are scrubbed to the same result |
| `ScrubProperties.IndependentUnlessLeaking` | graphql/resolver/handlers.go:505-585 | The scrubbed value of an input type is independent of everything inside marked fields if and only if no field with two or more list layers leads to a marked field |
| `ScrubProperties.RequestIndependentUnlessLeaking` | graphql/resolver/handlers.go:471-585 | The scrubbed variables of a request are independent of all marked data if and only if no variable leaks, list layers of the variable's own type included |
| `ScrubProperties.ShallowRequestIsIndependent` | graphql/resolver/handlers.go:471-585 | With at most one list layer in every field and variable type nothing leaks |
| `ScrubProperties.MarkedFieldsAreReplaced` | graphql/resolver/handlers.go:505-518 | A marked field that is present shows the placeholder |
| `ScrubProperties.OnlyKnownKeys` | graphql/resolver/handlers.go:539-549 | A scrubbed object has only keys that the value has and the schema knows |
| `ScrubProperties.OutcomeOfVariable` | graphql/resolver/handlers.go:471-503 | A variable of a marked type shows the placeholder, supplied or not; one that is not supplied reads as null, or is left out if its type has fields; nothing but variables is put in |
| `ScrubProperties.LeavesAreKept` | graphql/resolver/handlers.go:505-585 | Every unmarked leaf of an input value that the schema knows is kept, under the same keys and at its list position among the surviving entries |
| `ScrubProperties.RequestLeavesAreKept` | graphql/resolver/handlers.go:471-585 | Every unmarked leaf in the variables of a request is kept under its variable's name and at its place; values the schema does not know, and values without fields, are kept whole |
| `QuerySplice.SortAscending` | graphql/resolver/handlers.go:661-666 | Sorting the keys gives an ascending list of the same keys, whatever order the map was iterated in |
| `QuerySplice.Splice` | graphql/resolver/handlers.go:661-683 | The loop returns the query with each range replaced by the marker if the ranges are disjoint and in bounds, and fails if and only if they are not; the result does not mention the iteration order |
| `QuerySplice.ScrubbedQuery` | graphql/resolver/handlers.go:661-683 | The splice with the placeholder that variables get as well |
| `QuerySplice.OutsideIsKept` | graphql/resolver/handlers.go:668-683 | Every rune outside the ranges is kept, in order |
| `QuerySplice.MarkerInPlace` | graphql/resolver/handlers.go:668-683 | The marker of a range stands behind all outside runes before the range and before all others |
| `QuerySplice.ShowsOutsideOnly` | graphql/resolver/handlers.go:668-683 | Two queries of one length are logged alike if and only if they agree on all runes outside the ranges |
| `QuerySplice.RedactedLength` | graphql/resolver/handlers.go:668-683 | The result has the query's length less all range lengths plus one marker per range |
| `HexQuantity.FallbackIsDead` | service/persist/token.go:973-982 | The decimal fallback is never used: every decimal numeral reads as hexadecimal |
| `HexQuantity.DigitValues` | service/persist/token.go:973-988 | Digits have their hexadecimal values in either case and are written in lower case |
| `HexQuantity.PrefixAndCase` | service/persist/token.go:953-982 | Hexadecimal digits stand for their value in either case, with and without a prefix in either case |
| `HexQuantity.SignCounts` | service/persist/token.go:973-982 | A sign in front of digits counts |
| `HexQuantity.NotANumber` | service/persist/token.go:973-982 | A string that is not a number stands for zero |
| `HexQuantity.TextRoundTrip` | service/persist/token.go:973-988 | Every integer is read back from the text that addition writes |
| `HexQuantity.AddIsAddition` | service/persist/token.go:985-988 | Adding quantities adds the integers they stand for, in any grouping and order |
| `HexQuantity.CanonicalForm` | service/persist/token.go:985-988 | The strings that addition can write are exactly the lower-case numerals without prefix and leading zeros and their negations other than that of zero |
| `Notifications.UniqueIDs` | service/persist/notification.go:118-144 | The loop over a seen set keeps first occurrences |
| `Notifications.UniqueIsFirstOccurrences` | service/persist/notification.go:118-144 | The result is the one list with the same elements in order of first occurrence |
| `Notifications.UniqueOfParts` | service/persist/notification.go:118-144 | Removing duplicates from either part first changes nothing |
| `Notifications.Validate` | service/persist/notification.go:86-97 | Removes duplicates from both id lists and keeps every other field |
| `Notifications.Concat` | service/persist/notification.go:99-116 | The result is the summary of the argument followed by the receiver: deduplicated lists, summed quantity, first present id, threshold and announcement |
| `Notifications.FirstTokenID` | util/helpers.go:358-365 | The token id of a batch is that of the first value that has one |
| `Notifications.FirstThreshold` | service/persist/notification.go:105-107 | The threshold of a batch is the first positive one, or zero |
| `Notifications.FirstAnnouncement` | service/persist/notification.go:109-113 | The announcement of a batch is the first one present |
| `Notifications.AroundValue` | service/persist/notification.go:99-103 | The ids of any value stand between those of the values before and behind it, and its quantity is added |
| `Notifications.SomeTopActive` | service/persist/notification.go:108 | The flag of a batch is set if and only if some value sets it |
| `Notifications.SummaryOfGrouping` | service/persist/notification.go:99-116 | However a batch of two or more is grouped, the result is its summary: deduplicated lists, summed quantity, first present id, threshold and announcement |
| `Notifications.GroupingDoesNotMatter` | service/persist/notification.go:99-116 | Concatenation is associative over any batch |
| `Notifications.EmptyIsValidate` | service/persist/notification.go:86-116 | Concatenating with the empty value equals Validate if and only if the threshold is not negative and the quantity is in the form addition writes |

## Left out

- SQL, Redis and HTTP themselves: queries are range queries over ordered rows, session rows and the forced-refresh cache are maps, cookies are values.
- JWT signing and parsing: a cookie is absent, forged or a token; forged tokens never parse.
- The order of (time, id) pairs in the database is any strict total order; results about ordinary dates assume that it sorts by instant. Callers that replace the default times are not modelled.
- `time.Time.MarshalBinary`: only the length and version byte of its images are modelled, not how they spell a time.
- The paginators for bools, floats, ints, shared followers and communities, and the lexical one: their cursors are covered by `CursorRoundTrip.EveryCursorType`, but whether their default bounds admit every row depends on ordering and collation that the repository does not show. Keyset results apply to them for any keying that meets `Keying.Valid` and `Keying.Table`.
- Validation of first and last: the keyset theorems take exactly one of them, as the validated callers do.
- Memory limits of the decoder are one constant for what Go's allocator refuses; running out of memory below it is not modelled.
- The total of a page is a value that is known, missing or failing; that counting runs after both cursors are packed is only modelled in the order of the errors.
- The callback errors of the email loop: callbacks are made, and what they return is not modelled.
- Expiry of the id cache and concurrent fills.
- The `active_until`, user agent and platform columns of a session row, and rows that are deleted.
- Auth tokens without a session id are followed in `SessionRequest` only; the protocol has none of them.
- A failing read of the forced-refresh cache sends a request past the fast path in `SessionRequest`; the protocol leaves out such requests, which can only renew.
- Refresh tokens take their two times at one moment in the protocol; auth tokens take theirs in two steps, as the code does.
- Reading an id from a cleared request context, which the code guards by asking first whether the request is authenticated.
- Cookie attributes such as domain and same-site.
- Migration files are listed with their parsed names and first lines; reading them, and down scripts in the plan of a run, are not modelled.
- Several migration runs at once on one database.
- ScrubVariableSlice: the code appends an entry's map before it fills it, which is not modelled because nothing else can see that map in between.
- Schemas with a type whose name is the empty string.
- Warnings that scrubbing logs for values of unexpected shape.
- Finding the ranges of a query by walking its syntax tree, and the placeholder that is returned when that or the splice fails: `QuerySplice` takes ranges with their start not behind their end and says when the splice fails.
- Runes of a query that is not valid UTF-8.
- Concat: `append` may write into spare capacity of the argument's slice; the model has values, and the merged lists are the same.
- Lower-casing of letters outside ASCII in quantities: none of them becomes a hexadecimal digit or an x.
- Generated code, dataloaders, resolvers, validators, event dispatch, multichain and token processing, rate limits and configuration: plumbing, or settled by one branch.
