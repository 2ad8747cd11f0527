// Cutting a list of nodes into a page: the part of pagination that is shared by every paginator,
// next to the page that the Relay connection specification asks for.
module Pages {
  import opened Wrappers

  datatype PageError = CannotPack | QueryFailed | CountFailed | BadCursor

  datatype PageInfo = PageInfo(
    total: Option<int>,
    size: nat,
    hasPreviousPage: bool,
    hasNextPage: bool,
    startCursor: string,
    endCursor: string)

  datatype Page<+Node> = Page(nodes: seq<Node>, info: PageInfo)

  // A node's cursor string, or nothing when it cannot be computed.
  type Packer<!Node> = Node -> Option<string>

  // The optional total: not asked for, failed, or known.
  type Count = Option<Option<int>>

  // ---- cutting at cursors ----

  datatype Search = Found(at: nat) | Absent | Unpackable

  /** The first node with cursor `c`, unless a node that cannot be packed comes before it. */
  function Find<Node>(nodes: seq<Node>, pack: Packer<Node>, c: string): (r: Search)
    ensures match r
            case Found(i) =>
              && i < |nodes| && pack(nodes[i]) == Some(c)
              && forall k :: 0 <= k < i ==> pack(nodes[k]).Some? && pack(nodes[k]).value != c
            case Absent => forall k :: 0 <= k < |nodes| ==> pack(nodes[k]).Some? && pack(nodes[k]).value != c
            case Unpackable => exists k :: 0 <= k < |nodes| && pack(nodes[k]).None?
  {
    if nodes == [] then Absent
    else
      match pack(nodes[0])
      case None => Unpackable
      case Some(s) =>
        if s == c then Found(0)
        else
          match Find(nodes[1..], pack, c)
          case Found(i) => Found(i + 1)
          case Absent => Absent
          case Unpackable => Unpackable
  }

  function CutAfter<Node>(nodes: seq<Node>, pack: Packer<Node>, after: Option<string>): Option<seq<Node>> {
    match after
    case None => Some(nodes)
    case Some(c) =>
      match Find(nodes, pack, c)
      case Found(i) => Some(nodes[i + 1..])
      case Absent => Some(nodes)
      case Unpackable => None
  }

  function CutBefore<Node>(nodes: seq<Node>, pack: Packer<Node>, before: Option<string>): Option<seq<Node>> {
    match before
    case None => Some(nodes)
    case Some(c) =>
      match Find(nodes, pack, c)
      case Found(i) => Some(nodes[..i])
      case Absent => Some(nodes)
      case Unpackable => None
  }

  function CutCursors<Node>(nodes: seq<Node>, pack: Packer<Node>, before: Option<string>, after: Option<string>)
    : Option<seq<Node>>
  {
    match CutAfter(nodes, pack, after)
    case None => None
    case Some(edges) => CutBefore(edges, pack, before)
  }

  lemma FindStep<Node>(nodes: seq<Node>, pack: Packer<Node>, c: string, i: nat)
    requires i < |nodes|
    requires forall k :: 0 <= k < i ==> pack(nodes[k]).Some? && pack(nodes[k]).value != c
    ensures pack(nodes[i]) == Some(c) ==> Find(nodes, pack, c) == Found(i)
    ensures pack(nodes[i]) == None ==> Find(nodes, pack, c) == Unpackable
    decreases i
  {
    if i == 0 {
    } else {
      FindStep(nodes[1..], pack, c, i - 1);
    }
  }

  method ApplyCursors<Node>(allEdges: seq<Node>, pack: Packer<Node>, before: Option<string>, after: Option<string>)
    returns (r: Option<seq<Node>>)
    ensures r == CutCursors(allEdges, pack, before, after)
  {
    var edges := allEdges;
    if after.Some? {
      var i := 0;
      while i < |edges|
        invariant 0 <= i <= |edges| && edges == allEdges
        invariant forall k :: 0 <= k < i ==> pack(edges[k]).Some? && pack(edges[k]).value != after.value
      {
        var cur := pack(edges[i]);
        FindStep(edges, pack, after.value, i);
        if cur.None? {
          return None;
        }
        if cur.value == after.value {
          edges := edges[i + 1..];
          break;
        }
        i := i + 1;
      }
    }
    assert CutAfter(allEdges, pack, after) == Some(edges);
    if before.Some? {
      ghost var cut := edges;
      var i := 0;
      while i < |edges|
        invariant 0 <= i <= |edges| && edges == cut
        invariant forall k :: 0 <= k < i ==> pack(edges[k]).Some? && pack(edges[k]).value != before.value
      {
        var cur := pack(edges[i]);
        FindStep(edges, pack, before.value, i);
        if cur.None? {
          return None;
        }
        if cur.value == before.value {
          edges := edges[..i];
          break;
        }
        i := i + 1;
      }
    }
    r := Some(edges);
  }

  // ---- trimming and describing a page ----

  function PageEdges<Node>(edges: seq<Node>, first: Option<nat>, last: Option<nat>): seq<Node> {
    if first.Some? && |edges| > first.value then edges[..first.value]
    else if last.Some? && |edges| > last.value then edges[|edges| - last.value..]
    else edges
  }

  function DescribePage<Node>(cursorEdges: seq<Node>, edgesPaged: seq<Node>, count: Count, pack: Packer<Node>,
                              first: Option<nat>, last: Option<nat>): Result<PageInfo, PageError> {
    if edgesPaged != [] && (pack(edgesPaged[0]).None? || pack(edgesPaged[|edgesPaged| - 1]).None?) then
      Err(CannotPack)
    else if count == Some(None) then
      Err(CountFailed)
    else
      Ok(PageInfo(
           if count.Some? then count.value else None,
           |edgesPaged|,
           last.Some? && |cursorEdges| > last.value,
           first.Some? && |cursorEdges| > first.value,
           if edgesPaged == [] then "" else pack(edgesPaged[0]).value,
           if edgesPaged == [] then "" else pack(edgesPaged[|edgesPaged| - 1]).value))
  }

  function Finish<Node>(cursorEdges: seq<Node>, count: Count, pack: Packer<Node>, first: Option<nat>,
                        last: Option<nat>)
    : Result<Page<Node>, PageError>
  {
    var edgesPaged := PageEdges(cursorEdges, first, last);
    match DescribePage(cursorEdges, edgesPaged, count, pack, first, last)
    case Err(e) => Err(e)
    case Ok(info) => Ok(Page(edgesPaged, info))
  }

  function PageFrom<Node>(allEdges: seq<Node>, count: Count, pack: Packer<Node>,
                          before: Option<string>, after: Option<string>,
                          first: Option<nat>, last: Option<nat>): Result<Page<Node>, PageError>
  {
    match CutCursors(allEdges, pack, before, after)
    case None => Err(CannotPack)
    case Some(cursorEdges) => Finish(cursorEdges, count, pack, first, last)
  }

  method BuildPage<Node>(allEdges: seq<Node>, count: Count, pack: Packer<Node>,
                         before: Option<string>, after: Option<string>, first: Option<nat>, last: Option<nat>)
    returns (r: Result<Page<Node>, PageError>)
    ensures r == PageFrom(allEdges, count, pack, before, after, first, last)
  {
    var cursorEdges := ApplyCursors(allEdges, pack, before, after);
    if cursorEdges.None? {
      return Err(CannotPack);
    }
    r := Finish(cursorEdges.value, count, pack, first, last);
  }

  ghost predicate AllPack<Node>(nodes: seq<Node>, pack: Packer<Node>) {
    forall i :: 0 <= i < |nodes| ==> pack(nodes[i]).Some?
  }

  lemma CutsPack<Node>(nodes: seq<Node>, pack: Packer<Node>, c: Option<string>)
    requires AllPack(nodes, pack)
    ensures CutAfter(nodes, pack, c).Some? && AllPack(CutAfter(nodes, pack, c).value, pack)
    ensures CutBefore(nodes, pack, c).Some? && AllPack(CutBefore(nodes, pack, c).value, pack)
  {
  }

  /** When every node can be packed, only a failing count makes a page fail, and the total is the count. */
  lemma CountDecides<Node>(all: seq<Node>, count: Count, pack: Packer<Node>, before: Option<string>,
                           after: Option<string>, first: Option<nat>, last: Option<nat>)
    requires AllPack(all, pack)
    ensures var r := PageFrom(all, count, pack, before, after, first, last);
            match count
            case None => r.Ok? && r.value.info.total == None
            case Some(None) => r == Err(CountFailed)
            case Some(Some(n)) => r.Ok? && r.value.info.total == Some(n)
  {
    CutsPack(all, pack, after);
    var rest := CutAfter(all, pack, after).value;
    CutsPack(rest, pack, before);
    var edges := CutBefore(rest, pack, before).value;
    assert AllPack(PageEdges(edges, first, last), pack);
  }

  /** A first node that cannot be packed makes a page that compares or shows it fail, before anything is counted. */
  lemma UnpackableFirst<Node>(all: seq<Node>, count: Count, pack: Packer<Node>, before: Option<string>,
                              after: Option<string>, first: Option<nat>, last: Option<nat>)
    requires all != [] && pack(all[0]).None?
    requires before.Some? || after.Some? || (last.None? && first != Some(0))
    ensures PageFrom(all, count, pack, before, after, first, last) == Err(CannotPack)
  {
    if after.None? && before.None? {
      assert PageEdges(all, first, last)[0] == all[0];
    }
  }

  lemma CutIsIdentity<Node>(nodes: seq<Node>, pack: Packer<Node>, before: Option<string>, after: Option<string>)
    requires forall n :: n in nodes ==> pack(n).Some?
    requires before.Some? ==> forall n :: n in nodes ==> pack(n) != before
    requires after.Some? ==> forall n :: n in nodes ==> pack(n) != after
    ensures CutCursors(nodes, pack, before, after) == Some(nodes)
  {
  }

  // ---- the Relay specification ----

  ghost predicate HasEdge<Node>(edges: seq<Node>, cursor: Node -> string, c: Option<string>) {
    exists i :: 0 <= i < |edges| && c == Some(cursor(edges[i]))
  }

  /** An edge whose cursor is `c`. */
  ghost function EdgeAt<Node>(edges: seq<Node>, cursor: Node -> string, c: Option<string>): (i: nat)
    requires HasEdge(edges, cursor, c)
    ensures i < |edges| && c == Some(cursor(edges[i]))
  {
    var i :| 0 <= i < |edges| && c == Some(cursor(edges[i]));
    i
  }

  ghost function DropThrough<Node>(edges: seq<Node>, cursor: Node -> string, after: Option<string>): seq<Node> {
    if HasEdge(edges, cursor, after) then edges[EdgeAt(edges, cursor, after) + 1..] else edges
  }

  ghost function DropFrom<Node>(edges: seq<Node>, cursor: Node -> string, before: Option<string>): seq<Node> {
    if HasEdge(edges, cursor, before) then edges[..EdgeAt(edges, cursor, before)] else edges
  }

  /** ApplyCursorsToEdges in the "Pagination algorithm" of the GraphQL Cursor Connections Specification:
      drop everything up to and including the `after` edge, then the `before` edge and all behind it. */
  ghost function RelayApply<Node>(edges: seq<Node>, cursor: Node -> string,
                                  before: Option<string>, after: Option<string>)
    : seq<Node>
  {
    DropFrom(DropThrough(edges, cursor, after), cursor, before)
  }

  /** EdgesToReturn: `first` trims the end, then `last` trims the start. */
  function RelayTrim<Node>(edges: seq<Node>, first: Option<nat>, last: Option<nat>): seq<Node> {
    var kept := if first.Some? && |edges| > first.value then edges[..first.value] else edges;
    if last.Some? && |kept| > last.value then kept[|kept| - last.value..] else kept
  }

  /** The page cut from the edges that remain, with the flags of a server that does not look beyond
      the requested direction. */
  function RelayCut<Node>(edges: seq<Node>, total: Option<int>, cursor: Node -> string,
                          first: Option<nat>, last: Option<nat>): Page<Node>
  {
    var nodes := RelayTrim(edges, first, last);
    Page(nodes, PageInfo(
           total,
           |nodes|,
           last.Some? && |edges| > last.value,
           first.Some? && |edges| > first.value,
           if nodes == [] then "" else cursor(nodes[0]),
           if nodes == [] then "" else cursor(nodes[|nodes| - 1])))
  }

  ghost function RelayPage<Node>(all: seq<Node>, total: Option<int>, cursor: Node -> string,
                                 before: Option<string>, after: Option<string>,
                                 first: Option<nat>, last: Option<nat>): Page<Node>
  {
    RelayCut(RelayApply(all, cursor, before, after), total, cursor, first, last)
  }

  function Packing<Node>(cursor: Node -> string): Packer<Node> {
    n => Some(cursor(n))
  }

  function Known(total: Option<int>): Count {
    if total.Some? then Some(total) else None
  }

  /** The trimming code agrees with the specification except when both `first` and `last` are given,
      `first` cuts something off and `last` would cut more. */
  lemma TrimIsRelayTrim<Node>(edges: seq<Node>, first: Option<nat>, last: Option<nat>)
    ensures PageEdges(edges, first, last) == RelayTrim(edges, first, last)
            <==> !(first.Some? && last.Some? && last.value < first.value < |edges|)
  {
    if first.Some? && last.Some? && last.value < first.value < |edges| {
      assert |PageEdges(edges, first, last)| != |RelayTrim(edges, first, last)|;
    }
  }

  lemma FindIsEdge<Node>(edges: seq<Node>, cursor: Node -> string, c: Option<string>)
    requires forall i, j :: 0 <= i < j < |edges| ==> cursor(edges[i]) != cursor(edges[j])
    ensures c.Some? ==>
              Find(edges, Packing(cursor), c.value)
              == if HasEdge(edges, cursor, c) then Found(EdgeAt(edges, cursor, c)) else Absent
    ensures c.None? ==> !HasEdge(edges, cursor, c)
  {
    if c.Some? {
      var pack := Packing(cursor);
      match Find(edges, pack, c.value)
      case Found(i) =>
        assert pack(edges[i]) == Some(cursor(edges[i]));
        assert HasEdge(edges, cursor, c);
      case Absent =>
        assert forall k :: 0 <= k < |edges| ==> pack(edges[k]).value != c.value;
      case Unpackable =>
    }
  }

  lemma FinishIsRelayCut<Node>(edges: seq<Node>, total: Option<int>, cursor: Node -> string,
                               first: Option<nat>, last: Option<nat>)
    requires !(first.Some? && last.Some?)
    ensures Finish(edges, Known(total), Packing(cursor), first, last) == Ok(RelayCut(edges, total, cursor, first, last))
  {
    TrimIsRelayTrim(edges, first, last);
  }

  lemma CutIsRelayApply<Node>(all: seq<Node>, cursor: Node -> string, before: Option<string>, after: Option<string>)
    requires forall i, j :: 0 <= i < j < |all| ==> cursor(all[i]) != cursor(all[j])
    ensures CutCursors(all, Packing(cursor), before, after) == Some(RelayApply(all, cursor, before, after))
  {
    FindIsEdge(all, cursor, after);
    var rest := CutAfter(all, Packing(cursor), after).value;
    FindIsEdge(rest, cursor, before);
  }

  /** Paging an unfiltered list whose cursors are distinct is the specification's algorithm. */
  lemma PageFromIsRelay<Node>(all: seq<Node>, total: Option<int>, cursor: Node -> string,
                              before: Option<string>, after: Option<string>, first: Option<nat>, last: Option<nat>)
    requires forall i, j :: 0 <= i < j < |all| ==> cursor(all[i]) != cursor(all[j])
    requires !(first.Some? && last.Some?)
    ensures PageFrom(all, Known(total), Packing(cursor), before, after, first, last)
            == Ok(RelayPage(all, total, cursor, before, after, first, last))
  {
    CutIsRelayApply(all, cursor, before, after);
    FinishIsRelayCut(RelayApply(all, cursor, before, after), total, cursor, first, last);
  }
}
