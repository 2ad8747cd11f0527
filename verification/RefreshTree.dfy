// The refresh tokens of a session form a tree under the one that started it.
module RefreshTree {
  import opened Wrappers
  import opened SessionStore
  import opened SessionProtocol
  import opened SessionSafety

  ghost predicate SameSession(a: RefreshToken, b: RefreshToken) {
    a.session == b.session && a.user == b.user
  }

  /** An earlier token of the same session is the parent of the token at `i`. */
  ghost predicate HasParent(m: seq<RefreshToken>, i: nat)
    requires i < |m|
  {
    exists j :: 0 <= j < i && m[j].id == m[i].parent && SameSession(m[j], m[i])
  }

  ghost predicate Forest(m: seq<RefreshToken>) {
    && (forall i :: 0 <= i < |m| ==> m[i].id != "")
    && (forall i, j :: 0 <= i < j < |m| ==> m[i].id != m[j].id)
    && (forall i, j :: 0 <= j < i < |m| && m[i].parent == "" ==> m[j].session != m[i].session)
    && (forall i :: 0 <= i < |m| && m[i].parent != "" ==> HasParent(m, i))
  }

  /** A token that is about to be generated will fit into the forest. */
  ghost predicate Fits(s: State, p: Proc)
    requires p.Issuing?
  {
    && p.rid in s.used && p.rid != "" && (forall rt :: rt in s.minted ==> rt.id != p.rid)
    && (p.parent == "" ==> forall rt :: rt in s.minted ==> rt.session != p.session)
    && (p.parent != "" ==>
          exists rt :: rt in s.minted && rt.id == p.parent && rt.session == p.session && rt.user == p.user)
  }

  ghost predicate ProcFits(s: State, p: Proc) {
    match p
    case Issuing(_, _, _, _) => Fits(s, p)
    case Holding(rt) => rt in s.minted
    case Expiring(rt, _) => rt in s.minted
    case Stamped(rt, _) => rt in s.minted
    case Granted(rt, _) => rt in s.minted
    case _ => true
  }

  /** Two issuances under way use different ids, and at most one of them starts the session. */
  ghost predicate Apart(p: Proc, q: Proc)
    requires p.Issuing? && q.Issuing?
  {
    p.rid != q.rid && (p.parent == "" ==> q.session != p.session)
  }

  ghost predicate Growing(s: State) {
    && Forest(s.minted)
    && (forall rt :: rt in s.minted ==> rt.id in s.used && rt.session in s.owner)
    && (forall rt :: rt in s.renewable ==> rt in s.minted)
    && (forall pid :: pid in s.procs ==> ProcFits(s, s.procs[pid]))
    && (forall p, q :: p in s.procs && q in s.procs && p != q && s.procs[p].Issuing? && s.procs[q].Issuing? ==>
          Apart(s.procs[p], s.procs[q]))
  }

  lemma ForestGrows(m: seq<RefreshToken>, rt: RefreshToken)
    requires Forest(m) && rt.id != "" && (forall x :: x in m ==> x.id != rt.id)
    requires rt.parent == "" ==> forall x :: x in m ==> x.session != rt.session
    requires rt.parent != "" ==> exists x :: x in m && x.id == rt.parent && SameSession(x, rt)
    ensures Forest(m + [rt])
  {
    var m' := m + [rt];
    forall i | 0 <= i < |m'| && m'[i].parent != ""
      ensures HasParent(m', i)
    {
      if i < |m| {
        assert HasParent(m, i);
        var j :| 0 <= j < i && m[j].id == m[i].parent && SameSession(m[j], m[i]);
        assert m'[j] == m[j];
      } else {
        var x :| x in m && x.id == rt.parent && SameSession(x, rt);
        var j :| 0 <= j < |m| && m[j] == x;
        assert m'[j] == x;
      }
    }
  }

  lemma StartStep(cfg: Config, s: State, pid: nat, user: ID, session: ID, rid: ID)
    requires Ownership(s) && Growing(s) && Enabled(s, Start(pid, user, session, rid))
    ensures Growing(Do(cfg, s, Start(pid, user, session, rid)))
  {
    var s' := Do(cfg, s, Start(pid, user, session, rid));
    forall q | q in s.procs && s.procs[q].Issuing?
      ensures Apart(s'.procs[pid], s.procs[q]) && Apart(s.procs[q], s'.procs[pid])
    {
      assert ProcOwned(s, s.procs[q]) && ProcFits(s, s.procs[q]);
    }
    forall q | q in s'.procs
      ensures ProcFits(s', s'.procs[q])
    {
      if q != pid {
        assert ProcFits(s, s.procs[q]);
      }
    }
  }

  lemma RenewStep(cfg: Config, s: State, pid: nat, rt: RefreshToken, rid: ID)
    requires Growing(s) && Enabled(s, Renew(pid, rt, rid))
    ensures Growing(Do(cfg, s, Renew(pid, rt, rid)))
  {
    var s' := Do(cfg, s, Renew(pid, rt, rid));
    assert rt in s.minted && rt.id != "";
    forall q | q in s.procs && s.procs[q].Issuing?
      ensures Apart(s'.procs[pid], s.procs[q]) && Apart(s.procs[q], s'.procs[pid])
    {
      assert ProcFits(s, s.procs[q]);
    }
    forall q | q in s'.procs
      ensures ProcFits(s', s'.procs[q])
    {
      if q != pid {
        assert ProcFits(s, s.procs[q]);
      }
    }
  }

  lemma GenerateStep(cfg: Config, s: State, pid: nat)
    requires Ownership(s) && Growing(s) && Enabled(s, GenerateRefresh(pid))
    ensures Growing(Do(cfg, s, GenerateRefresh(pid)))
  {
    var s', p := Do(cfg, s, GenerateRefresh(pid)), s.procs[pid];
    assert ProcOwned(s, p) && ProcFits(s, p);
    ForestGrows(s.minted, s'.procs[pid].rt);
    forall q | q in s'.procs
      ensures ProcFits(s', s'.procs[q])
    {
      if q != pid {
        assert ProcFits(s, s.procs[q]);
        if s.procs[q].Issuing? {
          assert Apart(p, s.procs[q]) && Apart(s.procs[q], p);
        }
      }
    }
  }

  lemma SameTree(cfg: Config, s: State, step: Step)
    requires Enabled(s, step) && !step.Start? && !step.Renew? && !step.GenerateRefresh?
    ensures var s' := Do(cfg, s, step); s'.minted == s.minted && s'.used == s.used && s'.owner == s.owner
  {
  }

  lemma StillFits(s: State, s': State, p: Proc)
    requires ProcFits(s, p) && s'.minted == s.minted && s'.used == s.used
    ensures ProcFits(s', p)
  {
  }

  /** A process that moves on keeps its refresh token. */
  lemma MovedFits(cfg: Config, s: State, step: Step, pid: nat)
    requires Growing(s) && Enabled(s, step) && !step.Start? && !step.Renew? && !step.GenerateRefresh?
    requires pid in Do(cfg, s, step).procs
    ensures var s' := Do(cfg, s, step);
            && ProcFits(s', s'.procs[pid])
            && (s'.procs[pid].Issuing? ==> pid in s.procs && s'.procs[pid] == s.procs[pid])
  {
    SameTree(cfg, s, step);
    if pid in s.procs {
      assert ProcFits(s, s.procs[pid]);
      if Do(cfg, s, step).procs[pid] == s.procs[pid] {
        StillFits(s, Do(cfg, s, step), s.procs[pid]);
      }
    }
  }

  lemma RenewableIsMinted(cfg: Config, s: State, step: Step)
    requires Growing(s) && Enabled(s, step) && !step.Start? && !step.Renew? && !step.GenerateRefresh?
    ensures forall rt :: rt in Do(cfg, s, step).renewable ==> rt in s.minted
  {
    if step.Publish? {
      assert ProcFits(s, s.procs[step.pid]);
    } else {
      assert Do(cfg, s, step).renewable == s.renewable;
    }
  }

  lemma OtherStep(cfg: Config, s: State, step: Step)
    requires Growing(s) && Enabled(s, step) && !step.Start? && !step.Renew? && !step.GenerateRefresh?
    ensures Growing(Do(cfg, s, step))
  {
    var s' := Do(cfg, s, step);
    SameTree(cfg, s, step);
    RenewableIsMinted(cfg, s, step);
    forall pid | pid in s'.procs
      ensures ProcFits(s', s'.procs[pid])
      ensures s'.procs[pid].Issuing? ==> pid in s.procs && s'.procs[pid] == s.procs[pid]
    {
      MovedFits(cfg, s, step, pid);
    }
  }

  lemma GrowingStep(cfg: Config, s: State, step: Step)
    requires Ownership(s) && Growing(s) && Enabled(s, step)
    ensures Growing(Do(cfg, s, step))
  {
    match step
    case Start(pid, user, session, rid) => StartStep(cfg, s, pid, user, session, rid);
    case Renew(pid, rt, rid) => RenewStep(cfg, s, pid, rt, rid);
    case GenerateRefresh(pid) => GenerateStep(cfg, s, pid);
    case _ => OtherStep(cfg, s, step);
  }

  lemma {:induction false} RunKeepsGrowing(cfg: Config, s: State, steps: seq<Step>)
    requires Ownership(s) && Growing(s) && Run(cfg, s, steps).Some?
    ensures Growing(Run(cfg, s, steps).value)
    decreases |steps|
  {
    if steps == [] {
    } else {
      OwnershipStep(cfg, s, steps[0]);
      GrowingStep(cfg, s, steps[0]);
      RunKeepsGrowing(cfg, Do(cfg, s, steps[0]), steps[1..]);
    }
  }

  ghost function Parent(m: seq<RefreshToken>, i: nat): (j: nat)
    requires i < |m| && Forest(m) && m[i].parent != ""
    ensures j < i && m[j].id == m[i].parent && SameSession(m[j], m[i])
  {
    assert HasParent(m, i);
    var j :| 0 <= j < i && m[j].id == m[i].parent && SameSession(m[j], m[i]);
    j
  }

  /** The positions of a token, its parent, its parent's parent, and so on. */
  ghost function Chain(m: seq<RefreshToken>, i: nat): seq<nat>
    requires i < |m| && Forest(m)
    decreases i
  {
    if m[i].parent == "" then [i] else [i] + Chain(m, Parent(m, i))
  }

  /** A sequence of positions that starts at `i`, goes from token to parent, all in one session, and ends
      at a token without a parent. */
  ghost predicate LeadsToRoot(m: seq<RefreshToken>, c: seq<nat>, i: nat)
    requires i < |m|
  {
    && c != [] && c[0] == i
    && (forall k :: 0 <= k < |c| ==> c[k] < |m| && SameSession(m[c[k]], m[i]))
    && (forall k :: 0 < k < |c| ==> c[k] < c[k - 1] && m[c[k]].id == m[c[k - 1]].parent)
    && m[c[|c| - 1]].parent == ""
  }

  lemma LongerChain(m: seq<RefreshToken>, c: seq<nat>, i: nat, j: nat)
    requires i < |m| && j < i && LeadsToRoot(m, c, j) && m[j].id == m[i].parent && SameSession(m[j], m[i])
    ensures LeadsToRoot(m, [i] + c, i)
  {
    var d := [i] + c;
    assert forall k :: 0 < k < |d| ==> d[k] == c[k - 1];
  }

  lemma {:induction false} ChainLeadsToRoot(m: seq<RefreshToken>, i: nat)
    requires i < |m| && Forest(m)
    ensures LeadsToRoot(m, Chain(m, i), i)
    decreases i
  {
    if m[i].parent == "" {
    } else {
      var j := Parent(m, i);
      ChainLeadsToRoot(m, j);
      LongerChain(m, Chain(m, j), i, j);
    }
  }

  /** In every reachable state, from any refresh token the chain of parents runs through earlier tokens of
      the same session and user, and ends at the only token of the session that has no parent. */
  lemma RefreshTokensFormATree(cfg: Config, s: State, i: nat)
    requires Reachable(cfg, s) && i < |s.minted|
    ensures Forest(s.minted)
    ensures LeadsToRoot(s.minted, Chain(s.minted, i), i)
    ensures var c, m := Chain(s.minted, i), s.minted;
            forall r :: 0 <= r < |m| && m[r].session == m[i].session && m[r].parent == "" <==> r == c[|c| - 1]
  {
    var steps :| Run(cfg, INITIAL, steps) == Some(s);
    RunKeepsGrowing(cfg, INITIAL, steps);
    ChainLeadsToRoot(s.minted, i);
    OneRoot(s.minted, Chain(s.minted, i), i);
  }

  lemma OneRoot(m: seq<RefreshToken>, c: seq<nat>, i: nat)
    requires i < |m| && Forest(m) && LeadsToRoot(m, c, i)
    ensures forall r :: 0 <= r < |m| && m[r].session == m[i].session && m[r].parent == "" <==> r == c[|c| - 1]
  {
    var root := c[|c| - 1];
    assert SameSession(m[root], m[i]);
  }
}
