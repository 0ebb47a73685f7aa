/**
 Whole runs of the speculative histories: branches are recorded as they are fetched, any branch
 still in flight may turn out mispredicted, and the oldest one leaves when it retires.
 */
module Speculation {
  import opened Bits
  import opened History
  import opened TageParams
  import opened GlobalHistory
  import opened ThreadHistories

  datatype Event =
    | Fetch(pc: nat, dir: bool)
    | Mispredict(position: nat, taken: bool)  // counted from the oldest branch in flight
    | BtbMiss
    | Retire

  /** The architectural view of a run: branches retired + 1 .. |outcomes| are in flight. */
  datatype Pipeline = Pipeline(outcomes: Outcomes, path: Outcomes, retired: nat)
  {
    /** The events the front end can produce: it fetches no branch that would spoil a checkpoint in flight. */
    predicate Allows(p: Params, e: Event)
      requires p.Valid()
    {
      match e
      case Fetch(_, _) => forall m | retired < m <= |outcomes| :: |outcomes| + 1 - m < Lifetime(p, m)
      case Mispredict(position, _) => retired + position < |outcomes|
      case BtbMiss => retired < |outcomes|
      case Retire => retired < |outcomes|
    }

    function Apply(p: Params, e: Event): Pipeline
      requires p.Valid() && Allows(p, e) && |path| == |outcomes|
    {
      match e
      case Fetch(pc, dir) => Pipeline(outcomes + [dir], path + [Bit(pc, p.instShiftAmt)], retired)
      case Mispredict(position, taken) =>
        Pipeline(outcomes[..retired + position] + [taken], path[..retired + position + 1], retired)
      case BtbMiss => Pipeline(outcomes[..|outcomes| - 1] + [false], path, retired)
      case Retire => Pipeline(outcomes, path, retired + 1)
    }
  }

  predicate AllAllowed(p: Params, s: Pipeline, events: seq<Event>)
    requires p.Valid() && |s.path| == |s.outcomes|
    decreases |events|
  {
    events == [] || (s.Allows(p, events[0]) && AllAllowed(p, s.Apply(p, events[0]), events[1..]))
  }

  function After(p: Params, s: Pipeline, events: seq<Event>): Pipeline
    requires p.Valid() && |s.path| == |s.outcomes| && AllAllowed(p, s, events)
    decreases |events|
  {
    if events == [] then s else After(p, s.Apply(p, events[0]), events[1..])
  }

  /** Up to histBufferSize - 2 * maxHist branches can be in flight at any position of the buffer. */
  lemma FewInFlight(p: Params, s: Pipeline, pc: nat, dir: bool)
    requires p.Valid() && |s.outcomes| - s.retired < RollbackDepth(p)
    ensures s.Allows(p, Fetch(pc, dir))
  {
  }

  /** Replacing or dropping newer outcomes does not disturb an older checkpoint. */
  lemma CheckpointKept(p: Params, bi: BranchInfo, s: Pipeline, s': Pipeline, m: nat)
    requires p.Valid() && 0 < m <= |s.outcomes| && m <= |s'.outcomes|
    requires |s.path| == |s.outcomes| && |s'.path| == |s'.outcomes|
    requires s.outcomes[..m - 1] == s'.outcomes[..m - 1] && s.path[..m] == s'.path[..m]
    requires bi.Checkpoints(p, s.outcomes[..m], s.path[..m])
    ensures bi.Checkpoints(p, s'.outcomes[..m], s'.path[..m])
  {
    assert s.outcomes[..m][..m - 1] == s.outcomes[..m - 1];
    assert s'.outcomes[..m][..m - 1] == s'.outcomes[..m - 1];
  }

  /** The checkpoints of all branches in flight. */
  ghost predicate InFlight(p: Params, inFlight: seq<BranchInfo>, s: Pipeline)
    requires p.Valid() && |s.path| == |s.outcomes|
    reads inFlight
  {
    && s.retired <= |s.outcomes|
    && |inFlight| == |s.outcomes| - s.retired
    && (forall i, j | 0 <= i < j < |inFlight| :: inFlight[i] != inFlight[j])
    && (forall i | 0 <= i < |inFlight| :: IsCheckpoint(p, inFlight[i], s, s.retired + i + 1))
  }

  /** bi is the checkpoint of branch m, counted from the oldest ever recorded. */
  ghost predicate IsCheckpoint(p: Params, bi: BranchInfo, s: Pipeline, m: nat)
    requires p.Valid() && m <= |s.outcomes| == |s.path|
    reads bi
  {
    bi.Checkpoints(p, s.outcomes[..m], s.path[..m])
  }

  /** Every branch in flight can be squashed to. */
  ghost predicate AllLive(th: ThreadHistory, s: Pipeline)
    reads th`live
  {
    forall m | s.retired < m <= |s.outcomes| :: m in th.live
  }

  /** What a thread history stands for, if it is valid. */
  datatype View = Invalid | Records(outcomes: Outcomes, path: Outcomes)

  ghost function ViewOf(th: ThreadHistory): (v: View)
    reads th, th.globalHistory, th.computeIndices, th.computeTags0, th.computeTags1
    ensures v.Records? ==> th.p.Valid() && |v.path| == |v.outcomes|
  {
    if th.Valid() then Records(th.outcomes, th.path) else Invalid
  }

  /** The thread history stands for the pipeline s. */
  ghost predicate Stands(th: ThreadHistory, s: Pipeline)
    reads th, th.globalHistory, th.computeIndices, th.computeTags0, th.computeTags1
  {
    ViewOf(th) == Records(s.outcomes, s.path) && AllLive(th, s)
  }

  /** The same with the checkpoints of the branches in flight. */
  ghost predicate Represents(th: ThreadHistory, inFlight: seq<BranchInfo>, s: Pipeline)
    reads th, th.globalHistory, th.computeIndices, th.computeTags0, th.computeTags1, inFlight
  {
    Stands(th, s) && InFlight(th.p, inFlight, s)
  }

  lemma CheckpointAdded(p: Params, inFlight: seq<BranchInfo>, bi: BranchInfo, s: Pipeline, s': Pipeline)
    requires p.Valid() && |s.path| == |s.outcomes| && |s'.path| == |s'.outcomes| == |s.outcomes| + 1
    requires s'.outcomes[..|s.outcomes|] == s.outcomes && s'.path[..|s.path|] == s.path
    requires s'.retired == s.retired
    requires InFlight(p, inFlight, s) && bi !in inFlight
    requires bi.Checkpoints(p, s'.outcomes, s'.path)
    ensures InFlight(p, inFlight + [bi], s')
  {
    assert s'.outcomes[..|s'.outcomes|] == s'.outcomes && s'.path[..|s'.path|] == s'.path;
    forall i | 0 <= i < |inFlight|
      ensures IsCheckpoint(p, inFlight[i], s', s.retired + i + 1)
    {
      assert IsCheckpoint(p, inFlight[i], s, s.retired + i + 1);
      assert s'.outcomes[..s.retired + i] == s.outcomes[..s.retired + i];
      CheckpointKept(p, inFlight[i], s, s', s.retired + i + 1);
    }
  }

  /** After the newest outcome of s' was corrected, the branches up to it keep their checkpoints. */
  lemma CheckpointsKept(p: Params, inFlight: seq<BranchInfo>, s: Pipeline, s': Pipeline)
    requires p.Valid() && |s.path| == |s.outcomes| && |s'.path| == |s'.outcomes|
    requires s'.retired == s.retired < |s'.outcomes| <= |s.outcomes|
    requires InFlight(p, inFlight, s)
    requires s'.outcomes[..|s'.outcomes| - 1] == s.outcomes[..|s'.outcomes| - 1]
    requires s'.path == s.path[..|s'.path|]
    ensures InFlight(p, inFlight[..|s'.outcomes| - s'.retired], s')
  {
    forall i | 0 <= i < |s'.outcomes| - s'.retired
      ensures IsCheckpoint(p, inFlight[i], s', s.retired + i + 1)
    {
      var m := s.retired + i + 1;
      assert IsCheckpoint(p, inFlight[i], s, m);
      assert s'.outcomes[..m - 1] == s'.outcomes[..|s'.outcomes| - 1][..m - 1];
      CheckpointKept(p, inFlight[i], s, s', m);
    }
  }

  lemma NewerDropped(p: Params, inFlight: seq<BranchInfo>, position: nat, taken: bool, s: Pipeline)
    requires p.Valid() && |s.path| == |s.outcomes| && InFlight(p, inFlight, s)
    requires s.Allows(p, Mispredict(position, taken))
    ensures InFlight(p, inFlight[..position + 1], s.Apply(p, Mispredict(position, taken)))
  {
    CheckpointsKept(p, inFlight, s, s.Apply(p, Mispredict(position, taken)));
  }

  lemma NewestCorrected(p: Params, inFlight: seq<BranchInfo>, s: Pipeline)
    requires p.Valid() && |s.path| == |s.outcomes| && InFlight(p, inFlight, s) && s.Allows(p, BtbMiss)
    ensures InFlight(p, inFlight, s.Apply(p, BtbMiss))
  {
    assert inFlight[..|inFlight|] == inFlight && s.path[..|s.path|] == s.path;
    CheckpointsKept(p, inFlight, s, s.Apply(p, BtbMiss));
  }

  /** Record a branch and keep its checkpoint. */
  method FetchInto(th: ThreadHistory, pc: nat, dir: bool, ghost s: Pipeline) returns (bi: BranchInfo)
    requires Stands(th, s) && th.p.speculativeHistUpdate && s.Allows(th.p, Fetch(pc, dir))
    modifies th, th.globalHistory, th.computeIndices, th.computeTags0, th.computeTags1
    ensures fresh(bi) && Stands(th, s.Apply(th.p, Fetch(pc, dir)))
    ensures var s' := s.Apply(th.p, Fetch(pc, dir)); bi.Checkpoints(th.p, s'.outcomes, s'.path)
  {
    bi := new BranchInfo(th.p);
    th.UpdateHistories(pc, dir, bi, true);
  }

  method DoFetch(th: ThreadHistory, inFlight: seq<BranchInfo>, pc: nat, dir: bool, ghost s: Pipeline)
    returns (inFlight': seq<BranchInfo>)
    requires Represents(th, inFlight, s) && th.p.speculativeHistUpdate
    requires s.Allows(th.p, Fetch(pc, dir))
    modifies th, th.globalHistory, th.computeIndices, th.computeTags0, th.computeTags1
    ensures Represents(th, inFlight', s.Apply(th.p, Fetch(pc, dir)))
    ensures forall bi | bi in inFlight' :: bi in inFlight || fresh(bi)
  {
    var bi := FetchInto(th, pc, dir, s);
    inFlight' := inFlight + [bi];
    assert InFlight(th.p, inFlight, s);
    CheckpointAdded(th.p, inFlight, bi, s, s.Apply(th.p, Fetch(pc, dir)));
  }

  /** Squash to the branch at this position, whose checkpoint is bi. */
  method SquashTo(th: ThreadHistory, bi: BranchInfo, position: nat, taken: bool, ghost s: Pipeline)
    requires Stands(th, s) && th.p.speculativeHistUpdate && s.Allows(th.p, Mispredict(position, taken))
    requires IsCheckpoint(th.p, bi, s, s.retired + position + 1)
    modifies th, th.globalHistory, th.computeIndices, th.computeTags0, th.computeTags1
    ensures Stands(th, s.Apply(th.p, Mispredict(position, taken)))
  {
    th.Squash(taken, bi, s.retired + position + 1);
  }

  method DoMispredict(th: ThreadHistory, inFlight: seq<BranchInfo>, position: nat, taken: bool, ghost s: Pipeline)
    returns (inFlight': seq<BranchInfo>)
    requires Represents(th, inFlight, s) && th.p.speculativeHistUpdate
    requires s.Allows(th.p, Mispredict(position, taken))
    modifies th, th.globalHistory, th.computeIndices, th.computeTags0, th.computeTags1
    ensures Represents(th, inFlight', s.Apply(th.p, Mispredict(position, taken)))
    ensures inFlight' == inFlight[..position + 1]
  {
    assert IsCheckpoint(th.p, inFlight[position], s, s.retired + position + 1);
    SquashTo(th, inFlight[position], position, taken, s);
    inFlight' := inFlight[..position + 1];
    assert InFlight(th.p, inFlight, s);
    NewerDropped(th.p, inFlight, position, taken, s);
  }

  /** Correct the newest branch, whose checkpoint is bi. */
  method MissTo(th: ThreadHistory, bi: BranchInfo, ghost s: Pipeline)
    requires Stands(th, s) && th.p.speculativeHistUpdate && s.Allows(th.p, BtbMiss)
    requires IsCheckpoint(th.p, bi, s, |s.outcomes|)
    modifies th, th.globalHistory, th.computeIndices, th.computeTags0, th.computeTags1
    ensures Stands(th, s.Apply(th.p, BtbMiss))
  {
    assert s.outcomes[..|s.outcomes|] == s.outcomes && s.path[..|s.path|] == s.path;
    th.BtbUpdate(bi);
  }

  method DoBtbMiss(th: ThreadHistory, inFlight: seq<BranchInfo>, ghost s: Pipeline)
    requires Represents(th, inFlight, s) && th.p.speculativeHistUpdate
    requires s.Allows(th.p, BtbMiss)
    modifies th, th.globalHistory, th.computeIndices, th.computeTags0, th.computeTags1
    ensures Represents(th, inFlight, s.Apply(th.p, BtbMiss))
  {
    assert IsCheckpoint(th.p, inFlight[|inFlight| - 1], s, |s.outcomes|);
    MissTo(th, inFlight[|inFlight| - 1], s);
    assert InFlight(th.p, inFlight, s);
    NewestCorrected(th.p, inFlight, s);
  }

  method Step(th: ThreadHistory, inFlight: seq<BranchInfo>, e: Event, ghost s: Pipeline)
    returns (inFlight': seq<BranchInfo>)
    requires Represents(th, inFlight, s) && th.p.speculativeHistUpdate && s.Allows(th.p, e)
    modifies th, th.globalHistory, th.computeIndices, th.computeTags0, th.computeTags1
    ensures Represents(th, inFlight', s.Apply(th.p, e))
    ensures forall bi | bi in inFlight' :: bi in inFlight || fresh(bi)
  {
    match e {
      case Fetch(pc, dir) =>
        inFlight' := DoFetch(th, inFlight, pc, dir, s);
      case Mispredict(position, taken) =>
        inFlight' := DoMispredict(th, inFlight, position, taken, s);
      case BtbMiss =>
        DoBtbMiss(th, inFlight, s);
        inFlight' := inFlight;
      case Retire =>
        inFlight' := inFlight[1..];
        ghost var s' := s.Apply(th.p, e);
        forall i | 0 <= i < |inFlight'|
          ensures IsCheckpoint(th.p, inFlight'[i], s', s'.retired + i + 1)
        {
          assert IsCheckpoint(th.p, inFlight[i + 1], s, s.retired + (i + 1) + 1);
        }
    }
  }

  /**
   Exact rollback over every run: as long as no checkpoint in flight outlives its window, any
   sequence of fetches, mispredictions, BTB misses and retirements leaves the histories, the folded
   registers and the path history those of the architectural outcomes.
   */
  method Run(th: ThreadHistory, events: seq<Event>, ghost s: Pipeline) returns (inFlight: seq<BranchInfo>)
    requires Represents(th, [], s) && th.p.speculativeHistUpdate
    requires AllAllowed(th.p, s, events)
    modifies th, th.globalHistory, th.computeIndices, th.computeTags0, th.computeTags1
    ensures Represents(th, inFlight, After(th.p, s, events))
  {
    inFlight := [];
    ghost var now := s;
    for i := 0 to |events|
      invariant Represents(th, inFlight, now)
      invariant AllAllowed(th.p, now, events[i..])
      invariant After(th.p, now, events[i..]) == After(th.p, s, events)
    {
      assert events[i..][0] == events[i] && events[i..][1..] == events[i + 1..];
      inFlight := Step(th, inFlight, events[i], now);
      now := now.Apply(th.p, events[i]);
    }
  }
}
