/**
 The circular buffer that holds the recent outcomes. It is filled downwards; when the write
 position reaches 0 the newest maxHist outcomes are copied to the top and filling goes on below
 the copy. Everything here is about the buffer's contents as a sequence; ThreadHistory runs the
 same steps on the array.
 */
module GlobalHistory {
  import opened History
  import opened TageParams

  type Buffer = seq<bool>

  /** The write position is periodic: this many outcomes are recorded between two rollovers. */
  function Period(p: Params): (n: nat)
    requires p.Valid()
    ensures n > p.maxHist
  {
    p.histBufferSize - p.maxHist
  }

  /** How many outcomes may be recorded on top of a checkpoint before its window is overwritten. */
  function RollbackDepth(p: Params): (n: nat)
    requires p.Valid()
    ensures n > 0
  {
    p.histBufferSize - 2 * p.maxHist
  }

  /** Where updateGHist writes, given where the newest outcome is. */
  function NextSlot(p: Params, pt: nat): (next: nat)
    requires p.Valid() && pt < Period(p)
    ensures next < Period(p)
  {
    (if pt == 0 then Period(p) else pt) - 1
  }

  /** The position ptGhist of the newest outcome once n outcomes have been recorded. */
  function Slot(p: Params, n: nat): (pt: nat)
    requires p.Valid()
    ensures pt < Period(p)
  {
    if n == 0 then 0
    else NextSlot(p, Slot(p, n - 1))
  }

  lemma {:induction false} SlotLater(p: Params, m: nat, d: nat)
    requires p.Valid() && d <= Period(p)
    ensures Slot(p, m + d) == if d <= Slot(p, m) then Slot(p, m) - d else Slot(p, m) - d + Period(p)
  {
    if d > 0 {
      SlotLater(p, m, d - 1);
    }
  }

  /** tab[pt..pt + maxHist] holds the maxHist + 1 newest outcomes of h. */
  predicate Window(p: Params, tab: Buffer, pt: nat, h: Outcomes)
    requires p.Valid()
  {
    && |tab| == p.histBufferSize
    && pt < Period(p)
    && forall i | pt <= i <= pt + p.maxHist :: tab[i] == Recent(h, i - pt)
  }

  /**
   The buffer after one updateGHist from position pt. At position 0 the newest maxHist outcomes
   are first copied to the end.
   */
  function Recorded(p: Params, tab: Buffer, pt: nat, dir: bool): (t: Buffer)
    requires p.Valid() && |tab| == p.histBufferSize && pt < Period(p)
    ensures |t| == |tab|
  {
    var next := NextSlot(p, pt);
    seq(|tab|, i requires 0 <= i < |tab| =>
      if i == next then dir
      else if pt == 0 && Period(p) <= i then tab[i - Period(p)]
      else tab[i])
  }

  /** The window as it stood when the history was m outcomes long is still readable at its slot. */
  predicate Intact(p: Params, tab: Buffer, h: Outcomes, m: nat)
    requires p.Valid() && m <= |h|
  {
    Window(p, tab, Slot(p, m), h[..m])
  }

  lemma RecordedWindow(p: Params, tab: Buffer, pt: nat, h: Outcomes, dir: bool)
    requires p.Valid() && Window(p, tab, pt, h)
    ensures Window(p, Recorded(p, tab, pt, dir), NextSlot(p, pt), h + [dir])
  {
    var t, next := Recorded(p, tab, pt, dir), NextSlot(p, pt);
    forall i | next <= i <= next + p.maxHist
      ensures t[i] == Recent(h + [dir], i - next)
    {
      if i > next {
        assert t[i] == tab[pt + (i - next - 1)];
        assert Recent(h + [dir], i - next) == Recent(h, i - next - 1);
      }
    }
  }

  lemma RecordExtends(p: Params, tab: Buffer, h: Outcomes, dir: bool)
    requires p.Valid() && Intact(p, tab, h, |h|)
    ensures Intact(p, Recorded(p, tab, Slot(p, |h|), dir), h + [dir], |h| + 1)
  {
    assert h[..|h|] == h;
    assert (h + [dir])[..|h| + 1] == h + [dir];
    RecordedWindow(p, tab, Slot(p, |h|), h, dir);
  }

  /**
   How many outcomes recorded on top of history length m are enough to spoil its window: at least
   RollbackDepth, and at least what it takes to reach the next rollover.
   */
  function Lifetime(p: Params, m: nat): (n: nat)
    requires p.Valid()
    ensures RollbackDepth(p) <= n
  {
    if Slot(p, m) < RollbackDepth(p) then RollbackDepth(p) else Slot(p, m) + 1
  }

  lemma RecordKeeps(p: Params, tab: Buffer, h: Outcomes, dir: bool, m: nat)
    requires p.Valid() && |tab| == p.histBufferSize
    requires m <= |h| && |h| + 1 - m < Lifetime(p, m)
    requires Intact(p, tab, h, m)
    ensures Intact(p, Recorded(p, tab, Slot(p, |h|), dir), h + [dir], m)
  {
    SlotLater(p, m, |h| - m);
    assert (h + [dir])[..m] == h[..m];
    RecordLeaves(p, tab, Slot(p, |h|), Slot(p, m), |h| - m, dir);
    WindowKept(p, tab, Recorded(p, tab, Slot(p, |h|), dir), Slot(p, m), h[..m]);
  }

  lemma WindowKept(p: Params, tab: Buffer, t: Buffer, pt: nat, h: Outcomes)
    requires p.Valid() && Window(p, tab, pt, h) && |t| == |tab|
    requires forall i | pt <= i <= pt + p.maxHist :: t[i] == tab[i]
    ensures Window(p, t, pt, h)
  {
  }

  /** Recording from position pt does not touch the window at slot that is d outcomes old. */
  lemma RecordLeaves(p: Params, tab: Buffer, pt: nat, slot: nat, d: nat, dir: bool)
    requires p.Valid() && |tab| == p.histBufferSize && pt < Period(p) && slot < Period(p)
    requires d + 1 < if slot < RollbackDepth(p) then RollbackDepth(p) else slot + 1
    requires pt == if d <= slot then slot - d else slot - d + Period(p)
    ensures forall i | slot <= i <= slot + p.maxHist :: Recorded(p, tab, pt, dir)[i] == tab[i]
  {
  }

  /** Rewriting the newest outcome leaves the windows of all nearby older histories alone. */
  lemma RewriteKeeps(p: Params, tab: Buffer, h: Outcomes, m: nat, n: nat, h': Outcomes, v: bool)
    requires p.Valid() && |tab| == p.histBufferSize
    requires m < n <= |h| && n - m < Lifetime(p, m)
    requires m <= |h'| && h'[..m] == h[..m]
    requires Intact(p, tab, h, m)
    ensures Intact(p, tab[Slot(p, n) := v], h', m)
  {
    SlotLater(p, m, n - m);
  }

  lemma RewriteNewest(p: Params, tab: Buffer, h: Outcomes, n: nat, taken: bool)
    requires p.Valid() && 0 < n <= |h|
    requires Intact(p, tab, h, n)
    ensures Intact(p, tab[Slot(p, n) := taken], h[..n - 1] + [taken], n)
  {
    var h' := h[..n - 1] + [taken];
    assert h'[..n] == h';
    forall j | 1 <= j <= p.maxHist
      ensures Recent(h', j) == Recent(h[..n], j)
    {
    }
  }

  /** The buffer after a whole sequence of further outcomes. */
  function RecordAll(p: Params, tab: Buffer, n: nat, dirs: seq<bool>): (t: Buffer)
    requires p.Valid() && |tab| == p.histBufferSize
    ensures |t| == |tab|
    decreases |dirs|
  {
    if dirs == [] then tab else RecordAll(p, Recorded(p, tab, Slot(p, n), dirs[0]), n + 1, dirs[1..])
  }

  /** A checkpoint survives any outcomes that are fewer than its lifetime ... */
  lemma {:induction false} CheckpointSurvives(p: Params, tab: Buffer, h: Outcomes, m: nat, dirs: seq<bool>)
    requires p.Valid() && |tab| == p.histBufferSize && m <= |h|
    requires Intact(p, tab, h, m)
    requires |h| - m + |dirs| < Lifetime(p, m)
    ensures Intact(p, RecordAll(p, tab, |h|, dirs), h + dirs, m)
    decreases |dirs|
  {
    if dirs == [] {
      assert h + dirs == h;
    } else {
      RecordKeeps(p, tab, h, dirs[0], m);
      CheckpointSurvives(p, Recorded(p, tab, Slot(p, |h|), dirs[0]), h + [dirs[0]], m, dirs[1..]);
      assert h + [dirs[0]] + dirs[1..] == h + dirs;
    }
  }

  /**
   ... and whatever the buffer holds, some outcomes as many as the lifetime spoil it. Hence exactly
   the checkpoints with fewer newer outcomes than their lifetime can be relied on.
   */
  lemma {:induction false} CheckpointExpires(p: Params, tab: Buffer, h: Outcomes) returns (dirs: seq<bool>)
    requires p.Valid() && |tab| == p.histBufferSize
    ensures |dirs| == Lifetime(p, |h|)
    ensures RecordAll(p, tab, |h|, dirs)[Slot(p, |h|) + p.maxHist] != Recent(h, p.maxHist)
    ensures !Intact(p, RecordAll(p, tab, |h|, dirs), h + dirs, |h|)
  {
    var m, pt := |h|, Slot(p, |h|);
    var wrong := !Recent(h, p.maxHist);
    var lead := seq(Lifetime(p, m) - 1, _ => wrong);
    dirs := lead + [wrong];
    RecordAllAppend(p, tab, m, lead, wrong);
    SlotLater(p, m, |lead|);
    assert (h + dirs)[..m] == h;
    if pt >= RollbackDepth(p) {
      RecordedBelow(p, tab, m, lead, pt - RollbackDepth(p));
    }
    assert RecordAll(p, tab, m, dirs)[pt + p.maxHist] == wrong;
  }

  /**
   A squash at the end of the lifetime can go wrong: stepping the saved fold of a window of maxHist
   outcomes then takes a wrong departing outcome from the buffer and does not give the fold of the
   history, for every register width.
   */
  lemma {:induction false} SquashTooLate(p: Params, tab: Buffer, h: Outcomes, width: nat) returns (dirs: seq<bool>)
    requires p.Valid() && |tab| == p.histBufferSize && h != [] && p.maxHist > 0 && width > 0
    ensures |dirs| == Lifetime(p, |h|)
    ensures var past, newest := h[..|h| - 1], h[|h| - 1];
      var departing := RecordAll(p, tab, |h|, dirs)[Slot(p, |h|) + p.maxHist];
      FoldStep(Fold(past, p.maxHist, width), newest, departing, p.maxHist % width, width) != Fold(h, p.maxHist, width)
  {
    dirs := CheckpointExpires(p, tab, h);
    var past, newest, out := h[..|h| - 1], h[|h| - 1], p.maxHist % width;
    var comp := Fold(past, p.maxHist, width);
    assert past + [newest] == h;
    FoldStepIsFold(past, newest, p.maxHist, width);
    FoldBound(past, p.maxHist, width);
    FoldStepBit(comp, newest, false, out, width, out);
    FoldStepBit(comp, newest, true, out, width, out);
  }

  /** Before the next rollover the outcomes lie below the slot of the checkpoint, newest lowest. */
  lemma {:induction false} RecordedBelow(p: Params, tab: Buffer, n: nat, dirs: seq<bool>, i: nat)
    requires p.Valid() && |tab| == p.histBufferSize
    requires |dirs| <= Slot(p, n) && Slot(p, n) - |dirs| <= i < Slot(p, n)
    ensures RecordAll(p, tab, n, dirs)[i] == dirs[Slot(p, n) - 1 - i]
    decreases |dirs|
  {
    var t := Recorded(p, tab, Slot(p, n), dirs[0]);
    if i < Slot(p, n) - 1 {
      RecordedBelow(p, t, n + 1, dirs[1..], i);
    } else {
      RecordedAbove(p, t, n + 1, dirs[1..], i);
    }
  }

  lemma {:induction false} RecordedAbove(p: Params, tab: Buffer, n: nat, dirs: seq<bool>, i: nat)
    requires p.Valid() && |tab| == p.histBufferSize
    requires |dirs| <= Slot(p, n) <= i < |tab|
    ensures RecordAll(p, tab, n, dirs)[i] == tab[i]
    decreases |dirs|
  {
    if dirs != [] {
      RecordedAbove(p, Recorded(p, tab, Slot(p, n), dirs[0]), n + 1, dirs[1..], i);
    }
  }

  lemma {:induction false} RecordAllAppend(p: Params, tab: Buffer, n: nat, dirs: seq<bool>, last: bool)
    requires p.Valid() && |tab| == p.histBufferSize
    ensures RecordAll(p, tab, n, dirs + [last])
         == Recorded(p, RecordAll(p, tab, n, dirs), Slot(p, n + |dirs|), last)
    decreases |dirs|
  {
    if dirs == [] {
    } else {
      assert (dirs + [last])[1..] == dirs[1..] + [last];
      RecordAllAppend(p, Recorded(p, tab, Slot(p, n), dirs[0]), n + 1, dirs[1..], last);
    }
  }
}
