/** Whole runs of a log: any sequence of appends, reads, legal truncations and clean reopens. */
module Runs {
  import opened Wire
  import opened Records
  import opened Spec

  datatype Op =
    | AppendOp(rec: Record)
    | ReadOp(off: u64)
    | TruncateOp(lowest: u64)
    | ReopenOp(cfg: Config)

  datatype Out =
    | Appended(res: Result<nat>)
    | ReadBack(got: Result<Record>)
    | Done

  /** A log: its configuration and its segments. */
  datatype State = State(cfg: Config, segs: seq<Seg>)
  {
    ghost predicate Ok() { cfg.Valid() && WellFormed(cfg, segs) }
  }

  /** The callers' side: offsets stay below 2^64, truncation stays below the highest offset, and a reopen
      keeps the codec and an index limit no smaller than any index file. */
  ghost predicate Legal(s: State, op: Op) {
    s.segs != [] &&
    match op
    case AppendOp(_) => Last(s.segs).Next() < TWO_64 - 1
    case ReadOp(_) => true
    case TruncateOp(lowest) => lowest < Highest(s.segs)
    case ReopenOp(c) =>
      && c.Valid() && c.codec == s.cfg.codec
      && forall i :: 0 <= i < |s.segs| ==> |s.segs[i].recs| <= c.Capacity()
  }

  /** What the operation does to the segments and what it returns. */
  ghost predicate Step(s: State, op: Op, out: Out, s': State)
    requires Legal(s, op)
  {
    match op
    case AppendOp(r) => s' == State(s.cfg, Append(s.cfg, s.segs, r).0) && out == Appended(Append(s.cfg, s.segs, r).1)
    case ReadOp(off) => s' == s && out == ReadBack(Read(s.segs, off))
    case TruncateOp(lowest) => s' == State(s.cfg, Kept(s.segs, lowest)) && out == Done
    case ReopenOp(c) => s' == State(c, s.segs) && out == Done
  }

  ghost predicate Run(states: seq<State>, ops: seq<Op>, outs: seq<Out>) {
    && |states| == |ops| + 1 == |outs| + 1
    && states[0].Ok()
    && forall i {:trigger ops[i]} :: 0 <= i < |ops| ==>
         Legal(states[i], ops[i]) && Step(states[i], ops[i], outs[i], states[i + 1])
  }

  /** The same step on the flat log: a lowest offset and a sequence of records. */
  ghost predicate FlatStep(c: Codec, f: Flat, op: Op, out: Out, f': Flat) {
    match op
    case AppendOp(r) => out.Appended? && FlatAppended(c, f, r, f', out.res)
    case ReadOp(off) => f' == f && out == ReadBack(f.Read(off))
    case TruncateOp(lowest) => out == Done && FlatTruncated(f, lowest, f')
    case ReopenOp(_) => out == Done && f' == f
  }

  lemma StepRefines(s: State, op: Op, out: Out, s': State)
    requires s.Ok() && Legal(s, op) && Step(s, op, out, s')
    ensures s'.Ok() && s'.cfg.codec == s.cfg.codec
    ensures FlatStep(s.cfg.codec, FlatOf(s.segs), op, out, FlatOf(s'.segs))
  {
    match op {
      case AppendOp(r) => AppendRefines(s.cfg, s.segs, r);
      case ReadOp(off) => ReadRefines(s.segs, off);
      case TruncateOp(lowest) => TruncateRefines(s.cfg, s.segs, lowest);
      case ReopenOp(c) =>
    }
  }

  /** A step has one outcome. */
  lemma StepDetermined(s: State, op: Op, out: Out, s': State, out': Out, s'': State)
    requires Legal(s, op) && Step(s, op, out, s') && Step(s, op, out', s'')
    ensures out == out' && s' == s''
  {
  }

  lemma LengthsOf(states: seq<State>, ops: seq<Op>, outs: seq<Out>)
    requires Run(states, ops, outs)
    ensures |states| == |ops| + 1 == |outs| + 1
  {
  }

  lemma StepOf(states: seq<State>, ops: seq<Op>, outs: seq<Out>, i: nat)
    requires Run(states, ops, outs) && i < |ops|
    ensures |states| == |ops| + 1 == |outs| + 1
    ensures states[i].Ok() && Legal(states[i], ops[i]) && Step(states[i], ops[i], outs[i], states[i + 1])
  {
    RunOk(states, ops, outs, i);
  }

  /** Every state of a run is well formed. */
  lemma {:induction false} RunOk(states: seq<State>, ops: seq<Op>, outs: seq<Out>, i: nat)
    requires Run(states, ops, outs) && i <= |ops|
    ensures states[i].Ok() && states[i].cfg.codec == states[0].cfg.codec
  {
    if i > 0 {
      RunOk(states, ops, outs, i - 1);
      assert Legal(states[i - 1], ops[i - 1]);
      StepRefines(states[i - 1], ops[i - 1], outs[i - 1], states[i]);
    }
  }

  /** The segmented log refines the flat log over any run: each step is a step of the flat log with the same
      output, whatever the segment limits are and however they change at a reopen. */
  lemma RunRefinesFlat(states: seq<State>, ops: seq<Op>, outs: seq<Out>, i: nat)
    requires Run(states, ops, outs) && i < |ops|
    ensures states[i].Ok() && states[i + 1].Ok()
    ensures FlatStep(states[0].cfg.codec, FlatOf(states[i].segs), ops[i], outs[i], FlatOf(states[i + 1].segs))
  {
    RunOk(states, ops, outs, i);
    assert Legal(states[i], ops[i]);
    StepRefines(states[i], ops[i], outs[i], states[i + 1]);
  }

  /** `late` may have lost records of `early` from below and gained records above, and nothing else. */
  ghost predicate Extends(early: Flat, late: Flat) {
    && early.low <= late.low && early.Next() <= late.Next()
    && forall off :: early.Holds(off) && late.Holds(off) ==> early.Read(off) == late.Read(off)
  }

  lemma ExtendsItself(f: Flat)
    ensures Extends(f, f)
  {
  }

  lemma ExtendsTransitive(a: Flat, b: Flat, c: Flat)
    requires Extends(a, b) && Extends(b, c)
    ensures Extends(a, c)
  {
    forall off | a.Holds(off) && c.Holds(off) ensures a.Read(off) == c.Read(off) {
      assert b.Holds(off);
      assert a.Read(off) == b.Read(off) && b.Read(off) == c.Read(off);
    }
  }

  lemma StepExtends(c: Codec, f: Flat, op: Op, out: Out, f': Flat)
    requires FlatStep(c, f, op, out, f')
    ensures Extends(f, f')
  {
  }

  /** Over any stretch of a run, offsets keep their records. */
  lemma {:induction false} RunExtends(states: seq<State>, ops: seq<Op>, outs: seq<Out>, i: nat, j: nat)
    requires Run(states, ops, outs) && i <= j <= |ops|
    ensures Extends(FlatOf(states[i].segs), FlatOf(states[j].segs))
    decreases j
  {
    hide Run, Flatten, FlatOf, FlatStep, State.Ok, WellFormed, Legal, Step, Extends;
    LengthsOf(states, ops, outs);
    if i == j {
      ExtendsItself(FlatOf(states[i].segs));
    } else {
      RunExtends(states, ops, outs, i, j - 1);
      RunRefinesFlat(states, ops, outs, j - 1);
      var a, b, c := FlatOf(states[i].segs), FlatOf(states[j - 1].segs), FlatOf(states[j].segs);
      StepExtends(states[0].cfg.codec, b, ops[j - 1], outs[j - 1], c);
      ExtendsTransitive(a, b, c);
    }
  }

  /** What an append put at an offset is there later, or nothing is. */
  lemma AppendedOrGone(c: Codec, f: Flat, r: Record, f': Flat, off: nat, later: Flat)
    requires FlatAppended(c, f, r, f', Result.Ok(off)) && Extends(f', later)
    ensures off < TWO_64 && off < later.Next()
    ensures later.Read(off) == Result.Ok(Stamped(r, off)) || later.Read(off) == Err(OffsetOutOfRange(off))
    ensures later.Read(off).Err? ==> off < later.low
  {
    assert f'.Holds(off) && f'.Read(off) == Result.Ok(Stamped(r, off));
  }

  /** Operation `i` of the run appended a record and returned its offset. */
  ghost predicate AppendedAt(states: seq<State>, ops: seq<Op>, outs: seq<Out>, i: nat, off: u64) {
    Run(states, ops, outs) && i < |ops| && ops[i].AppendOp? && outs[i] == Appended(Result.Ok(off))
  }

  lemma AppendedFlat(states: seq<State>, ops: seq<Op>, outs: seq<Out>, i: nat, off: u64)
    requires AppendedAt(states, ops, outs, i, off)
    ensures |states| == |ops| + 1 == |outs| + 1
    ensures var before, after := FlatOf(states[i].segs), FlatOf(states[i + 1].segs);
            FlatAppended(states[0].cfg.codec, before, ops[i].rec, after, Result.Ok(off))
  {
    LengthsOf(states, ops, outs);
    hide Run, FlatOf, FlatAppended, State.Ok;
    RunRefinesFlat(states, ops, outs, i);
  }

  /** In every later state the offset holds that record, stamped with the offset, or nothing. */
  lemma LaterRead(states: seq<State>, ops: seq<Op>, outs: seq<Out>, i: nat, j: nat, off: u64)
    requires AppendedAt(states, ops, outs, i, off) && i < j <= |ops|
    ensures var later := FlatOf(states[j].segs);
            && off < later.Next()
            && later.Read(off)
               == if off < later.low then Err(OffsetOutOfRange(off)) else Result.Ok(Stamped(ops[i].rec, off))
  {
    AppendedFlat(states, ops, outs, i, off);
    hide Run, FlatOf, FlatAppended, Extends, State.Ok, Flat.Read;
    RunExtends(states, ops, outs, i + 1, j);
    var before, after, later := FlatOf(states[i].segs), FlatOf(states[i + 1].segs), FlatOf(states[j].segs);
    AppendedOrGone(states[0].cfg.codec, before, ops[i].rec, after, off, later);
  }

  /** A read in a run returns what the flat log holds. */
  lemma ReadInRun(states: seq<State>, ops: seq<Op>, outs: seq<Out>, j: nat)
    requires Run(states, ops, outs) && j < |ops| && ops[j].ReadOp?
    ensures outs[j] == ReadBack(FlatOf(states[j].segs).Read(ops[j].off))
  {
    RunRefinesFlat(states, ops, outs, j);
  }

  /** Once an append returned an offset, every later read of it gives that record, stamped with the offset, or
      out of range. */
  lemma NeverRebound(states: seq<State>, ops: seq<Op>, outs: seq<Out>, i: nat, j: nat, off: u64)
    requires AppendedAt(states, ops, outs, i, off) && i < j < |ops| && ops[j] == ReadOp(off)
    ensures || outs[j] == ReadBack(Result.Ok(Stamped(ops[i].rec, off)))
            || outs[j] == ReadBack(Err(OffsetOutOfRange(off)))
  {
    LaterRead(states, ops, outs, i, j, off);
    ReadInRun(states, ops, outs, j);
    hide Run, Flatten, FlatOf, Flat.Read;
  }

  /** An appended offset that is out of range stays out of range. */
  lemma GoneStaysGone(states: seq<State>, ops: seq<Op>, outs: seq<Out>, i: nat, j: nat, k: nat, off: u64)
    requires AppendedAt(states, ops, outs, i, off) && i < j < k < |ops| && ops[j] == ops[k] == ReadOp(off)
    requires outs[j] == ReadBack(Err(OffsetOutOfRange(off)))
    ensures outs[k] == ReadBack(Err(OffsetOutOfRange(off)))
  {
    LaterRead(states, ops, outs, i, j, off);
    LaterRead(states, ops, outs, i, k, off);
    ReadInRun(states, ops, outs, j);
    ReadInRun(states, ops, outs, k);
    RunExtends(states, ops, outs, j, k);
    hide Run, Flatten, FlatOf, Flat.Read;
  }

  /** Offsets are handed out once, in ascending order. */
  lemma OffsetsAscend(states: seq<State>, ops: seq<Op>, outs: seq<Out>, i: nat, j: nat, o: u64, o': u64)
    requires AppendedAt(states, ops, outs, i, o) && AppendedAt(states, ops, outs, j, o') && i < j
    ensures o < o'
  {
    LaterRead(states, ops, outs, i, j, o);
    RunRefinesFlat(states, ops, outs, j);
    hide Run, Flatten, FlatOf, Flat.Read;
  }

  // ---------------------------------------------------------------------------------------------
  // Capacity

  /** Under fixed limits: a segment that is not the last is maxed, none has more records than its index holds, and
      every segment was within its store limit before its last record. */
  ghost predicate Tight(cfg: Config, segs: seq<Seg>) {
    && (forall i :: 0 <= i < |segs| - 1 ==> segs[i].Maxed(cfg))
    && (forall i :: 0 <= i < |segs| ==> WithinLimits(cfg, segs[i]))
  }

  ghost predicate WithinLimits(cfg: Config, s: Seg) {
    && |s.recs| <= cfg.Capacity()
    && (s.recs != [] ==> |cfg.codec.Encoded(s.recs[..|s.recs| - 1])| < cfg.maxStoreBytes)
  }

  /** The operation does not change the limits. */
  ghost predicate KeepsLimits(op: Op, cfg: Config) {
    op.ReopenOp? ==> op.cfg.SameLimits(cfg)
  }

  lemma TightLimits(cfg: Config, cfg': Config, segs: seq<Seg>)
    requires Tight(cfg, segs) && cfg'.SameLimits(cfg)
    ensures Tight(cfg', segs)
  {
    forall i | 0 <= i < |segs| ensures segs[i].Maxed(cfg) == segs[i].Maxed(cfg') {
      LimitsDecide(cfg', cfg, segs[i]);
    }
  }

  /** Every operation under the same limits keeps the capacity bounds; an append grows only a segment that is not
      maxed. */
  lemma StaysTight(s: State, op: Op, out: Out, s': State)
    requires s.Ok() && Legal(s, op) && Step(s, op, out, s') && KeepsLimits(op, s.cfg)
    requires Tight(s.cfg, s.segs)
    ensures s'.cfg.SameLimits(s.cfg) && Tight(s'.cfg, s'.segs)
  {
    hide Tight, Append, Kept, Seg.Ok, Linked;
    match op {
      case AppendOp(r) => AppendTight(s.cfg, s.segs, r);
      case ReadOp(_) =>
      case TruncateOp(lowest) => TruncateTight(s.cfg, s.segs, lowest);
      case ReopenOp(c) => TightLimits(s.cfg, c, s.segs);
    }
  }

  lemma TruncateTight(cfg: Config, segs: seq<Seg>, lowest: u64)
    requires Linked(segs) && lowest < Highest(segs) && Tight(cfg, segs)
    ensures Tight(cfg, Kept(segs, lowest))
  {
    hide Kept, Cut, Seg.Maxed, WithinLimits, Linked;
    CutBound(segs, lowest);
  }

  /** So the bounds hold throughout any run under the same limits, clean reopens included. */
  lemma {:induction false} RunStaysTight(states: seq<State>, ops: seq<Op>, outs: seq<Out>, i: nat)
    requires Run(states, ops, outs) && i <= |ops| && Tight(states[0].cfg, states[0].segs)
    requires forall k :: 0 <= k < i ==> KeepsLimits(ops[k], states[0].cfg)
    ensures |states| == |ops| + 1 && states[i].cfg.SameLimits(states[0].cfg) && Tight(states[i].cfg, states[i].segs)
  {
    hide Tight, State.Ok;
    LengthsOf(states, ops, outs);
    if i > 0 {
      RunStaysTight(states, ops, outs, i - 1);
      StepOf(states, ops, outs, i - 1);
      assert KeepsLimits(ops[i - 1], states[0].cfg);
      StaysTight(states[i - 1], ops[i - 1], outs[i - 1], states[i]);
    }
  }

  /** In particular in every run of a log that starts in an empty directory. */
  lemma NewLogStaysTight(states: seq<State>, ops: seq<Op>, outs: seq<Out>, i: nat)
    requires Run(states, ops, outs) && i <= |ops| && states[0].segs == [Seg(states[0].cfg.initialOffset, [])]
    requires forall k :: 0 <= k < i ==> KeepsLimits(ops[k], states[0].cfg)
    ensures |states| == |ops| + 1 && Tight(states[i].cfg, states[i].segs)
  {
    RunStaysTight(states, ops, outs, i);
  }

  lemma AppendTight(cfg: Config, segs: seq<Seg>, r: Record)
    requires cfg.Valid() && WellFormed(cfg, segs) && Tight(cfg, segs) && Last(segs).Next() < TWO_64 - 1
    ensures Tight(cfg, Append(cfg, segs, r).0)
  {
    hide Codec.Encoded, Linked, Seg.Ok, Config.Valid;
    RollIsSafe(cfg, segs);
    var rolled := RollIfMaxed(cfg, segs, Highest(segs));
    var after := Append(cfg, segs, r).0;
    var k := |rolled| - 1;
    assert after[..k] == rolled[..k];
    assert Tight(cfg, rolled);
    forall i | 0 <= i < k ensures after[i].Maxed(cfg) && WithinLimits(cfg, after[i]) {
      assert after[i] == rolled[i];
    }
    if after[k] != rolled[k] {
      assert after[k].recs[..|after[k].recs| - 1] == rolled[k].recs;
    }
  }

  // ---------------------------------------------------------------------------------------------
  // Empty segments

  /** The active segment is empty and not the only one. */
  predicate EmptyBehind(segs: seq<Seg>) {
    |segs| > 1 && Last(segs).recs == []
  }

  /** In a well-formed log, that is to say that some segment is empty and not the only one. */
  lemma EmptyBehindMeans(segs: seq<Seg>)
    requires Linked(segs)
    ensures EmptyBehind(segs) <==> |segs| > 1 && exists i :: 0 <= i < |segs| && segs[i].recs == []
  {
    assert forall i :: 0 <= i < |segs| - 1 ==> segs[i].recs != [];
    if EmptyBehind(segs) {
      assert segs[|segs| - 1].recs == [];
    }
  }

  /** `Append` rolls over before it marshals.  So an append leaves an empty segment behind others exactly when its
      record does not marshal and either the active segment was full or such a segment was there already. */
  lemma AppendLeavesEmptyIff(cfg: Config, segs: seq<Seg>, r: Record)
    requires cfg.Valid() && WellFormed(cfg, segs) && Last(segs).Next() < TWO_64 - 1
    ensures EmptyBehind(Append(cfg, segs, r).0)
            <==> cfg.codec.marshal(Stamped(r, Last(segs).Next())).None? && (Last(segs).Maxed(cfg) || EmptyBehind(segs))
  {
    hide Seg.Maxed, Linked, Seg.Ok;
    RollIsSafe(cfg, segs);
    if Last(segs).Maxed(cfg) {
      MaxedNonEmpty(cfg, Last(segs));
    }
  }

  /** A legal truncation keeps the active segment, and others unless there are records in it. */
  lemma TruncateKeepsEmpty(segs: seq<Seg>, lowest: u64)
    requires Linked(segs) && lowest < Highest(segs)
    ensures EmptyBehind(Kept(segs, lowest)) <==> EmptyBehind(segs)
    ensures Kept(segs, lowest) != [] && Last(Kept(segs, lowest)) == Last(segs)
    ensures |segs| == 1 ==> Kept(segs, lowest) == segs
  {
    CutBound(segs, lowest);
    KeptIsSuffix(segs, lowest);
    hide Kept, Cut;
    if |segs| > 1 {
      var i := |segs| - 2;
      assert segs[i].Next() == segs[i + 1].base;
    }
  }

  /** Operation `k` stored a record. */
  predicate StoredAt(outs: seq<Out>, k: nat) {
    k < |outs| && outs[k].Appended? && outs[k].res.Ok?
  }

  /** State `k` is the first of the run and has an empty segment behind others, or the operation before it failed to
      append to a full segment. */
  ghost predicate EmptyFrom(states: seq<State>, ops: seq<Op>, outs: seq<Out>, k: nat)
    requires |states| == |ops| + 1 == |outs| + 1 && k <= |ops|
  {
    if k == 0 then EmptyBehind(states[0].segs)
    else
      && ops[k - 1].AppendOp? && outs[k - 1] == Appended(Err(Malformed))
      && states[k - 1].segs != [] && Last(states[k - 1].segs).Maxed(states[k - 1].cfg)
  }

  /** And no append has succeeded from then to state `i`. */
  ghost predicate EmptySince(states: seq<State>, ops: seq<Op>, outs: seq<Out>, k: nat, i: nat)
    requires |states| == |ops| + 1 == |outs| + 1 && k <= |ops|
  {
    EmptyFrom(states, ops, outs, k) && forall j :: k <= j < i ==> !StoredAt(outs, j)
  }

  lemma EmptySinceStep(states: seq<State>, ops: seq<Op>, outs: seq<Out>, k: nat, i: nat)
    requires |states| == |ops| + 1 == |outs| + 1 && k < i <= |ops|
    ensures EmptySince(states, ops, outs, k, i) <==> EmptySince(states, ops, outs, k, i - 1) && !StoredAt(outs, i - 1)
  {
  }

  lemma StepLeavesEmptyIff(s: State, op: Op, out: Out, s': State)
    requires s.Ok() && Legal(s, op) && Step(s, op, out, s')
    ensures EmptyBehind(s'.segs)
            <==> if !op.AppendOp? then EmptyBehind(s.segs)
                 else out == Appended(Err(Malformed)) && (Last(s.segs).Maxed(s.cfg) || EmptyBehind(s.segs))
    ensures op.AppendOp? ==> out.Appended? && (out.res.Ok? || out.res == Err(Malformed))
    ensures !op.AppendOp? ==> !out.Appended?
  {
    match op {
      case AppendOp(r) =>
        RollIsSafe(s.cfg, s.segs);
        AppendLeavesEmptyIff(s.cfg, s.segs, r);
      case ReadOp(_) =>
      case TruncateOp(lowest) => TruncateKeepsEmpty(s.segs, lowest);
      case ReopenOp(_) =>
    }
  }

  /** In a run there is an empty segment behind others exactly when such a segment was there from the start, or an
      append to a full segment failed to marshal, and no append has succeeded since. */
  lemma {:induction false} EmptyBehindIff(states: seq<State>, ops: seq<Op>, outs: seq<Out>, i: nat)
    requires Run(states, ops, outs) && i <= |ops|
    ensures |states| == |ops| + 1 == |outs| + 1
    ensures EmptyBehind(states[i].segs) <==> exists k: nat :: k <= i && EmptySince(states, ops, outs, k, i)
  {
    hide Run, Step, Legal, State.Ok, EmptyBehind, Seg.Maxed, EmptySince;
    LengthsOf(states, ops, outs);
    if i == 0 {
      EmptySinceNow(states, ops, outs, 0);
    } else {
      var before := i - 1;
      EmptyBehindIff(states, ops, outs, before);
      StepOf(states, ops, outs, i - 1);
      StepLeavesEmptyIff(states[i - 1], ops[i - 1], outs[i - 1], states[i]);
      EmptySinceNow(states, ops, outs, i);
      if k: nat :| k <= before && EmptySince(states, ops, outs, k, before) {
        EmptySinceStep(states, ops, outs, k, i);
      }
      if k: nat :| k < i && EmptySince(states, ops, outs, k, i) {
        EmptySinceStep(states, ops, outs, k, i);
      }
    }
  }

  lemma EmptySinceNow(states: seq<State>, ops: seq<Op>, outs: seq<Out>, i: nat)
    requires |states| == |ops| + 1 == |outs| + 1 && i <= |ops|
    ensures EmptySince(states, ops, outs, i, i) <==> EmptyFrom(states, ops, outs, i)
  {
  }

  /** When every append succeeded, only the initial segment of the run can be empty, and only while it is the sole
      one. */
  lemma {:induction false} OnlyInitialEmpty(states: seq<State>, ops: seq<Op>, outs: seq<Out>, i: nat)
    requires Run(states, ops, outs) && i <= |ops| && !EmptyBehind(states[0].segs)
    requires forall k :: 0 <= k < i && ops[k].AppendOp? ==> StoredAt(outs, k)
    ensures |states| == |ops| + 1 && states[i].segs != []
    ensures forall k :: 0 <= k < |states[i].segs| && states[i].segs[k].recs == [] ==>
              |states[i].segs| == 1 && states[i].segs == states[0].segs
  {
    LengthsOf(states, ops, outs);
    RunOk(states, ops, outs, i);
    EmptyBehindMeans(states[i].segs);
    if i > 0 {
      OnlyInitialEmpty(states, ops, outs, i - 1);
      StepOf(states, ops, outs, i - 1);
      OkStepEmpty(states[i - 1], ops[i - 1], outs[i - 1], states[i]);
    }
  }

  lemma OkStepEmpty(s: State, op: Op, out: Out, s': State)
    requires s.Ok() && Legal(s, op) && Step(s, op, out, s') && (op.AppendOp? ==> StoredAt([out], 0))
    requires forall k :: 0 <= k < |s.segs| && s.segs[k].recs == [] ==> |s.segs| == 1
    ensures forall k :: 0 <= k < |s'.segs| && s'.segs[k].recs == [] ==> |s'.segs| == 1 && s'.segs == s.segs
  {
    hide EmptyBehind, Append, Kept, Linked, Seg.Ok, Seg.Maxed;
    StepRefines(s, op, out, s');
    StepLeavesEmptyIff(s, op, out, s');
    EmptyBehindMeans(s.segs);
    EmptyBehindMeans(s'.segs);
    match op {
      case AppendOp(r) => StoredLast(s.cfg, s.segs, r);
      case ReadOp(_) =>
      case TruncateOp(lowest) => TruncateKeepsEmpty(s.segs, lowest);
      case ReopenOp(_) =>
    }
  }

  lemma StoredLast(cfg: Config, segs: seq<Seg>, r: Record)
    requires cfg.Valid() && WellFormed(cfg, segs) && Last(segs).Next() < TWO_64 - 1
    requires Append(cfg, segs, r).1.Ok?
    ensures WellFormed(cfg, Append(cfg, segs, r).0) && Last(Append(cfg, segs, r).0).recs != []
    ensures forall i :: 0 <= i < |Append(cfg, segs, r).0| ==> Append(cfg, segs, r).0[i].recs != []
  {
    hide Seg.Maxed, Flatten, Codec.Encoded;
    AppendRefines(cfg, segs, r);
    RollIsSafe(cfg, segs);
  }

  /** A value too large for the fixed codec. */
  function HugeValue(): (v: Bytes)
    ensures |v| == TWO_61
  {
    seq(TWO_61, _ => 0)
  }

  /** It does happen: one record fills the segment, and the next does not marshal. */
  lemma FailedAppendLeavesEmpty()
    ensures var cfg := Config(FixedCodec(), TWO_62, ENT_WIDTH, 0);
            var segs := [Seg(0, [Record([], 0, 0, 0)])];
            var r := Record(HugeValue(), 0, 0, 0);
            && State(cfg, segs).Ok() && Legal(State(cfg, segs), AppendOp(r))
            && Append(cfg, segs, r) == (segs + [Seg(1, [])], Err(Malformed))
  {
    FixedCodecLawful();
    hide Codec.Lawful, BigEndian;
    var cfg := Config(FixedCodec(), TWO_62, ENT_WIDTH, 0);
    var first := Record([], 0, 0, 0);
    EncodedSnoc(cfg.codec, [], first);
    assert [] + [first] == [first];
    assert cfg.codec.Payloads([]) == [];
    var segs := [Seg(0, [first])];
    assert cfg.codec.marshal(first).Some?;
    assert WellFormed(cfg, segs);
    assert Last(segs).Maxed(cfg);
    hide Seg.Maxed, FixedMarshal;
    var r := Stamped(Record(HugeValue(), 0, 0, 0), 1);
    assert cfg.codec.marshal(r).None?;
    assert RollIfMaxed(cfg, segs, 0) == segs + [Seg(1, [])];
    assert Append(cfg, segs, Record(HugeValue(), 0, 0, 0)).0 == segs + [Seg(1, [])];
  }
}
