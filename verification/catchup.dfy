/** Catching up after restoring a copy that was taken while appends went on, by applying the commands that follow the
    snapshot. */
module CatchingUp {
  import opened Seqs
  import opened Wire
  import opened Records
  import opened Spec
  import opened Fsms
  import opened Readers
  import opened Snapshots

  /** The records that steps append. */
  function AppendedBy(steps: seq<CopyStep>): seq<Record> {
    if steps == [] then []
    else (if steps[0].AppendStep? then [steps[0].rec] else []) + AppendedBy(steps[1..])
  }

  /** The commands submitted for these records. */
  ghost predicate Submitted(c: Codec, cmds: seq<Bytes>, recs: seq<Record>) {
    |cmds| == |recs| && forall k :: 0 <= k < |cmds| ==> Decode(c, cmds[k]) == Decoded.AppendRecord(recs[k])
  }

  /** Whether a record marshals does not depend on the offset it is stamped with. */
  ghost predicate OffsetFree(c: Codec) {
    forall r: Record, off: u64 :: c.marshal(Stamped(r, off)).Some? <==> c.marshal(r).Some?
  }

  /** How many of the records marshal. */
  function Marshalling(c: Codec, recs: seq<Record>): nat {
    if recs == [] then 0 else (if c.marshal(recs[0]).Some? then 1 else 0) + Marshalling(c, recs[1..])
  }

  lemma {:induction false} AppliedCount(c: Codec, f: Flat, cmds: seq<Bytes>, recs: seq<Record>)
    requires OffsetFree(c) && Submitted(c, cmds, recs) && f.Next() + |cmds| < TWO_64
    ensures |FlatApplyAll(c, f, cmds).0.recs| == |f.recs| + Marshalling(c, recs)
    decreases |cmds|
  {
    if cmds != [] {
      var one := FlatApply(c, f, cmds[0]).0;
      assert Decode(c, cmds[0]) == Decoded.AppendRecord(recs[0]);
      assert c.marshal(Stamped(recs[0], f.Next())).Some? <==> c.marshal(recs[0]).Some?;
      SubmittedRest(c, cmds, recs);
      hide OffsetFree, Decode, Submitted;
      AppliedCount(c, one, cmds[1..], recs[1..]);
    }
  }

  lemma SubmittedRest(c: Codec, cmds: seq<Bytes>, recs: seq<Record>)
    requires Submitted(c, cmds, recs) && cmds != []
    ensures Submitted(c, cmds[1..], recs[1..])
  {
  }

  /** Applying the commands of the records appended from state `i` to state `n` gives state `n`. */
  lemma {:induction false} CopyApplies(
      cfg: Config, states: seq<Copying>, steps: seq<CopyStep>, i: nat, n: nat, cmds: seq<Bytes>)
    requires CopyRun(cfg, states, steps) && i <= n <= |steps| && Submitted(cfg.codec, cmds, AppendedBy(steps[i..n]))
    requires |states| == |steps| + 1 && FlatOf(states[i].segs).Next() + |cmds| < TWO_64
    ensures FlatApplyAll(cfg.codec, FlatOf(states[i].segs), cmds).0 == FlatOf(states[n].segs)
    decreases n - i
  {
    hide CopyRun, CopyInvariant, FlatOf, Submitted, FlatApplyAll, ReadOnce, Spec.Append;
    if i == n {
      NothingSubmitted(cfg.codec, FlatOf(states[n].segs), cmds);
    } else {
      CopyRunInvariant(cfg, states, steps, i);
      RunStep(cfg, states, steps, i);
      var rest := steps[i + 1..n];
      assert steps[i..n][0] == steps[i] && steps[i..n][1..] == rest;
      InvariantWellFormed(cfg, states[0].segs, states[i]);
      match steps[i] {
        case AppendStep(r) =>
          FirstSubmitted(cfg.codec, cmds, r, AppendedBy(rest));
          AppendApplies(cfg, states[i].segs, r, cmds);
          CopyApplies(cfg, states, steps, i + 1, n, cmds[1..]);
        case ReadSome(_) =>
          NilLeft(AppendedBy(rest));
          CopyApplies(cfg, states, steps, i + 1, n, cmds);
      }
    }
  }

  lemma NothingSubmitted(c: Codec, f: Flat, cmds: seq<Bytes>)
    requires Submitted(c, cmds, []) && f.Next() < TWO_64
    ensures f.Next() + |cmds| < TWO_64 && FlatApplyAll(c, f, cmds).0 == f
  {
  }

  lemma AppendApplies(cfg: Config, segs: seq<Seg>, r: Record, cmds: seq<Bytes>)
    requires cfg.Valid() && WellFormed(cfg, segs) && cmds != [] && FlatOf(segs).Next() + |cmds| < TWO_64
    requires Decode(cfg.codec, cmds[0]) == Decoded.AppendRecord(r) && Last(segs).Next() < TWO_64 - 1
    ensures var after := FlatOf(Append(cfg, segs, r).0);
            && after.Next() + |cmds[1..]| < TWO_64
            && FlatApplyAll(cfg.codec, FlatOf(segs), cmds).0 == FlatApplyAll(cfg.codec, after, cmds[1..]).0
  {
    AppendRefines(cfg, segs, r);
    hide WellFormed, Flatten, Decode, Spec.Append;
  }

  lemma FirstSubmitted(c: Codec, cmds: seq<Bytes>, r: Record, recs: seq<Record>)
    requires Submitted(c, cmds, [r] + recs)
    ensures cmds != [] && Decode(c, cmds[0]) == Decoded.AppendRecord(r) && Submitted(c, cmds[1..], recs)
  {
    SubmittedRest(c, cmds, [r] + recs);
    assert ([r] + recs)[1..] == recs;
  }

  lemma InvariantWellFormed(cfg: Config, initial: seq<Seg>, s: Copying)
    requires CopyInvariant(cfg, initial, s)
    ensures WellFormed(cfg, s.segs) && s.segs != [] && initial != [] && FlatOf(s.segs).low == FlatOf(initial).low
  {
  }

  /** A replica that restored a copy taken during appends and then applies the commands that follow the snapshot ends
      with the source's records exactly when the copy took none of the records appended meanwhile; every one that it
      took ends up there twice. */
  lemma CaughtUpIff(cfg: Config, states: seq<Copying>, steps: seq<CopyStep>, i: nat, cfg': Config, cmds: seq<Bytes>)
    requires CopyRun(cfg, states, steps) && i <= |steps| && states[i].at == states[i].captured
    requires cfg'.Valid() && cfg'.codec == cfg.codec && Submitted(cfg.codec, cmds, AppendedBy(steps[..i]))
    requires FlatOf(states[i].segs).Next() + |cmds| < TWO_64
    ensures states[i].segs != [] && WellFormed(cfg', FreshLog(states[i].segs[0].base))
    ensures states[i].segs[0].base + |ParseFrames(states[i].sink).0| < TWO_64
    ensures var restored := Replay(cfg', FreshLog(states[i].segs[0].base), states[i].sink).0;
            && WellFormed(cfg', restored) && Last(restored).Next() + |cmds| < TWO_64
            && var (caughtUp, source) := (FlatOf(ApplyAll(cfg', restored, cmds).0), FlatOf(states[i].segs));
               var taken := |FlatOf(restored).recs| - |Flatten(states[0].segs)|;
               && states[i].sink == cfg.codec.Encoded(FlatOf(restored).recs)
               && Flatten(states[0].segs) <= FlatOf(restored).recs
               && (taken == 0 ==> caughtUp == source)
               && (OffsetFree(cfg.codec) ==> |caughtUp.recs| == |source.recs| + taken)
               && (OffsetFree(cfg.codec) ==> (caughtUp == source <==> taken == 0))
  {
    RestoreOfConcurrentSnapshot(cfg, states, steps, i, cfg');
    CopyRunInvariant(cfg, states, steps, i);
    hide CopyRun, CopyInvariant, Replay, Flatten, WellFormed, ApplyAll, FlatApplyAll, ParseFrames;
    hide Submitted, OffsetFree, AppendedBy;
    InvariantWellFormed(cfg, states[0].segs, states[i]);
    var restored := Replay(cfg', FreshLog(states[i].segs[0].base), states[i].sink).0;
    RestoredNext(cfg', restored, states[i].segs);
    assert steps[0..i] == steps[..i];
    CopyApplies(cfg, states, steps, 0, i, cmds);
    ApplyAllRefines(cfg', restored, cmds);
    CatchUp(cfg.codec, FlatOf(states[0].segs), FlatOf(states[i].segs), FlatOf(restored), cmds, AppendedBy(steps[..i]));
  }

  lemma RestoredNext(cfg: Config, restored: seq<Seg>, source: seq<Seg>)
    requires WellFormed(cfg, restored) && FlatOf(restored).low == FlatOf(source).low
    requires FlatOf(restored).recs <= FlatOf(source).recs
    ensures Last(restored).Next() <= FlatOf(source).Next()
  {
    FlatNext(restored);
  }

  /** The same of flat logs: the restored one holds the initial records and some that were appended since. */
  lemma CatchUp(c: Codec, initial: Flat, source: Flat, restored: Flat, cmds: seq<Bytes>, recs: seq<Record>)
    requires initial.low == source.low == restored.low && initial.recs <= restored.recs <= source.recs
    requires Submitted(c, cmds, recs) && source.Next() + |cmds| < TWO_64
    requires FlatApplyAll(c, initial, cmds).0 == source
    ensures var caughtUp := FlatApplyAll(c, restored, cmds).0;
            var taken := |restored.recs| - |initial.recs|;
            && (taken == 0 ==> caughtUp == source)
            && (OffsetFree(c) ==> |caughtUp.recs| == |source.recs| + taken)
            && (OffsetFree(c) ==> (caughtUp == source <==> taken == 0))
  {
    hide FlatApplyAll, Submitted, OffsetFree;
    if |restored.recs| == |initial.recs| {
      assert restored == initial;
    }
    if OffsetFree(c) {
      AppliedCount(c, restored, cmds, recs);
      AppliedCount(c, initial, cmds, recs);
    }
  }

  // ---------------------------------------------------------------------------------------------
  // What decides it when the snapshot is taken

  /** A finished copy of a snapshot of `segs`, at state `i` of a run. */
  ghost predicate FinishedCopy(cfg: Config, segs: seq<Seg>, states: seq<Copying>, steps: seq<CopyStep>, i: nat) {
    && CopyRun(cfg, states, steps) && i <= |steps| && states[0].segs == segs
    && states[i].at == states[i].captured
  }

  /** The active segment is full, or no record at all marshals at the next offset. */
  ghost predicate Sealed(cfg: Config, segs: seq<Seg>)
    requires segs != [] && Last(segs).Next() < TWO_64
  {
    Last(segs).Maxed(cfg) || forall r: Record :: cfg.codec.marshal(Stamped(r, Last(segs).Next())).None?
  }

  /** Appends to a log that was sealed when the snapshot was taken go to segments the snapshot does not have. */
  ghost predicate CapturedStay(cfg: Config, initial: seq<Seg>, s: Copying) {
    && initial != [] && initial <= s.segs && (Last(initial).Maxed(cfg) || s.segs == initial)
    && s.captured == |initial|
    && (s.at == s.captured ==> s.sink == Streamed(cfg.codec, initial))
  }

  lemma AppendLeavesCaptured(cfg: Config, initial: seq<Seg>, segs: seq<Seg>, r: Record)
    requires initial != [] && Last(initial).Next() < TWO_64 && Sealed(cfg, initial)
    requires initial <= segs && (Last(initial).Maxed(cfg) || segs == initial) && Last(segs).Next() < TWO_64 - 1
    ensures initial <= Append(cfg, segs, r).0
    ensures Last(initial).Maxed(cfg) || Append(cfg, segs, r).0 == initial
  {
    hide Seg.Maxed;
    var rolled := RollIfMaxed(cfg, segs, Highest(segs));
    var k := |rolled| - 1;
    if Last(initial).Maxed(cfg) {
      assert |initial| <= k;
      assert Append(cfg, segs, r).0[..k] == rolled[..k];
    } else {
      UpdateSame(segs, k);
    }
  }

  lemma ReadLeavesCaptured(cfg: Config, initial: seq<Seg>, s: Copying, size: nat)
    requires CopyInvariant(cfg, initial, s) && CapturedStay(cfg, initial, s) && size > 0
    ensures CapturedStay(cfg, initial, ReadOnce(cfg.codec, s, size))
  {
    hide Seg.StoreBytes, Seg.Maxed, WellFormed, Grown, Streamed, FileReadAt, CopiedUpTo, TakenOf;
    if s.at < s.captured {
      var s' := ReadOnce(cfg.codec, s, size);
      NextTaken(cfg.codec, s.segs, s.at, s.off, size);
      if s'.at == s'.captured {
        WholeTaken(cfg.codec, s.segs, s'.at);
        assert s.segs[..|initial|] == initial;
      }
    }
  }

  lemma StartCaptured(cfg: Config, segs: seq<Seg>)
    requires segs != []
    ensures CapturedStay(cfg, segs, StartCopy(segs))
  {
  }

  lemma StepLeavesCaptured(cfg: Config, initial: seq<Seg>, s: Copying, step: CopyStep, s': Copying)
    requires CopyInvariant(cfg, initial, s) && CapturedStay(cfg, initial, s)
    requires initial != [] && Last(initial).Next() < TWO_64 && Sealed(cfg, initial)
    requires CopyLegal(s, step) && CopyNext(cfg, s, step, s')
    ensures CapturedStay(cfg, initial, s')
  {
    hide CopyInvariant, Append, ReadOnce, Streamed, Seg.Maxed, Sealed;
    match step {
      case AppendStep(r) => AppendLeavesCaptured(cfg, initial, s.segs, r);
      case ReadSome(size) => ReadLeavesCaptured(cfg, initial, s, size);
    }
  }

  lemma {:induction false} RunLeavesCaptured(cfg: Config, states: seq<Copying>, steps: seq<CopyStep>, i: nat)
    requires CopyRun(cfg, states, steps) && i <= |steps| && Sealed(cfg, states[0].segs)
    ensures i < |states| && CapturedStay(cfg, states[0].segs, states[i])
  {
    hide CopyRun, CopyInvariant, CapturedStay, CopyLegal, CopyNext, Sealed, WellFormed;
    RunStarts(cfg, states, steps);
    InitialWellFormed(cfg, states, steps);
    if i == 0 {
      StartCaptured(cfg, states[0].segs);
    } else {
      RunLeavesCaptured(cfg, states, steps, i - 1);
      CopyRunInvariant(cfg, states, steps, i - 1);
      RunStep(cfg, states, steps, i - 1);
      StepLeavesCaptured(cfg, states[0].segs, states[i - 1], steps[i - 1], states[i]);
    }
  }

  lemma InitialWellFormed(cfg: Config, states: seq<Copying>, steps: seq<CopyStep>)
    requires CopyRun(cfg, states, steps)
    ensures cfg.Valid() && WellFormed(cfg, states[0].segs)
    ensures states[0].segs != [] && Last(states[0].segs).Next() < TWO_64
    ensures states[0] == StartCopy(states[0].segs)
  {
  }

  /** A snapshot of a sealed log copies exactly the records there are, whatever is appended
      meanwhile. */
  lemma SealedCopiesItself(cfg: Config, segs: seq<Seg>, states: seq<Copying>, steps: seq<CopyStep>, i: nat)
    requires segs != [] && Last(segs).Next() < TWO_64 && Sealed(cfg, segs) && FinishedCopy(cfg, segs, states, steps, i)
    ensures i < |states| && states[i].sink == cfg.codec.Encoded(Flatten(segs))
  {
    RunLeavesCaptured(cfg, states, steps, i);
    hide CopyRun, Streamed, Flatten, Codec.Encoded, Sealed, Seg.Maxed;
    StreamedIsEncoded(cfg.codec, segs);
  }

  /** The run of one append and then one read of each captured store. */
  function OneAppendStates(c: Codec, segs: seq<Seg>, after: seq<Seg>): (states: seq<Copying>)
    requires |after| == |segs|
    ensures |states| == |segs| + 2
  {
    seq(|segs| + 2, i requires 0 <= i < |segs| + 2 =>
      if i == 0 then StartCopy(segs) else Copying(after, |segs|, i - 1, 0, Streamed(c, after[..i - 1])))
  }

  lemma StartsWithSegments(c: Codec, segs: seq<Seg>, after: seq<Seg>)
    requires |after| == |segs|
    ensures OneAppendStates(c, segs, after)[0] == StartCopy(segs)
  {
  }

  function OneAppendSteps(r: Record, n: nat): (steps: seq<CopyStep>)
    ensures |steps| == n + 1
  {
    [AppendStep(r)] + seq(n, _ => ReadSome(TWO_63))
  }

  /** One large read takes a whole store. */
  lemma ReadsWhole(c: Codec, segs: seq<Seg>, k: nat)
    requires k < |segs| && |segs[k].StoreBytes(c)| < TWO_63
    ensures ReadStep(c, segs, k, 0, TWO_63) == (segs[k].StoreBytes(c), k + 1, 0)
    ensures Streamed(c, segs[..k + 1]) == Streamed(c, segs[..k]) + segs[k].StoreBytes(c)
  {
    hide Seg.StoreBytes, Streamed;
    var data := segs[k].StoreBytes(c);
    assert data[0..] == data;
    TakeOneMore(segs, k);
    StreamedSnoc(c, segs[..k], segs[k]);
  }

  lemma OneAppendRuns(cfg: Config, segs: seq<Seg>, r: Record)
    requires cfg.Valid() && WellFormed(cfg, segs) && Last(segs).Next() < TWO_64 - 1
    requires |Append(cfg, segs, r).0| == |segs| && WellFormed(cfg, Append(cfg, segs, r).0)
    ensures CopyRun(cfg, OneAppendStates(cfg.codec, segs, Append(cfg, segs, r).0), OneAppendSteps(r, |segs|))
  {
    hide Append, Streamed, Linked, Codec.Encoded;
    var after := Append(cfg, segs, r).0;
    var states, steps := OneAppendStates(cfg.codec, segs, after), OneAppendSteps(r, |segs|);
    forall i {:trigger steps[i]} | 0 <= i < |steps|
      ensures CopyLegal(states[i], steps[i]) && CopyNext(cfg, states[i], steps[i], states[i + 1])
    {
      if i == 0 {
        NoneStreamed(cfg.codec, after);
      } else {
        assert after[i - 1].Ok(cfg);
        ReadsWhole(cfg.codec, after, i - 1);
      }
    }
    StartsWithSegments(cfg.codec, segs, after);
  }

  lemma NoneStreamed(c: Codec, segs: seq<Seg>)
    ensures Streamed(c, segs[..0]) == []
  {
  }

  /** An append to a segment with room. */
  lemma AppendWithRoom(cfg: Config, segs: seq<Seg>, r: Record)
    requires cfg.Valid() && WellFormed(cfg, segs) && !Last(segs).Maxed(cfg) && Last(segs).Next() < TWO_64 - 1
    requires cfg.codec.marshal(Stamped(r, Last(segs).Next())).Some?
    ensures var after := Append(cfg, segs, r).0;
            && |after| == |segs| && WellFormed(cfg, after) && Last(after).Next() == Last(segs).Next() + 1
            && Flatten(after) == Flatten(segs) + [Stamped(r, Last(segs).Next())]
  {
    hide Flatten, Linked, Seg.Ok, Seg.Maxed;
    FlatNext(segs);
    AppendRefines(cfg, segs, r);
    AppendNext(cfg, segs, r);
  }

  /** A snapshot of a log whose active segment has room can take a record that is appended after it: one append before
      the first read is enough. */
  lemma CopyCanTakeMore(cfg: Config, segs: seq<Seg>, r: Record)
    returns (states: seq<Copying>, steps: seq<CopyStep>)
    requires cfg.Valid() && WellFormed(cfg, segs) && !Last(segs).Maxed(cfg) && Last(segs).Next() < TWO_64 - 1
    requires cfg.codec.marshal(Stamped(r, Last(segs).Next())).Some?
    ensures FinishedCopy(cfg, segs, states, steps, |steps|) && AppendedBy(steps) == [r]
    ensures states[|steps|].sink == cfg.codec.Encoded(Flatten(segs) + [Stamped(r, Last(segs).Next())])
    ensures FlatOf(states[|steps|].segs).Next() == Last(segs).Next() + 1
  {
    hide Append, Flatten, Streamed, Linked, Seg.Ok, Seg.Maxed, Codec.Encoded, CopyRun;
    var after := Append(cfg, segs, r).0;
    AppendWithRoom(cfg, segs, r);
    OneAppendRuns(cfg, segs, r);
    states, steps := OneAppendStates(cfg.codec, segs, after), OneAppendSteps(r, |segs|);
    assert after[..|segs|] == after;
    StreamedIsEncoded(cfg.codec, after);
    FlatNext(after);
    OnlyAppend(r, |segs|);
    StartsWithSegments(cfg.codec, segs, after);
  }

  lemma OnlyAppend(r: Record, n: nat)
    ensures AppendedBy(OneAppendSteps(r, n)) == [r]
  {
    var rest := seq(n, _ => ReadSome(TWO_63));
    assert OneAppendSteps(r, n)[1..] == rest;
    ReadsAppendNothing(rest);
  }

  lemma {:induction false} ReadsAppendNothing(steps: seq<CopyStep>)
    requires forall i :: 0 <= i < |steps| ==> steps[i].ReadSome?
    ensures AppendedBy(steps) == []
  {
    if steps != [] {
      ReadsAppendNothing(steps[1..]);
    }
  }

  lemma {:induction false} EncodedLonger(c: Codec, a: seq<Record>, b: seq<Record>)
    requires a <= b && |a| < |b|
    ensures |c.Encoded(a)| < |c.Encoded(b)|
  {
    hide Codec.Encoded;
    var k := |b| - 1;
    UnSnoc(b);
    EncodedSnoc(c, b[..k], b[k]);
    EncodedPrefix(c, a, b[..k]);
  }

  /** Whatever is appended meanwhile, every finished copy holds only the records of the log as of the snapshot exactly
      when its active segment was full then, or no record at all marshals at the next offset. */
  lemma CopiesItselfIff(cfg: Config, segs: seq<Seg>)
    requires cfg.Valid() && WellFormed(cfg, segs) && Last(segs).Next() < TWO_64 - 1
    ensures (forall states: seq<Copying>, steps: seq<CopyStep>, i: nat :: FinishedCopy(cfg, segs, states, steps, i) ==>
               states[i].sink == cfg.codec.Encoded(Flatten(segs)))
            <==> Sealed(cfg, segs)
  {
    hide Flatten, Linked, Seg.Ok, Seg.Maxed, Codec.Encoded, FinishedCopy;
    if Sealed(cfg, segs) {
      forall states: seq<Copying>, steps: seq<CopyStep>, i: nat | FinishedCopy(cfg, segs, states, steps, i)
        ensures i < |states| && states[i].sink == cfg.codec.Encoded(Flatten(segs))
      {
        SealedCopiesItself(cfg, segs, states, steps, i);
      }
    } else {
      var r: Record :| cfg.codec.marshal(Stamped(r, Last(segs).Next())).Some?;
      var states, steps := CopyCanTakeMore(cfg, segs, r);
      EncodedLonger(cfg.codec, Flatten(segs), Flatten(segs) + [Stamped(r, Last(segs).Next())]);
    }
  }

  /** A replica that restores the copy at state `i` and applies these commands ends with the source's records. */
  ghost predicate CatchesUp(cfg': Config, s: Copying, cmds: seq<Bytes>) {
    && cfg'.Valid() && s.segs != [] && WellFormed(cfg', FreshLog(s.segs[0].base))
    && s.segs[0].base + |ParseFrames(s.sink).0| < TWO_64
    && var restored := Replay(cfg', FreshLog(s.segs[0].base), s.sink).0;
       && WellFormed(cfg', restored) && Last(restored).Next() + |cmds| < TWO_64
       && FlatOf(ApplyAll(cfg', restored, cmds).0) == FlatOf(s.segs)
  }

  /** A finished copy and the commands of the records appended meanwhile. */
  ghost predicate CopyAndCommands(
      cfg: Config, segs: seq<Seg>, states: seq<Copying>, steps: seq<CopyStep>, i: nat, cmds: seq<Bytes>)
  {
    && FinishedCopy(cfg, segs, states, steps, i) && Submitted(cfg.codec, cmds, AppendedBy(steps[..i]))
    && FlatOf(states[i].segs).Next() + |cmds| < TWO_64
  }

  /** Which copies do, by what they hold. */
  lemma CatchesUpIff(
      cfg: Config, segs: seq<Seg>, states: seq<Copying>, steps: seq<CopyStep>, i: nat, cfg': Config, cmds: seq<Bytes>)
    requires CopyAndCommands(cfg, segs, states, steps, i, cmds) && cfg'.Valid() && cfg'.codec == cfg.codec
    ensures i < |states|
    ensures states[i].sink == cfg.codec.Encoded(Flatten(segs)) ==> CatchesUp(cfg', states[i], cmds)
    ensures OffsetFree(cfg.codec) && CatchesUp(cfg', states[i], cmds) ==>
              states[i].sink == cfg.codec.Encoded(Flatten(segs))
  {
    CaughtUpIff(cfg, states, steps, i, cfg', cmds);
    assert i < |states| && states[0].segs == segs;
    hide CopyRun, Replay, Flatten, WellFormed, ApplyAll, ParseFrames, Submitted, OffsetFree, AppendedBy, Codec.Encoded;
    var restored := FlatOf(Replay(cfg', FreshLog(states[i].segs[0].base), states[i].sink).0).recs;
    if |restored| > |Flatten(segs)| {
      EncodedLonger(cfg.codec, Flatten(segs), restored);
    } else {
      assert restored == Flatten(segs);
    }
  }

  /** Every replica that restores a copy of a snapshot and applies the commands that follow ends with the source's
      records, whatever is appended during the copy, exactly when the active segment was full when the snapshot was
      taken.  (The codec does not mind offsets, and some command's record marshals at the next one.) */
  lemma AlwaysCatchesUpIff(cfg: Config, segs: seq<Seg>, cfg': Config, r: Record, data: Bytes)
    requires cfg.Valid() && WellFormed(cfg, segs) && Last(segs).Next() < TWO_64 - 2
    requires cfg'.Valid() && cfg'.codec == cfg.codec && OffsetFree(cfg.codec)
    requires Decode(cfg.codec, data) == Decoded.AppendRecord(r)
    requires cfg.codec.marshal(Stamped(r, Last(segs).Next())).Some?
    ensures (forall states: seq<Copying>, steps: seq<CopyStep>, i: nat, cmds: seq<Bytes> ::
               CopyAndCommands(cfg, segs, states, steps, i, cmds) ==> CatchesUp(cfg', states[i], cmds))
            <==> Last(segs).Maxed(cfg)
  {
    hide Flatten, Linked, Seg.Ok, Seg.Maxed, Codec.Encoded, FinishedCopy, CatchesUp, OffsetFree, Decode, AppendedBy;
    if Last(segs).Maxed(cfg) {
      forall states: seq<Copying>, steps: seq<CopyStep>, i: nat, cmds: seq<Bytes>
        | CopyAndCommands(cfg, segs, states, steps, i, cmds)
        ensures i < |states| && CatchesUp(cfg', states[i], cmds)
      {
        SealedCopiesItself(cfg, segs, states, steps, i);
        CatchesUpIff(cfg, segs, states, steps, i, cfg', cmds);
      }
    } else {
      var states, steps := CopyCanTakeMore(cfg, segs, r);
      EncodedLonger(cfg.codec, Flatten(segs), Flatten(segs) + [Stamped(r, Last(segs).Next())]);
      assert steps[..|steps|] == steps;
      assert Submitted(cfg.codec, [data], [r]);
      assert CopyAndCommands(cfg, segs, states, steps, |steps|, [data]);
      CatchesUpIff(cfg, segs, states, steps, |steps|, cfg', [data]);
    }
  }
}
