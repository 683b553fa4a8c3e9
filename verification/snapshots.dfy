/** A snapshot copied while appends go on: `fsm.Snapshot` captures one reader per segment, and `Persist` reads
    them in chunks of any sizes, with appends in between.  For a reader of the stores, an append happens when
    its frame is written. */
module Snapshots {
  import opened Seqs
  import opened Wire
  import opened Records
  import opened Spec
  import opened Segments
  import opened Logs
  import opened Fsms
  import opened Readers

  datatype CopyStep =
    | AppendStep(rec: Record)
    | ReadSome(size: nat)

  /** The log, how many segments the snapshot captured, the reader in turn and its offset, and the bytes
      copied so far. */
  datatype Copying = Copying(segs: seq<Seg>, captured: nat, at: nat, off: nat, sink: Bytes)

  /** `fsm.Snapshot`. */
  function StartCopy(segs: seq<Seg>): Copying {
    Copying(segs, |segs|, 0, 0, [])
  }

  ghost predicate CopyLegal(s: Copying, step: CopyStep) {
    s.segs != [] &&
    match step
    case AppendStep(_) => Last(s.segs).Next() < TWO_64 - 1
    case ReadSome(size) => size > 0
  }

  /** A read takes what its store holds now, and at the end of the store moves to the next reader. */
  function ReadOnce(c: Codec, s: Copying, size: nat): (s': Copying)
    ensures s'.segs == s.segs && s'.captured == s.captured
  {
    if s.at < s.captured && s.at < |s.segs| then
      var (p, at, off) := ReadStep(c, s.segs, s.at, s.off, size);
      s.(at := at, off := off, sink := s.sink + p)
    else s
  }

  ghost predicate CopyNext(cfg: Config, s: Copying, step: CopyStep, s': Copying)
    requires CopyLegal(s, step)
  {
    match step
    case AppendStep(r) => s' == s.(segs := Append(cfg, s.segs, r).0)
    case ReadSome(size) => s' == ReadOnce(cfg.codec, s, size)
  }

  ghost predicate CopyRun(cfg: Config, states: seq<Copying>, steps: seq<CopyStep>) {
    && cfg.Valid() && |states| == |steps| + 1
    && WellFormed(cfg, states[0].segs) && states[0] == StartCopy(states[0].segs)
    && forall i {:trigger steps[i]} :: 0 <= i < |steps| ==>
         CopyLegal(states[i], steps[i]) && CopyNext(cfg, states[i], steps[i], states[i + 1])
  }

  // ---------------------------------------------------------------------------------------------
  // Logs only grow at their end

  /** All segments but the last are the same, and the last only has more records; new ones may follow. */
  ghost predicate Grown(a: seq<Seg>, b: seq<Seg>) {
    && 0 < |a| <= |b|
    && (forall i :: 0 <= i < |a| - 1 ==> a[i] == b[i])
    && a[|a| - 1].base == b[|a| - 1].base && a[|a| - 1].recs <= b[|a| - 1].recs
  }

  lemma AppendGrows(cfg: Config, segs: seq<Seg>, r: Record)
    requires segs != [] && Last(segs).Next() < TWO_64 - 1
    ensures Grown(segs, Append(cfg, segs, r).0)
  {
    hide Seg.StoreBytes;
    var rolled := RollIfMaxed(cfg, segs, Highest(segs));
    assert Grown(segs, rolled);
  }

  lemma GrownTransitive(a: seq<Seg>, b: seq<Seg>, c: seq<Seg>)
    requires Grown(a, b) && Grown(b, c)
    ensures Grown(a, c)
  {
  }

  lemma GrownFlat(a: seq<Seg>, b: seq<Seg>)
    requires Grown(a, b)
    ensures Flatten(a) <= Flatten(b)
    ensures Flatten(a) <= Flatten(b[..|a|])
  {
    var k := |a| - 1;
    assert a[..k] == b[..k];
    TakeOneMore(b, k);
    FlattenSnoc(b[..k], b[k]);
    SplitAt(b, |a|);
    FlattenConcat(b[..|a|], b[|a|..]);
    UnSnoc(a);
    FlattenSnoc(a[..k], a[k]);
    PrefixConcat(Flatten(a[..k]), a[k].recs, b[k].recs);
  }

  lemma PrefixConcat<T>(a: seq<T>, b: seq<T>, c: seq<T>)
    requires b <= c
    ensures a + b <= a + c
  {
  }

  /** The bytes of a prefix of the records are a prefix of the bytes. */
  lemma EncodedPrefix(c: Codec, a: seq<Record>, b: seq<Record>)
    requires a <= b
    ensures c.Encoded(a) <= c.Encoded(b)
  {
    hide Codec.Encoded;
    SplitAt(b, |a|);
    assert b[..|a|] == a;
    EncodedConcat(c, a, b[|a|..]);
  }

  // ---------------------------------------------------------------------------------------------
  // The copy

  /** What holds of the copy at any time: until it is done, it is a prefix of the stream of the log as it is now,
      all captured segments being there; once done, it is the encoding of a prefix of the log's records, at
      least those of the log when the snapshot was taken. */
  ghost predicate CopyInvariant(cfg: Config, initial: seq<Seg>, s: Copying) {
    && WellFormed(cfg, s.segs) && Grown(initial, s.segs) && s.captured == |initial| && s.at <= s.captured
    && (s.at < s.captured ==>
          s.off <= |s.segs[s.at].StoreBytes(cfg.codec)| && s.sink == TakenOf(cfg.codec, s.segs, s.at, s.off))
    && (s.at == s.captured ==> exists m: nat :: CopiedUpTo(cfg.codec, initial, s, m))
  }

  ghost predicate CopiedUpTo(c: Codec, initial: seq<Seg>, s: Copying, m: nat) {
    && |Flatten(initial)| <= m <= |Flatten(s.segs)|
    && s.sink == c.Encoded(Flatten(s.segs)[..m])
  }

  lemma CopyStarts(cfg: Config, segs: seq<Seg>)
    requires WellFormed(cfg, segs)
    ensures CopyInvariant(cfg, segs, StartCopy(segs))
  {
    hide Seg.StoreBytes;
    assert segs[..0] == [];
    assert segs[0].StoreBytes(cfg.codec)[..0] == [];
  }

  /** An append changes no byte that was already copied. */
  lemma AppendKeepsTaken(cfg: Config, segs: seq<Seg>, after: seq<Seg>, k: nat, off: nat)
    requires Grown(segs, after) && k < |segs| && off <= |segs[k].StoreBytes(cfg.codec)|
    ensures off <= |after[k].StoreBytes(cfg.codec)|
    ensures TakenOf(cfg.codec, after, k, off) == TakenOf(cfg.codec, segs, k, off)
  {
    hide Streamed;
    assert after[..k] == segs[..k];
    EncodedPrefix(cfg.codec, segs[k].recs, after[k].recs);
    hide Codec.Encoded;
    assert after[k].StoreBytes(cfg.codec)[..off] == segs[k].StoreBytes(cfg.codec)[..off];
  }

  lemma AppendKeepsCopy(cfg: Config, initial: seq<Seg>, s: Copying, r: Record)
    requires cfg.Valid() && CopyInvariant(cfg, initial, s) && s.segs != [] && Last(s.segs).Next() < TWO_64 - 1
    ensures CopyInvariant(cfg, initial, s.(segs := Append(cfg, s.segs, r).0))
  {
    hide Flatten, Seg.StoreBytes, TakenOf, Codec.Encoded;
    AppendGrows(cfg, s.segs, r);
    AppendRefines(cfg, s.segs, r);
    var after := Append(cfg, s.segs, r).0;
    GrownTransitive(initial, s.segs, after);
    var s' := s.(segs := after);
    if s.at < s.captured {
      AppendKeepsTaken(cfg, s.segs, after, s.at, s.off);
    } else {
      var m: nat :| CopiedUpTo(cfg.codec, initial, s, m);
      GrownFlat(s.segs, after);
      assert Flatten(after)[..m] == Flatten(s.segs)[..m];
      assert CopiedUpTo(cfg.codec, initial, s', m);
    }
  }

  /** When the last captured store ends, the copy is the encoding of all records of the captured segments. */
  lemma CopyEnds(c: Codec, initial: seq<Seg>, s: Copying)
    requires Grown(initial, s.segs) && s.at == s.captured == |initial|
    requires s.sink == Streamed(c, s.segs[..|initial|])
    ensures exists m: nat :: CopiedUpTo(c, initial, s, m)
  {
    var n := |initial|;
    GrownFlat(initial, s.segs);
    StreamedIsEncoded(c, s.segs[..n]);
    SplitAt(s.segs, n);
    FlattenConcat(s.segs[..n], s.segs[n..]);
    var m := |Flatten(s.segs[..n])|;
    assert Flatten(s.segs)[..m] == Flatten(s.segs[..n]);
    assert CopiedUpTo(c, initial, s, m);
  }

  lemma ReadKeepsCopy(cfg: Config, initial: seq<Seg>, s: Copying, size: nat)
    requires CopyInvariant(cfg, initial, s) && size > 0
    ensures CopyInvariant(cfg, initial, ReadOnce(cfg.codec, s, size))
  {
    hide Seg.StoreBytes, WellFormed, Streamed, FileReadAt;
    if s.at < s.captured {
      var s' := ReadOnce(cfg.codec, s, size);
      NextTaken(cfg.codec, s.segs, s.at, s.off, size);
      if s'.at == s'.captured {
        WholeTaken(cfg.codec, s.segs, s'.at);
        CopyEnds(cfg.codec, initial, s');
      }
    }
  }

  lemma {:induction false} CopyRunInvariant(cfg: Config, states: seq<Copying>, steps: seq<CopyStep>, i: nat)
    requires CopyRun(cfg, states, steps) && i <= |steps|
    ensures CopyInvariant(cfg, states[0].segs, states[i])
  {
    hide CopyInvariant;
    if i == 0 {
      CopyStarts(cfg, states[0].segs);
    } else {
      CopyRunInvariant(cfg, states, steps, i - 1);
      var step := steps[i - 1];
      assert CopyLegal(states[i - 1], step) && CopyNext(cfg, states[i - 1], step, states[i]);
      CopyStepKeeps(cfg, states[0].segs, states[i - 1], step, states[i]);
    }
  }

  lemma CopyStepKeeps(cfg: Config, initial: seq<Seg>, s: Copying, step: CopyStep, s': Copying)
    requires cfg.Valid() && CopyInvariant(cfg, initial, s) && CopyLegal(s, step) && CopyNext(cfg, s, step, s')
    ensures CopyInvariant(cfg, initial, s')
  {
    hide CopyInvariant, ReadOnce;
    match step {
      case AppendStep(r) => AppendKeepsCopy(cfg, initial, s, r);
      case ReadSome(size) => ReadKeepsCopy(cfg, initial, s, size);
    }
  }

  lemma CopiedCount(cfg: Config, states: seq<Copying>, steps: seq<CopyStep>, i: nat) returns (m: nat)
    requires CopyRun(cfg, states, steps) && i <= |steps| && states[i].at == states[i].captured
    ensures |Flatten(states[0].segs)| <= m <= |Flatten(states[i].segs)|
    ensures Flatten(states[0].segs) <= Flatten(states[i].segs)[..m]
    ensures states[i].sink == cfg.codec.Encoded(Flatten(states[i].segs)[..m])
    ensures WellFormed(cfg, states[i].segs)
  {
    CopyRunInvariant(cfg, states, steps, i);
    assert i < |states|;
    hide CopyRun, Flatten, Codec.Encoded, WellFormed;
    GrownFlat(states[0].segs, states[i].segs);
    m :| CopiedUpTo(cfg.codec, states[0].segs, states[i], m);
    PrefixOfTake(Flatten(states[0].segs), Flatten(states[i].segs), m);
  }

  lemma PrefixOfTake<T>(a: seq<T>, b: seq<T>, m: nat)
    requires a <= b && |a| <= m <= |b|
    ensures a <= b[..m]
  {
  }

  /** A copy that is done holds whole frames only: the records of the log as of the snapshot, perhaps more of
      the log as it is when the copy ends, and nothing else. */
  lemma SnapshotIsWholeFrames(cfg: Config, states: seq<Copying>, steps: seq<CopyStep>, i: nat)
    requires CopyRun(cfg, states, steps) && i <= |steps| && states[i].at == states[i].captured
    ensures exists m: nat ::
              && |Flatten(states[0].segs)| <= m <= |Flatten(states[i].segs)|
              && Flatten(states[0].segs) <= Flatten(states[i].segs)[..m]
              && ParseFrames(states[i].sink) == (cfg.codec.Payloads(Flatten(states[i].segs)[..m]), None)
  {
    var m := CopiedCount(cfg, states, steps, i);
    EncodedParses(cfg.codec, Flatten(states[i].segs)[..m]);
  }

  /** Restoring such a copy into a fresh log gives a prefix of the log as it is when the copy ends that contains
      the log as of the snapshot. */
  lemma RestoreOfConcurrentSnapshot(cfg: Config, states: seq<Copying>, steps: seq<CopyStep>, i: nat, cfg': Config)
    requires CopyRun(cfg, states, steps) && i <= |steps| && states[i].at == states[i].captured
    requires cfg'.Valid() && cfg'.codec == cfg.codec
    ensures states[i].segs != [] && WellFormed(cfg', FreshLog(states[i].segs[0].base))
    ensures states[i].segs[0].base + |ParseFrames(states[i].sink).0| < TWO_64
    ensures var (restored, err) := Replay(cfg', FreshLog(states[i].segs[0].base), states[i].sink);
            && err == None && WellFormed(cfg', restored)
            && FlatOf(restored).low == FlatOf(states[i].segs).low
            && Flatten(states[0].segs) <= FlatOf(restored).recs <= Flatten(states[i].segs)
            && states[i].sink == cfg.codec.Encoded(FlatOf(restored).recs)
  {
    var m := CopiedCount(cfg, states, steps, i);
    assert i < |states|;
    hide CopyRun, Flatten, ParseFrames, Replay, Linked, Seg.Ok, Codec.Encoded;
    var segs, recs := states[i].segs, Flatten(states[i].segs)[..m];
    EncodedParses(cfg.codec, recs);
    LogStamped(cfg, segs);
    FreshLogFlat(cfg', segs[0].base);
    ReplayParsed(cfg', FreshLog(segs[0].base), recs, states[i].sink);
    NilLeft(recs);
  }

  // ---------------------------------------------------------------------------------------------
  // The copy on the log and its files

  /** `fsm.Snapshot` and `snapshot.Persist` on the log itself, while others append: step by step the reader is where
      the run says, and the sink gets the bytes that the run says. */
  method Persist(log: Log, steps: seq<CopyStep>, ghost states: seq<Copying>) returns (sink: Bytes)
    requires log.Valid() && CopyRun(log.config, states, steps) && states[0].segs == log.model
    modifies log`segments, log`activeSegment, log`model, log.dir`files, log.Footprint()
    ensures log.Valid() && log.config == old(log.config)
    ensures |states| == |steps| + 1 && log.model == states[|steps|].segs && sink == states[|steps|].sink
  {
    hide Log.Valid, Log.Footprint, MultiReader.Valid, MultiReader.Taken, CopyRun, CopyLegal, CopyNext;
    log.FootprintHolds();
    RunStarts(log.config, states, steps);
    log.Shape();
    var reader := new MultiReader(log);
    sink := [];
    for i := 0 to |steps|
      invariant reader.Valid() && reader.log == log && log.Valid() && log.config == old(log.config)
      invariant fresh(reader) && fresh(reader.readers)
      invariant forall o :: o in log.Footprint() ==> o in old(log.Footprint()) || fresh(o)
      invariant At(reader, sink, states[i])
    {
      RunStep(log.config, states, steps, i);
      ghost var before, readers := log.Footprint(), reader.readers;
      sink := PersistStep(log, reader, steps[i], sink, states[i], states[i + 1]);
      assert forall k :: 0 <= k < |reader.readers| ==> reader.readers[k] in readers;
      assert forall o :: o in log.Footprint() && o !in before ==> !old(allocated(o));
    }
  }

  /** The reader and the sink are as `s` says. */
  ghost predicate At(reader: MultiReader, sink: Bytes, s: Copying)
    reads reader, reader.readers, reader.log
  {
    0 <= reader.Finished() && s == Copying(reader.log.model, reader.total, reader.Finished(), reader.Offset(), sink)
  }

  lemma RunStarts(cfg: Config, states: seq<Copying>, steps: seq<CopyStep>)
    requires CopyRun(cfg, states, steps)
    ensures |states| == |steps| + 1 && states[0] == Copying(states[0].segs, |states[0].segs|, 0, 0, [])
  {
  }

  lemma RunStep(cfg: Config, states: seq<Copying>, steps: seq<CopyStep>, i: nat)
    requires CopyRun(cfg, states, steps) && i < |steps|
    ensures cfg.Valid() && |states| == |steps| + 1
    ensures CopyLegal(states[i], steps[i]) && CopyNext(cfg, states[i], steps[i], states[i + 1])
  {
  }

  method PersistStep(log: Log, reader: MultiReader, step: CopyStep, sink: Bytes, ghost s: Copying, ghost s': Copying)
    returns (sink': Bytes)
    requires log.Valid() && reader.Valid() && reader.log == log && At(reader, sink, s)
    requires CopyLegal(s, step) && CopyNext(log.config, s, step, s')
    modifies log`segments, log`activeSegment, log`model, log.dir`files, log.Footprint(), reader, reader.readers
    ensures log.Valid() && reader.Valid() && log.config == old(log.config) && At(reader, sink', s')
    ensures forall r :: r in reader.readers ==> r in old(reader.readers)
    ensures forall o :: o in log.Footprint() ==> o in old(log.Footprint()) || fresh(o)
  {
    hide Log.Valid, Log.Footprint, WellFormed, Config.Valid, Spec.Append, Seg.StoreBytes, MultiReader.Valid;
    log.FootprintHolds();
    match step {
      case AppendStep(rec) =>
        AppendMeanwhile(log, reader, rec);
        sink' := sink;
      case ReadSome(size) =>
        sink' := sink;
        if reader.readers != [] {
          assert reader.readers[0] in reader.readers;
          var p, _ := reader.ReadFirst(size);
          sink' := sink + p;
        }
    }
  }

  method AppendMeanwhile(log: Log, reader: MultiReader, rec: Record)
    requires log.Valid() && reader.Valid() && reader.log == log && Last(log.model).Next() < TWO_64 - 1
    modifies log`segments, log`activeSegment, log`model, log.dir`files, log.Footprint()
    ensures log.Valid() && reader.Valid() && log.config == old(log.config)
    ensures reader.Finished() == old(reader.Finished()) && reader.Offset() == old(reader.Offset())
    ensures log.model == Append(log.config, old(log.model), rec).0
    ensures forall o :: o in log.Footprint() ==> o in old(log.Footprint()) || fresh(o)
  {
    hide Log.Valid, Log.Footprint, WellFormed, Config.Valid, Spec.Append, Seg.StoreBytes, MultiReader.Valid;
    log.FootprintHolds();
    log.Shape();
    AppendGrows(log.config, log.model, rec);
    GrownStores(log.config.codec, log.model, Append(log.config, log.model, rec).0);
    ghost var before := log.Footprint();
    var message := new Message(rec);
    var r := log.Append(message);
    assert forall o :: o in log.Footprint() && o !in before ==> !old(allocated(o));
    reader.KeptByAppend();
  }

  lemma GrownStores(c: Codec, a: seq<Seg>, b: seq<Seg>)
    requires Grown(a, b)
    ensures forall i :: 0 <= i < |a| ==> |a[i].StoreBytes(c)| <= |b[i].StoreBytes(c)|
  {
    hide Codec.Encoded;
    forall i | 0 <= i < |a| ensures |a[i].StoreBytes(c)| <= |b[i].StoreBytes(c)| {
      EncodedPrefix(c, a[i].recs, b[i].recs);
    }
  }
}
