/** `Log.Append` as two atomic steps: the highest offset is read under the read lock, and everything else
    happens under the write lock, with anything in between. */
module AppendSteps {
  import opened Seqs
  import opened Wire
  import opened Records
  import opened Spec
  import opened Segments
  import opened Logs

  /** The append is safe: the segments stay contiguous, and it answers and changes the flat log as an append that
      nothing overlaps. */
  ghost predicate Safe(cfg: Config, segs: seq<Seg>, r: Record, out: (seq<Seg>, Result<nat>)) {
    WellFormed(cfg, out.0) && FlatAppended(cfg.codec, FlatOf(segs), r, FlatOf(out.0), out.1)
  }

  /** The captured offset only matters when the append rolls; then the append is safe exactly when the captured
      offset still is the highest. */
  lemma LockedSafeIff(cfg: Config, segs: seq<Seg>, h: nat, r: Record)
    requires cfg.Valid() && WellFormed(cfg, segs) && Last(segs).Next() < TWO_64 - 1
    requires h < TWO_64 - 2
    ensures Safe(cfg, segs, r, Locked(cfg, segs, h, r)) <==> (!Last(segs).Maxed(cfg) || h + 1 == Last(segs).Next())
  {
    hide Seg.Maxed, AppendToActive, Flatten, Linked, Seg.Ok;
    AppendRefines(cfg, segs, r);
    LockedIsAppend(cfg, segs, r);
    if !Last(segs).Maxed(cfg) {
      assert Locked(cfg, segs, h, r) == Append(cfg, segs, r);
    } else {
      NextIsNoBase(cfg, segs);
      if h + 1 != Last(segs).Next() {
        StaleRollBreaks(cfg, segs, h, r);
      }
    }
  }

  /** A roll to a stale offset leaves a gap or an overlap behind. */
  lemma StaleRollBreaks(cfg: Config, segs: seq<Seg>, h: nat, r: Record)
    requires segs != [] && Last(segs).Maxed(cfg) && h + 1 != Last(segs).Next()
    requires Last(segs).Next() < TWO_64 - 1 && h < TWO_64 - 2
    ensures !WellFormed(cfg, Locked(cfg, segs, h, r).0)
  {
    var after := Locked(cfg, segs, h, r).0;
    var k := |segs|;
    FindBaseFinds(segs, h + 1);
    hide Seg.StoreBytes;
    assert after[k - 1] == segs[k - 1] && after[k].base == h + 1;
  }

  // ---------------------------------------------------------------------------------------------
  // Runs of overlapping operations

  datatype Event =
    | Capture(thread: nat)
    | LockedPart(thread: nat, rec: Record)
    | ReadEvent(off: u64)
    | TruncateEvent(lowest: u64)

  datatype World = World(segs: seq<Seg>, captured: map<nat, nat>)

  ghost predicate EventLegal(cfg: Config, w: World, e: Event) {
    && w.segs != [] && Last(w.segs).Next() < TWO_64 - 1
    && match e
       case Capture(_) => true
       case LockedPart(t, _) => t in w.captured && w.captured[t] < TWO_64 - 2
       case ReadEvent(_) => true
       case TruncateEvent(lowest) => lowest < Highest(w.segs)
  }

  ghost predicate EventStep(cfg: Config, w: World, e: Event, w': World)
    requires EventLegal(cfg, w, e)
  {
    match e
    case Capture(t) => w' == World(w.segs, w.captured[t := Highest(w.segs)])
    case LockedPart(t, r) =>
      w' == World(Locked(cfg, w.segs, w.captured[t], r).0, w.captured)
    case ReadEvent(_) => w' == w
    case TruncateEvent(lowest) => w' == World(Kept(w.segs, lowest), w.captured)
  }

  ghost predicate EventRun(cfg: Config, worlds: seq<World>, events: seq<Event>) {
    && cfg.Valid() && |worlds| == |events| + 1 && WellFormed(cfg, worlds[0].segs)
    && forall i {:trigger events[i]} :: 0 <= i < |events| ==>
         EventLegal(cfg, worlds[i], events[i]) && EventStep(cfg, worlds[i], events[i], worlds[i + 1])
  }

  /** How the locked part `e` ends in world `w`. */
  function OutcomeAt(cfg: Config, w: World, e: Event): (seq<Seg>, Result<nat>)
    requires EventLegal(cfg, w, e) && e.LockedPart?
  {
    Locked(cfg, w.segs, w.captured[e.thread], e.rec)
  }

  /** The thread of the locked part at `j` captured the highest offset at `i`, and no other locked part ran
      since. */
  ghost predicate CapturedAt(events: seq<Event>, i: nat, j: nat) {
    && i < j < |events| && events[j].LockedPart? && events[i] == Capture(events[j].thread)
    && forall k :: i < k < j ==> !events[k].LockedPart? && events[k] != events[i]
  }

  /** No two appends overlap. */
  ghost predicate Serialised(events: seq<Event>) {
    forall j :: 0 <= j < |events| && events[j].LockedPart? ==> exists i: nat :: CapturedAt(events, i, j)
  }

  /** Between a capture and the locked part that uses it, reads, captures of others and truncations leave both
      the highest offset and the captured one alone. */
  lemma {:induction false} CaptureHolds(cfg: Config, worlds: seq<World>, events: seq<Event>, i: nat, j: nat, k: nat)
    requires EventRun(cfg, worlds, events) && CapturedAt(events, i, j) && i < k <= j
    requires WellFormed(cfg, worlds[i].segs)
    ensures WellFormed(cfg, worlds[k].segs) && Highest(worlds[k].segs) == Highest(worlds[i].segs)
    ensures events[j].thread in worlds[k].captured && worlds[k].captured[events[j].thread] == Highest(worlds[i].segs)
    decreases k
  {
    hide WellFormed, Locked, Kept, Flatten;
    var w, e := worlds[k - 1], events[k - 1];
    if k - 1 > i {
      CaptureHolds(cfg, worlds, events, i, j, k - 1);
    }
    assert EventStep(cfg, w, e, worlds[k]);
    if e.TruncateEvent? {
      TruncateRefines(cfg, w.segs, e.lowest);
      WellFormedNext(cfg, w.segs);
      WellFormedNext(cfg, worlds[k].segs);
    }
  }

  lemma WellFormedNext(cfg: Config, segs: seq<Seg>)
    requires WellFormed(cfg, segs)
    ensures segs != [] && FlatOf(segs).Next() == Last(segs).Next()
  {
    FlatNext(segs);
  }

  lemma UpToDateIsSafe(cfg: Config, segs: seq<Seg>, r: Record)
    requires cfg.Valid() && WellFormed(cfg, segs) && Last(segs).Next() < TWO_64 - 1 && Highest(segs) < TWO_64 - 2
    ensures Safe(cfg, segs, r, Locked(cfg, segs, Highest(segs), r))
  {
    if Last(segs).Maxed(cfg) {
      NextIsNoBase(cfg, segs);
    }
    LockedSafeIff(cfg, segs, Highest(segs), r);
  }

  lemma OtherStepsKeepWellFormed(cfg: Config, w: World, e: Event, w': World)
    requires cfg.Valid() && WellFormed(cfg, w.segs) && EventLegal(cfg, w, e) && EventStep(cfg, w, e, w')
    requires e.LockedPart? ==> Safe(cfg, w.segs, e.rec, OutcomeAt(cfg, w, e))
    ensures WellFormed(cfg, w'.segs)
  {
    if e.TruncateEvent? {
      TruncateRefines(cfg, w.segs, e.lowest);
    }
  }

  /** In a run without overlapping appends every append is safe, whatever reads and legal truncations are
      interleaved, and the log stays well formed. */
  lemma {:induction false} SerialisedAppendsAreSafe(cfg: Config, worlds: seq<World>, events: seq<Event>, j: nat)
    requires EventRun(cfg, worlds, events) && Serialised(events) && j < |events|
    ensures WellFormed(cfg, worlds[j].segs) && WellFormed(cfg, worlds[j + 1].segs)
    ensures EventLegal(cfg, worlds[j], events[j])
    ensures events[j].LockedPart? ==>
              Safe(cfg, worlds[j].segs, events[j].rec, OutcomeAt(cfg, worlds[j], events[j]))
    decreases j
  {
    hide WellFormed, Safe, Locked, EventStep, Highest, EventRun, CapturedAt, Serialised;
    RunStep(cfg, worlds, events, j);
    if j > 0 {
      SerialisedAppendsAreSafe(cfg, worlds, events, j - 1);
    }
    if events[j].LockedPart? {
      var i := CaptureOf(events, j);
      if i > 0 {
        SerialisedAppendsAreSafe(cfg, worlds, events, i - 1);
      }
      CapturedIsSafe(cfg, worlds, events, i, j);
    }
    OtherStepsKeepWellFormed(cfg, worlds[j], events[j], worlds[j + 1]);
  }

  lemma RunStep(cfg: Config, worlds: seq<World>, events: seq<Event>, j: nat)
    requires EventRun(cfg, worlds, events) && j < |events|
    ensures cfg.Valid() && |worlds| == |events| + 1 && WellFormed(cfg, worlds[0].segs)
    ensures EventLegal(cfg, worlds[j], events[j]) && EventStep(cfg, worlds[j], events[j], worlds[j + 1])
  {
  }

  lemma CaptureOf(events: seq<Event>, j: nat) returns (i: nat)
    requires Serialised(events) && j < |events| && events[j].LockedPart?
    ensures i < j && CapturedAt(events, i, j)
  {
    i :| CapturedAt(events, i, j);
  }

  lemma CapturedIsSafe(cfg: Config, worlds: seq<World>, events: seq<Event>, i: nat, j: nat)
    requires EventRun(cfg, worlds, events) && CapturedAt(events, i, j) && (i > 0 ==> WellFormed(cfg, worlds[i].segs))
    ensures EventLegal(cfg, worlds[j], events[j])
    ensures Safe(cfg, worlds[j].segs, events[j].rec, OutcomeAt(cfg, worlds[j], events[j]))
  {
    CaptureHolds(cfg, worlds, events, i, j, j);
    RunStep(cfg, worlds, events, j);
    assert events[j].LockedPart?;
    hide WellFormed, Safe, Locked, EventStep, Highest;
    UpToDateIsSafe(cfg, worlds[j].segs, events[j].rec);
  }

  // ---------------------------------------------------------------------------------------------
  // Overlapping appends

  /** A log with room for one more record: two appends that both capture its highest offset before either
      locks are given the same offset, when the first fills the segment.  Reading it gives the first one's record; the
      second one's was acknowledged at an offset where it is never found. */
  lemma OverlappingAppendsShareAnOffset(cfg: Config, first: Record, a: Record, b: Record)
    requires cfg.Valid() && cfg.maxIndexBytes == 2 * ENT_WIDTH && cfg.maxStoreBytes == TWO_62
    requires first.offset == 0 && cfg.codec.marshal(first).Some?
    requires cfg.codec.marshal(Stamped(a, 1)).Some? && cfg.codec.marshal(Stamped(b, 1)).Some?
    ensures var segs := [Seg(0, [first])];
            && WellFormed(cfg, segs)
            && var one := Locked(cfg, segs, Highest(segs), a);
               one.1 == Result.Ok(1) && WellFormed(cfg, one.0)
               && var two := Locked(cfg, one.0, Highest(segs), b);
                  && two.1 == Result.Ok(1) && !WellFormed(cfg, two.0)
                  && Read(two.0, 1) == Result.Ok(Stamped(a, 1))
  {
    var segs := [Seg(0, [first])];
    OneRecordSegment(cfg, first);
    var one := Locked(cfg, segs, 0, a);
    assert [first] + [Stamped(a, 1)] == [first, Stamped(a, 1)];
    assert one.0 == [Seg(0, [first, Stamped(a, 1)])];
    LockedSafeIff(cfg, segs, 0, a);
    assert Last(one.0).Maxed(cfg) && Last(one.0).Next() == 2;
    FindBaseFinds(one.0, 1);
    assert Rolled(cfg, one.0, 0) == [one.0[0], Seg(1, [])];
    StaleRollBreaks(cfg, one.0, 0, b);
    var two := Locked(cfg, one.0, 0, b);
    assert two.0[0] == one.0[0] && two.0[0].recs[1] == Stamped(a, 1);
  }

  lemma OneRecordSegment(cfg: Config, first: Record)
    requires cfg.Valid() && cfg.maxIndexBytes == 2 * ENT_WIDTH && cfg.maxStoreBytes == TWO_62
    requires first.offset == 0 && cfg.codec.marshal(first).Some?
    ensures WellFormed(cfg, [Seg(0, [first])]) && !Seg(0, [first]).Maxed(cfg)
  {
    EncodedSnoc(cfg.codec, [], first);
    NilLeft([first]);
    assert cfg.codec.Payloads([]) == [];
  }

  /** With room for a single record per segment the second of two overlapping appends fails instead, with EOF: it
      rolls to the segment that the first has just opened. */
  lemma OverlappingAppendsCollide(cfg: Config, segs: seq<Seg>, a: Record, b: Record)
    requires cfg.Valid() && WellFormed(cfg, segs) && cfg.Capacity() == 1 && Last(segs).Maxed(cfg)
    requires Last(segs).Next() < TWO_64 - 2 && cfg.codec.marshal(Stamped(a, Last(segs).Next())).Some?
    requires cfg.codec.marshal(Stamped(b, Last(segs).Next() + 1)).Some?
    ensures Highest(segs) < TWO_64 - 2
    ensures var one := Locked(cfg, segs, Highest(segs), a);
            && one.1 == Result.Ok(Last(segs).Next()) && one.0 != [] && Last(one.0).Next() == Last(segs).Next() + 1
            && Collides(cfg, one.0, Highest(segs)) && Locked(cfg, one.0, Highest(segs), b).1 == Err(EOF)
  {
    hide Seg.Maxed, Linked, Seg.Ok, FindBase, Highest;
    NextIsNoBase(cfg, segs);
    var added := Seg(Last(segs).Next(), [Stamped(a, Last(segs).Next())]);
    RollAndStore(cfg, segs, Highest(segs), a);
    OneFills(cfg, added);
    FindBaseAtEnd(segs, added);
  }

  /** Two appends on the log itself that both read the highest offset before either locks: their answers and the
      segments are those of the two locked parts, one after the other. */
  method AppendOverlapped(log: Log, a: Message, b: Message) returns (first: Result<nat>, second: Result<nat>)
    requires log.Valid() && Last(log.model).Next() < TWO_64 - 2 && a != b
    modifies log`segments, log`activeSegment, log`model, log.dir`files, log.Footprint(), a, b
    ensures Highest(old(log.model)) < TWO_64 - 2
    ensures var h := Highest(old(log.model));
            var one := Locked(log.config, old(log.model), h, old(a.rec));
            && WellFormed(log.config, one.0) && Last(one.0).Next() < TWO_64 - 1
            && first == one.1 && (log.model, second) == Locked(log.config, one.0, h, old(b.rec))
  {
    hide *;
    log.FootprintHolds();
    log.Shape();
    FirstIsUpToDate(log.config, log.model, a.rec);
    var highest := log.HighestOffset();
    var highest' := log.HighestOffset();
    first := log.LockedPart(highest, a);
    log.SoundIsValid();
    second := log.LockedPart(highest', b);
  }

  lemma FirstIsUpToDate(cfg: Config, segs: seq<Seg>, r: Record)
    requires cfg.Valid() && WellFormed(cfg, segs) && Last(segs).Next() < TWO_64 - 2
    ensures Highest(segs) < TWO_64 - 2 && !Collides(cfg, segs, Highest(segs))
    ensures var one := Locked(cfg, segs, Highest(segs), r).0;
            WellFormed(cfg, one) && one != [] && Last(one).Next() < TWO_64 - 1
  {
    LockedIsAppend(cfg, segs, r);
    AppendRefines(cfg, segs, r);
    AppendNext(cfg, segs, r);
    hide WellFormed, Append, Locked, Collides;
  }

  lemma RollAndStore(cfg: Config, segs: seq<Seg>, h: nat, r: Record)
    requires segs != [] && Last(segs).Maxed(cfg) && FindBase(segs, h + 1) == None && h < TWO_64 - 2
    requires Last(segs).Next() < TWO_64 - 1 && cfg.codec.marshal(Stamped(r, h + 1)).Some?
    ensures Locked(cfg, segs, h, r) == (segs + [Seg(h + 1, [Stamped(r, h + 1)])], Result.Ok(h + 1))
  {
    hide Seg.Maxed;
    NilLeft([Stamped(r, h + 1)]);
    var rolled := segs + [Seg(h + 1, [])];
    assert Last(rolled) == Seg(h + 1, []);
    assert rolled[|segs| := Seg(h + 1, [Stamped(r, h + 1)])] == segs + [Seg(h + 1, [Stamped(r, h + 1)])];
  }

  lemma OneFills(cfg: Config, s: Seg)
    requires cfg.Capacity() == 1 && |s.recs| == 1
    ensures s.Maxed(cfg)
  {
  }

  lemma {:induction false} FindBaseAtEnd(segs: seq<Seg>, s: Seg)
    requires FindBase(segs, s.base) == None
    ensures FindBase(segs + [s], s.base) == Some(s)
  {
    if segs != [] {
      FindBaseAtEnd(segs[1..], s);
      assert (segs + [s])[1..] == segs[1..] + [s];
    }
  }
}
