/** The log as Raft's log store: the wrapper of internal/log/distributed.go that stores Raft entries as records. */
module LogStores {
  import opened Wire
  import opened Records
  import opened Spec
  import opened Segments
  import opened Logs

  /** The fields of a Raft entry the store keeps.  The log type is one byte. */
  datatype RaftEntry = RaftEntry(index: nat, term: u64, kind: byte, data: Bytes)

  /** `StoreLogs` builds a record without the index. */
  function RecordOf(e: RaftEntry): Record {
    Record(e.data, 0, e.term, e.kind)
  }

  /** `GetLog` takes the index from the record's offset and narrows its type to a byte. */
  function RaftEntryOf(r: Record): RaftEntry {
    RaftEntry(r.offset, r.term, r.kind % 256, r.value)
  }

  /** The entry a caller passes to `GetLog` to be filled. */
  class RaftLog {
    var entry: RaftEntry

    constructor (e: RaftEntry)
      ensures entry == e
    {
      entry := e;
    }
  }

  /** `StoreLogs` on the segments: one append after another, stopping at the first error. */
  function StoreAll(cfg: Config, segs: seq<Seg>, es: seq<RaftEntry>): (seq<Seg>, Option<Error>)
    requires cfg.Valid() && WellFormed(cfg, segs) && Last(segs).Next() + |es| < TWO_64
    decreases |es|
  {
    if es == [] then (segs, None)
    else
      AppendNext(cfg, segs, RecordOf(es[0]));
      AppendRefines(cfg, segs, RecordOf(es[0]));
      var (after, res) := Append(cfg, segs, RecordOf(es[0]));
      if res.Err? then (after, Some(res.error)) else StoreAll(cfg, after, es[1..])
  }

  lemma StoreNone(cfg: Config, segs: seq<Seg>)
    requires cfg.Valid() && WellFormed(cfg, segs)
    ensures StoreAll(cfg, segs, []) == (segs, None)
  {
  }

  lemma StoreFirst(cfg: Config, segs: seq<Seg>, es: seq<RaftEntry>)
    requires cfg.Valid() && WellFormed(cfg, segs) && Last(segs).Next() + |es| < TWO_64 && es != []
    ensures var (after, res) := Append(cfg, segs, RecordOf(es[0]));
            && WellFormed(cfg, after) && Last(after).Next() + |es[1..]| < TWO_64
            && StoreAll(cfg, segs, es)
               == if res.Err? then (after, Some(res.error)) else StoreAll(cfg, after, es[1..])
  {
    AppendNext(cfg, segs, RecordOf(es[0]));
    AppendRefines(cfg, segs, RecordOf(es[0]));
    hide Append, WellFormed;
  }

  class LogStore {
    const log: Log

    constructor (l: Log)
      ensures log == l
    {
      log := l;
    }

    method FirstIndex() returns (index: nat)
      requires log.Valid()
      ensures index == FlatOf(log.model).low
    {
      index := log.LowestOffset();
    }

    method LastIndex() returns (index: nat)
      requires log.Valid()
      ensures index == if FlatOf(log.model).Next() == 0 then 0 else FlatOf(log.model).Next() - 1
    {
      index := log.HighestOffset();
    }

    /** `GetLog`: fill `out` from the record at `index`, or leave it and report the error. */
    method GetLog(index: u64, out: RaftLog) returns (err: Option<Error>)
      requires log.Valid()
      modifies out, log.Footprint()
      ensures log.Valid() && log.model == old(log.model) && log.config == old(log.config)
      ensures match FlatOf(log.model).Read(index)
              case Err(e) => err == Some(e) && out.entry == old(out.entry)
              case Ok(r) =>
                && err == None && out.entry.index == r.offset && out.entry.data == r.value
                && out.entry.term == r.term && out.entry.kind == r.kind % 256
    {
      hide Log.Valid, Log.Footprint, Flatten;
      log.FootprintHolds();
      var r := log.Read(index);
      match r {
        case Err(e) =>
          err := Some(e);
        case Ok(rec) =>
          out.entry := RaftEntryOf(rec);
          err := None;
      }
    }

    /** `StoreLogs`. */
    method StoreLogs(entries: seq<RaftLog>) returns (err: Option<Error>)
      requires log.Valid() && Last(log.model).Next() + |entries| < TWO_64
      modifies log`segments, log`activeSegment, log`model, log.dir`files, log.Footprint()
      ensures log.Valid() && log.config == old(log.config)
      ensures (log.model, err) == StoreAll(log.config, old(log.model), EntriesIn(entries))
    {
      hide Log.Valid, Log.Footprint, Spec.Append, WellFormed, Config.Valid, StoreAll, EntriesIn, RecordOf;
      log.Shape();
      ghost var es := EntriesIn(entries);
      assert es[0..] == es;
      for i := 0 to |entries|
        invariant log.Valid() && log.config == old(log.config)
        invariant log.config.Valid() && WellFormed(log.config, log.model) && log.model != []
        invariant Last(log.model).Next() + |es| - i < TWO_64
        invariant EntriesIn(entries) == es
        invariant forall o :: o in log.Footprint() ==> o in old(log.Footprint()) || fresh(o)
        invariant StoreAll(log.config, log.model, es[i..]) == StoreAll(log.config, old(log.model), es)
      {
        assert es[i..][0] == entries[i].entry && es[i..][1..] == es[i + 1..];
        StoreFirst(log.config, log.model, es[i..]);
        log.FootprintHolds();
        ghost var before := log.Footprint();
        var r := AppendRecord(RecordOf(entries[i].entry));
        assert forall o :: o in log.Footprint() && o !in before ==> !old(allocated(o));
        if r.Err? {
          return Some(r.error);
        }
      }
      assert es[|es|..] == [];
      StoreNone(log.config, log.model);
      err := None;
    }

    method AppendRecord(rec: Record) returns (r: Result<nat>)
      requires log.Valid() && Last(log.model).Next() < TWO_64 - 1
      modifies log`segments, log`activeSegment, log`model, log.dir`files, log.Footprint()
      ensures log.Valid() && log.config == old(log.config)
      ensures (log.model, r) == Append(log.config, old(log.model), rec)
      ensures WellFormed(log.config, log.model) && log.model != []
      ensures Last(log.model).Next() == Last(old(log.model)).Next() + if r.Ok? then 1 else 0
      ensures forall o :: o in log.Footprint() ==> o in old(log.Footprint()) || fresh(o)
    {
      hide Log.Valid, Log.Footprint, Spec.Append, WellFormed, Config.Valid;
      log.Shape();
      log.FootprintHolds();
      AppendNext(log.config, log.model, rec);
      AppendRefines(log.config, log.model, rec);
      ghost var before := log.Footprint();
      var message := new Message(rec);
      r := log.Append(message);
      assert forall o :: o in log.Footprint() && o !in before ==> !old(allocated(o));
    }

    /** `DeleteRange` ignores its lower bound. */
    method DeleteRange(min: u64, max: u64)
      requires log.Valid()
      modifies log`segments, log`model, log.dir`files, log.Footprint()
      ensures log.model == Kept(old(log.model), max) && log.dir.files.Keys == FileNames(log.model)
      ensures log.model != [] ==> log.Valid()
    {
      hide Log.Valid, Log.Footprint;
      log.Truncate(max);
    }
  }

  function EntriesIn(entries: seq<RaftLog>): (es: seq<RaftEntry>)
    reads entries
    ensures |es| == |entries| && forall i :: 0 <= i < |es| ==> es[i] == entries[i].entry
  {
    seq(|entries|, i requires 0 <= i < |entries| reads entries => entries[i].entry)
  }

  // ---------------------------------------------------------------------------------------------
  // Properties

  /** Entries whose indexes continue from the last one, and whose records marshal. */
  ghost predicate Continues(c: Codec, es: seq<RaftEntry>, next: nat) {
    forall i :: 0 <= i < |es| ==>
      es[i].index == next + i < TWO_64 && c.marshal(Stamped(RecordOf(es[i]), next + i)).Some?
  }

  /** Storing entries that continue from the last index succeeds, and every one of them reads back whole, index
      and type included, while the earlier ones stay. */
  lemma {:induction false} StoreThenGet(cfg: Config, segs: seq<Seg>, es: seq<RaftEntry>)
    requires cfg.Valid() && WellFormed(cfg, segs) && Last(segs).Next() + |es| < TWO_64
    requires Continues(cfg.codec, es, Last(segs).Next())
    ensures var (after, err) := StoreAll(cfg, segs, es);
            && err == None && WellFormed(cfg, after)
            && FlatOf(after).low == FlatOf(segs).low && FlatOf(after).Next() == Last(segs).Next() + |es|
            && (forall i :: 0 <= i < |es| ==>
                  FlatOf(after).Holds(es[i].index) && RaftEntryOf(FlatOf(after).Read(es[i].index).value) == es[i])
            && (forall off :: FlatOf(segs).Holds(off) ==> FlatOf(after).Read(off) == FlatOf(segs).Read(off))
    decreases |es|
  {
    hide Flatten, Linked, Seg.Ok, Config.Valid;
    FlatNext(segs);
    if es != [] {
      var e := es[0];
      AppendRefines(cfg, segs, RecordOf(e));
      AppendNext(cfg, segs, RecordOf(e));
      var mid := Append(cfg, segs, RecordOf(e)).0;
      AppendedEntry(cfg.codec, FlatOf(segs), e, FlatOf(mid));
      hide Append, FlatAppended, FlatAppend, FlatOf, Flat.Read;
      ConsSame(es);
      assert Continues(cfg.codec, es[1..], Last(mid).Next());
      StoreThenGet(cfg, mid, es[1..]);
    }
  }

  /** Entries stored in two stretches: the second only when the first succeeded. */
  lemma {:induction false} StoreSplit(cfg: Config, segs: seq<Seg>, a: seq<RaftEntry>, b: seq<RaftEntry>)
    requires cfg.Valid() && WellFormed(cfg, segs) && Last(segs).Next() + |a| + |b| < TWO_64
    ensures var (after, err) := StoreAll(cfg, segs, a);
            && WellFormed(cfg, after) && Last(after).Next() + |b| < TWO_64
            && StoreAll(cfg, segs, a + b) == if err.Some? then (after, err) else StoreAll(cfg, after, b)
    decreases |a|
  {
    hide *;
    if a == [] {
      StoreNone(cfg, segs);
      assert a + b == b;
    } else {
      StoreFirst(cfg, segs, a);
      StoreFirst(cfg, segs, a + b);
      assert (a + b)[0] == a[0] && (a + b)[1..] == a[1..] + b;
      AppendBounds(cfg, segs, RecordOf(a[0]));
      StoreSplit(cfg, Append(cfg, segs, RecordOf(a[0])).0, a[1..], b);
    }
  }

  lemma AppendBounds(cfg: Config, segs: seq<Seg>, r: Record)
    requires cfg.Valid() && WellFormed(cfg, segs) && Last(segs).Next() < TWO_64 - 1
    ensures segs != [] && Append(cfg, segs, r).0 != [] && Last(Append(cfg, segs, r).0).Next() <= Last(segs).Next() + 1
  {
    AppendNext(cfg, segs, r);
  }

  /** When entry `k` does not marshal at its index, the entries before it are stored, it and those after it are not, and
      the error is returned. */
  lemma StoreStopsAtMalformed(cfg: Config, segs: seq<Seg>, es: seq<RaftEntry>, k: nat)
    requires cfg.Valid() && WellFormed(cfg, segs) && Last(segs).Next() + |es| < TWO_64 && k < |es|
    requires Continues(cfg.codec, es[..k], Last(segs).Next())
    requires cfg.codec.marshal(Stamped(RecordOf(es[k]), Last(segs).Next() + k)).None?
    ensures var (after, err) := StoreAll(cfg, segs, es);
            && err == Some(Malformed) && WellFormed(cfg, after)
            && FlatOf(after).low == FlatOf(segs).low && FlatOf(after).Next() == Last(segs).Next() + k
            && (forall i :: 0 <= i < k ==>
                  FlatOf(after).Holds(es[i].index) && RaftEntryOf(FlatOf(after).Read(es[i].index).value) == es[i])
            && (forall off :: FlatOf(segs).Holds(off) ==> FlatOf(after).Read(off) == FlatOf(segs).Read(off))
  {
    hide StoreAll, Append, Continues, Flatten, Linked, Seg.Ok, Config.Valid;
    var first := StoreAll(cfg, segs, es[..k]).0;
    SplitTail(es, k);
    StoreSplit(cfg, segs, es[..k], es[k..]);
    StoreThenGet(cfg, segs, es[..k]);
    FlatNext(first);
    StoreFirst(cfg, first, es[k..]);
    AppendRefines(cfg, first, RecordOf(es[k]));
    assert forall i :: 0 <= i < k ==> es[..k][i] == es[i];
  }

  lemma SplitTail(es: seq<RaftEntry>, k: nat)
    requires k < |es|
    ensures es[..k] + es[k..] == es && es[k..][0] == es[k] && |es[k..]| == |es| - k
  {
  }

  lemma ConsSame(es: seq<RaftEntry>)
    requires es != []
    ensures forall i :: 1 <= i < |es| ==> es[i] == es[1..][i - 1]
  {
  }

  /** An entry appended at its own index reads back whole, and the entries before it stay. */
  lemma AppendedEntry(c: Codec, f: Flat, e: RaftEntry, f': Flat)
    requires e.index == f.Next() < TWO_64 && c.marshal(Stamped(RecordOf(e), e.index)).Some?
    requires FlatAppended(c, f, RecordOf(e), f', Result.Ok(e.index))
    ensures f'.low == f.low && f'.Next() == f.Next() + 1
    ensures f'.Holds(e.index) && f'.Read(e.index) == Result.Ok(Stamped(RecordOf(e), e.index))
    ensures RaftEntryOf(Stamped(RecordOf(e), e.index)) == e
    ensures forall off :: f.Holds(off) ==> f'.Holds(off) && f'.Read(off) == f.Read(off)
  {
  }

  /** The new store is based at 1, so that it reports last index 0 and the first entry stored gets index 1. */
  lemma EmptyStore(cfg: Config)
    ensures var segs := [Seg(1, [])]; Highest(segs) == 0 && FlatOf(segs) == Flat(1, []) && Last(segs).Next() == 1
  {
    assert Flatten([]) == [];
  }

  /** Deleting up to `max` below the last index keeps every entry above `max`. */
  lemma DeleteRangeKeepsAbove(cfg: Config, segs: seq<Seg>, max: u64, i: nat)
    requires WellFormed(cfg, segs) && max < Highest(segs) && FlatOf(segs).Holds(i) && i > max
    ensures FlatOf(Kept(segs, max)).Read(i) == FlatOf(segs).Read(i)
  {
    TruncateRefines(cfg, segs, max);
    hide Kept, Flatten, FlatOf, WellFormed;
  }

  /** Every entry outside `[min, max]` reads the same in `after` as before. */
  ghost predicate KeepsOutside(before: Flat, min: nat, max: nat, after: Flat) {
    forall i: nat :: before.Holds(i) && !(min <= i <= max) ==> after.Read(i) == before.Read(i)
  }

  /** `DeleteRange` keeps every entry outside the range exactly when the range starts at or below the first index, or
      the first segment reaches beyond `max + 1`, on 64 bits, so that nothing is removed, or there are no entries. */
  lemma DeleteRangeKeepsOutsideIff(cfg: Config, segs: seq<Seg>, min: u64, max: u64)
    requires WellFormed(cfg, segs)
    ensures KeepsOutside(FlatOf(segs), min, max, FlatOf(Kept(segs, max)))
            <==> (min <= FlatOf(segs).low || segs[0].Next() > Uint64(max + 1) || Flatten(segs) == [])
  {
    hide Kept, Flatten, Linked, Seg.Ok;
    FlatNext(segs);
    WellFormedBase(cfg, segs);
    if max == TWO_64 - 1 {
      WrappedKeepsAll(segs, max);
    } else if max < Highest(segs) {
      CompactingKeepsOutsideIff(cfg, segs, min, max);
      if Flatten(segs) == [] {
        NothingRemoved(cfg, segs, max);
      }
    } else if Last(segs).Next() > 0 {
      DeleteSuffixRemovesAll(cfg, segs, max);
      EmptiedKeepsOutsideIff(cfg, segs, min, max);
    } else {
      assert Flatten(segs) == [];
    }
  }

  /** `max + 1` wraps to 0, and only a segment that ends at 0 is removed, which has no entries. */
  lemma WrappedKeepsAll(segs: seq<Seg>, max: u64)
    requires Linked(segs) && max == TWO_64 - 1
    ensures segs[0].Next() > Uint64(max + 1) ==> Kept(segs, max) == segs
    ensures segs[0].Next() <= Uint64(max + 1) ==> Flatten(segs) == []
  {
    KeptIsSuffix(segs, max);
    if segs[0].Next() <= Uint64(max + 1) {
      assert segs[0].recs == [];
      assert |segs| == 1;
      FlattenCons(segs);
      assert segs[1..] == [];
    } else {
      assert segs[Cut(segs, max)..] == segs;
    }
  }

  /** An empty log below whose highest offset `max` lies loses nothing. */
  lemma NothingRemoved(cfg: Config, segs: seq<Seg>, max: u64)
    requires WellFormed(cfg, segs) && max < Highest(segs) && Flatten(segs) == []
    ensures segs[0].Next() > max + 1
  {
    FlatNext(segs);
  }

  /** When every segment is removed, nothing is kept. */
  lemma EmptiedKeepsOutsideIff(cfg: Config, segs: seq<Seg>, min: u64, max: u64)
    requires WellFormed(cfg, segs) && Highest(segs) <= max < TWO_64 - 1 && Last(segs).Next() > 0
    ensures segs[0].Next() <= max + 1
    ensures KeepsOutside(FlatOf(segs), min, max, FlatOf([])) <==> (min <= FlatOf(segs).low || Flatten(segs) == [])
  {
    FlatNext(segs);
    if |segs| > 1 {
      Ascending(segs, 0, |segs| - 1);
    }
    var before := FlatOf(segs);
    if min > before.low && Flatten(segs) != [] {
      assert before.Holds(before.low) && !FlatOf([]).Holds(before.low);
    }
  }

  /** The case of a compaction, with `max` below the last index. */
  lemma CompactingKeepsOutsideIff(cfg: Config, segs: seq<Seg>, min: u64, max: u64)
    requires WellFormed(cfg, segs) && max < Highest(segs)
    ensures KeepsOutside(FlatOf(segs), min, max, FlatOf(Kept(segs, max)))
            <==> (min <= FlatOf(segs).low || segs[0].Next() > max + 1)
  {
    FlatNext(segs);
    FirstRemovedIff(cfg, segs, max);
    var before, after := FlatOf(segs), FlatOf(Kept(segs, max));
    if segs[0].Next() > max + 1 {
    } else if min <= before.low {
      forall i: nat | before.Holds(i) && !(min <= i <= max) ensures after.Read(i) == before.Read(i) {
        DeleteRangeKeepsAbove(cfg, segs, max, i);
      }
    } else {
      assert before.Holds(before.low) && !after.Holds(before.low);
    }
  }

  lemma FirstRemovedIff(cfg: Config, segs: seq<Seg>, max: u64)
    requires WellFormed(cfg, segs) && max < Highest(segs)
    ensures segs[0].Next() > max + 1 ==> Kept(segs, max) == segs
    ensures segs[0].Next() <= max + 1 ==> segs[0].base < FlatOf(Kept(segs, max)).low && FlatOf(segs).Holds(segs[0].base)
  {
    CutBound(segs, max);
    FlatNext(segs);
    WellFormedBase(cfg, segs);
    if segs[0].Next() <= max + 1 {
      assert Cut(segs, max) > 0;
      Ascending(segs, 0, Cut(segs, max));
      FlattenCons(segs);
    }
  }

  /** Deleting up to the last index or beyond removes every segment, whatever `min` is. */
  lemma DeleteSuffixRemovesAll(cfg: Config, segs: seq<Seg>, max: u64)
    requires WellFormed(cfg, segs) && Highest(segs) <= max < TWO_64 - 1 && Last(segs).Next() > 0
    ensures Kept(segs, max) == []
  {
    TruncateKeepsSomeIff(segs, max);
    FlatNext(segs);
  }
}
