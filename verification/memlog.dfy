/** The in-memory log of internal/server/log.go, and its agreement with the segmented log. */
module MemoryLogs {
  import opened Wire
  import opened Records
  import opened Spec

  datatype MemRecord = MemRecord(value: Bytes, offset: nat)

  /** `Log.Read` of the in-memory log.  The bounds test lets the length itself through, and the index then is
      out of range. */
  function MemRead(recs: seq<MemRecord>, off: nat): Result<MemRecord> {
    if off > |recs| then Err(OffsetNotFound)
    else if off == |recs| then Err(Panic)
    else Ok(recs[off])
  }

  class MemoryLog {
    var records: seq<MemRecord>

    /** Every record carries its place. */
    ghost predicate Valid()
      reads this
    {
      forall i :: 0 <= i < |records| ==> records[i].offset == i
    }

    constructor ()
      ensures Valid() && records == []
    {
      records := [];
    }

    method Append(record: MemRecord) returns (off: nat)
      requires Valid()
      modifies this
      ensures Valid()
      ensures off == |old(records)| && records == old(records) + [record.(offset := off)]
    {
      var stamped := record.(offset := |records|);
      records := records + [stamped];
      off := stamped.offset;
    }

    method Read(off: nat) returns (r: Result<MemRecord>)
      requires Valid()
      ensures r == MemRead(records, off)
      ensures off > |records| ==> r == Err(OffsetNotFound)
      ensures off == |records| ==> r == Err(Panic)
      ensures off < |records| ==> r == Ok(records[off])
      ensures r.Ok? ==> r.value in records && r.value.offset == off
    {
      if off > |records| {
        return Err(OffsetNotFound);
      }
      if off == |records| {
        return Err(Panic);
      }
      r := Ok(records[off]);
    }
  }

  /** The record the segmented log is given for a value. */
  function Plain(v: Bytes): Record {
    Record(v, 0, 0, 0)
  }

  /** Appending values one by one to each log: final contents and returned offsets. */
  function MemAppendAll(recs: seq<MemRecord>, values: seq<Bytes>): (seq<MemRecord>, seq<nat>)
    decreases |values|
  {
    if values == [] then (recs, [])
    else
      var (final, offs) := MemAppendAll(recs + [MemRecord(values[0], |recs|)], values[1..]);
      (final, [|recs|] + offs)
  }

  /** Whatever was in the log, every value appended reads back at the offset its append returned, and what was there
      before stays. */
  lemma {:induction false} AppendedReadsBack(recs: seq<MemRecord>, values: seq<Bytes>)
    ensures var (mem, offs) := MemAppendAll(recs, values);
            && |offs| == |values| && |mem| == |recs| + |values| && recs <= mem
            && forall i :: 0 <= i < |values| ==>
                 offs[i] == |recs| + i && MemRead(mem, offs[i]) == Ok(MemRecord(values[i], offs[i]))
    decreases |values|
  {
    if values != [] {
      var more := recs + [MemRecord(values[0], |recs|)];
      AppendedReadsBack(more, values[1..]);
      var (mem, offs) := MemAppendAll(more, values[1..]);
      assert mem[|recs|] == more[|recs|];
      assert forall i :: 1 <= i < |values| ==> values[i] == values[1..][i - 1] && ([|recs|] + offs)[i] == offs[i - 1];
    }
  }

  function SegAppendAll(cfg: Config, segs: seq<Seg>, values: seq<Bytes>): (seq<Seg>, seq<Result<nat>>)
    requires cfg.Valid() && WellFormed(cfg, segs) && Last(segs).Next() + |values| < TWO_64
    decreases |values|
  {
    if values == [] then (segs, [])
    else
      AppendNext(cfg, segs, Plain(values[0]));
      AppendRefines(cfg, segs, Plain(values[0]));
      var (after, res) := Append(cfg, segs, Plain(values[0]));
      var (final, others) := SegAppendAll(cfg, after, values[1..]);
      (final, [res] + others)
  }

  /** The two logs hold the same values at the same offsets. */
  ghost predicate SameContents(f: Flat, recs: seq<MemRecord>) {
    && f.low == 0 && |f.recs| == |recs|
    && forall i :: 0 <= i < |recs| ==> f.recs[i].value == recs[i].value && f.recs[i].offset == recs[i].offset == i
  }

  /** Every value marshals at the offset it gets. */
  ghost predicate AllMarshal(c: Codec, values: seq<Bytes>, next: nat) {
    forall i :: 0 <= i < |values| ==> MarshalsAt(c, values[i], next + i)
  }

  ghost predicate MarshalsAt(c: Codec, v: Bytes, off: nat) {
    off < TWO_64 && c.marshal(Stamped(Plain(v), off)).Some?
  }

  /** The segmented log refines the in-memory log: for every sequence of appends both return the same offsets and
      end with the same contents. */
  lemma {:induction false} SameOffsetsSameContents(
      cfg: Config, segs: seq<Seg>, recs: seq<MemRecord>, values: seq<Bytes>)
    requires cfg.Valid() && WellFormed(cfg, segs) && Last(segs).Next() + |values| < TWO_64
    requires SameContents(FlatOf(segs), recs) && AllMarshal(cfg.codec, values, |recs|)
    ensures var (seg, res) := SegAppendAll(cfg, segs, values);
            var (mem, offs) := MemAppendAll(recs, values);
            && WellFormed(cfg, seg) && SameContents(FlatOf(seg), mem)
            && |res| == |offs| == |values|
            && (forall i :: 0 <= i < |values| ==> res[i] == Result.Ok(offs[i]) && offs[i] == |recs| + i)
    decreases |values|
  {
    hide FlatOf, Append, Linked, Seg.Ok, Config.Valid, SameContents, AllMarshal, FlatAppended;
    FlatNext(segs);
    if values != [] {
      var r := Plain(values[0]);
      AppendRefines(cfg, segs, r);
      AppendNext(cfg, segs, r);
      var mid := Append(cfg, segs, r).0;
      AllMarshalRest(cfg.codec, values, |recs|);
      OneMoreSame(cfg.codec, FlatOf(segs), recs, values[0], FlatOf(mid), Append(cfg, segs, r).1);
      SameOffsetsSameContents(cfg, mid, recs + [MemRecord(values[0], |recs|)], values[1..]);
    }
  }

  lemma OneMoreSame(c: Codec, f: Flat, recs: seq<MemRecord>, v: Bytes, f': Flat, res: Result<nat>)
    requires SameContents(f, recs) && AllMarshal(c, [v], |recs|) && FlatAppended(c, f, Plain(v), f', res)
    ensures res == Result.Ok(|recs|) && SameContents(f', recs + [MemRecord(v, |recs|)])
  {
    assert [v][0] == v;
  }

  lemma AllMarshalRest(c: Codec, values: seq<Bytes>, next: nat)
    requires AllMarshal(c, values, next) && values != []
    ensures AllMarshal(c, [values[0]], next) && AllMarshal(c, values[1..], next + 1)
  {
    hide MarshalsAt;
    var rest := values[1..];
    forall i | 0 <= i < |rest| ensures MarshalsAt(c, rest[i], next + 1 + i) {
      assert rest[i] == values[i + 1];
      assert MarshalsAt(c, values[i + 1], next + (i + 1));
    }
  }

  /** Both answer a read, with the same value and offset, or it is out of range in one and not found in the other. */
  ghost predicate SameAnswer(seg: Result<Record>, mem: Result<MemRecord>) {
    match (seg, mem)
    case (Ok(r), Ok(m)) => r.value == m.value && r.offset == m.offset
    case (Err(OffsetOutOfRange(_)), Err(OffsetNotFound)) => true
    case _ => false
  }

  /** The two logs answer a read alike exactly when the offset is not the length: there the in-memory log indexes
      out of bounds. */
  lemma ReadsAgreeIff(segs: seq<Seg>, recs: seq<MemRecord>, off: nat)
    requires Linked(segs) && SameContents(FlatOf(segs), recs)
    ensures SameAnswer(Read(segs, off), MemRead(recs, off)) <==> off != |recs|
  {
    ReadRefines(segs, off);
  }
}
