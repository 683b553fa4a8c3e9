/** Streaming the raw bytes of a log: `Log.Reader`, `originReader.Read`, `io.MultiReader` and `io.Copy`. */
module Readers {
  import opened Seqs
  import opened Wire
  import opened Records
  import opened Spec
  import opened Segments
  import opened Logs

  /** `originReader`: reads a segment's store from an offset of its own. */
  class OriginReader {
    const segment: Segment
    var off: nat

    constructor (s: Segment)
      ensures segment == s && off == 0
    {
      segment := s;
      off := 0;
    }

    /** `originReader.Read`, on segment `k` of an open log. */
    method Read(n: nat, ghost log: Log, ghost k: nat) returns (p: Bytes, err: Option<Error>)
      requires log.Valid() && k < |log.segments| && segment == log.segments[k]
      modifies this, log.Footprint()
      ensures log.Valid() && log.model == old(log.model) && log.config == old(log.config)
      ensures log.segments == old(log.segments) && log.Footprint() == old(log.Footprint())
      ensures k < |log.model| && (p, err) == FileReadAt(log.model[k].StoreBytes(log.config.codec), n, old(off))
      ensures off == old(off) + |p|
    {
      hide Segment.Valid, Segment.Repr, Seg.StoreBytes, WellFormed, FileReadAt, Log.Sound;
      log.SegmentsHold();
      log.Shape();
      log.SegmentFacts(k);
      UpdateSame(log.model, k);
      p, err := segment.ReadStoreAt(n, off);
      log.OneSegmentChanged(k);
      off := off + |p|;
    }
  }

  /** One read of at most `n` bytes of the stores of `segs`, at offset `off` of store `at`: the bytes, and where the
      next read continues.  At the end of a store the next one follows. */
  function ReadStep(c: Codec, segs: seq<Seg>, at: nat, off: nat, n: nat): (Bytes, nat, nat)
    requires at < |segs|
  {
    var (p, err) := FileReadAt(segs[at].StoreBytes(c), n, off);
    if err == Some(EOF) then (p, at + 1, 0) else (p, at, off + |p|)
  }

  /** `io.MultiReader` over one reader for each segment that a log had. */
  class MultiReader {
    ghost const log: Log
    ghost const total: nat
    var readers: seq<OriginReader>

    /** How many segments are read to their end. */
    ghost function Finished(): int
      reads this
    {
      total - |readers|
    }

    /** The offset in the next one. */
    ghost function Offset(): nat
      reads this, readers
    {
      if readers == [] then 0 else readers[0].off
    }

    /** The log may have grown since. */
    ghost predicate Valid()
      reads this, readers, log, log.dir, log.Footprint()
    {
      && log.Valid() && 0 <= Finished() && total <= |log.segments|
      && (forall i :: 0 <= i < |readers| ==> readers[i].segment == log.segments[Finished() + i])
      && (forall i :: 1 <= i < |readers| ==> readers[i].off == 0)
      && (forall i, j :: 0 <= i < j < |readers| ==> readers[i] != readers[j])
      && (readers != [] ==> Offset() <= |log.model[Finished()].StoreBytes(log.config.codec)|)
    }

    ghost function Stream(): Bytes
      requires total <= |log.model|
      reads this, log
    {
      Streamed(log.config.codec, log.model[..total])
    }

    /** What has been read so far. */
    ghost function Taken(): Bytes
      requires Valid()
      reads this, readers, log, log.dir, log.Footprint()
    {
      TakenOf(log.config.codec, log.model, Finished(), Offset())
    }

    /** `Log.Reader`. */
    constructor (l: Log)
      requires l.Valid()
      ensures log == l && total == |l.segments| && Valid() && Finished() == Offset() == 0 && Taken() == []
      ensures fresh(readers)
    {
      hide Log.Valid, Log.Footprint;
      l.SegmentsHold();
      var rs := OneReaderEach(l);
      log, total, readers := l, |l.segments|, rs;
      new;
      StartOfStream(l);
    }

    /** `MultiReader.Read` of at least one byte: the next reader answers, and is dropped at its end; EOF is
        reported when there is no reader left to give more. */
    method Read(n: nat) returns (p: Bytes, err: Option<Error>)
      requires Valid() && n > 0
      modifies this, readers, log.Footprint()
      ensures Valid() && log.Valid() && log.model == old(log.model) && log.config == old(log.config)
      ensures log.segments == old(log.segments) && forall r :: r in readers ==> r in old(readers)
      ensures Taken() == old(Taken()) + p
      ensures err.Some? ==> err == Some(EOF) && total <= |log.model| && Taken() == Stream()
      ensures err.None? ==> p != []
      ensures |readers| <= old(|readers|)
    {
      hide Log.Valid, Log.Footprint, Segment.Valid, Segment.Repr, TakenOf;
      log.FootprintHolds();
      p := [];
      NilRight(Taken());
      while readers != []
        invariant Valid() && log.model == old(log.model) && log.config == old(log.config)
        invariant log.Footprint() == old(log.Footprint())
        invariant log.segments == old(log.segments) && forall r :: r in readers ==> r in old(readers)
        invariant p == [] && Taken() == old(Taken()) && |readers| <= old(|readers|)
        decreases |readers|
      {
        assert readers[0] in readers;
        p, err := ReadFirst(n);
        if p != [] || err != Some(EOF) {
          if err == Some(EOF) && readers != [] {
            err := None;
          }
          if readers == [] {
            AllTaken();
          }
          return;
        }
      }
      AllTaken();
      err := Some(EOF);
    }

    lemma TakenWithin()
      requires Valid()
      ensures total <= |log.model| && |Taken()| <= |Stream()|
    {
      hide Log.Valid, Streamed, Seg.StoreBytes;
      log.Shape();
      if readers == [] {
        AllTaken();
      } else {
        var segs := log.model[..total];
        StreamAt(log.config.codec, segs, Finished());
        TakeTake(log.model, Finished(), total);
      }
    }

    lemma AllTaken()
      requires Valid() && readers == []
      ensures total <= |log.model| && Taken() == Stream()
    {
      hide Log.Valid;
      log.Shape();
      WholeTaken(log.config.codec, log.model, total);
    }

    /** An append to the log, which only lets its stores grow, leaves the reader where it is. */
    twostate lemma KeptByAppend()
      requires old(Valid()) && log.Valid() && log.config == old(log.config)
      requires unchanged(this) && forall r :: r in readers ==> unchanged(r)
      requires old(log.segments) <= log.segments
      requires |old(log.segments)| == |old(log.model)| <= |log.model|
      requires forall i :: 0 <= i < |old(log.model)| ==>
                 |old(log.model)[i].StoreBytes(log.config.codec)| <= |log.model[i].StoreBytes(log.config.codec)|
      ensures Valid() && Finished() == old(Finished()) && Offset() == old(Offset())
    {
      hide Log.Valid, Seg.StoreBytes;
      assert forall i :: 0 <= i < |readers| ==> readers[i] in readers;
      assert forall i :: 0 <= i < |old(log.segments)| ==> log.segments[i] == old(log.segments)[i];
    }

    method ReadFirst(n: nat) returns (p: Bytes, err: Option<Error>)
      requires Valid() && n > 0 && readers != []
      modifies this, readers[0], log.Footprint()
      ensures Valid() && log.Valid() && log.model == old(log.model) && log.config == old(log.config)
      ensures log.segments == old(log.segments) && log.Footprint() == old(log.Footprint())
      ensures readers == if err == Some(EOF) then old(readers)[1..] else old(readers)
      ensures 0 <= old(Finished()) < |log.model|
      ensures (p, Finished(), Offset()) == ReadStep(log.config.codec, log.model, old(Finished()), old(Offset()), n)
      ensures Taken() == old(Taken()) + p
      ensures err == Some(EOF) || (err == None && p != [])
    {
      hide MultiReader.Valid, Log.Valid, Log.Footprint, Segment.Valid, Segment.Repr, Seg.StoreBytes, FileReadAt;
      hide TakenOf;
      ghost var k := Finished();
      FirstReader();
      log.FootprintHolds();
      NextTaken(log.config.codec, log.model, k, readers[0].off, n);
      p, err := readers[0].Read(n, log, k);
      if err == Some(EOF) {
        readers := readers[1..];
      }
      FirstRead(err);
    }

    lemma FirstReader()
      requires Valid() && readers != []
      ensures log.Valid() && 0 <= Finished() < |log.segments| == |log.model|
      ensures readers[0].segment == log.segments[Finished()]
      ensures readers[0].off <= |log.model[Finished()].StoreBytes(log.config.codec)|
      ensures forall i :: 1 <= i < |readers| ==> readers[i] != readers[0]
      ensures forall i :: 1 <= i < |readers| ==> readers[i].off == 0
    {
      hide Log.Valid;
      log.Shape();
    }

    /** When only the first reader has read, and was dropped at its end, the readers stay in step with the log. */
    twostate lemma FirstRead(err: Option<Error>)
      requires old(Valid()) && old(readers) != [] && log.Valid() && |log.segments| == |log.model|
      requires log.segments == old(log.segments) && log.model == old(log.model) && log.config == old(log.config)
      requires readers == if err == Some(EOF) then old(readers)[1..] else old(readers)
      requires forall i :: 1 <= i < |old(readers)| ==> old(readers)[i].off == 0
      requires err != Some(EOF) ==> 0 <= Finished() < |log.model|
      requires err != Some(EOF) ==> readers[0].off <= |log.model[Finished()].StoreBytes(log.config.codec)|
      ensures Valid()
    {
      hide Log.Valid, Log.Footprint, Seg.StoreBytes;
      if err == Some(EOF) {
        assert forall i :: 0 <= i < |readers| ==> readers[i] == old(readers)[i + 1];
      }
    }
  }

  /** The stores before segment `k`, and `off` bytes of segment `k`'s. */
  function TakenOf(c: Codec, segs: seq<Seg>, k: nat, off: nat): Bytes
    requires k <= |segs|
  {
    Streamed(c, segs[..k]) + if k < |segs| && off <= |segs[k].StoreBytes(c)| then segs[k].StoreBytes(c)[..off] else []
  }

  method OneReaderEach(l: Log) returns (rs: seq<OriginReader>)
    requires l.Valid()
    ensures |rs| == |l.segments| && fresh(rs)
    ensures forall k :: 0 <= k < |rs| ==> rs[k].segment == l.segments[k] && rs[k].off == 0
    ensures forall j, k :: 0 <= j < k < |rs| ==> rs[j] != rs[k]
  {
    hide Log.Valid;
    rs := [];
    for i := 0 to |l.segments|
      invariant |rs| == i && fresh(rs)
      invariant forall k :: 0 <= k < i ==> rs[k].segment == l.segments[k] && rs[k].off == 0
      invariant forall j, k :: 0 <= j < k < i ==> rs[j] != rs[k]
    {
      var r := new OriginReader(l.segments[i]);
      rs := rs + [r];
    }
  }

  lemma StartOfStream(l: Log)
    requires l.Valid()
    ensures l.segments != [] && |l.model| == |l.segments| && TakenOf(l.config.codec, l.model, 0, 0) == []
  {
    hide Segment.Valid, Segment.Repr, Seg.StoreBytes;
  }

  lemma WholeTaken(c: Codec, segs: seq<Seg>, k: nat)
    requires k <= |segs|
    ensures TakenOf(c, segs, k, 0) == Streamed(c, segs[..k])
  {
    hide Streamed, Seg.StoreBytes;
    NilRight(Streamed(c, segs[..k]));
    if k < |segs| {
      assert segs[k].StoreBytes(c)[..0] == [];
    }
  }

  /** A read of segment `k`'s store yields the next bytes of the stream; at its end the next store follows. */
  lemma NextTaken(c: Codec, segs: seq<Seg>, k: nat, off: nat, n: nat)
    requires k < |segs| && off <= |segs[k].StoreBytes(c)| && n > 0
    ensures var (p, err) := FileReadAt(segs[k].StoreBytes(c), n, off);
            && off + |p| <= |segs[k].StoreBytes(c)|
            && (err == Some(EOF) || (err == None && |p| == n))
            && TakenOf(c, segs, if err == None then k else k + 1, if err == None then off + |p| else 0)
               == TakenOf(c, segs, k, off) + p
  {
    hide Seg.StoreBytes, Streamed;
    var data := segs[k].StoreBytes(c);
    var (p, err) := FileReadAt(data, n, off);
    assert data[..off] + p == data[..off + |p|];
    Assoc(Streamed(c, segs[..k]), data[..off], p);
    if err != None {
      TakeOneMore(segs, k);
      StreamedSnoc(c, segs[..k], segs[k]);
      assert data[..off + |p|] == data;
      NilRight(Streamed(c, segs[..k + 1]));
      if k + 1 < |segs| {
        assert segs[k + 1].StoreBytes(c)[..0] == [];
      }
    }
  }

  /** `io.Copy` of a log's reader: chunks of any sizes, until EOF. */
  method Copy(log: Log) returns (sink: Bytes)
    requires log.Valid()
    modifies log.Footprint()
    ensures log.Valid() && log.model == old(log.model) && log.config == old(log.config)
    ensures log.segments == old(log.segments)
    ensures sink == log.config.codec.Encoded(Flatten(log.model))
  {
    hide Log.Valid, Log.Footprint, MultiReader.Valid, MultiReader.Taken, Streamed, Flatten, Codec.Encoded;
    StreamedIsEncoded(log.config.codec, log.model);
    log.FootprintHolds();
    log.Shape();
    assert log.model[..|log.model|] == log.model;
    var reader := new MultiReader(log);
    sink := [];
    while true
      invariant reader.Valid() && reader.log == log && log.model == old(log.model) && log.config == old(log.config)
      invariant log.segments == old(log.segments) && log.Footprint() == old(log.Footprint())
      invariant sink == reader.Taken() && fresh(reader) && fresh(reader.readers)
      invariant reader.total == |log.model|
      decreases |reader.Stream()| - |sink|
    {
      reader.TakenWithin();
      var n :| n > 0;
      ghost var before := reader.readers;
      var p, err := reader.Read(n);
      assert forall i :: 0 <= i < |reader.readers| ==> reader.readers[i] in reader.readers;
      assert forall i :: 0 <= i < |reader.readers| ==> reader.readers[i] in before;
      sink := sink + p;
      reader.TakenWithin();
      if err.Some? {
        break;
      }
    }
  }
}
