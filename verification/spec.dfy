/** The segmented log as a value: what each operation of `Log` does to its list of segments, and the
    flat log, a lowest offset and a sequence of records, that the list stands for. */
module Spec {
  import opened Seqs
  import opened Wire
  import opened Records

  /** A segment: its base offset and its records.  Its store and index files are functions of these. */
  datatype Seg = Seg(base: nat, recs: seq<Record>)
  {
    function Next(): nat { base + |recs| }

    function StoreBytes(c: Codec): Bytes { c.Encoded(recs) }

    /** `segment.IsMaxed`: the store limit, the index limit, or no room for another entry. */
    predicate Maxed(cfg: Config) {
      || |StoreBytes(cfg.codec)| >= cfg.maxStoreBytes
      || ENT_WIDTH * |recs| >= cfg.maxIndexBytes
      || cfg.maxIndexBytes < ENT_WIDTH * |recs| + ENT_WIDTH
    }

    /** Records carry consecutive offsets from the base, their index entries fit, their offsets and
        store positions do not overflow. */
    ghost predicate Ok(cfg: Config) {
      && Next() < TWO_64
      && |recs| <= cfg.Capacity()
      && |StoreBytes(cfg.codec)| < TWO_63
      && forall k :: 0 <= k < |recs| ==> recs[k].offset == base + k && cfg.codec.marshal(recs[k]).Some?
    }
  }

  /** Contiguous segments, none empty but possibly the last. */
  ghost predicate Linked(segs: seq<Seg>) {
    && segs != []
    && (forall i, j :: 0 <= i < j < |segs| && j == i + 1 ==> segs[i].Next() == segs[j].base)
    && (forall i :: 0 <= i < |segs| - 1 ==> segs[i].recs != [])
  }

  /** The invariant of a usable log. */
  ghost predicate WellFormed(cfg: Config, segs: seq<Seg>) {
    && segs != [] && Linked(segs)
    && forall i :: 0 <= i < |segs| ==> segs[i].Ok(cfg)
  }

  function Last(segs: seq<Seg>): Seg
    requires segs != []
  {
    segs[|segs| - 1]
  }

  // ---------------------------------------------------------------------------------------------
  // The flat log

  datatype Flat = Flat(low: nat, recs: seq<Record>)
  {
    function Next(): nat { low + |recs| }

    predicate Holds(off: nat) { low <= off < Next() }

    function Read(off: nat): Result<Record> {
      if Holds(off) then Result.Ok(recs[off - low]) else Err(OffsetOutOfRange(off))
    }
  }

  function Flatten(segs: seq<Seg>): seq<Record> {
    if segs == [] then [] else Flatten(segs[..|segs| - 1]) + Last(segs).recs
  }

  function FlatOf(segs: seq<Seg>): Flat {
    Flat(if segs == [] then 0 else segs[0].base, Flatten(segs))
  }

  lemma FlattenSnoc(segs: seq<Seg>, s: Seg)
    ensures Flatten(segs + [s]) == Flatten(segs) + s.recs
  {
    SnocInit(segs, s);
  }

  lemma {:induction false} FlattenConcat(a: seq<Seg>, b: seq<Seg>)
    ensures Flatten(a + b) == Flatten(a) + Flatten(b)
  {
    if b == [] {
      NilRight(a);
      NilRight(Flatten(a));
    } else {
      var front := b[..|b| - 1];
      FlattenConcat(a, front);
      ConcatSnoc(a, b);
      FlattenSnoc(a + front, Last(b));
      Assoc(Flatten(a), Flatten(front), Last(b).recs);
    }
  }

  /** Each segment starts where the records before it end. */
  lemma {:induction false} BaseOf(segs: seq<Seg>, j: nat)
    requires Linked(segs) && j < |segs|
    ensures segs[j].base == segs[0].base + |Flatten(segs[..j])|
  {
    if j > 0 {
      BaseOf(segs, j - 1);
      TakeOneMore(segs, j - 1);
      FlattenSnoc(segs[..j - 1], segs[j - 1]);
    }
  }

  lemma FlatNext(segs: seq<Seg>)
    requires Linked(segs)
    ensures FlatOf(segs).Next() == Last(segs).Next()
  {
    BaseOf(segs, |segs| - 1);
  }

  /** Segment ranges are ascending, so an offset lies in at most one. */
  lemma {:induction false} Ascending(segs: seq<Seg>, i: nat, j: nat)
    requires Linked(segs) && i < j < |segs|
    ensures segs[i].Next() <= segs[j].base
    ensures segs[i].base < segs[j].base && segs[i].Next() <= segs[j].Next()
    decreases j
  {
    if i < j - 1 {
      Ascending(segs, i, j - 1);
    }
  }

  lemma WellFormedPrefix(cfg: Config, segs: seq<Seg>, n: nat)
    requires WellFormed(cfg, segs) && 0 < n <= |segs|
    ensures WellFormed(cfg, segs[..n])
  {
  }

  /** Every flat record carries its own offset. */
  lemma {:induction false} FlatStamped(cfg: Config, segs: seq<Seg>, i: nat)
    requires WellFormed(cfg, segs) && i < |Flatten(segs)|
    ensures Flatten(segs)[i].offset == segs[0].base + i
    ensures cfg.codec.marshal(Flatten(segs)[i]).Some?
    decreases |segs|
  {
    hide Codec.Encoded, Linked;
    var n := |segs| - 1;
    if i < |Flatten(segs[..n])| {
      WellFormedPrefix(cfg, segs, n);
      FlatStamped(cfg, segs[..n], i);
    } else {
      BaseOf(segs, n);
      assert Flatten(segs)[i] == segs[n].recs[i - |Flatten(segs[..n])|];
    }
  }

  // ---------------------------------------------------------------------------------------------
  // Operations

  /** `Log.HighestOffset`. */
  function Highest(segs: seq<Seg>): nat
    requires segs != []
  {
    var off := Last(segs).Next();
    if off == 0 then 0 else off - 1
  }

  /** Rolling over when the active segment is maxed, given the highest offset read before the lock was taken. */
  function RollIfMaxed(cfg: Config, segs: seq<Seg>, highest: nat): seq<Seg>
    requires segs != []
  {
    if Last(segs).Maxed(cfg) then segs + [Seg(highest + 1, [])] else segs
  }

  /** `segment.Append` while the index has room. */
  function AppendToSegment(cfg: Config, s: Seg, r: Record): (Seg, Result<nat>)
    requires s.Next() < TWO_64
  {
    var stamped := Stamped(r, s.Next());
    if cfg.codec.marshal(stamped).None? then (s, Err(Malformed))
    else (Seg(s.base, s.recs + [stamped]), Result.Ok(s.Next()))
  }

  function AppendToActive(cfg: Config, segs: seq<Seg>, r: Record): (seq<Seg>, Result<nat>)
    requires segs != [] && Last(segs).Next() < TWO_64
  {
    var grown := AppendToSegment(cfg, Last(segs), r);
    (segs[|segs| - 1 := grown.0], grown.1)
  }

  /** `Log.Append` when no other append overlaps it. */
  function Append(cfg: Config, segs: seq<Seg>, r: Record): (seq<Seg>, Result<nat>)
    requires segs != [] && Last(segs).Next() < TWO_64 - 1
  {
    AppendToActive(cfg, RollIfMaxed(cfg, segs, Highest(segs)), r)
  }

  /** The first segment with this base offset. */
  function FindBase(segs: seq<Seg>, base: nat): Option<Seg> {
    if segs == [] then None else if segs[0].base == base then Some(segs[0]) else FindBase(segs[1..], base)
  }

  /** What `newSegment` makes of the files of a segment that is open: the index file has its full size, so its last
      entry counts, which is zero bytes unless the index really is full.  (A segment without records would be given
      one; but a log that rolls over has none, by `AgainBounded`.) */
  function OpenedAgain(cfg: Config, s: Seg): Seg {
    if |s.recs| <= 1 || |s.recs| == cfg.Capacity() then s else Seg(s.base, s.recs[..1])
  }

  /** The segment to roll to is open already. */
  predicate Collides(cfg: Config, segs: seq<Seg>, h: nat)
    requires segs != []
  {
    Last(segs).Maxed(cfg) && FindBase(segs, h + 1).Some?
  }

  function Rolled(cfg: Config, segs: seq<Seg>, h: nat): (rolled: seq<Seg>)
    requires segs != []
    ensures rolled != []
  {
    if Collides(cfg, segs, h) then segs + [OpenedAgain(cfg, FindBase(segs, h + 1).value)]
    else RollIfMaxed(cfg, segs, h)
  }

  /** The locked part of `Log.Append`, given the highest offset `h` read before the lock was taken.  A segment whose
      files were opened once more looks full: the append fails with EOF after its frame was written. */
  function Locked(cfg: Config, segs: seq<Seg>, h: nat, r: Record): (seq<Seg>, Result<nat>)
    requires segs != [] && Last(segs).Next() < TWO_64 - 1 && h < TWO_64 - 2
  {
    var rolled := Rolled(cfg, segs, h);
    if !Collides(cfg, segs, h) then AppendToActive(cfg, rolled, r)
    else if cfg.codec.marshal(Stamped(r, Uint64(Last(rolled).Next()))).None? then (rolled, Err(Malformed))
    else (rolled, Err(EOF))
  }

  /** `Log.Read`: the first segment whose range holds the offset. */
  function Read(segs: seq<Seg>, off: nat): Result<Record> {
    if segs == [] then Err(OffsetOutOfRange(off))
    else if segs[0].base <= off < segs[0].Next() then Result.Ok(segs[0].recs[off - segs[0].base])
    else Read(segs[1..], off)
  }

  /** The segments `Log.Truncate` keeps.  `lowest + 1` is computed on 64 bits. */
  function Kept(segs: seq<Seg>, lowest: u64): seq<Seg> {
    if segs == [] then []
    else (if segs[0].Next() <= Uint64(lowest + 1) then [] else [segs[0]]) + Kept(segs[1..], lowest)
  }

  /** The bytes `Log.Reader` streams when nothing else runs. */
  function Streamed(c: Codec, segs: seq<Seg>): Bytes {
    if segs == [] then [] else Streamed(c, segs[..|segs| - 1]) + Last(segs).StoreBytes(c)
  }

  // ---------------------------------------------------------------------------------------------
  // What each operation does to the flat log

  lemma LimitsDecide(cfg: Config, cfg': Config, s: Seg)
    requires cfg.SameLimits(cfg')
    ensures s.Maxed(cfg) == s.Maxed(cfg') && s.Ok(cfg) == s.Ok(cfg')
  {
  }

  lemma AppendLimits(cfg: Config, cfg': Config, segs: seq<Seg>, r: Record)
    requires cfg.SameLimits(cfg') && segs != [] && Last(segs).Next() < TWO_64
    ensures var grown := AppendToSegment(cfg', segs[|segs| - 1], r);
            AppendToActive(cfg, segs, r) == (segs[|segs| - 1 := grown.0], grown.1)
    ensures AppendToSegment(cfg', segs[|segs| - 1], r).0.base == Last(segs).base
  {
  }

  lemma MaxedNonEmpty(cfg: Config, s: Seg)
    requires cfg.Valid() && s.Maxed(cfg)
    ensures s.recs != []
  {
    assert cfg.codec.Payloads([]) == [];
  }

  /** A new segment is maxed before its first record exactly when a limit leaves no room for one. */
  lemma EmptySegMaxedIff(cfg: Config, base: nat)
    ensures Seg(base, []).Maxed(cfg) <==> cfg.maxStoreBytes == 0 || cfg.maxIndexBytes < ENT_WIDTH
  {
    assert cfg.codec.Payloads([]) == [];
  }

  /** A record fits after the others while the index has room and the file stays addressable. */
  lemma StoreGrowth(cfg: Config, s: Seg, r: Record)
    requires cfg.Valid() && s.Ok(cfg) && |s.StoreBytes(cfg.codec)| <= TWO_62
    requires ENT_WIDTH * |s.recs| + ENT_WIDTH <= cfg.maxIndexBytes
    requires s.Next() < TWO_64 - 1 && r.offset == s.Next() && cfg.codec.marshal(r).Some?
    ensures Seg(s.base, s.recs + [r]).Ok(cfg)
  {
    EncodedSnoc(cfg.codec, s.recs, r);
  }

  lemma WellFormedBase(cfg: Config, segs: seq<Seg>)
    requires WellFormed(cfg, segs)
    ensures Last(segs).base <= Last(segs).Next() < TWO_64
  {
  }

  lemma LinkedSnoc(segs: seq<Seg>, s: Seg)
    requires Linked(segs) && Last(segs).recs != [] && s.base == Last(segs).Next()
    ensures Linked(segs + [s])
  {
    var more := segs + [s];
    assert forall i :: 0 <= i < |segs| ==> more[i] == segs[i];
  }

  lemma WellFormedSnoc(cfg: Config, segs: seq<Seg>, s: Seg)
    requires WellFormed(cfg, segs) && s.Ok(cfg)
    requires Last(segs).recs != [] && s.base == Last(segs).Next()
    ensures WellFormed(cfg, segs + [s])
  {
    LinkedSnoc(segs, s);
  }

  lemma WellFormedReplace(cfg: Config, segs: seq<Seg>, s: Seg)
    requires WellFormed(cfg, segs) && s.Ok(cfg) && s.base == Last(segs).base
    ensures WellFormed(cfg, segs[|segs| - 1 := s])
  {
  }

  lemma LinkedSuffix(segs: seq<Seg>, n: nat)
    requires Linked(segs) && n < |segs|
    ensures Linked(segs[n..])
  {
  }

  lemma WellFormedSuffix(cfg: Config, segs: seq<Seg>, n: nat)
    requires WellFormed(cfg, segs) && n < |segs|
    ensures WellFormed(cfg, segs[n..])
  {
    LinkedSuffix(segs, n);
  }

  lemma FlattenReplace(segs: seq<Seg>, s: Seg)
    requires segs != []
    ensures Flatten(segs[|segs| - 1 := s]) == Flatten(segs[..|segs| - 1]) + s.recs
  {
    UnSnoc(segs[|segs| - 1 := s]);
    FlattenSnoc(segs[..|segs| - 1], s);
  }

  lemma EmptySegOk(cfg: Config, base: nat)
    requires base < TWO_64
    ensures Seg(base, []).Ok(cfg)
  {
    assert cfg.codec.Payloads([]) == [];
  }

  /** Rolling keeps the log well formed and contiguous, the flat log unchanged, and leaves room. */
  lemma RollIsSafe(cfg: Config, segs: seq<Seg>)
    requires cfg.Valid() && WellFormed(cfg, segs)
    ensures var rolled := RollIfMaxed(cfg, segs, Highest(segs));
            && WellFormed(cfg, rolled)
            && FlatOf(rolled) == FlatOf(segs)
            && Last(rolled).Next() == Last(segs).Next()
            && !Last(rolled).Maxed(cfg)
  {
    if Last(segs).Maxed(cfg) {
      MaxedNonEmpty(cfg, Last(segs));
      var added := Seg(Highest(segs) + 1, []);
      EmptySegOk(cfg, added.base);
      EmptySegMaxedIff(cfg, added.base);
      WellFormedSnoc(cfg, segs, added);
      FlattenSnoc(segs, added);
      NilRight(Flatten(segs));
    }
  }

  /** Adding a stamped record to an active segment with room. */
  lemma GrowActive(cfg: Config, segs: seq<Seg>, r: Record)
    requires cfg.Valid() && WellFormed(cfg, segs) && !Last(segs).Maxed(cfg)
    requires Last(segs).Next() < TWO_64 - 1 && r.offset == Last(segs).Next() && cfg.codec.marshal(r).Some?
    ensures var after := segs[|segs| - 1 := Seg(Last(segs).base, Last(segs).recs + [r])];
            && WellFormed(cfg, after)
            && FlatOf(after) == Flat(FlatOf(segs).low, FlatOf(segs).recs + [r])
  {
    var grown := Seg(Last(segs).base, Last(segs).recs + [r]);
    StoreGrowth(cfg, Last(segs), r);
    WellFormedReplace(cfg, segs, grown);
    FlattenReplace(segs, grown);
    Assoc(Flatten(segs[..|segs| - 1]), Last(segs).recs, [r]);
  }

  /** An append either fails to marshal and changes nothing a reader can see, or adds the stamped
      record at the end and returns its offset, which is the next one. */
  lemma AppendRefines(cfg: Config, segs: seq<Seg>, r: Record)
    requires cfg.Valid() && WellFormed(cfg, segs) && Last(segs).Next() < TWO_64 - 1
    ensures FlatOf(segs).Next() == Last(segs).Next()
    ensures WellFormed(cfg, Append(cfg, segs, r).0)
    ensures var (after, res) := Append(cfg, segs, r);
            FlatAppended(cfg.codec, FlatOf(segs), r, FlatOf(after), res)
  {
    hide Flatten, Linked, Seg.Ok, Codec.Encoded;
    FlatNext(segs);
    RollIsSafe(cfg, segs);
    var rolled := RollIfMaxed(cfg, segs, Highest(segs));
    var stamped := Stamped(r, Last(segs).Next());
    if cfg.codec.marshal(stamped).Some? {
      GrowActive(cfg, rolled, stamped);
    } else {
      UpdateSame(rolled, |rolled| - 1);
    }
  }

  /** An append to the flat log. */
  function FlatAppend(c: Codec, f: Flat, r: Record): (Flat, Result<nat>)
    requires f.Next() < TWO_64
  {
    var stamped := Stamped(r, f.Next());
    if c.marshal(stamped).None? then (f, Err(Malformed))
    else (Flat(f.low, f.recs + [stamped]), Result.Ok(f.Next()))
  }

  /** What an append means for the flat log. */
  ghost predicate FlatAppended(c: Codec, before: Flat, r: Record, after: Flat, res: Result<nat>) {
    before.Next() < TWO_64 && (after, res) == FlatAppend(c, before, r)
  }

  /** An append opens a new segment exactly when the active one's store has reached its limit, or its index has no room
      for another 12 bytes. */
  lemma AppendRollsIff(cfg: Config, segs: seq<Seg>, r: Record)
    requires cfg.Valid() && WellFormed(cfg, segs) && Last(segs).Next() < TWO_64 - 1
    ensures |Append(cfg, segs, r).0|
            == |segs| + if |cfg.codec.Encoded(Last(segs).recs)| >= cfg.maxStoreBytes
                           || 12 * |Last(segs).recs| + 12 > cfg.maxIndexBytes then 1 else 0
    ensures 12 * |Last(segs).recs| + 12 > cfg.maxIndexBytes <==> |Last(segs).recs| == cfg.Capacity()
  {
    hide Codec.Encoded, Linked;
  }

  /** A log made without limits opens a new segment exactly when the active one stores at least 1024 bytes or has 85
      records. */
  lemma DefaultLimitsRoll(c: Config, segs: seq<Seg>, r: Record)
    requires c.maxStoreBytes == 0 && c.maxIndexBytes == 0 && c.codec.Lawful()
    requires WellFormed(c.WithDefaults(), segs) && Last(segs).Next() < TWO_64 - 1
    ensures |Append(c.WithDefaults(), segs, r).0|
            == |segs| + if |c.codec.Encoded(Last(segs).recs)| >= 1024 || |Last(segs).recs| == 85 then 1 else 0
  {
    hide Codec.Encoded, Linked, Append;
    AppendRollsIff(c.WithDefaults(), segs, r);
  }

  lemma AppendNext(cfg: Config, segs: seq<Seg>, r: Record)
    requires cfg.Valid() && WellFormed(cfg, segs) && Last(segs).Next() < TWO_64 - 1
    ensures var (after, res) := Append(cfg, segs, r);
            after != [] && Last(after).Next() == Last(segs).Next() + if res.Ok? then 1 else 0
  {
    RollIsSafe(cfg, segs);
  }

  lemma {:induction false} FindBaseFinds(segs: seq<Seg>, base: nat)
    ensures match FindBase(segs, base)
            case None => forall i :: 0 <= i < |segs| ==> segs[i].base != base
            case Some(s) => s.base == base && exists i :: 0 <= i < |segs| && segs[i] == s
  {
    if segs != [] && segs[0].base != base {
      FindBaseFinds(segs[1..], base);
      assert forall i :: 1 <= i < |segs| ==> segs[i] == segs[1..][i - 1];
    }
  }

  /** A maxed log has no segment at its next offset. */
  lemma NextIsNoBase(cfg: Config, segs: seq<Seg>)
    requires cfg.Valid() && WellFormed(cfg, segs) && Last(segs).Maxed(cfg)
    ensures Highest(segs) + 1 == Last(segs).Next() && FindBase(segs, Highest(segs) + 1) == None
  {
    hide FindBase, Seg.Maxed, Seg.Ok, Linked;
    MaxedNonEmpty(cfg, Last(segs));
    FindBaseFinds(segs, Last(segs).Next());
    forall i | 0 <= i < |segs| ensures segs[i].base < Last(segs).Next() {
      if i < |segs| - 1 {
        Ascending(segs, i, |segs| - 1);
      }
    }
  }

  /** Before a roll no segment is empty, so one opened again has the next offset that its index file gives. */
  lemma AgainBounded(cfg: Config, segs: seq<Seg>, i: nat)
    requires cfg.Valid() && WellFormed(cfg, segs) && Last(segs).Maxed(cfg) && i < |segs|
    ensures OpenedAgain(cfg, segs[i]).base == segs[i].base
    ensures OpenedAgain(cfg, segs[i]).Next()
            == if |segs[i].recs| == cfg.Capacity() then segs[i].Next() else segs[i].base + 1
    ensures segs[i].base < OpenedAgain(cfg, segs[i]).Next() <= segs[i].Next() <= Last(segs).Next()
  {
    MaxedNonEmpty(cfg, Last(segs));
    if i < |segs| - 1 {
      Ascending(segs, i, |segs| - 1);
    }
  }

  /** With the highest offset up to date, the locked part is the append. */
  lemma LockedIsAppend(cfg: Config, segs: seq<Seg>, r: Record)
    requires cfg.Valid() && WellFormed(cfg, segs) && Last(segs).Next() < TWO_64 - 1
    ensures !Collides(cfg, segs, Highest(segs)) && Last(Rolled(cfg, segs, Highest(segs))).Next() == Last(segs).Next()
    ensures Locked(cfg, segs, Highest(segs), r) == Append(cfg, segs, r)
  {
    if Last(segs).Maxed(cfg) {
      NextIsNoBase(cfg, segs);
    }
  }

  lemma FlattenCons(segs: seq<Seg>)
    requires segs != []
    ensures Flatten(segs) == segs[0].recs + Flatten(segs[1..])
  {
    UnCons(segs);
    FlattenConcat([segs[0]], segs[1..]);
    NilLeft([segs[0]]);
    FlattenSnoc([], segs[0]);
    NilLeft(segs[0].recs);
  }

  /** The lookup over segments reads the flat log: the record of the offset, or that it is out of range. */
  lemma ReadRefines(segs: seq<Seg>, off: nat)
    requires Linked(segs)
    ensures Read(segs, off) == FlatOf(segs).Read(off)
    ensures Read(segs, off)
            == if segs[0].base <= off < segs[0].base + |Flatten(segs)| then Result.Ok(Flatten(segs)[off - segs[0].base])
               else Err(OffsetOutOfRange(off))
  {
    ReadIsFlat(segs, off);
    hide Read;
  }

  lemma {:induction false} ReadIsFlat(segs: seq<Seg>, off: nat)
    requires Linked(segs)
    ensures Read(segs, off) == FlatOf(segs).Read(off)
    decreases |segs|
  {
    var head, rest := segs[0], segs[1..];
    FlattenCons(segs);
    if !(head.base <= off < head.Next()) && rest != [] {
      LinkedSuffix(segs, 1);
      assert rest[0].base == head.Next();
      ReadIsFlat(rest, off);
    }
  }

  lemma ReadNone(off: nat)
    ensures Read([], off) == Err(OffsetOutOfRange(off))
  {
  }

  lemma ReadHere(segs: seq<Seg>, k: nat, off: nat)
    requires k < |segs| && segs[k].base <= off < segs[k].Next()
    ensures Read(segs[k..], off) == Result.Ok(segs[k].recs[off - segs[k].base])
  {
    assert segs[k..][0] == segs[k];
  }

  lemma ReadFurther(segs: seq<Seg>, k: nat, off: nat)
    requires k < |segs| && !(segs[k].base <= off < segs[k].Next())
    ensures Read(segs[k..], off) == Read(segs[k + 1..], off)
  {
    assert segs[k..][0] == segs[k] && segs[k..][1..] == segs[k + 1..];
  }

  /** How many segments `Truncate` removes. */
  function Cut(segs: seq<Seg>, lowest: u64): (n: nat)
    ensures n <= |segs|
  {
    if segs == [] || segs[0].Next() > Uint64(lowest + 1) then 0 else 1 + Cut(segs[1..], lowest)
  }

  /** Next offsets ascend, so the removed segments are those before the cut. */
  lemma {:induction false} CutMeaning(segs: seq<Seg>, lowest: u64)
    requires segs == [] || Linked(segs)
    ensures forall i :: 0 <= i < |segs| ==> (i < Cut(segs, lowest) <==> segs[i].Next() <= Uint64(lowest + 1))
    decreases |segs|
  {
    if segs != [] {
      if segs[0].Next() > Uint64(lowest + 1) {
        forall i | 1 <= i < |segs| ensures segs[0].Next() <= segs[i].Next() {
          Ascending(segs, 0, i);
        }
      } else {
        var rest := segs[1..];
        if rest != [] {
          LinkedSuffix(segs, 1);
        }
        CutMeaning(rest, lowest);
        assert forall i :: 1 <= i < |segs| ==> segs[i] == rest[i - 1];
      }
    }
  }

  lemma {:induction false} KeptAfter(segs: seq<Seg>, lowest: u64, n: nat)
    requires n <= |segs|
    requires forall i :: 0 <= i < |segs| ==> (i < n <==> segs[i].Next() <= Uint64(lowest + 1))
    ensures Kept(segs, lowest) == segs[n..]
    decreases |segs|
  {
    if segs != [] {
      var rest := segs[1..];
      assert forall i :: 0 <= i < |rest| ==> rest[i] == segs[i + 1];
      if n == 0 {
        KeptAfter(rest, lowest, 0);
        UnCons(segs);
      } else {
        KeptAfter(rest, lowest, n - 1);
      }
    }
  }

  lemma KeptIsSuffix(segs: seq<Seg>, lowest: u64)
    requires segs == [] || Linked(segs)
    ensures Kept(segs, lowest) == segs[Cut(segs, lowest)..]
    ensures forall i :: 0 <= i < |segs| ==> (i < Cut(segs, lowest) <==> segs[i].Next() <= Uint64(lowest + 1))
  {
    CutMeaning(segs, lowest);
    KeptAfter(segs, lowest, Cut(segs, lowest));
  }

  /** `Truncate` leaves a usable log exactly when `lowest + 1`, on 64 bits, is below the next offset. */
  lemma TruncateKeepsSomeIff(segs: seq<Seg>, lowest: u64)
    requires Linked(segs)
    ensures Kept(segs, lowest) != [] <==> Uint64(lowest + 1) < FlatOf(segs).Next()
  {
    KeptIsSuffix(segs, lowest);
    FlatNext(segs);
    assert Kept(segs, lowest) != [] <==> !(|segs| - 1 < Cut(segs, lowest));
  }

  /** Dropping whole segments from the front drops exactly the flat records below the new base. */
  lemma SuffixIsFlatSuffix(segs: seq<Seg>, n: nat)
    requires Linked(segs) && n < |segs|
    ensures Linked(segs[n..])
    ensures var before, after := FlatOf(segs), FlatOf(segs[n..]);
            && before.low <= after.low <= before.Next()
            && after.recs == before.recs[after.low - before.low..]
            && after.Next() == before.Next()
  {
    LinkedSuffix(segs, n);
    BaseOf(segs, n);
    SplitAt(segs, n);
    FlattenConcat(segs[..n], segs[n..]);
    SliceOfConcat(Flatten(segs[..n]), Flatten(segs[n..]), []);
    assert segs[n..][0] == segs[n];
  }

  /** What a truncation means for the flat log: it loses a prefix, nothing above `lowest`, and keeps
      the offset the next append will get. */
  ghost predicate FlatTruncated(before: Flat, lowest: nat, after: Flat) {
    && before.low <= after.low <= before.Next()
    && (after.low == before.low || after.low <= lowest + 1)
    && after.recs == before.recs[after.low - before.low..]
    && after.Next() == before.Next()
  }

  lemma CutBound(segs: seq<Seg>, lowest: u64)
    requires Linked(segs) && lowest < Highest(segs)
    ensures Cut(segs, lowest) < |segs| && Kept(segs, lowest) == segs[Cut(segs, lowest)..]
    ensures Cut(segs, lowest) == 0 || segs[Cut(segs, lowest)].base <= lowest + 1
  {
    KeptIsSuffix(segs, lowest);
    var n := Cut(segs, lowest);
    assert n <= |segs| - 1;
    if n > 0 {
      assert segs[n - 1].Next() == segs[n].base;
    }
  }

  /** `Truncate` below the highest offset removes a prefix of the segment list. */
  lemma TruncateRefines(cfg: Config, segs: seq<Seg>, lowest: u64)
    requires WellFormed(cfg, segs) && lowest < Highest(segs)
    ensures Cut(segs, lowest) < |segs| && Kept(segs, lowest) == segs[Cut(segs, lowest)..]
    ensures WellFormed(cfg, Kept(segs, lowest))
    ensures FlatTruncated(FlatOf(segs), lowest, FlatOf(Kept(segs, lowest)))
  {
    hide Kept, Cut, Flatten;
    CutBound(segs, lowest);
    WellFormedSuffix(cfg, segs, Cut(segs, lowest));
    SuffixIsFlatSuffix(segs, Cut(segs, lowest));
    assert FlatOf(segs[Cut(segs, lowest)..]).low == segs[Cut(segs, lowest)].base;
  }

  lemma StreamedSnoc(c: Codec, segs: seq<Seg>, s: Seg)
    ensures Streamed(c, segs + [s]) == Streamed(c, segs) + s.StoreBytes(c)
  {
    SnocInit(segs, s);
  }

  /** Position `off` of segment `k`'s store is this far into the stream. */
  lemma {:induction false} StreamAt(c: Codec, segs: seq<Seg>, k: nat)
    requires k < |segs|
    ensures var start := |Streamed(c, segs[..k])|;
            var n := |segs[k].StoreBytes(c)|;
            && start + n == |Streamed(c, segs[..k + 1])| <= |Streamed(c, segs)|
            && Streamed(c, segs)[start..start + n] == segs[k].StoreBytes(c)
    decreases |segs|
  {
    hide Seg.StoreBytes;
    TakeOneMore(segs, k);
    StreamedSnoc(c, segs[..k], segs[k]);
    if k < |segs| - 1 {
      var front := segs[..|segs| - 1];
      StreamAt(c, front, k);
      TakeTake(segs, k, |segs| - 1);
      TakeTake(segs, k + 1, |segs| - 1);
    }
  }

  /** The stream of a quiet log is the encoding of its flat records. */
  lemma {:induction false} StreamedIsEncoded(c: Codec, segs: seq<Seg>)
    ensures Streamed(c, segs) == c.Encoded(Flatten(segs))
  {
    if segs == [] {
      assert c.Payloads([]) == [];
    } else {
      var front := segs[..|segs| - 1];
      StreamedIsEncoded(c, front);
      EncodedConcat(c, Flatten(front), Last(segs).recs);
    }
  }
}
