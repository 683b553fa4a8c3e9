/** The replicated state machine of internal/log/distributed.go: applying committed commands, and restoring
    from a snapshot. */
module Fsms {
  import opened Seqs
  import opened Wire
  import opened Records
  import opened Spec
  import opened Segments
  import opened Logs

  const APPEND_REQUEST: byte := 0

  /** What `Apply` returns: nil, an error, or a produce response; `Panics` when the command has no first byte. */
  datatype Response =
    | Nil
    | Failed(error: Error)
    | Produced(offset: nat)
    | Panics

  /** The command `DistributedLog.apply` submits for a record: the request type, then the marshalled request. */
  function Command(c: Codec, r: Record): Option<Bytes> {
    match c.marshalRequest(r)
    case None => None
    case Some(b) => Some([APPEND_REQUEST] + b)
  }

  function Responded(res: Result<nat>): Response {
    match res
    case Ok(off) => Produced(off)
    case Err(e) => Failed(e)
  }

  /** The record a command appends, or what `Apply` answers without touching the log. */
  datatype Decoded = Rejected(response: Response) | AppendRecord(rec: Record)

  function Decode(c: Codec, data: Bytes): Decoded {
    if data == [] then Rejected(Panics)
    else if data[0] != APPEND_REQUEST then Rejected(Nil)
    else match c.unmarshalRequest(data[1..])
      case None => Rejected(Failed(Malformed))
      case Some(r) => AppendRecord(r)
  }

  function ApplyOne(cfg: Config, segs: seq<Seg>, data: Bytes): (seq<Seg>, Response)
    requires segs != [] && Last(segs).Next() < TWO_64 - 1
  {
    match Decode(cfg.codec, data)
    case Rejected(r) => (segs, r)
    case AppendRecord(r) => (Append(cfg, segs, r).0, Responded(Append(cfg, segs, r).1))
  }

  /** The same on the flat log: no segment limit is involved. */
  function FlatApply(c: Codec, f: Flat, data: Bytes): (Flat, Response)
    requires f.Next() < TWO_64
  {
    match Decode(c, data)
    case Rejected(r) => (f, r)
    case AppendRecord(r) => (FlatAppend(c, f, r).0, Responded(FlatAppend(c, f, r).1))
  }

  /** The reading loop of `Restore` with an append for each record. */
  function Replay(cfg: Config, segs: seq<Seg>, bytes: Bytes): (seq<Seg>, Option<Error>)
    requires cfg.Valid() && WellFormed(cfg, segs)
    requires Last(segs).Next() + |ParseFrames(bytes).0| < TWO_64
    decreases |bytes|
  {
    match NextFrame(bytes)
    case End => (segs, None)
    case Bad(e) => (segs, Some(e))
    case Got(p, rest) =>
      match cfg.codec.unmarshal(p)
      case None => (segs, Some(Malformed))
      case Some(r) =>
        AppendNext(cfg, segs, r);
        AppendRefines(cfg, segs, r);
        var (after, res) := Append(cfg, segs, r);
        if res.Err? then (after, Some(res.error)) else Replay(cfg, after, rest)
  }

  lemma ParsedOneMore(bytes: Bytes)
    requires NextFrame(bytes).Got?
    ensures |ParseFrames(bytes).0| == 1 + |ParseFrames(NextFrame(bytes).rest).0|
  {
  }

  class Fsm {
    const log: Log

    constructor (l: Log)
      ensures log == l
    {
      log := l;
    }

    /** `fsm.Apply`. */
    method Apply(data: Bytes) returns (res: Response)
      requires log.Valid() && Last(log.model).Next() < TWO_64 - 1
      modifies log`segments, log`activeSegment, log`model, log.dir`files, log.Footprint()
      ensures log.Valid() && forall o :: o in log.Footprint() ==> o in old(log.Footprint()) || fresh(o)
      ensures (log.model, res) == ApplyOne(log.config, old(log.model), data)
      ensures data == [] ==> res == Panics && log.model == old(log.model)
      ensures data != [] && data[0] != APPEND_REQUEST ==> res == Nil && log.model == old(log.model)
    {
      hide Log.Valid, Log.Footprint, Spec.Append;
      if data == [] {
        return Panics;
      }
      if data[0] == APPEND_REQUEST {
        res := ApplyAppend(data[1..]);
      } else {
        res := Nil;
      }
    }

    /** `fsm.applyAppend`. */
    method ApplyAppend(b: Bytes) returns (res: Response)
      requires log.Valid() && Last(log.model).Next() < TWO_64 - 1
      modifies log`segments, log`activeSegment, log`model, log.dir`files, log.Footprint()
      ensures log.Valid() && forall o :: o in log.Footprint() ==> o in old(log.Footprint()) || fresh(o)
      ensures match log.config.codec.unmarshalRequest(b)
              case None => log.model == old(log.model) && res == Failed(Malformed)
              case Some(r) =>
                && log.model == Append(log.config, old(log.model), r).0
                && res == Responded(Append(log.config, old(log.model), r).1)
    {
      hide Log.Valid, Log.Footprint, Spec.Append;
      var req := log.config.codec.unmarshalRequest(b);
      if req.None? {
        return Failed(Malformed);
      }
      log.FootprintHolds();
      ghost var before := log.Footprint();
      var message := new Message(req.value);
      var r := log.Append(message);
      assert forall o :: o in log.Footprint() && o !in before ==> !old(allocated(o));
      match r {
        case Ok(off) => res := Produced(off);
        case Err(e) => res := Failed(e);
      }
    }

    /** The loop of `Restore`, for a log that need not be reset: read a frame, unmarshal it, append it. */
    method ReplayStream(r: Bytes) returns (err: Option<Error>)
      requires log.Valid() && Last(log.model).Next() + |ParseFrames(r).0| < TWO_64
      modifies log`segments, log`activeSegment, log`model, log.dir`files, log.Footprint()
      ensures log.Valid() && log.config == old(log.config)
      ensures (log.model, err) == Replay(log.config, old(log.model), r)
    {
      hide Log.Valid, Log.Footprint, Spec.Append, WellFormed, Config.Valid;
      log.Shape();
      var rest := r;
      while true
        invariant log.Valid() && log.config == old(log.config)
        invariant log.config.Valid() && WellFormed(log.config, log.model) && log.model != []
        invariant Last(log.model).Next() + |ParseFrames(rest).0| < TWO_64
        invariant forall o :: o in log.Footprint() ==> o in old(log.Footprint()) || fresh(o)
        invariant Replay(log.config, log.model, rest) == Replay(log.config, old(log.model), r)
        decreases |rest|
      {
        match NextFrame(rest) {
          case End =>
            return None;
          case Bad(e) =>
            return Some(e);
          case Got(p, tail) =>
            var rec := log.config.codec.unmarshal(p);
            if rec.None? {
              return Some(Malformed);
            }
            log.Shape();
            log.FootprintHolds();
            ParsedOneMore(rest);
            AppendNext(log.config, log.model, rec.value);
            AppendRefines(log.config, log.model, rec.value);
            ghost var before := log.Footprint();
            var message := new Message(rec.value);
            var res := log.Append(message);
            assert forall o :: o in log.Footprint() && o !in before ==> !old(allocated(o));
            if res.Err? {
              return Some(res.error);
            }
            rest := tail;
        }
      }
    }

    /** `fsm.Restore` as written.  At the first record it resets the log, which removes the directory and then
        fails to read it, so nothing is ever replayed. */
    method Restore(r: Bytes) returns (err: Option<Error>)
      requires log.Valid()
      modifies log, log.dir, log.Footprint()
      ensures err == None <==> r == []
      ensures match NextFrame(r)
              case End => err == None && log.Valid() && (log.model, log.config) == old((log.model, log.config))
              case Bad(e) => err == Some(e) && log.Valid() && (log.model, log.config) == old((log.model, log.config))
              case Got(p, _) =>
                match old(log.config).codec.unmarshal(p)
                case None =>
                  err == Some(Malformed) && log.Valid() && (log.model, log.config) == old((log.model, log.config))
                case Some(first) =>
                  && err == Some(NotExist) && !log.dir.present
                  && log.config == old(log.config).(initialOffset := first.offset)
    {
      hide Log.Valid;
      match NextFrame(r) {
        case End =>
          return None;
        case Bad(e) =>
          return Some(e);
        case Got(p, _) =>
          var rec := log.config.codec.unmarshal(p);
          if rec.None? {
            return Some(Malformed);
          }
          log.SetInitialOffset(rec.value.offset);
          err := log.Reset();
      }
    }
  }

  // ---------------------------------------------------------------------------------------------
  // Replicas

  /** Applying the command submitted for a record appends that record. */
  lemma CommandAppends(cfg: Config, segs: seq<Seg>, r: Record)
    requires cfg.Valid() && segs != [] && Last(segs).Next() < TWO_64 - 1 && Command(cfg.codec, r).Some?
    ensures ApplyOne(cfg, segs, Command(cfg.codec, r).value)
            == (Append(cfg, segs, r).0, Responded(Append(cfg, segs, r).1))
  {
    hide Append;
    var b := cfg.codec.marshalRequest(r).value;
    assert ([APPEND_REQUEST] + b)[1..] == b;
  }

  /** The command of a record starts with the byte 0.  Applying it answers the offset at which the record is then read,
      which is the next one, or that the record does not marshal. */
  lemma CommandAnswers(cfg: Config, segs: seq<Seg>, r: Record)
    requires cfg.Valid() && WellFormed(cfg, segs) && Last(segs).Next() < TWO_64 - 1 && Command(cfg.codec, r).Some?
    ensures Command(cfg.codec, r).value == [0] + cfg.codec.marshalRequest(r).value
    ensures var (after, res) := ApplyOne(cfg, segs, Command(cfg.codec, r).value);
            var next := FlatOf(segs).Next();
            && next < TWO_64
            && if cfg.codec.marshal(Stamped(r, next)).Some?
               then res == Produced(next) && FlatOf(after).Read(next) == Result.Ok(Stamped(r, next))
               else res == Failed(Malformed) && FlatOf(after) == FlatOf(segs)
  {
    hide Append, Linked, Seg.Ok, Flatten;
    AppendRefines(cfg, segs, r);
    CommandAppends(cfg, segs, r);
  }

  /** Other data changes nothing: nil for another request type, an error for a request that does not unmarshal, a panic
      for no data. */
  lemma OtherDataAnswers(cfg: Config, segs: seq<Seg>, data: Bytes)
    requires segs != [] && Last(segs).Next() < TWO_64 - 1
    ensures data == [] ==> ApplyOne(cfg, segs, data) == (segs, Panics)
    ensures data != [] && data[0] != 0 ==> ApplyOne(cfg, segs, data) == (segs, Nil)
    ensures data != [] && data[0] == 0 && cfg.codec.unmarshalRequest(data[1..]).None? ==>
              ApplyOne(cfg, segs, data) == (segs, Failed(Malformed))
  {
  }

  function ApplyAll(cfg: Config, segs: seq<Seg>, cmds: seq<Bytes>): (seq<Seg>, seq<Response>)
    requires cfg.Valid() && WellFormed(cfg, segs) && Last(segs).Next() + |cmds| < TWO_64
    decreases |cmds|
  {
    if cmds == [] then (segs, [])
    else
      ApplyRefines(cfg, segs, cmds[0]);
      var (after, res) := ApplyOne(cfg, segs, cmds[0]);
      var (final, others) := ApplyAll(cfg, after, cmds[1..]);
      (final, [res] + others)
  }

  function FlatApplyAll(c: Codec, f: Flat, cmds: seq<Bytes>): (Flat, seq<Response>)
    requires f.Next() + |cmds| < TWO_64
    decreases |cmds|
  {
    if cmds == [] then (f, [])
    else
      var (after, res) := FlatApply(c, f, cmds[0]);
      var (final, others) := FlatApplyAll(c, after, cmds[1..]);
      (final, [res] + others)
  }

  lemma ApplyRefines(cfg: Config, segs: seq<Seg>, data: Bytes)
    requires cfg.Valid() && WellFormed(cfg, segs) && Last(segs).Next() < TWO_64 - 1
    ensures FlatOf(segs).Next() == Last(segs).Next()
    ensures WellFormed(cfg, ApplyOne(cfg, segs, data).0)
    ensures Last(ApplyOne(cfg, segs, data).0).Next() <= Last(segs).Next() + 1
    ensures FlatApply(cfg.codec, FlatOf(segs), data)
            == (FlatOf(ApplyOne(cfg, segs, data).0), ApplyOne(cfg, segs, data).1)
  {
    FlatNext(segs);
    match Decode(cfg.codec, data) {
      case Rejected(_) =>
      case AppendRecord(r) =>
        AppendRefines(cfg, segs, r);
        AppendNext(cfg, segs, r);
    }
  }

  /** Applying commands to segments is applying them to the flat log, with the same responses. */
  lemma {:induction false} ApplyAllRefines(cfg: Config, segs: seq<Seg>, cmds: seq<Bytes>)
    requires cfg.Valid() && WellFormed(cfg, segs) && Last(segs).Next() + |cmds| < TWO_64
    ensures FlatOf(segs).Next() == Last(segs).Next()
    ensures WellFormed(cfg, ApplyAll(cfg, segs, cmds).0)
    ensures FlatApplyAll(cfg.codec, FlatOf(segs), cmds)
            == (FlatOf(ApplyAll(cfg, segs, cmds).0), ApplyAll(cfg, segs, cmds).1)
    decreases |cmds|
  {
    FlatNext(segs);
    if cmds != [] {
      ApplyRefines(cfg, segs, cmds[0]);
      ApplyAllRefines(cfg, ApplyOne(cfg, segs, cmds[0]).0, cmds[1..]);
      hide ApplyOne, FlatApply, WellFormed, Flatten, Config.Valid;
    }
  }

  /** A run of one command. */
  lemma ApplyAllOne(cfg: Config, segs: seq<Seg>, data: Bytes)
    requires cfg.Valid() && WellFormed(cfg, segs) && Last(segs).Next() < TWO_64 - 1
    ensures ApplyAll(cfg, segs, [data]) == (ApplyOne(cfg, segs, data).0, [ApplyOne(cfg, segs, data).1])
  {
    ApplyRefines(cfg, segs, data);
    hide ApplyOne, WellFormed;
    assert [data][0] == data && [data][1..] == [];
    NilRight([ApplyOne(cfg, segs, data).1]);
  }

  /** Two replicas whose logs hold the same records, however they are cut into segments, answer the same
      commands alike and again hold the same records. */
  lemma ReplicasAgree(cfg: Config, segs: seq<Seg>, cfg': Config, segs': seq<Seg>, cmds: seq<Bytes>)
    requires cfg.Valid() && WellFormed(cfg, segs) && cfg'.Valid() && WellFormed(cfg', segs')
    requires cfg.codec == cfg'.codec && FlatOf(segs) == FlatOf(segs')
    requires FlatOf(segs).Next() + |cmds| < TWO_64
    ensures Last(segs).Next() == Last(segs').Next() == FlatOf(segs).Next()
    ensures ApplyAll(cfg, segs, cmds).1 == ApplyAll(cfg', segs', cmds).1
    ensures FlatOf(ApplyAll(cfg, segs, cmds).0) == FlatOf(ApplyAll(cfg', segs', cmds).0)
  {
    FlatNext(segs);
    FlatNext(segs');
    ApplyAllRefines(cfg, segs, cmds);
    ApplyAllRefines(cfg', segs', cmds);
  }

  // ---------------------------------------------------------------------------------------------
  // Restoring a snapshot

  /** Records as a log would stamp them from `next` on. */
  ghost predicate StampedFrom(c: Codec, recs: seq<Record>, next: nat) {
    forall i :: 0 <= i < |recs| ==> recs[i].offset == next + i && c.marshal(recs[i]).Some?
  }

  /** A stream whose payloads are consecutive records appends exactly those, and ends as its parsing does. */
  lemma {:induction false} ReplayParsed(cfg: Config, segs: seq<Seg>, recs: seq<Record>, bytes: Bytes)
    requires cfg.Valid() && WellFormed(cfg, segs) && Last(segs).Next() + |recs| < TWO_64
    requires StampedFrom(cfg.codec, recs, Last(segs).Next())
    requires ParseFrames(bytes).0 == cfg.codec.Payloads(recs)
    ensures var (after, err) := Replay(cfg, segs, bytes);
            && err == ParseFrames(bytes).1 && WellFormed(cfg, after)
            && FlatOf(after) == Flat(FlatOf(segs).low, FlatOf(segs).recs + recs)
    decreases |recs|
  {
    hide *;
    ReplayableLog(cfg, segs);
    if recs == [] {
      ReplayNothing(cfg, segs, bytes);
      NilRight(FlatOf(segs).recs);
    } else {
      ParsedFirst(cfg.codec, recs, bytes);
      ReplayOne(cfg, segs, recs, bytes, NextFrame(bytes).rest);
      ReplayParsed(cfg, Append(cfg, segs, recs[0]).0, recs[1..], NextFrame(bytes).rest);
      ConsConcat(FlatOf(segs).recs, recs);
    }
  }

  lemma ReplayNothing(cfg: Config, segs: seq<Seg>, bytes: Bytes)
    requires cfg.Valid() && WellFormed(cfg, segs) && ParseFrames(bytes).0 == cfg.codec.Payloads([])
    ensures ParseFrames(bytes).0 == [] && Replay(cfg, segs, bytes) == (segs, ParseFrames(bytes).1)
  {
  }

  lemma ParsedFirst(c: Codec, recs: seq<Record>, bytes: Bytes)
    requires ParseFrames(bytes).0 == c.Payloads(recs) && recs != []
    ensures |ParseFrames(bytes).0| == |recs|
    ensures NextFrame(bytes).Got? && NextFrame(bytes).payload == c.Payload(recs[0])
    ensures ParseFrames(NextFrame(bytes).rest).0 == c.Payloads(recs[1..])
    ensures ParseFrames(NextFrame(bytes).rest).1 == ParseFrames(bytes).1
    ensures |ParseFrames(bytes).0| == 1 + |ParseFrames(NextFrame(bytes).rest).0|
  {
    hide NextFrame;
    assert NextFrame(bytes).Got?;
    ParseGot(bytes);
    assert c.Payloads(recs)[1..] == c.Payloads(recs[1..]);
  }

  /** A payload that does not unmarshal, or to a record that does not marshal at the offset it would get. */
  ghost predicate Unusable(c: Codec, p: Bytes, next: u64) {
    match c.unmarshal(p)
    case None => true
    case Some(r) => c.marshal(Stamped(r, next)).None?
  }

  /** A stream of records and then a frame with the payload `bad`, whatever follows it. */
  ghost predicate EndsIn(c: Codec, recs: seq<Record>, bad: Bytes, tail: Bytes, bytes: Bytes) {
    bytes == c.Encoded(recs) + (Frame(bad) + tail)
  }

  /** When the records are consecutive and the payload cannot be used, the records are appended, nothing after them is,
      and the replay ends with the codec's error. */
  lemma {:induction false} ReplayStopsAtMalformed(
      cfg: Config, segs: seq<Seg>, recs: seq<Record>, bad: Bytes, tail: Bytes, bytes: Bytes)
    requires cfg.Valid() && WellFormed(cfg, segs) && StampedFrom(cfg.codec, recs, Last(segs).Next())
    requires |bad| < TWO_63 && Last(segs).Next() + |recs| < TWO_64
    requires Unusable(cfg.codec, bad, Last(segs).Next() + |recs|)
    requires EndsIn(cfg.codec, recs, bad, tail, bytes) && Last(segs).Next() + |ParseFrames(bytes).0| < TWO_64
    ensures var (after, err) := Replay(cfg, segs, bytes);
            && err == Some(Malformed) && WellFormed(cfg, after)
            && FlatOf(after) == Flat(FlatOf(segs).low, FlatOf(segs).recs + recs)
    decreases |recs|
  {
    hide *;
    ReplayableLog(cfg, segs);
    if recs == [] {
      EndsAtOnce(cfg.codec, bad, tail, bytes);
      ParsedOneMore(bytes);
      ReplayUnusable(cfg, segs, bad, bytes);
      NilRight(FlatOf(segs).recs);
    } else {
      var more := EndsLater(cfg.codec, recs, bad, tail, bytes);
      ParsedOneMore(bytes);
      ReplayOne(cfg, segs, recs, bytes, more);
      ReplayStopsAtMalformed(cfg, Append(cfg, segs, recs[0]).0, recs[1..], bad, tail, more);
      ConsConcat(FlatOf(segs).recs, recs);
    }
  }

  lemma ReplayableLog(cfg: Config, segs: seq<Seg>)
    requires cfg.Valid() && WellFormed(cfg, segs)
    ensures cfg.codec.Lawful() && segs != []
  {
  }

  lemma ConsConcat<T>(a: seq<T>, b: seq<T>)
    requires b != []
    ensures (a + [b[0]]) + b[1..] == a + b
  {
    Assoc(a, [b[0]], b[1..]);
    UnCons(b);
  }

  lemma EndsAtOnce(c: Codec, bad: Bytes, tail: Bytes, bytes: Bytes)
    requires EndsIn(c, [], bad, tail, bytes) && |bad| < TWO_63
    ensures NextFrame(bytes) == Got(bad, tail)
  {
    hide Frame, Codec.Encoded, NextFrame;
    EncodedNone(c);
    NilLeft(Frame(bad) + tail);
    NextFrameOfFrame(bad, tail);
  }

  lemma EndsLater(c: Codec, recs: seq<Record>, bad: Bytes, tail: Bytes, bytes: Bytes) returns (more: Bytes)
    requires EndsIn(c, recs, bad, tail, bytes) && recs != [] && c.Lawful()
    ensures EndsIn(c, recs[1..], bad, tail, more) && NextFrame(bytes) == Got(c.Payload(recs[0]), more)
  {
    hide Frame, Codec.Encoded, NextFrame;
    more := c.Encoded(recs[1..]) + (Frame(bad) + tail);
    FirstFrame(c, recs, Frame(bad) + tail);
  }

  lemma ReplayUnusable(cfg: Config, segs: seq<Seg>, bad: Bytes, bytes: Bytes)
    requires cfg.Valid() && WellFormed(cfg, segs) && NextFrame(bytes).Got? && NextFrame(bytes).payload == bad
    requires Last(segs).Next() + |ParseFrames(bytes).0| < TWO_64 && Last(segs).Next() < TWO_64 - 1
    requires Unusable(cfg.codec, bad, Last(segs).Next())
    ensures var (after, err) := Replay(cfg, segs, bytes);
            err == Some(Malformed) && WellFormed(cfg, after) && FlatOf(after) == FlatOf(segs)
  {
    hide Append, Linked, Seg.Ok, Flatten, NextFrame, ParseFrames;
    FlatNext(segs);
    match cfg.codec.unmarshal(bad) {
      case None =>
      case Some(r) => AppendRefines(cfg, segs, r);
    }
  }

  lemma EncodedNone(c: Codec)
    ensures c.Encoded([]) == []
  {
    assert c.Payloads([]) == [];
  }

  /** The first record of a stream is its first frame. */
  lemma FirstFrame(c: Codec, recs: seq<Record>, rest: Bytes)
    requires recs != [] && c.Lawful()
    ensures NextFrame(c.Encoded(recs) + rest) == Got(c.Payload(recs[0]), c.Encoded(recs[1..]) + rest)
  {
    PayloadsSmall(c, recs);
    assert c.Payloads(recs)[1..] == c.Payloads(recs[1..]);
    FramesConsTail(c.Payloads(recs), rest);
    NextFrameOfFrame(c.Payload(recs[0]), c.Encoded(recs[1..]) + rest);
  }

  /** A record that is next in line is appended as it is, and the replay goes on. */
  lemma ReplayOne(cfg: Config, segs: seq<Seg>, recs: seq<Record>, bytes: Bytes, more: Bytes)
    requires cfg.Valid() && WellFormed(cfg, segs) && recs != [] && StampedFrom(cfg.codec, recs, Last(segs).Next())
    requires NextFrame(bytes) == Got(cfg.codec.Payload(recs[0]), more)
    requires Last(segs).Next() + |ParseFrames(bytes).0| < TWO_64 && Last(segs).Next() < TWO_64 - 1
    requires |ParseFrames(bytes).0| == 1 + |ParseFrames(more).0|
    ensures var after := Append(cfg, segs, recs[0]).0;
            && WellFormed(cfg, after) && Last(after).Next() + |ParseFrames(more).0| < TWO_64
            && Last(after).Next() == Last(segs).Next() + 1
            && Replay(cfg, segs, bytes) == Replay(cfg, after, more)
            && FlatOf(after) == Flat(FlatOf(segs).low, FlatOf(segs).recs + [recs[0]])
            && StampedFrom(cfg.codec, recs[1..], Last(after).Next())
  {
    hide Append, Linked, Seg.Ok, Flatten, NextFrame, ParseFrames;
    var r := recs[0];
    assert cfg.codec.marshal(r).Some? && cfg.codec.unmarshal(cfg.codec.Payload(r)) == Some(r);
    assert r.offset == Last(segs).Next();
    FlatNext(segs);
    AppendRefines(cfg, segs, r);
    AppendNext(cfg, segs, r);
  }

  lemma ParseGot(bytes: Bytes)
    requires NextFrame(bytes).Got?
    ensures ParseFrames(bytes).0[1..] == ParseFrames(NextFrame(bytes).rest).0
    ensures ParseFrames(bytes).1 == ParseFrames(NextFrame(bytes).rest).1
  {
  }

  /** The log a restore starts from: empty, based at the first record's offset. */
  function FreshLog(base: nat): seq<Seg> { [Seg(base, [])] }

  lemma FreshLogFlat(cfg: Config, base: nat)
    requires base < TWO_64
    ensures WellFormed(cfg, FreshLog(base)) && FlatOf(FreshLog(base)) == Flat(base, [])
  {
    EmptySegOk(cfg, base);
    assert Flatten([]) == [];
  }

  lemma LogStamped(cfg: Config, segs: seq<Seg>)
    requires WellFormed(cfg, segs)
    ensures StampedFrom(cfg.codec, Flatten(segs), segs[0].base)
    ensures segs[0].base + |Flatten(segs)| == Last(segs).Next() < TWO_64
  {
    FlatNext(segs);
    forall i | 0 <= i < |Flatten(segs)|
      ensures Flatten(segs)[i].offset == segs[0].base + i && cfg.codec.marshal(Flatten(segs)[i]).Some?
    {
      FlatStamped(cfg, segs, i);
    }
  }

  lemma EncodedParses(c: Codec, recs: seq<Record>)
    requires c.Lawful()
    ensures ParseFrames(c.Encoded(recs)) == (c.Payloads(recs), None)
  {
    hide Frames, ParseFrames;
    PayloadsSmall(c, recs);
    ParseInvertsFrames(c.Payloads(recs));
  }

  /** The stream of a quiet log parses to its records. */
  lemma StreamedParses(c: Codec, segs: seq<Seg>)
    requires c.Lawful()
    ensures ParseFrames(Streamed(c, segs)) == (c.Payloads(Flatten(segs)), None)
  {
    hide Streamed, Flatten, ParseFrames, Codec.Encoded;
    StreamedIsEncoded(c, segs);
    EncodedParses(c, Flatten(segs));
  }

  /** Replaying the stream of a quiet log into a fresh log with the same base gives the same records, whatever the
      limits of the two logs are. */
  lemma ReplayRebuilds(cfg: Config, segs: seq<Seg>, cfg': Config)
    requires WellFormed(cfg, segs) && cfg'.Valid() && cfg'.codec == cfg.codec
    ensures WellFormed(cfg', FreshLog(segs[0].base))
    ensures ParseFrames(Streamed(cfg.codec, segs)).0 == cfg.codec.Payloads(Flatten(segs))
    ensures segs[0].base + |Flatten(segs)| < TWO_64
    ensures var (restored, err) := Replay(cfg', FreshLog(segs[0].base), Streamed(cfg.codec, segs));
            err == None && WellFormed(cfg', restored) && FlatOf(restored) == FlatOf(segs)
  {
    assert cfg'.codec.Lawful();
    hide Streamed, Flatten, Replay, ParseFrames, Config.Valid, Linked, Seg.Ok;
    var recs, base := Flatten(segs), segs[0].base;
    LogStamped(cfg, segs);
    StreamedParses(cfg.codec, segs);
    FreshLogFlat(cfg', base);
    ReplayParsed(cfg', FreshLog(base), recs, Streamed(cfg.codec, segs));
    NilLeft(recs);
  }

  /** Restore inverts Snapshot: replaying the stream of a quiet log with records into a fresh log based at its first
      record's offset gives the same lowest offset and the same records. */
  lemma RestoreInvertsSnapshot(cfg: Config, segs: seq<Seg>, cfg': Config)
    requires WellFormed(cfg, segs) && Flatten(segs) != [] && cfg'.Valid() && cfg'.codec == cfg.codec
    ensures WellFormed(cfg', FreshLog(Flatten(segs)[0].offset))
    ensures Flatten(segs)[0].offset + |ParseFrames(Streamed(cfg.codec, segs)).0| < TWO_64
    ensures var (restored, err) := Replay(cfg', FreshLog(Flatten(segs)[0].offset), Streamed(cfg.codec, segs));
            err == None && WellFormed(cfg', restored) && FlatOf(restored) == FlatOf(segs)
  {
    hide Replay, WellFormed, Flatten, FlatOf, Streamed, ParseFrames, Config.Valid, FreshLog;
    LogStamped(cfg, segs);
    ReplayRebuilds(cfg, segs, cfg');
  }

  /** As written, `Restore` fails on the snapshot of any log that has records: the stream is empty exactly when
      the log is, and otherwise its first frame is the first record, at which `Restore` resets the log. */
  lemma SnapshotStartsWithFirstRecord(cfg: Config, segs: seq<Seg>)
    requires cfg.Valid() && WellFormed(cfg, segs)
    ensures Streamed(cfg.codec, segs) == [] <==> Flatten(segs) == []
    ensures Flatten(segs) != [] ==>
              var first := NextFrame(Streamed(cfg.codec, segs));
              first.Got? && cfg.codec.unmarshal(first.payload) == Some(Flatten(segs)[0])
  {
    var recs := Flatten(segs);
    StreamedIsEncoded(cfg.codec, segs);
    if recs != [] {
      LogStamped(cfg, segs);
      PayloadsSmall(cfg.codec, recs);
      hide Flatten, Streamed, BigEndian;
      var ps := cfg.codec.Payloads(recs);
      FramesCons(ps);
      NextFrameOfFrame(ps[0], Frames(ps[1..]));
      assert cfg.codec.marshal(recs[0]).Some?;
    }
  }

  /** Restoring from a snapshot cut anywhere: the whole records before the cut come back, and the error tells a
      cut inside a frame from one between frames, which goes unnoticed. */
  lemma RestoreOfCutSnapshot(cfg: Config, segs: seq<Seg>, cfg': Config, n: nat)
    requires WellFormed(cfg, segs) && cfg'.Valid() && cfg'.codec == cfg.codec && n <= |Streamed(cfg.codec, segs)|
    ensures WellFormed(cfg', FreshLog(segs[0].base))
    ensures segs[0].base + |ParseFrames(Streamed(cfg.codec, segs)[..n]).0| < TWO_64
    ensures var ps := cfg.codec.Payloads(Flatten(segs));
            var k := WholeFrames(ps, n);
            var (restored, err) := Replay(cfg', FreshLog(segs[0].base), Streamed(cfg.codec, segs)[..n]);
            && StartOf(ps, k) <= n && err == CutEnding(n - StartOf(ps, k))
            && WellFormed(cfg', restored) && FlatOf(restored) == Flat(segs[0].base, Flatten(segs)[..k])
  {
    hide Frames, Streamed, Flatten, Replay, NextFrame, ParseFrames, WholeFrames, CutEnding, Linked, Seg.Ok;
    StreamedIsEncoded(cfg.codec, segs);
    CutParsed(cfg.codec, Flatten(segs), n);
    var recs, base := Flatten(segs), segs[0].base;
    var k := WholeFrames(cfg.codec.Payloads(recs), n);
    LogStamped(cfg, segs);
    FreshLogFlat(cfg', base);
    ReplayParsed(cfg', FreshLog(base), recs[..k], Streamed(cfg.codec, segs)[..n]);
    NilLeft(recs[..k]);
  }

  lemma CutParsed(c: Codec, recs: seq<Record>, n: nat)
    requires c.Lawful() && n <= |c.Encoded(recs)|
    ensures var k := WholeFrames(c.Payloads(recs), n);
            && k <= |recs| && StartOf(c.Payloads(recs), k) <= n
            && ParseFrames(c.Encoded(recs)[..n]) == (c.Payloads(recs[..k]), CutEnding(n - StartOf(c.Payloads(recs), k)))
  {
    hide Frames, ParseFrames, NextFrame, WholeFrames, CutEnding;
    PayloadsSmall(c, recs);
    ParseOfCut(c.Payloads(recs), n);
    var k := WholeFrames(c.Payloads(recs), n);
    assert c.Payloads(recs[..k]) == c.Payloads(recs)[..k];
  }

  /** Commands applied in two stretches. */
  lemma {:induction false} ApplyAllSplit(cfg: Config, segs: seq<Seg>, cmds: seq<Bytes>, more: seq<Bytes>)
    requires cfg.Valid() && WellFormed(cfg, segs) && Last(segs).Next() + |cmds| + |more| < TWO_64
    ensures var there := ApplyAll(cfg, segs, cmds);
            && WellFormed(cfg, there.0) && Last(there.0).Next() + |more| < TWO_64
            && ApplyAll(cfg, segs, cmds + more)
               == (ApplyAll(cfg, there.0, more).0, there.1 + ApplyAll(cfg, there.0, more).1)
    decreases |cmds|
  {
    hide ApplyOne, Linked, Seg.Ok, Config.Valid;
    if cmds == [] {
      NilLeft(more);
      NilLeft(ApplyAll(cfg, segs, more).1);
    } else {
      var one := ApplyOne(cfg, segs, cmds[0]);
      ApplyRefines(cfg, segs, cmds[0]);
      ApplyAllSplit(cfg, one.0, cmds[1..], more);
      assert (cmds + more)[0] == cmds[0] && (cmds + more)[1..] == cmds[1..] + more;
      var rest := ApplyAll(cfg, one.0, cmds[1..]);
      Assoc([one.1], rest.1, ApplyAll(cfg, rest.0, more).1);
    }
  }

  /** A replica that joins by snapshot: restoring the stream of another's log and applying the commands that
      follow gives the other's answers and the other's records. */
  lemma SnapshotReplacesPrefix(cfg: Config, there: seq<Seg>, more: seq<Bytes>, cfg': Config)
    requires cfg.Valid() && WellFormed(cfg, there) && cfg'.Valid() && cfg'.codec == cfg.codec
    requires Last(there).Next() + |more| < TWO_64
    ensures WellFormed(cfg', FreshLog(there[0].base))
    ensures there[0].base + |ParseFrames(Streamed(cfg.codec, there)).0| < TWO_64
    ensures var (here, err) := Replay(cfg', FreshLog(there[0].base), Streamed(cfg.codec, there));
            && err == None && WellFormed(cfg', here) && Last(here).Next() + |more| < TWO_64
            && ApplyAll(cfg', here, more).1 == ApplyAll(cfg, there, more).1
            && FlatOf(ApplyAll(cfg', here, more).0) == FlatOf(ApplyAll(cfg, there, more).0)
  {
    ReplayRebuilds(cfg, there, cfg');
    var here := Replay(cfg', FreshLog(there[0].base), Streamed(cfg.codec, there)).0;
    FlatNext(there);
    hide ApplyAll, Replay, Flatten, Streamed, Frames, WellFormed, ParseFrames, Config.Valid;
    ReplicasAgree(cfg', here, cfg, there, more);
  }

  lemma {:induction false} LowStays(c: Codec, f: Flat, cmds: seq<Bytes>)
    requires f.Next() + |cmds| < TWO_64
    ensures FlatApplyAll(c, f, cmds).0.low == f.low
    decreases |cmds|
  {
    if cmds != [] {
      LowStays(c, FlatApply(c, f, cmds[0]).0, cmds[1..]);
    }
  }

  /** Of two replicas that start empty at the same offset, one applies all commands, and the other joins in the middle
      by restoring a snapshot of the first and applies only the commands that follow.  Together the first stretch of
      answers and the other's are the answers to all commands, and both replicas end with the same records. */
  lemma JoinBySnapshot(cfg: Config, base: u64, cmds: seq<Bytes>, more: seq<Bytes>, cfg': Config)
    requires cfg.Valid() && cfg'.Valid() && cfg'.codec == cfg.codec && base + |cmds| + |more| < TWO_64
    ensures WellFormed(cfg, FreshLog(base)) && WellFormed(cfg', FreshLog(base))
    ensures var there := ApplyAll(cfg, FreshLog(base), cmds);
            var whole := ApplyAll(cfg, FreshLog(base), cmds + more);
            && base + |ParseFrames(Streamed(cfg.codec, there.0)).0| < TWO_64
            && var (here, err) := Replay(cfg', FreshLog(base), Streamed(cfg.codec, there.0));
               && err == None && WellFormed(cfg', here) && Last(here).Next() + |more| < TWO_64
               && whole.1 == there.1 + ApplyAll(cfg', here, more).1
               && FlatOf(whole.0) == FlatOf(ApplyAll(cfg', here, more).0)
  {
    hide ApplyAll, FlatApplyAll, Replay, Flatten, Streamed, Frames, ParseFrames, Config.Valid, Linked, Seg.Ok;
    FreshLogFlat(cfg, base);
    FreshLogFlat(cfg', base);
    ApplyAllSplit(cfg, FreshLog(base), cmds, more);
    ApplyAllRefines(cfg, FreshLog(base), cmds);
    LowStays(cfg.codec, Flat(base, []), cmds);
    SnapshotReplacesPrefix(cfg, ApplyAll(cfg, FreshLog(base), cmds).0, more, cfg');
  }
}
