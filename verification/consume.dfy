/** The streaming loop of internal/server/server.go, running against a log that grows and is truncated meanwhile. */
module Consumers {
  import opened Wire
  import opened Records
  import opened Spec
  import opened Logs
  import opened Runs
  import Recovery

  class ConsumeRequest {
    var offset: u64

    constructor (off: u64)
      ensures offset == off
    {
      offset := off;
    }
  }

  /** What happens next: an operation of someone else on the log, or a turn of the loop, in which the stream's context
      may be done and sending may fail. */
  datatype Slot = Other(op: Op) | Turn(done: bool, sendFails: bool)

  ghost predicate SlotStep(s: State, slot: Slot, s': State) {
    match slot
    case Other(op) => !op.ReopenOp? && Legal(s, op) && exists out :: Step(s, op, out, s')
    case Turn(_, _) => s' == s
  }

  /** The others append, read and legally truncate; the loop only reads. */
  ghost predicate Scheduled(states: seq<State>, slots: seq<Slot>) {
    && |states| == |slots| + 1 && states[0].Ok()
    && forall i {:trigger slots[i]} :: 0 <= i < |slots| ==> SlotStep(states[i], slots[i], states[i + 1])
  }

  lemma SlotExtends(s: State, slot: Slot, s': State)
    requires s.Ok() && SlotStep(s, slot, s')
    ensures s'.Ok() && Extends(FlatOf(s.segs), FlatOf(s'.segs))
  {
    match slot {
      case Turn(_, _) => ExtendsItself(FlatOf(s.segs));
      case Other(op) =>
        var out :| Step(s, op, out, s');
        StepRefines(s, op, out, s');
        StepExtends(s.cfg.codec, FlatOf(s.segs), op, out, FlatOf(s'.segs));
    }
  }

  lemma {:induction false} ScheduleExtends(states: seq<State>, slots: seq<Slot>, i: nat, j: nat)
    requires Scheduled(states, slots) && i <= j <= |slots|
    ensures |states| == |slots| + 1 && states[i].Ok() && states[j].Ok()
    ensures Extends(FlatOf(states[i].segs), FlatOf(states[j].segs))
    decreases j
  {
    hide Extends, State.Ok, Flatten, FlatOf;
    assert |states| == |slots| + 1;
    if j == 0 {
      ExtendsItself(FlatOf(states[0].segs));
    } else {
      assert SlotStep(states[j - 1], slots[j - 1], states[j]);
      hide Extends, SlotStep, State.Ok, Flatten, FlatOf;
      if i == j {
        ScheduleExtends(states, slots, j - 1, j - 1);
        SlotExtends(states[j - 1], slots[j - 1], states[j]);
        ExtendsItself(FlatOf(states[j].segs));
      } else {
        ScheduleExtends(states, slots, i, j - 1);
        SlotExtends(states[j - 1], slots[j - 1], states[j]);
        ExtendsTransitive(FlatOf(states[i].segs), FlatOf(states[j - 1].segs), FlatOf(states[j].segs));
      }
    }
  }

  /** `rec` is the record of `off`: some state holds it there, and none holds another. */
  ghost predicate RecordOfOffset(states: seq<State>, off: nat, rec: Record) {
    && (exists j :: 0 <= j < |states| && FlatOf(states[j].segs).Read(off) == Result.Ok(rec))
    && (forall j :: 0 <= j < |states| && FlatOf(states[j].segs).Holds(off) ==>
          FlatOf(states[j].segs).Read(off) == Result.Ok(rec))
  }

  lemma ReadIsRecordOfOffset(states: seq<State>, slots: seq<Slot>, n: nat, off: nat)
    requires Scheduled(states, slots) && n < |states| && FlatOf(states[n].segs).Holds(off)
    ensures RecordOfOffset(states, off, FlatOf(states[n].segs).Read(off).value)
  {
    var f := FlatOf(states[n].segs);
    forall j | 0 <= j < |states| && FlatOf(states[j].segs).Holds(off)
      ensures FlatOf(states[j].segs).Read(off) == f.Read(off)
    {
      if j <= n {
        ScheduleExtends(states, slots, j, n);
      } else {
        ScheduleExtends(states, slots, n, j);
      }
    }
  }

  // ---------------------------------------------------------------------------------------------
  // What a stream sends

  /** A stream after some slots: what it has sent, and once it has ended, the error it ended with if any. */
  datatype Streaming = Streaming(sent: seq<Record>, end: Option<Option<Error>>)

  /** What a slot gives a live stream that waits for offset `off` of log `f`: a record to send, or an end.  A turn
      sends the record of the offset if it is there. */
  function Turned(f: Flat, slot: Slot, off: nat): (Option<Record>, Option<Option<Error>>) {
    if slot.Other? then (None, None)
    else if slot.done then (None, Some(None))
    else match f.Read(off)
      case Err(_) => (None, None)
      case Ok(r) => if slot.sendFails then (None, Some(Some(SendFailed))) else (Some(r), None)
  }

  /** What a slot makes of a stream that started at `off`. */
  function Served(f: Flat, slot: Slot, off: nat, s: Streaming): Streaming {
    if s.end.Some? then s
    else
      var (rec, end) := Turned(f, slot, off + |s.sent|);
      Streaming(if rec.Some? then s.sent + [rec.value] else s.sent, end)
  }

  /** The stream after the first `n` slots. */
  function StreamAfter(states: seq<State>, slots: seq<Slot>, off: nat, n: nat): Streaming
    requires n <= |slots| <= |states|
  {
    if n == 0 then Streaming([], None)
    else Served(FlatOf(states[n - 1].segs), slots[n - 1], off, StreamAfter(states, slots, off, n - 1))
  }

  /** The records of `off` and the offsets after it. */
  ghost predicate InOrder(states: seq<State>, off: nat, recs: seq<Record>) {
    forall i :: 0 <= i < |recs| ==> RecordOfOffset(states, off + i, recs[i])
  }

  /** Whatever the others do, what has been sent is exactly the records of the requested offset and the ones after
      it, in order, without gap or repetition. */
  lemma {:induction false} SentInOrder(states: seq<State>, slots: seq<Slot>, off: nat, n: nat)
    requires Scheduled(states, slots) && n <= |slots|
    ensures |states| == |slots| + 1
    ensures InOrder(states, off, StreamAfter(states, slots, off, n).sent)
  {
    hide RecordOfOffset, Scheduled, FlatOf, Served, Flat.Read;
    ScheduleLength(states, slots);
    if n > 0 {
      SentInOrder(states, slots, off, n - 1);
      var before := StreamAfter(states, slots, off, n - 1);
      ServedSends(FlatOf(states[n - 1].segs), slots[n - 1], off, before);
      if FlatOf(states[n - 1].segs).Holds(off + |before.sent|) {
        ReadIsRecordOfOffset(states, slots, n - 1, off + |before.sent|);
      }
    }
  }

  lemma ServedSends(f: Flat, slot: Slot, off: nat, s: Streaming)
    ensures || Served(f, slot, off, s).sent == s.sent
            || (f.Holds(off + |s.sent|) && Served(f, slot, off, s).sent == s.sent + [f.Read(off + |s.sent|).value])
  {
  }

  /** What has been sent stays sent, and an ended stream stays as it is. */
  lemma {:induction false} StreamGrows(states: seq<State>, slots: seq<Slot>, off: nat, n: nat, m: nat)
    requires n <= m <= |slots| <= |states|
    ensures StreamAfter(states, slots, off, n).sent <= StreamAfter(states, slots, off, m).sent
    ensures StreamAfter(states, slots, off, n).end.Some? ==>
              StreamAfter(states, slots, off, m) == StreamAfter(states, slots, off, n)
    decreases m
  {
    hide FlatOf;
    if n < m {
      StreamGrows(states, slots, off, n, m - 1);
    }
  }

  /** Slot `n` ends a stream that is still live: the context is done, or the record it waits for is there and cannot be
      sent. */
  ghost predicate EndsStream(states: seq<State>, slots: seq<Slot>, off: nat, n: nat)
    requires n < |slots| <= |states|
  {
    && slots[n].Turn?
    && (slots[n].done
        || (slots[n].sendFails && FlatOf(states[n].segs).Holds(off + |StreamAfter(states, slots, off, n).sent|)))
  }

  /** One slot of a live stream.  When the context is done nothing is sent, even if the next record is there; a record
      that cannot be sent is not counted; otherwise the next record is sent if it is there. */
  lemma SlotOutcome(states: seq<State>, slots: seq<Slot>, off: nat, n: nat)
    requires n < |slots| <= |states| && StreamAfter(states, slots, off, n).end == None
    ensures var sent := StreamAfter(states, slots, off, n).sent;
            var after := StreamAfter(states, slots, off, n + 1);
            var f := FlatOf(states[n].segs);
            && (slots[n].Other? ==> after == Streaming(sent, None))
            && (slots[n].Turn? && slots[n].done ==> after == Streaming(sent, Some(None)))
            && (slots[n].Turn? && !slots[n].done && !f.Holds(off + |sent|) ==> after == Streaming(sent, None))
            && (slots[n].Turn? && !slots[n].done && f.Holds(off + |sent|) ==>
                  after == if slots[n].sendFails then Streaming(sent, Some(Some(SendFailed)))
                           else Streaming(sent + [f.recs[off + |sent| - f.low]], None))
  {
    hide FlatOf;
  }

  /** A stream has ended exactly when some slot so far ended it: it never ends by itself and never outlives its end. */
  lemma {:induction false} EndedIff(states: seq<State>, slots: seq<Slot>, off: nat, m: nat)
    requires m <= |slots| <= |states|
    ensures StreamAfter(states, slots, off, m).end.Some?
            <==> exists n: nat :: n < m && EndsStream(states, slots, off, n)
  {
    hide FlatOf, EndsStream, StreamAfter;
    if m == 0 {
      StreamStart(states, slots, off);
    } else {
      EndedIff(states, slots, off, m - 1);
      StreamGrows(states, slots, off, m - 1, m);
      if StreamAfter(states, slots, off, m - 1).end == None {
        LiveSlotEnds(states, slots, off, m - 1);
      }
    }
  }

  lemma LiveSlotEnds(states: seq<State>, slots: seq<Slot>, off: nat, n: nat)
    requires n < |slots| <= |states| && StreamAfter(states, slots, off, n).end == None
    ensures StreamAfter(states, slots, off, n + 1).end.Some? <==> EndsStream(states, slots, off, n)
  {
    hide FlatOf, StreamAfter;
    SlotOutcome(states, slots, off, n);
  }

  /** How many turns of the loop there are in slots `n` to `m`. */
  function Turns(slots: seq<Slot>, n: nat, m: nat): nat
    requires n <= m <= |slots|
    decreases m
  {
    if n == m then 0 else Turns(slots, n, m - 1) + if slots[m - 1].Turn? then 1 else 0
  }

  function Min(a: int, b: int): int {
    if a <= b then a else b
  }

  /** A stream whose context lasts and whose sends succeed catches up: unless the record it waits for is truncated,
      every turn sends one record, until all that the log held at `n` are sent. */
  lemma {:induction false} StreamCatchesUp(states: seq<State>, slots: seq<Slot>, off: nat, n: nat, m: nat)
    requires Scheduled(states, slots) && n <= m <= |slots| < |states|
    requires forall k :: 0 <= k < m ==> slots[k].Turn? ==> !slots[k].done && !slots[k].sendFails
    requires forall k :: n <= k < m ==> FlatOf(states[k].segs).low <= off + |StreamAfter(states, slots, off, k).sent|
    ensures StreamAfter(states, slots, off, m).end == None
    ensures off + |StreamAfter(states, slots, off, m).sent|
            >= Min(off + |StreamAfter(states, slots, off, n).sent| + Turns(slots, n, m), FlatOf(states[n].segs).Next())
    decreases m
  {
    hide Scheduled, FlatOf, State.Ok, Served;
    if m == n {
      StreamLasts(states, slots, off, m);
    } else {
      StreamCatchesUp(states, slots, off, n, m - 1);
      ScheduleExtends(states, slots, n, m - 1);
      assert n <= m - 1 < m;
      GoodSlot(FlatOf(states[m - 1].segs), slots[m - 1], off, StreamAfter(states, slots, off, m - 1));
    }
  }

  lemma {:induction false} StreamLasts(states: seq<State>, slots: seq<Slot>, off: nat, n: nat)
    requires n <= |slots| <= |states|
    requires forall k :: 0 <= k < n ==> slots[k].Turn? ==> !slots[k].done && !slots[k].sendFails
    ensures StreamAfter(states, slots, off, n).end == None
  {
    hide FlatOf;
    if n > 0 {
      StreamLasts(states, slots, off, n - 1);
    }
  }

  lemma GoodSlot(f: Flat, slot: Slot, off: nat, s: Streaming)
    requires s.end == None && (slot.Turn? ==> !slot.done && !slot.sendFails)
    ensures Served(f, slot, off, s).end == None
    ensures |Served(f, slot, off, s).sent| == |s.sent| + if slot.Turn? && f.Holds(off + |s.sent|) then 1 else 0
  {
  }

  /** The context is done in some turn of slots `n` to `m`. */
  ghost predicate DoneWithin(slots: seq<Slot>, n: nat, m: nat)
    requires n <= m <= |slots|
  {
    exists k :: n <= k < m && slots[k].Turn? && slots[k].done
  }

  /** Once the record it waits for is truncated, a stream never sends anything again and reports no error: it takes
      every turn as out of range and keeps waiting until the context is done. */
  lemma {:induction false} StreamStalls(states: seq<State>, slots: seq<Slot>, off: nat, n: nat, m: nat)
    requires Scheduled(states, slots) && n <= m <= |slots| < |states|
    requires off + |StreamAfter(states, slots, off, n).sent| < FlatOf(states[n].segs).low
    ensures StreamAfter(states, slots, off, m).sent == StreamAfter(states, slots, off, n).sent
    ensures StreamAfter(states, slots, off, m).end
            == if StreamAfter(states, slots, off, n).end.Some? then StreamAfter(states, slots, off, n).end
               else if DoneWithin(slots, n, m) then Some(None) else None
    decreases m
  {
    hide Scheduled, FlatOf, State.Ok, DoneWithin;
    if n < m {
      StreamStalls(states, slots, off, n, m - 1);
      ScheduleExtends(states, slots, n, m - 1);
      DoneOneMore(slots, n, m - 1);
    } else {
      DoneNowhere(slots, n);
    }
  }

  lemma DoneNowhere(slots: seq<Slot>, n: nat)
    requires n <= |slots|
    ensures !DoneWithin(slots, n, n)
  {
  }

  lemma DoneOneMore(slots: seq<Slot>, n: nat, m: nat)
    requires n <= m < |slots|
    ensures DoneWithin(slots, n, m + 1) <==> DoneWithin(slots, n, m) || (slots[m].Turn? && slots[m].done)
  {
  }

  /** So a request below the lowest offset gets no record and no error, ever. */
  lemma RequestBelowLowest(states: seq<State>, slots: seq<Slot>, off: nat, m: nat)
    requires Scheduled(states, slots) && m <= |slots| < |states| && off < FlatOf(states[0].segs).low
    ensures StreamAfter(states, slots, off, m) == Streaming([], if DoneWithin(slots, 0, m) then Some(None) else None)
  {
    hide Scheduled, FlatOf, DoneWithin;
    StreamStalls(states, slots, off, 0, m);
  }

  // ---------------------------------------------------------------------------------------------
  // The loop

  /** `ConsumeStream`: at every turn read the requested offset; out of range is no error and changes nothing; a
      record is sent and the offset moves on.  It stops after `n` slots, when the stream has ended or, in the model,
      the slots are used up. */
  method ConsumeStream(log: Log, req: ConsumeRequest, slots: seq<Slot>, ghost states: seq<State>)
    returns (sent: seq<Record>, err: Option<Error>, ghost n: nat)
    requires log.Valid() && Scheduled(states, slots) && states[0] == State(log.config, log.model)
    modifies req, log`segments, log`activeSegment, log`model, log.dir`files, log.Footprint()
    ensures n <= |slots| < |states| && log.Valid() && State(log.config, log.model) == states[n]
    ensures var stream := StreamAfter(states, slots, old(req.offset), |slots|);
            && sent == stream.sent && req.offset == old(req.offset) + |sent|
            && match stream.end
               case None => n == |slots| && err == None
               case Some(e) => err == e
  {
    hide *;
    ScheduleLength(states, slots);
    sent, err, n := [], None, 0;
    StreamStart(states, slots, req.offset);
    for i := 0 to |slots|
      invariant n == i && log.Valid() && State(log.config, log.model) == states[n]
      invariant req.offset == old(req.offset) + |sent|
      invariant StreamAfter(states, slots, old(req.offset), n) == Streaming(sent, None)
      invariant forall o :: o in log.Footprint() ==> o in old(log.Footprint()) || fresh(o)
    {
      ghost var before := log.Footprint();
      StreamStep(states, slots, old(req.offset), n);
      var rec, end := Next(log, req, slots[i], slots, states, n);
      Serving(FlatOf(states[n].segs), slots[n], old(req.offset), sent);
      assert forall o :: o in log.Footprint() && o !in before ==> !old(allocated(o));
      n := n + 1;
      if end.Some? {
        StreamGrows(states, slots, old(req.offset), n, |slots|);
        return sent, end.value, n;
      }
      if rec.Some? {
        sent := sent + [rec.value];
      }
    }
    err := None;
  }

  lemma StreamStart(states: seq<State>, slots: seq<Slot>, off: nat)
    requires |slots| <= |states|
    ensures StreamAfter(states, slots, off, 0) == Streaming([], None)
  {
  }

  lemma StreamStep(states: seq<State>, slots: seq<Slot>, off: nat, n: nat)
    requires n < |slots| <= |states|
    ensures StreamAfter(states, slots, off, n + 1)
            == Served(FlatOf(states[n].segs), slots[n], off, StreamAfter(states, slots, off, n))
  {
  }

  lemma Serving(f: Flat, slot: Slot, off: nat, sent: seq<Record>)
    ensures var (rec, end) := Turned(f, slot, off + |sent|);
            && Served(f, slot, off, Streaming(sent, None))
               == Streaming(if rec.Some? then sent + [rec.value] else sent, end)
            && (end.Some? ==> rec.None?)
  {
  }

  /** One slot: someone else's operation, or a turn of the loop, which ends it when the context is done or sending
      fails. */
  method Next(log: Log, req: ConsumeRequest, slot: Slot, ghost slots: seq<Slot>, ghost states: seq<State>, ghost n: nat)
    returns (rec: Option<Record>, end: Option<Option<Error>>)
    requires log.Valid() && Scheduled(states, slots) && n < |slots| && slots[n] == slot
    requires n < |states| && states[n] == State(log.config, log.model)
    modifies req, log`segments, log`activeSegment, log`model, log.dir`files, log.Footprint()
    ensures log.Valid() && n + 1 < |states| && State(log.config, log.model) == states[n + 1]
    ensures (rec, end) == Turned(FlatOf(states[n].segs), slot, old(req.offset))
    ensures req.offset == old(req.offset) + if rec.Some? then 1 else 0
    ensures forall o :: o in log.Footprint() ==> o in old(log.Footprint()) || fresh(o)
  {
    hide Log.Valid, Log.Footprint, Scheduled, SlotStep, Step, Legal, WellFormed, Config.Valid, FlatOf, Flat.Read;
    log.FootprintHolds();
    rec, end := None, None;
    match slot {
      case Other(op) =>
        OthersTurn(log, op, slots, states, n);
      case Turn(done, sendFails) =>
        if done {
          TurnChangesNothing(states, slots, n);
          end := Some(None);
          return;
        }
        var res := Consume(log, req, slots, states, n);
        if res.Ok? {
          if sendFails {
            end := Some(Some(SendFailed));
            return;
          }
          rec := Some(res.value);
          req.offset := req.offset + 1;
        }
    }
  }

  /** `Consume`: the record of the requested offset; the only error is out of range. */
  method Consume(log: Log, req: ConsumeRequest, ghost slots: seq<Slot>, ghost states: seq<State>, ghost n: nat)
    returns (r: Result<Record>)
    requires log.Valid() && Scheduled(states, slots) && n < |slots| && slots[n].Turn?
    requires n < |states| && states[n] == State(log.config, log.model)
    modifies log.Footprint()
    ensures log.Valid() && log.Footprint() == old(log.Footprint())
    ensures n + 1 < |states| && State(log.config, log.model) == states[n + 1]
    ensures r == FlatOf(states[n].segs).Read(req.offset)
    ensures r.Err? ==> r == Err(OffsetOutOfRange(req.offset))
    ensures r.Ok? ==> RecordOfOffset(states, req.offset, r.value) && req.offset < TWO_64 - 1
  {
    hide Log.Valid, Log.Footprint, Scheduled, SlotStep, Flatten, FlatOf, Flat.Read, RecordOfOffset;
    TurnChangesNothing(states, slots, n);
    ConsumedRecord(states, slots, n, req.offset);
    log.FootprintHolds();
    r := log.Read(req.offset);
  }

  lemma ConsumedRecord(states: seq<State>, slots: seq<Slot>, n: nat, off: u64)
    requires Scheduled(states, slots) && n < |states|
    ensures var r := FlatOf(states[n].segs).Read(off);
            && (r.Err? ==> r == Err(OffsetOutOfRange(off)))
            && (r.Ok? ==> RecordOfOffset(states, off, r.value) && off < TWO_64 - 1)
  {
    ScheduleExtends(states, slots, n, n);
    hide Scheduled, RecordOfOffset, Flatten, Linked, Seg.Ok;
    FlatNext(states[n].segs);
    WellFormedBase(states[n].cfg, states[n].segs);
    if FlatOf(states[n].segs).Holds(off) {
      ReadIsRecordOfOffset(states, slots, n, off);
    }
  }

  method OthersTurn(log: Log, op: Op, ghost slots: seq<Slot>, ghost states: seq<State>, ghost n: nat)
    requires log.Valid() && Scheduled(states, slots) && n < |slots| && slots[n] == Other(op)
    requires n < |states| && states[n] == State(log.config, log.model)
    modifies log`segments, log`activeSegment, log`model, log.dir`files, log.Footprint()
    ensures log.Valid() && n + 1 < |states| && State(log.config, log.model) == states[n + 1]
    ensures forall o :: o in log.Footprint() ==> o in old(log.Footprint()) || fresh(o)
  {
    ScheduleExtends(states, slots, n, n);
    assert SlotStep(states[n], slots[n], states[n + 1]);
    hide Log.Valid, Log.Footprint, Scheduled, Step, Legal, State.Ok;
    ghost var out :| Step(states[n], op, out, states[n + 1]);
    var same, out' := Recovery.ExecuteOne(log, op);
    StepDetermined(states[n], op, out, states[n + 1], out', State(log.config, log.model));
  }

  lemma ScheduleLength(states: seq<State>, slots: seq<Slot>)
    requires Scheduled(states, slots)
    ensures |states| == |slots| + 1
  {
  }

  lemma TurnChangesNothing(states: seq<State>, slots: seq<Slot>, n: nat)
    requires Scheduled(states, slots) && n < |slots| && slots[n].Turn?
    ensures n + 1 < |states| && states[n + 1] == states[n]
  {
    assert SlotStep(states[n], slots[n], states[n + 1]);
  }
}
