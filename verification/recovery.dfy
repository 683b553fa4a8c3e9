/** Closing and reopening: what the next offset recovered from an index file is, and runs of the real log. */
module Recovery {
  import opened Seqs
  import opened Wire
  import opened Records
  import opened Spec
  import opened Segments
  import opened Logs
  import Runs

  /** A log that was not closed recovers the right next offset for one record or a full index only. */
  lemma UnclosedRecoversIff(cfg: Config, s: Seg)
    requires cfg.Valid() && s.Ok(cfg)
    ensures RecoverNext(s.base, Unclosed(cfg, s), cfg.maxIndexBytes) == Ok(s.Next())
            <==> |s.recs| == 1 || |s.recs| == cfg.Capacity()
  {
    hide RecoverNext, Unclosed, Codec.Encoded, Codec.Lawful;
    RecoverUnclosed(cfg, s);
  }

  /** `Close`, then `NewLog` on the same directory with any limits the index files fit: the same segments, base
      offsets, next offsets and records. */
  method Reopen(l: Log, c: Config) returns (l': Log)
    requires l.Valid() && c.WithDefaults().Valid() && c.codec == l.config.codec
    requires WellFormed(c.WithDefaults(), l.model)
    modifies l.Footprint(), l.dir`files
    ensures fresh(l') && l'.Valid() && l'.dir == l.dir && l'.config == c.WithDefaults()
    ensures l'.model == l.model == old(l.model)
    ensures forall o :: o in l'.Footprint() ==> o in old(l.Footprint()) || fresh(o)
  {
    hide Log.Valid, Segment.Valid, Segment.Repr, HoldsImage, WellFormed;
    l.Shape();
    l.FilesInFootprint();
    l.FootprintHolds();
    l.Close();
    l' := new Log(l.dir, c, l.model);
  }

  // ---------------------------------------------------------------------------------------------
  // Any run of the real log

  method ExecuteOne(l: Log, op: Runs.Op) returns (l': Log, out: Runs.Out)
    requires l.Valid() && Runs.State(l.config, l.model).Ok() && Runs.Legal(Runs.State(l.config, l.model), op)
    modifies l`segments, l`activeSegment, l`model, l.dir`files, l.Footprint()
    ensures l'.Valid() && l'.dir == l.dir
    ensures Runs.Step(Runs.State(old(l.config), old(l.model)), op, out, Runs.State(l'.config, l'.model))
    ensures forall o :: o in l'.Footprint() ==> o in old(l.Footprint()) || fresh(o)
    ensures l' == l || (fresh(l') && op.ReopenOp?)
  {
    hide Log.Valid, Log.Footprint, Segment.Valid, Segment.Repr, Linked, Seg.Ok, Spec.Append, Spec.Read, Kept;
    l.FootprintHolds();
    ghost var before := l.Footprint();
    l' := l;
    match op {
      case AppendOp(rec) =>
        var message := new Message(rec);
        var r := l.Append(message);
        assert forall o :: o in l.Footprint() && o !in before ==> !old(allocated(o));
        out := Runs.Appended(r);
      case ReadOp(off) =>
        ReadRefines(l.model, off);
        var r := l.Read(off);
        out := Runs.ReadBack(r);
      case TruncateOp(lowest) =>
        TruncateRefines(l.config, l.model, lowest);
        l.Truncate(lowest);
        out := Runs.Done;
      case ReopenOp(c) =>
        Runs.StepRefines(Runs.State(l.config, l.model), op, Runs.Done, Runs.State(c, l.model));
        assert c.WithDefaults() == c;
        l' := Reopen(l, c);
        out := Runs.Done;
    }
  }

  /** Executing any legal sequence of operations on the log and its files gives, operation by operation, the
      outputs of the run of the segments, and ends in its last state. */
  method Execute(l: Log, ops: seq<Runs.Op>, ghost states: seq<Runs.State>, ghost outs: seq<Runs.Out>)
    returns (l': Log, got: seq<Runs.Out>)
    requires l.Valid() && Runs.Run(states, ops, outs) && states[0] == Runs.State(l.config, l.model)
    modifies l, l.dir, l.Footprint()
    ensures l'.Valid() && got == outs && Runs.State(l'.config, l'.model) == states[|ops|]
  {
    hide Log.Valid, Log.Footprint, Runs.Run, Runs.Step, Runs.Legal, WellFormed, Config.Valid;
    Runs.LengthsOf(states, ops, outs);
    assert outs[..0] == [];
    l', got := l, [];
    for i := 0 to |ops|
      invariant l'.Valid() && l'.dir == l.dir && (l' == l || fresh(l'))
      invariant Runs.State(l'.config, l'.model) == states[i] && got == outs[..i]
      invariant forall o :: o in l'.Footprint() ==> o in old(l.Footprint()) || fresh(o)
    {
      Runs.StepOf(states, ops, outs, i);
      ghost var before := l'.Footprint();
      var out;
      l', out := ExecuteOne(l', ops[i]);
      Runs.StepDetermined(states[i], ops[i], outs[i], states[i + 1], out, Runs.State(l'.config, l'.model));
      TakeOneMore(outs, i);
      got := got + [out];
      assert forall o :: o in l'.Footprint() && o !in before ==> !old(allocated(o));
    }
    assert outs[..|ops|] == outs;
  }
}
