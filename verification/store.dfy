/** Files, and the store of internal/log/store.go: frames appended to a file behind a write buffer. */
module Stores {
  import opened Seqs
  import opened Wire

  /** A regular file: its bytes.  Opening it again gives the same object. */
  class File {
    var data: Bytes

    constructor ()
      ensures data == []
    {
      data := [];
    }

    /** `Truncate(n)`: cut to `n` bytes, or extend to `n` bytes with zeros. */
    method Truncate(n: nat)
      modifies this
      ensures data == Resized(old(data), n)
    {
      data := Resized(data, n);
    }
  }

  function Resized(data: Bytes, n: nat): (r: Bytes)
    ensures |r| == n
    ensures n <= |data| ==> r == data[..n]
    ensures n >= |data| ==> r[..|data|] == data && forall i :: |data| <= i < n ==> r[i] == 0
  {
    if n <= |data| then data[..n] else data + seq(n - |data|, _ => 0)
  }

  class Store {
    const file: File
    var buf: Bytes       // bytes written but not yet pushed to the file
    var size: nat
    var closed: bool

    ghost predicate Valid()
      reads this, file
    {
      !closed && size == |file.data| + |buf|
    }

    /** The bytes of the store, wherever they are now. */
    ghost function Contents(): Bytes
      reads this, file
    {
      file.data + buf
    }

    /** `newStore`. */
    constructor (f: File)
      ensures Valid() && file == f && Contents() == f.data
    {
      file := f;
      buf := [];
      size := |f.data|;
      closed := false;
    }

    /** The buffered writer may push any of its leading bytes to the file. */
    method Push(k: nat)
      requires Valid() && k <= |buf|
      modifies this, file
      ensures Valid() && Contents() == old(Contents()) && size == old(size)
      ensures buf == old(buf)[k..]
    {
      file.data := file.data + buf[..k];
      buf := buf[k..];
    }

    method Flush()
      requires Valid()
      modifies this, file
      ensures Valid() && Contents() == old(Contents()) && size == old(size)
      ensures buf == []
    {
      Push(|buf|);
    }

    /** `store.Append`: the frame goes to the buffer, and the buffered writer pushes as much as it likes. */
    method Append(p: Bytes) returns (n: nat, pos: nat)
      requires Valid()
      modifies this, file
      ensures Valid() && Contents() == old(Contents()) + Frame(p)
      ensures pos == old(size) == |old(Contents())| && n == LEN_WIDTH + |p| && size == pos + n
    {
      pos := size;
      buf := buf + BigEndian(|p|, LEN_WIDTH);
      buf := buf + p;
      var w := |p| + LEN_WIDTH;
      size := size + w;
      assert Contents() == old(Contents()) + Frame(p);
      var k :| 0 <= k <= |buf|;
      Push(k);
      n := w;
    }

    /** `store.Read`: flush, read the length, read that many bytes. */
    method Read(pos: u64) returns (r: Result<Bytes>)
      requires Valid()
      modifies this, file
      ensures Valid() && Contents() == old(Contents()) && size == old(size)
      ensures r == ReadFrame(Contents(), pos)
    {
      Flush();
      assert Contents() == file.data;
      var (prefix, err) := FileReadAt(file.data, LEN_WIDTH, Int64(pos));
      if err.Some? {
        return Err(err.value);
      }
      var (b, err') := FileReadAt(file.data, FromBigEndian(prefix), Int64(Uint64(pos + LEN_WIDTH)));
      if err'.Some? {
        return Err(err'.value);
      }
      assert b == file.data[pos + LEN_WIDTH..pos + LEN_WIDTH + |b|];
      r := Ok(b);
    }

    /** `store.ReadAt`: flush, then read the file. */
    method ReadAt(n: nat, off: int) returns (p: Bytes, err: Option<Error>)
      requires Valid()
      modifies this, file
      ensures Valid() && Contents() == old(Contents()) && size == old(size)
      ensures (p, err) == FileReadAt(Contents(), n, off)
    {
      Flush();
      assert Contents() == file.data;
      var r := FileReadAt(file.data, n, off);
      p, err := r.0, r.1;
    }

    /** `store.Close`: everything reaches the file. */
    method Close()
      requires Valid()
      modifies this, file
      ensures closed && file.data == old(Contents()) && buf == []
    {
      Flush();
      closed := true;
    }
  }

  // ---------------------------------------------------------------------------------------------
  // Any run of a store

  datatype StoreOp = AppendOp(payload: Bytes) | PushOp(count: nat) | FlushOp

  /** File bytes and pending bytes. */
  datatype StoreState = StoreState(disk: Bytes, pending: Bytes)

  /** One step: what `Append`, the buffered writer, and the flush before any read do. */
  ghost predicate StoreStep(s: StoreState, op: StoreOp, s': StoreState) {
    match op
    case AppendOp(p) => s' == StoreState(s.disk, s.pending + Frame(p))
    case PushOp(k) => k <= |s.pending| && s' == StoreState(s.disk + s.pending[..k], s.pending[k..])
    case FlushOp => s' == StoreState(s.disk + s.pending, [])
  }

  ghost predicate StoreRun(states: seq<StoreState>, ops: seq<StoreOp>) {
    && |states| == |ops| + 1
    && forall i {:trigger ops[i]} :: 0 <= i < |ops| ==> StoreStep(states[i], ops[i], states[i + 1])
  }

  function Added(op: StoreOp): seq<Bytes> {
    match op
    case AppendOp(p) => [p]
    case _ => []
  }

  function PayloadsOf(ops: seq<StoreOp>): seq<Bytes> {
    if ops == [] then [] else PayloadsOf(ops[..|ops| - 1]) + Added(ops[|ops| - 1])
  }

  lemma StepAdds(s: StoreState, op: StoreOp, s': StoreState)
    requires StoreStep(s, op, s')
    ensures s'.disk + s'.pending == s.disk + s.pending + Frames(Added(op))
  {
    match op {
      case AppendOp(p) =>
        assert [] + [p] == [p];
        FramesSnoc([], p);
        assert s'.disk + s'.pending == s.disk + s.pending + Frame(p);
      case PushOp(k) =>
        assert s'.disk + s'.pending == s.disk + s.pending;
      case FlushOp =>
        assert s'.disk + s'.pending == s.disk + s.pending;
    }
  }

  /** Whatever the buffer does, disk and pending bytes together are the initial bytes and the frames
      appended so far. */
  lemma {:induction false} BufferingIsInvisible(states: seq<StoreState>, ops: seq<StoreOp>, i: nat)
    requires StoreRun(states, ops) && i <= |ops|
    ensures states[i].disk + states[i].pending
            == states[0].disk + states[0].pending + Frames(PayloadsOf(ops[..i]))
  {
    var initial := states[0].disk + states[0].pending;
    if i > 0 {
      BufferingIsInvisible(states, ops, i - 1);
      StepAdds(states[i - 1], ops[i - 1], states[i]);
      TakeTake(ops, i - 1, i);
      var done, more := PayloadsOf(ops[..i - 1]), Added(ops[i - 1]);
      FramesConcat(done, more);
      Assoc(initial, Frames(done), Frames(more));
    } else {
      assert ops[..0] == [];
      NilRight(initial);
    }
  }

  lemma {:induction false} PayloadsSplit(ops: seq<StoreOp>, i: nat, j: nat)
    requires i <= j <= |ops|
    ensures PayloadsOf(ops[..i]) <= PayloadsOf(ops[..j])
    decreases j
  {
    if i < j {
      PayloadsSplit(ops, i, j - 1);
      TakeTake(ops, j - 1, j);
    }
  }

  /** The payload of an append comes after those before it, and stays there. */
  lemma PayloadsUpTo(ops: seq<StoreOp>, i: nat, j: nat)
    requires i < j <= |ops| && ops[i].AppendOp?
    ensures PayloadsOf(ops[..i]) + [ops[i].payload] <= PayloadsOf(ops[..j])
  {
    PayloadsSplit(ops, i + 1, j);
    TakeTake(ops, i, i + 1);
  }

  lemma ReadsBackAfter(initial: Bytes, before: seq<Bytes>, p: Bytes, upto: seq<Bytes>)
    requires before + [p] <= upto && |p| < TWO_63
    requires |initial + Frames(before)| + LEN_WIDTH < TWO_63
    ensures ReadFrame(initial + Frames(upto), |initial + Frames(before)|) == Ok(p)
  {
    hide Frames, ReadFrame;
    PrefixIndex(before, p, upto);
    NilRight(initial + Frames(upto));
    PayloadReadsBack(initial, upto, |before|, []);
  }

  /** In any run of a store, on a file that may hold bytes already, the position an append returned reads back its
      payload in every later state, from the bytes a flush would bring to the file. */
  lemma AppendThenReadLater(states: seq<StoreState>, ops: seq<StoreOp>, i: nat, j: nat)
    requires StoreRun(states, ops)
    requires i < j <= |ops| && ops[i].AppendOp? && |ops[i].payload| < TWO_63
    requires |states[i].disk| + |states[i].pending| + LEN_WIDTH < TWO_63
    ensures ReadFrame(states[j].disk + states[j].pending, |states[i].disk| + |states[i].pending|)
            == Ok(ops[i].payload)
  {
    var initial := states[0].disk + states[0].pending;
    assert j < |states|;
    hide *;
    BufferingIsInvisible(states, ops, i);
    BufferingIsInvisible(states, ops, j);
    PayloadsUpTo(ops, i, j);
    ReadsBackAfter(initial, PayloadsOf(ops[..i]), ops[i].payload, PayloadsOf(ops[..j]));
  }
}
