/** Bytes on disk: big-endian integers, length-prefixed frames, and the frame reader and frame parser
    that `store.Read` and `fsm.Restore` apply to them. */
module Wire {
  import opened Seqs

  datatype Option<+T> = None | Some(value: T)

  datatype Result<+T> = Ok(value: T) | Err(error: Error)

  /** The errors the log returns.  `Malformed` is a protobuf failure; `Panic` is a run-time panic
      of the original, such as an index out of range. */
  datatype Error =
    | EOF
    | UnexpectedEOF
    | NegativeOffset
    | OffsetOutOfRange(offset: nat)
    | OffsetNotFound
    | NotExist
    | Malformed
    | SendFailed
    | Panic

  const TWO_32: int := 0x1_0000_0000
  const TWO_61: int := 0x2000_0000_0000_0000
  const TWO_62: int := 0x4000_0000_0000_0000
  const TWO_63: int := 0x8000_0000_0000_0000
  const TWO_64: int := 0x1_0000_0000_0000_0000

  type byte = x: int | 0 <= x < 256
  type u32 = x: int | 0 <= x < TWO_32
  type u64 = x: int | 0 <= x < TWO_64
  type Bytes = seq<byte>

  /** Go's conversions to unsigned types and its unsigned arithmetic: values are kept modulo the width. */
  function Uint32(x: int): u32 {
    if 0 <= x < TWO_32 then x else x % TWO_32
  }

  function Uint64(x: int): u64 {
    if 0 <= x < TWO_64 then x else x % TWO_64
  }

  /** Go's conversion `int64(x)` of an unsigned 64-bit value. */
  function Int64(x: u64): int {
    if x < TWO_63 then x else x - TWO_64
  }

  /** What the conversions keep. */
  lemma ConversionsWrap(x: int, y: u64)
    ensures Uint32(x) == x % 0x1_0000_0000
    ensures Uint64(x) == x % 0x1_0000_0000_0000_0000
    ensures -0x8000_0000_0000_0000 <= Int64(y) < 0x8000_0000_0000_0000 && Int64(y) % 0x1_0000_0000_0000_0000 == y
  {
  }

  // ---------------------------------------------------------------------------------------------
  // Big-endian integers

  function Pow256(n: nat): (p: nat)
    ensures p > 0
  {
    if n == 0 then 1 else 256 * Pow256(n - 1)
  }

  lemma Pow256Values()
    ensures Pow256(4) == TWO_32
    ensures Pow256(8) == TWO_64
  {
    assert Pow256(3) == 0x100_0000;
    assert Pow256(6) == 0x1_0000_0000_0000;
  }

  /** The `width` low-order bytes of `v`, most significant first. */
  function BigEndian(v: nat, width: nat): (s: Bytes)
    ensures |s| == width
  {
    if width == 0 then [] else BigEndian(v / 256, width - 1) + [v % 256]
  }

  function FromBigEndian(s: Bytes): nat {
    if s == [] then 0 else FromBigEndian(s[..|s| - 1]) * 256 + s[|s| - 1]
  }

  lemma {:induction false} DecodeInvertsEncode(v: nat, width: nat)
    requires v < Pow256(width)
    ensures FromBigEndian(BigEndian(v, width)) == v
  {
    if width == 0 {
    } else {
      DecodeInvertsEncode(v / 256, width - 1);
      var s := BigEndian(v, width);
      assert s[..|s| - 1] == BigEndian(v / 256, width - 1);
    }
  }

  /** Byte `i` is the `i`-th most significant one. */
  lemma {:induction false} BigEndianByte(v: nat, width: nat, i: nat)
    requires i < width
    ensures BigEndian(v, width)[i] == v / Pow256(width - 1 - i) % 256
    decreases width
  {
    if i < width - 1 {
      BigEndianByte(v / 256, width - 1, i);
      DivideTwice(v, Pow256(width - 2 - i));
    }
  }

  lemma DivideTwice(v: nat, p: nat)
    requires p > 0
    ensures v / 256 / p == v / (256 * p)
  {
    var q, r := v / 256, v % 256;
    var a, b := q / p, q % p;
    assert v == 256 * (p * a + b) + r;
    assert 256 * (p * a + b) + r == (256 * p) * a + (256 * b + r);
    assert 0 <= 256 * b + r < 256 * p;
    QuotientUnique(v, 256 * p, a, 256 * b + r);
  }

  lemma QuotientUnique(v: nat, d: nat, a: nat, r: nat)
    requires d > 0 && v == d * a + r && r < d
    ensures v / d == a
  {
    var q, s := v / d, v % d;
    assert v == d * q + s;
    if a > q {
      Products(d, q, a);
    } else if a < q {
      Products(d, a, q);
    }
  }

  lemma {:induction false} Products(d: nat, a: nat, b: nat)
    requires a < b
    ensures d * a + d <= d * b
    decreases b
  {
    OneMoreTime(d, b - 1);
    if a < b - 1 {
      Products(d, a, b - 1);
    }
  }

  lemma OneMoreTime(d: nat, a: nat)
    ensures d * (a + 1) == d * a + d
  {
  }

  // ---------------------------------------------------------------------------------------------
  // Frames

  const LEN_WIDTH: nat := 8

  /** One stored record: its length as a big-endian 64-bit integer, then its bytes. */
  function Frame(p: Bytes): (s: Bytes)
    ensures |s| == LEN_WIDTH + |p|
  {
    BigEndian(|p|, LEN_WIDTH) + p
  }

  function Frames(ps: seq<Bytes>): Bytes {
    if ps == [] then [] else Frames(ps[..|ps| - 1]) + Frame(ps[|ps| - 1])
  }

  /** Where frame number `k` starts. */
  function StartOf(ps: seq<Bytes>, k: nat): nat
    requires k <= |ps|
  {
    |Frames(ps[..k])|
  }

  /** Every length fits the signed 64-bit integer that readers convert it to. */
  ghost predicate Small(ps: seq<Bytes>) {
    forall p :: p in ps ==> |p| < TWO_63
  }

  lemma FramesSnoc(ps: seq<Bytes>, p: Bytes)
    ensures Frames(ps + [p]) == Frames(ps) + Frame(p)
  {
    SnocInit(ps, p);
  }

  lemma FramesOne(p: Bytes)
    ensures Frames([p]) == Frame(p)
  {
    NilLeft([p]);
    FramesSnoc([], p);
    NilLeft(Frame(p));
  }

  lemma {:induction false} FramesConcat(a: seq<Bytes>, b: seq<Bytes>)
    ensures Frames(a + b) == Frames(a) + Frames(b)
  {
    if b == [] {
      NilRight(a);
      NilRight(Frames(a));
    } else {
      var front, last := b[..|b| - 1], b[|b| - 1];
      FramesConcat(a, front);
      ConcatSnoc(a, b);
      FramesSnoc(a + front, last);
      Assoc(Frames(a), Frames(front), Frame(last));
    }
  }

  lemma FrameLength(p: Bytes, tail: Bytes)
    requires |p| < TWO_64
    ensures FromBigEndian((Frame(p) + tail)[..LEN_WIDTH]) == |p|
  {
    Pow256Values();
    DecodeInvertsEncode(|p|, LEN_WIDTH);
    assert (Frame(p) + tail)[..LEN_WIDTH] == BigEndian(|p|, LEN_WIDTH);
  }

  /** The layout on disk: 8 bytes of length, the most significant first, and then the payload. */
  lemma FrameLayout(p: Bytes)
    ensures |Frame(p)| == 8 + |p| && Frame(p)[8..] == p
    ensures forall i :: 0 <= i < 8 ==> Frame(p)[i] == |p| / Pow256(7 - i) % 256
  {
    forall i | 0 <= i < 8 ensures Frame(p)[i] == |p| / Pow256(7 - i) % 256 {
      BigEndianByte(|p|, 8, i);
    }
  }

  /** Frame `k` is found where the frames before it end, whatever follows the last frame. */
  lemma FrameAt(ps: seq<Bytes>, k: nat, tail: Bytes)
    requires k < |ps|
    ensures StartOf(ps, k + 1) == StartOf(ps, k) + LEN_WIDTH + |ps[k]| <= |Frames(ps)|
    ensures (Frames(ps) + tail)[StartOf(ps, k)..StartOf(ps, k + 1)] == Frame(ps[k])
  {
    TakeOneMore(ps, k);
    FramesSnoc(ps[..k], ps[k]);
    SplitAt(ps, k + 1);
    FramesConcat(ps[..k + 1], ps[k + 1..]);
    var before, frame, after := Frames(ps[..k]), Frame(ps[k]), Frames(ps[k + 1..]);
    Assoc(before + frame, after, tail);
    SliceOfConcat(before, frame, after + tail);
  }

  // ---------------------------------------------------------------------------------------------
  // Reading one frame at a position

  /** What reading `n` bytes of a file at `off` gives: the bytes there are, and EOF when they are fewer. */
  function FileReadAt(data: Bytes, n: nat, off: int): (r: (Bytes, Option<Error>))
  {
    if off < 0 then ([], Some(NegativeOffset))
    else if n == 0 then ([], None)
    else if off >= |data| then ([], Some(EOF))
    else if off + n <= |data| then (data[off..off + n], None)
    else (data[off..], Some(EOF))
  }

  /** A read gives as many of the `n` bytes at an offset as there are, and EOF exactly when they are fewer, and an error
      at a negative offset. */
  lemma ReadAtGives(data: Bytes, n: nat, off: int)
    ensures off < 0 ==> FileReadAt(data, n, off) == ([], Some(NegativeOffset))
    ensures off >= 0 ==>
              var (p, err) := FileReadAt(data, n, off);
              && |p| == (if off >= |data| then 0 else if |data| - off < n then |data| - off else n)
              && (off <= |data| ==> p == data[off..off + |p|])
              && err == if |p| < n then Some(EOF) else None
  {
  }

  /** The frame whose length prefix starts at `pos`. */
  function ReadFrame(data: Bytes, pos: u64): Result<Bytes>
  {
    if TWO_63 <= pos then Err(NegativeOffset)
    else if |data| < pos + LEN_WIDTH then Err(EOF)
    else
      var size := FromBigEndian(data[pos..pos + LEN_WIDTH]);
      if TWO_63 <= pos + LEN_WIDTH then Err(NegativeOffset)
      else if |data| < pos + LEN_WIDTH + size then Err(EOF)
      else Ok(data[pos + LEN_WIDTH..pos + LEN_WIDTH + size])
  }

  /** What is read at any position: the bytes that the length there announces, EOF when they or the length itself are
      not all there, and an error when the position is negative as a signed offset. */
  lemma ReadFrameGives(data: Bytes, pos: u64)
    ensures pos >= TWO_63 ==> ReadFrame(data, pos) == Err(NegativeOffset)
    ensures pos < TWO_63 && |data| < pos + 8 ==> ReadFrame(data, pos) == Err(EOF)
    ensures pos + 8 < TWO_63 && pos + 8 <= |data| ==>
              var size := FromBigEndian(data[pos..pos + 8]);
              ReadFrame(data, pos) == if pos + 8 + size <= |data| then Ok(data[pos + 8..pos + 8 + size]) else Err(EOF)
  {
    hide FromBigEndian;
  }

  /** A position handed out for a payload reads back that payload, whatever the file held before and has been
      appended since. */
  lemma PayloadReadsBack(initial: Bytes, ps: seq<Bytes>, k: nat, tail: Bytes)
    requires k < |ps| && |ps[k]| < TWO_63
    requires |initial| + StartOf(ps, k) + LEN_WIDTH < TWO_63
    ensures ReadFrame(initial + Frames(ps) + tail, |initial| + StartOf(ps, k)) == Ok(ps[k])
  {
    hide Frames, BigEndian;
    var data, pos := initial + Frames(ps) + tail, |initial| + StartOf(ps, k);
    FrameAt(ps, k, tail);
    Assoc(initial, Frames(ps), tail);
    SliceAfter(initial, Frames(ps) + tail, StartOf(ps, k), StartOf(ps, k + 1));
    FrameLength(ps[k], []);
    NilRight(Frame(ps[k]));
    SliceOfSlice(data, pos, pos + LEN_WIDTH + |ps[k]|, LEN_WIDTH);
    assert Frame(ps[k])[LEN_WIDTH..] == ps[k];
  }

  // ---------------------------------------------------------------------------------------------
  // Parsing a stream of frames, as `fsm.Restore` does

  datatype Parsed =
    | End
    | Bad(error: Error)
    | Got(payload: Bytes, rest: Bytes)

  /** One turn of the restore loop's reading: `io.ReadFull` of a length, then `io.CopyN` of that many
      bytes.  A length of 2^63 or more is negative as an `int64`, and `CopyN` of a negative count
      copies nothing and reports no error. */
  function NextFrame(s: Bytes): (r: Parsed)
    ensures r.Got? ==> |r.rest| < |s|
  {
    if |s| == 0 then End
    else if |s| < LEN_WIDTH then Bad(UnexpectedEOF)
    else
      var size := FromBigEndian(s[..LEN_WIDTH]);
      if size >= TWO_63 then Got([], s[LEN_WIDTH..])
      else if |s| < LEN_WIDTH + size then Bad(EOF)
      else Got(s[LEN_WIDTH..LEN_WIDTH + size], s[LEN_WIDTH + size..])
  }

  /** Every payload of a stream, and the error that ended it if it did not end cleanly. */
  function ParseFrames(s: Bytes): (seq<Bytes>, Option<Error>)
    decreases |s|
  {
    match NextFrame(s)
    case End => ([], None)
    case Bad(e) => ([], Some(e))
    case Got(p, rest) =>
      var (ps, e) := ParseFrames(rest);
      ([p] + ps, e)
  }

  lemma NextFrameOfFrame(p: Bytes, tail: Bytes)
    requires |p| < TWO_63
    ensures NextFrame(Frame(p) + tail) == Got(p, tail)
  {
    FrameLength(p, tail);
    var s := Frame(p) + tail;
    assert s[LEN_WIDTH..LEN_WIDTH + |p|] == p;
    assert s[LEN_WIDTH + |p|..] == tail;
  }

  lemma FramesCons(ps: seq<Bytes>)
    requires ps != []
    ensures Frames(ps) == Frame(ps[0]) + Frames(ps[1..])
  {
    UnCons(ps);
    FramesConcat([ps[0]], ps[1..]);
    FramesOne(ps[0]);
  }

  lemma ParseOne(p: Bytes, tail: Bytes)
    requires |p| < TWO_63
    ensures ParseFrames(Frame(p) + tail) == ([p] + ParseFrames(tail).0, ParseFrames(tail).1)
  {
    NextFrameOfFrame(p, tail);
  }

  /** Whole frames parse to their payloads, and the rest of the stream is parsed on its own. */
  lemma {:induction false} ParseAfterFrames(ps: seq<Bytes>, tail: Bytes)
    requires Small(ps)
    ensures ParseFrames(Frames(ps) + tail) == (ps + ParseFrames(tail).0, ParseFrames(tail).1)
  {
    if ps == [] {
      NilLeft(tail);
      NilLeft(ParseFrames(tail).0);
    } else {
      FramesConsTail(ps, tail);
      ParseOne(ps[0], Frames(ps[1..]) + tail);
      ParseAfterFrames(ps[1..], tail);
      ConsAppend(ps, ParseFrames(tail).0);
    }
  }

  /** A length of 2^63 or more counts as no bytes: the payload is empty and parsing goes on right after the length. */
  lemma HugeLengthIsEmpty(size: nat, tail: Bytes)
    requires TWO_63 <= size < TWO_64
    ensures NextFrame(BigEndian(size, 8) + tail) == Got([], tail)
  {
    Pow256Values();
    DecodeInvertsEncode(size, 8);
    assert (BigEndian(size, 8) + tail)[..8] == BigEndian(size, 8);
    assert (BigEndian(size, 8) + tail)[8..] == tail;
  }

  lemma FramesConsTail(ps: seq<Bytes>, tail: Bytes)
    requires ps != []
    ensures Frames(ps) + tail == Frame(ps[0]) + (Frames(ps[1..]) + tail)
  {
    FramesCons(ps);
    Assoc(Frame(ps[0]), Frames(ps[1..]), tail);
  }

  /** The parser inverts the printer, and stops without an error. */
  lemma ParseInvertsFrames(ps: seq<Bytes>)
    requires Small(ps)
    ensures ParseFrames(Frames(ps)) == (ps, None)
  {
    ParseAfterFrames(ps, []);
    assert Frames(ps) + [] == Frames(ps);
    assert ps + [] == ps;
  }

  /** How many whole frames the first `n` bytes hold. */
  function WholeFrames(ps: seq<Bytes>, n: nat): (k: nat)
    ensures k <= |ps|
  {
    if ps == [] || n < LEN_WIDTH + |ps[0]| then 0
    else 1 + WholeFrames(ps[1..], n - LEN_WIDTH - |ps[0]|)
  }

  lemma {:induction false} WholeFramesBounds(ps: seq<Bytes>, n: nat)
    ensures StartOf(ps, WholeFrames(ps, n)) <= n
    ensures WholeFrames(ps, n) < |ps| ==> n < StartOf(ps, WholeFrames(ps, n) + 1)
  {
    if ps == [] {
    } else if n < LEN_WIDTH + |ps[0]| {
      StartOfCons(ps, 1);
    } else {
      var k := WholeFrames(ps[1..], n - LEN_WIDTH - |ps[0]|);
      WholeFramesBounds(ps[1..], n - LEN_WIDTH - |ps[0]|);
      assert WholeFrames(ps, n) == k + 1;
      StartOfCons(ps, k + 1);
      if k + 1 < |ps| {
        StartOfCons(ps, k + 2);
      }
    }
  }

  lemma StartOfCons(ps: seq<Bytes>, k: nat)
    requires 1 <= k <= |ps|
    ensures StartOf(ps, k) == LEN_WIDTH + |ps[0]| + StartOf(ps[1..], k - 1)
  {
    FramesCons(ps[..k]);
    assert ps[..k][1..] == ps[1..][..k - 1];
    assert ps[..k][0] == ps[0];
  }

  /** How the parser ends when `over` bytes of a further frame follow the whole ones. */
  function CutEnding(over: nat): Option<Error> {
    if over == 0 then None else if over < LEN_WIDTH then Some(UnexpectedEOF) else Some(EOF)
  }

  lemma ParseOfPartialFrame(p: Bytes, over: nat)
    requires |p| < TWO_63 && over < LEN_WIDTH + |p|
    ensures ParseFrames(Frame(p)[..over]) == ([], CutEnding(over))
  {
    var s := Frame(p)[..over];
    if over >= LEN_WIDTH {
      FrameLength(p, []);
      assert s[..LEN_WIDTH] == (Frame(p) + [])[..LEN_WIDTH];
      assert NextFrame(s) == Bad(EOF);
    }
  }

  /** The first `n` bytes of a stream are its whole frames and a proper part of the next frame. */
  lemma CutSplits(ps: seq<Bytes>, n: nat)
    requires n <= |Frames(ps)|
    ensures var k := WholeFrames(ps, n);
            var over := n - StartOf(ps, k);
            && 0 <= over
            && (k == |ps| ==> over == 0)
            && (k < |ps| ==> over < LEN_WIDTH + |ps[k]|)
            && Frames(ps)[..n] == Frames(ps[..k]) + (if k < |ps| then Frame(ps[k])[..over] else [])
  {
    hide Frames, BigEndian, WholeFrames;
    var k := WholeFrames(ps, n);
    WholeFramesBounds(ps, n);
    FramesPrefix(ps, k);
    if k < |ps| {
      FrameAt(ps, k, []);
      assert Frames(ps) + [] == Frames(ps);
      SplitTake(Frames(ps), StartOf(ps, k), n, StartOf(ps, k + 1));
    } else {
      assert ps[..k] == ps;
    }
  }

  lemma FramesPrefix(ps: seq<Bytes>, k: nat)
    requires k <= |ps|
    ensures StartOf(ps, k) <= |Frames(ps)| && Frames(ps)[..StartOf(ps, k)] == Frames(ps[..k])
  {
    SplitAt(ps, k);
    FramesConcat(ps[..k], ps[k..]);
  }

  /** A stream cut short is detected unless the cut falls on a frame boundary: the payloads before the
      cut come out, and the ending is clean exactly at a boundary. */
  lemma ParseOfCut(ps: seq<Bytes>, n: nat)
    requires Small(ps) && n <= |Frames(ps)|
    ensures StartOf(ps, WholeFrames(ps, n)) <= n
    ensures ParseFrames(Frames(ps)[..n])
            == (ps[..WholeFrames(ps, n)], CutEnding(n - StartOf(ps, WholeFrames(ps, n))))
    ensures var over := n - StartOf(ps, WholeFrames(ps, n));
            ParseFrames(Frames(ps)[..n]).1
            == if over == 0 then None else if over < 8 then Some(UnexpectedEOF) else Some(EOF)
  {
    hide Frames, BigEndian;
    var k := WholeFrames(ps, n);
    CutSplits(ps, n);
    var over := n - StartOf(ps, k);
    var tail := if k < |ps| then Frame(ps[k])[..over] else [];
    assert Small(ps[..k]) by { assert forall q :: q in ps[..k] ==> q in ps; }
    ParseAfterFrames(ps[..k], tail);
    if k < |ps| {
      ParseOfPartialFrame(ps[k], over);
    }
    assert ParseFrames(tail) == ([], CutEnding(over));
    assert ps[..k] + [] == ps[..k];
  }
}
