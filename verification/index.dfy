/** The index of internal/log/index.go: fixed-width entries written in place in a memory-mapped file. */
module Indexes {
  import opened Seqs
  import opened Wire
  import opened Records
  import opened Stores

  datatype Entry = Entry(off: u32, pos: u64)

  function EncodeEntry(e: Entry): (s: Bytes)
    ensures |s| == ENT_WIDTH
  {
    BigEndian(e.off, OFF_WIDTH) + BigEndian(e.pos, POS_WIDTH)
  }

  /** The layout on disk: 4 bytes of offset and 8 of position, the most significant first. */
  lemma EntryLayout(e: Entry)
    ensures |EncodeEntry(e)| == 12
    ensures forall i :: 0 <= i < 4 ==> EncodeEntry(e)[i] == e.off / Pow256(3 - i) % 256
    ensures forall i :: 4 <= i < 12 ==> EncodeEntry(e)[i] == e.pos / Pow256(11 - i) % 256
  {
    forall i | 0 <= i < 4 ensures EncodeEntry(e)[i] == e.off / Pow256(3 - i) % 256 {
      BigEndianByte(e.off, 4, i);
    }
    forall i | 4 <= i < 12 ensures EncodeEntry(e)[i] == e.pos / Pow256(11 - i) % 256 {
      BigEndianByte(e.pos, 8, i - 4);
    }
  }

  function EncodeEntries(es: seq<Entry>): (s: Bytes)
    ensures |s| == ENT_WIDTH * |es|
  {
    if es == [] then [] else EncodeEntries(es[..|es| - 1]) + EncodeEntry(es[|es| - 1])
  }

  lemma EntriesSnoc(es: seq<Entry>, e: Entry)
    ensures EncodeEntries(es + [e]) == EncodeEntries(es) + EncodeEntry(e)
  {
    assert (es + [e])[..|es|] == es;
  }

  /** Entry `k` occupies its own 12 bytes. */
  lemma {:induction false} EntryBytes(es: seq<Entry>, k: nat)
    requires k < |es|
    ensures EncodeEntries(es)[ENT_WIDTH * k..ENT_WIDTH * k + ENT_WIDTH] == EncodeEntry(es[k])
    decreases |es|
  {
    if k < |es| - 1 {
      EntryBytes(es[..|es| - 1], k);
    }
  }

  /** The two fields decode from an entry's bytes. */
  lemma EntryDecodes(e: Entry)
    ensures FromBigEndian(EncodeEntry(e)[..OFF_WIDTH]) == e.off
    ensures FromBigEndian(EncodeEntry(e)[OFF_WIDTH..]) == e.pos
  {
    Pow256Values();
    DecodeInvertsEncode(e.off, OFF_WIDTH);
    DecodeInvertsEncode(e.pos, POS_WIDTH);
    assert EncodeEntry(e)[..OFF_WIDTH] == BigEndian(e.off, OFF_WIDTH);
    assert EncodeEntry(e)[OFF_WIDTH..] == BigEndian(e.pos, POS_WIDTH);
  }

  /** Both fields of entry `k`, read from a file that starts with the encoded entries. */
  lemma EntryAt(m: Bytes, es: seq<Entry>, k: nat)
    requires k < |es| && ENT_WIDTH * |es| <= |m| && m[..ENT_WIDTH * |es|] == EncodeEntries(es)
    ensures var pos := ENT_WIDTH * k;
            && FromBigEndian(m[pos..pos + OFF_WIDTH]) == es[k].off
            && FromBigEndian(m[pos + OFF_WIDTH..pos + ENT_WIDTH]) == es[k].pos
  {
    var pos := ENT_WIDTH * k;
    EntryBytes(es, k);
    SliceOfTake(m, pos, pos + ENT_WIDTH, ENT_WIDTH * |es|);
    EntryDecodes(es[k]);
    SliceOfSlice(m, pos, pos + ENT_WIDTH, OFF_WIDTH);
  }

  /** What `index.Read(in)` means for the entries: the last one for -1, else the one numbered by the low
      32 bits of `in`. */
  function Lookup(es: seq<Entry>, at: int): Result<Entry> {
    if es == [] then Err(EOF)
    else
      var k := if at == -1 then |es| - 1 else Uint32(at);
      if k < |es| then Ok(es[k]) else Err(EOF)
  }

  lemma LookupGives(es: seq<Entry>, at: int)
    ensures es == [] ==> Lookup(es, at) == Err(EOF)
    ensures es != [] && at == -1 ==> Lookup(es, at) == Ok(es[|es| - 1])
    ensures at != -1 ==> Lookup(es, at) == if at % TWO_32 < |es| then Ok(es[at % TWO_32]) else Err(EOF)
  {
  }

  /** `PutUint32` and `PutUint64` into a slice of the map. */
  method Put(m: array<byte>, at: nat, bytes: Bytes)
    requires at + |bytes| <= m.Length
    modifies m
    ensures m[..] == old(m[..at]) + bytes + old(m[at + |bytes|..])
  {
    forall i | 0 <= i < |bytes| {
      m[at + i] := bytes[i];
    }
  }

  /** What `index.Read(in)` does with a map `m` of which the first `size` bytes count: the last entry for -1,
      else the one numbered by the low 32 bits.  A size beyond the map lets it read out of bounds. */
  function ReadEntry(m: Bytes, size: nat, at: int): Result<Entry> {
    var pos := ENT_WIDTH * if at == -1 then Uint32(size / ENT_WIDTH - 1) else Uint32(at);
    if size == 0 || size < pos + ENT_WIDTH then Err(EOF)
    else if |m| < pos + ENT_WIDTH then Err(Panic)
    else
      Ok(Entry(Uint32(FromBigEndian(m[pos..pos + OFF_WIDTH])),
               Uint64(FromBigEndian(m[pos + OFF_WIDTH..pos + ENT_WIDTH]))))
  }

  /** In a map that starts with encoded entries, that is looking them up. */
  lemma ReadEntryFinds(m: Bytes, es: seq<Entry>, at: int)
    requires ENT_WIDTH * |es| <= |m| && |es| <= TWO_32 && m[..ENT_WIDTH * |es|] == EncodeEntries(es)
    ensures ReadEntry(m, ENT_WIDTH * |es|, at) == Lookup(es, at)
  {
    hide EncodeEntries, FromBigEndian;
    if es != [] {
      var k := if at == -1 then |es| - 1 else Uint32(at);
      assert at == -1 ==> Uint32(ENT_WIDTH * |es| / ENT_WIDTH - 1) == k;
      if k < |es| {
        EntryAt(m, es, k);
      }
    }
  }

  class Index {
    const file: File
    const mmap: array<byte>
    var size: nat
    var closed: bool
    ghost var entries: seq<Entry>

    /** The file is mapped and shared: its bytes are those of the map. */
    ghost predicate Open()
      reads this, mmap, file
    {
      !closed && file.data == mmap[..]
    }

    /** The map holds the encoded entries, and zeros after them. */
    ghost predicate Valid()
      reads this, mmap, file
    {
      && Open()
      && size == ENT_WIDTH * |entries| <= mmap.Length
      && |entries| <= TWO_32
      && mmap[..] == Resized(EncodeEntries(entries), mmap.Length)
    }

    /** `newIndex`: remember the file's size, resize the file to the limit, map it. */
    constructor (f: File, maxIndexBytes: nat, ghost es: seq<Entry>)
      modifies f
      ensures Open() && file == f && fresh(mmap) && mmap.Length == maxIndexBytes
      ensures size == |old(f.data)| && f.data == Resized(old(f.data), maxIndexBytes) && entries == es
      ensures old(f.data) == EncodeEntries(es) && size <= maxIndexBytes && |es| <= TWO_32 ==> Valid()
    {
      var n := |f.data|;
      f.Truncate(maxIndexBytes);
      var area := new byte[maxIndexBytes];
      forall i | 0 <= i < maxIndexBytes {
        area[i] := f.data[i];
      }
      file, mmap, size, closed, entries := f, area, n, false, es;
      assert area[..] == f.data;
    }

    /** `index.IsMaxed`: no room for another entry. */
    predicate IsMaxed()
      reads this
    {
      mmap.Length < size + ENT_WIDTH
    }

    /** `index.Read`. */
    method Read(at: int) returns (r: Result<Entry>)
      requires Open()
      ensures r == ReadEntry(mmap[..], size, at)
      ensures Valid() ==> r == Lookup(entries, at)
    {
      hide FromBigEndian, EncodeEntries, Resized;
      if Valid() {
        ReadEntryFinds(mmap[..], entries, at);
      }
      if size == 0 {
        return Err(EOF);
      }
      var out: nat;
      if at == -1 {
        out := Uint32(size / ENT_WIDTH - 1);
      } else {
        out := Uint32(at);
      }
      var pos := out * ENT_WIDTH;
      if size < pos + ENT_WIDTH {
        return Err(EOF);
      }
      if mmap.Length < pos + ENT_WIDTH {
        return Err(Panic);
      }
      var off := Uint32(FromBigEndian(mmap[pos..pos + OFF_WIDTH]));
      var at' := Uint64(FromBigEndian(mmap[pos + OFF_WIDTH..pos + ENT_WIDTH]));
      assert mmap[..][pos..pos + OFF_WIDTH] == mmap[pos..pos + OFF_WIDTH];
      assert mmap[..][pos + OFF_WIDTH..pos + ENT_WIDTH] == mmap[pos + OFF_WIDTH..pos + ENT_WIDTH];
      r := Ok(Entry(off, at'));
    }

    /** `index.Write`: the entry is written at the end of those that count, unless there is no room.  What is
        written to the map is written to the file. */
    method Write(off: u32, pos: u64) returns (err: Option<Error>)
      requires Open()
      modifies this`size, this`entries, mmap, file
      ensures Open()
      ensures old(IsMaxed()) ==> err == Some(EOF) && (size, entries, mmap[..]) == old((size, entries, mmap[..]))
      ensures !old(IsMaxed()) ==>
                && err == None && entries == old(entries) + [Entry(off, pos)] && size == old(size) + ENT_WIDTH
                && mmap[..] == old(mmap[..size]) + EncodeEntry(Entry(off, pos)) + old(mmap[size + ENT_WIDTH..])
      ensures old(Valid()) && (old(|entries|) < TWO_32 || old(IsMaxed())) ==> Valid()
    {
      if IsMaxed() {
        return Some(EOF);
      }
      ghost var e := Entry(off, pos);
      PutTwice(mmap[..], size, BigEndian(off, OFF_WIDTH), BigEndian(pos, POS_WIDTH));
      Put(mmap, size, BigEndian(off, OFF_WIDTH));
      Put(mmap, size + OFF_WIDTH, BigEndian(pos, POS_WIDTH));
      file.data := mmap[..];
      assert mmap[..] == old(mmap[..size]) + EncodeEntry(e) + old(mmap[size + ENT_WIDTH..]);
      if old(Valid()) {
        MoreEntries(entries, e, mmap.Length);
      }
      size := size + ENT_WIDTH;
      entries := entries + [e];
      err := None;
    }

    /** `index.Close`: the file, which has the bytes of the map, is cut to those that count. */
    method Close()
      requires Open()
      modifies this`closed, file
      ensures closed && file.data == Resized(old(mmap[..]), size)
      ensures old(Valid()) ==> file.data == EncodeEntries(entries)
    {
      file.Truncate(size);
      closed := true;
    }
  }

  /** Writing an entry after the others in a zero-padded map. */
  lemma MoreEntries(es: seq<Entry>, e: Entry, n: nat)
    requires ENT_WIDTH * |es| + ENT_WIDTH <= n
    ensures var m := Resized(EncodeEntries(es), n);
            Resized(EncodeEntries(es + [e]), n)
            == m[..ENT_WIDTH * |es|] + EncodeEntry(e) + m[ENT_WIDTH * |es| + ENT_WIDTH..]
  {
    hide *;
    EntriesSnoc(es, e);
    ResizedAgain(EncodeEntries(es), EncodeEntry(e), n, ENT_WIDTH * |es|, ENT_WIDTH * |es| + ENT_WIDTH);
  }

  lemma ResizedAgain(a: Bytes, b: Bytes, n: nat, at: nat, end: nat)
    requires at == |a| && end == |a| + |b| <= n
    ensures Resized(a + b, n) == Resized(a, n)[..at] + b + Resized(a, n)[end..]
  {
    hide Resized;
    var r, r' := Resized(a, n), Resized(a + b, n);
    assert r[..at] == a;
    assert r'[..end] == a + b;
    assert r'[end..] == r[end..];
    SplitAt(r', end);
  }
}
