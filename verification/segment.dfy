/** The segment of internal/log/segment.go: one store and one index under a base offset. */
module Segments {
  import opened Seqs
  import opened Wire
  import opened Records
  import opened Spec
  import opened Stores
  import opened Indexes
  import opened Names
  import opened Directories

  /** A record message owned by a caller; appending it overwrites its offset. */
  class Message {
    var rec: Record

    constructor (r: Record)
      ensures rec == r
    {
      rec := r;
    }
  }

  /** The index entries that belong to a store holding exactly these records: entry `k` holds `k` and the
      total length of the `k` frames before it. */
  function EntriesOf(c: Codec, recs: seq<Record>): (es: seq<Entry>)
    ensures |es| == |recs|
  {
    if recs == [] then []
    else
      var front := recs[..|recs| - 1];
      EntriesOf(c, front) + [Entry(Uint32(|front|), Uint64(|c.Encoded(front)|))]
  }

  lemma EntriesOfSnoc(c: Codec, recs: seq<Record>, r: Record)
    ensures EntriesOf(c, recs + [r]) == EntriesOf(c, recs) + [Entry(Uint32(|recs|), Uint64(|c.Encoded(recs)|))]
  {
    SnocInit(recs, r);
  }

  lemma {:induction false} EntryOf(c: Codec, recs: seq<Record>, k: nat)
    requires k < |recs| <= TWO_32 && |c.Encoded(recs)| < TWO_63
    ensures StartOf(c.Payloads(recs), k) < TWO_63
    ensures EntriesOf(c, recs)[k] == Entry(k, StartOf(c.Payloads(recs), k))
    decreases |recs|
  {
    var front := recs[..|recs| - 1];
    UnSnoc(recs);
    EncodedSnoc(c, front, recs[|recs| - 1]);
    if k == |front| {
      assert c.Payloads(recs)[..k] == c.Payloads(front);
    } else {
      EntryOf(c, front, k);
      assert c.Payloads(recs)[..k] == c.Payloads(front)[..k];
    }
  }

  /** The record a segment returns for an offset: the offset's distance from the base wraps on 64 bits,
      -1 as a signed distance asks for the last entry, and otherwise its low 32 bits count. */
  function SegmentRead(s: Seg, off: u64): Result<Record> {
    var distance := Uint64(off - s.base);
    if s.recs == [] then Err(EOF)
    else
      var k := if distance == TWO_64 - 1 then |s.recs| - 1 else Uint32(distance);
      if k < |s.recs| then Result.Ok(s.recs[k]) else Err(EOF)
  }

  /** Following entry `k` into the store gives record `k`, whatever orphan bytes follow. */
  lemma EntryLeadsToRecord(cfg: Config, s: Seg, tail: Bytes, k: nat)
    requires cfg.Valid() && s.Ok(cfg) && k < |s.recs|
    ensures var e := EntriesOf(cfg.codec, s.recs)[k];
            && ReadFrame(cfg.codec.Encoded(s.recs) + tail, e.pos) == Ok(cfg.codec.Payload(s.recs[k]))
            && cfg.codec.unmarshal(cfg.codec.Payload(s.recs[k])) == Some(s.recs[k])
  {
    hide Frames, EntriesOf, EncodeEntries, BigEndian;
    var ps := cfg.codec.Payloads(s.recs);
    EntryOf(cfg.codec, s.recs, k);
    PayloadsSmall(cfg.codec, s.recs);
    FrameAt(ps, k, tail);
    PayloadReadsBack([], ps, k, tail);
    NilLeft(Frames(ps));
    assert cfg.codec.marshal(s.recs[k]).Some?;
  }

  /** The last index entry alone gives back the number of records. */
  lemma LastEntry(cfg: Config, s: Seg)
    requires cfg.Valid() && s.Ok(cfg)
    ensures var found := Lookup(EntriesOf(cfg.codec, s.recs), -1);
            if s.recs == [] then found == Err(EOF) else found.Ok? && found.value.off == |s.recs| - 1
  {
    if s.recs != [] {
      EntryOf(cfg.codec, s.recs, |s.recs| - 1);
    }
  }

  /** The next offset that `newSegment` recovers from an index file, whatever the file holds: the file is resized
      to the limit and mapped, but the entry looked for is the last one of its old size.  Beyond the limit the
      read panics. */
  function RecoverNext(base: u64, file: Bytes, maxIndexBytes: nat): Result<u64> {
    match ReadEntry(Resized(file, maxIndexBytes), |file|, -1)
    case Ok(e) => Ok(Uint64(base + e.off + 1))
    case Err(Panic) => Err(Panic)
    case Err(_) => Ok(base)
  }

  /** The index file of a cleanly closed segment gives back its next offset exactly when the limit is not below the
      file's size; below it, reading the last entry panics. */
  lemma RecoverClosed(cfg: Config, s: Seg, maxIndexBytes: nat)
    requires cfg.Valid() && s.Ok(cfg)
    ensures var file := EncodeEntries(EntriesOf(cfg.codec, s.recs));
            RecoverNext(s.base, file, maxIndexBytes)
            == if |file| <= maxIndexBytes then Ok(s.Next()) else Err(Panic)
  {
    hide EncodeEntries, EntriesOf, FromBigEndian, Codec.Encoded;
    var es := EntriesOf(cfg.codec, s.recs);
    var file := EncodeEntries(es);
    if s.recs != [] && |file| <= maxIndexBytes {
      ReadEntryFinds(Resized(file, maxIndexBytes), es, -1);
      LastEntry(cfg, s);
    }
  }

  /** From any file within the limit: the base if it holds no whole entry, else one past the base and the offset field
      of the last whole entry, on 64 bits. */
  lemma RecoverAny(base: u64, file: Bytes, maxIndexBytes: nat)
    requires |file| <= maxIndexBytes && |file| < 12 * TWO_32
    ensures |file| < 12 ==> RecoverNext(base, file, maxIndexBytes) == Ok(base)
    ensures |file| >= 12 ==>
              var last := 12 * (|file| / 12 - 1);
              RecoverNext(base, file, maxIndexBytes)
              == Ok((base + FromBigEndian(file[last..last + 4]) % TWO_32 + 1) % TWO_64)
  {
    hide FromBigEndian;
    var mapped := Resized(file, maxIndexBytes);
    if |file| >= 12 {
      var last := 12 * (|file| / 12 - 1);
      assert last + 12 <= |file|;
      assert mapped[last..last + 4] == file[last..last + 4] by {
        SliceOfTake(mapped, last, last + 4, |file|);
      }
    }
  }

  /** The index file of a segment while it is open, or after a crash. */
  function Unclosed(cfg: Config, s: Seg): Bytes {
    Resized(EncodeEntries(EntriesOf(cfg.codec, s.recs)), cfg.maxIndexBytes)
  }

  /** Without a clean close the index file keeps its full size.  The next offset recovered is then one past the
      base, unless the index was full. */
  lemma RecoverUnclosed(cfg: Config, s: Seg)
    requires cfg.Valid() && s.Ok(cfg)
    ensures RecoverNext(s.base, Unclosed(cfg, s), cfg.maxIndexBytes)
            == (if |s.recs| == cfg.Capacity() then Ok(s.Next()) else Ok(Uint64(s.base + 1)))
  {
    hide EncodeEntries, EntriesOf, Codec.Encoded, FromBigEndian, Resized;
    var es, file := EntriesOf(cfg.codec, s.recs), Unclosed(cfg, s);
    var k := cfg.Capacity() - 1;
    assert Resized(file, cfg.maxIndexBytes) == file;
    assert Uint32(|file| / ENT_WIDTH - 1) == k;
    var pos := k * ENT_WIDTH;
    if |es| == cfg.Capacity() {
      EntryOf(cfg.codec, s.recs, k);
      EntryAt(file, es, k);
    } else {
      ZeroBytes(file[pos..pos + OFF_WIDTH]);
    }
  }

  lemma {:induction false} ZeroBytes(s: Bytes)
    requires forall i :: 0 <= i < |s| ==> s[i] == 0
    ensures FromBigEndian(s) == 0
  {
    if s != [] {
      ZeroBytes(s[..|s| - 1]);
    }
  }

  /** What a successful append adds to the files. */
  lemma AppendedFiles(cfg: Config, s: Seg, r: Record)
    requires cfg.Valid() && s.Ok(cfg) && |s.StoreBytes(cfg.codec)| <= TWO_62
    requires ENT_WIDTH * |s.recs| + ENT_WIDTH <= cfg.maxIndexBytes
    requires s.Next() < TWO_64 - 1 && r.offset == s.Next() && cfg.codec.marshal(r).Some?
    ensures |s.recs| < TWO_32
    ensures Seg(s.base, s.recs + [r]).Ok(cfg)
    ensures cfg.codec.Encoded(s.recs + [r]) == cfg.codec.Encoded(s.recs) + Frame(cfg.codec.Payload(r))
    ensures EntriesOf(cfg.codec, s.recs + [r])
            == EntriesOf(cfg.codec, s.recs) + [Entry(|s.recs|, |cfg.codec.Encoded(s.recs)|)]
  {
    StoreGrowth(cfg, s, r);
    EncodedSnoc(cfg.codec, s.recs, r);
    EntriesOfSnoc(cfg.codec, s.recs, r);
  }

  lemma SegmentReadInRange(cfg: Config, s: Seg, off: u64)
    requires cfg.Valid() && s.Ok(cfg) && s.base <= off < s.Next()
    ensures SegmentRead(s, off) == Result.Ok(s.recs[off - s.base])
  {
  }

  /** Outside the segment's range the distance from the base wraps: just below the base it asks for the last record, and
      a multiple of 2^32 beyond the base it starts over. */
  lemma SegmentReadOutside(s: Seg, off: u64, k: nat)
    requires s.base < TWO_64 && |s.recs| <= TWO_32
    ensures s.recs == [] ==> SegmentRead(s, off) == Err(EOF)
    ensures s.recs != [] && off + 1 == s.base ==> SegmentRead(s, off) == Result.Ok(s.recs[|s.recs| - 1])
    ensures k < |s.recs| && off >= s.base && (off - s.base) % TWO_32 == k && off - s.base != TWO_64 - 1 ==>
              SegmentRead(s, off) == Result.Ok(s.recs[k])
    ensures off >= s.base && |s.recs| <= (off - s.base) % TWO_32 && off - s.base != TWO_64 - 1 ==>
              SegmentRead(s, off) == Err(EOF)
  {
  }

  lemma NoOrphans(c: Codec, recs: seq<Record>)
    ensures c.Encoded(recs) + Frames([]) == c.Encoded(recs)
  {
    NilRight(c.Encoded(recs));
  }

  lemma SignedDistance(distance: u64)
    ensures Int64(distance) == -1 <==> distance == TWO_64 - 1
    ensures Uint32(Int64(distance)) == Uint32(distance)
  {
    assert TWO_64 == TWO_32 * TWO_32;
  }

  /** What the index and the store answer is what `SegmentRead` says. */
  lemma LookupDecides(cfg: Config, s: Seg, tail: Bytes, off: u64)
    requires cfg.Valid() && s.Ok(cfg)
    ensures var found := Lookup(EntriesOf(cfg.codec, s.recs), Int64(Uint64(off - s.base)));
            match found
            case Err(e) => SegmentRead(s, off) == Err(e)
            case Ok(entry) =>
              var p := ReadFrame(cfg.codec.Encoded(s.recs) + tail, entry.pos);
              && p.Ok?
              && cfg.codec.unmarshal(p.value).Some?
              && SegmentRead(s, off) == Ok(cfg.codec.unmarshal(p.value).value)
  {
    hide Frames, EntriesOf, EncodeEntries, BigEndian;
    var distance := Uint64(off - s.base);
    SignedDistance(distance);
    if s.recs != [] {
      var k := if distance == TWO_64 - 1 then |s.recs| - 1 else Uint32(distance);
      if k < |s.recs| {
        EntryLeadsToRecord(cfg, s, tail, k);
      }
    }
  }

  /** Open or create the two files of a segment. */
  method OpenFiles(dir: Directory, base: u64) returns (storeFile: File, indexFile: File)
    requires dir.Valid()
    modifies dir`files
    ensures dir.Valid() && storeFile != indexFile
    ensures dir.files == old(dir.files)[StoreFile(base) := storeFile][IndexFile(base) := indexFile]
    ensures storeFile.data == old(dir.DataOf(StoreFile(base)))
    ensures indexFile.data == old(dir.DataOf(IndexFile(base)))
    ensures StoreFile(base) in old(dir.files) ==> storeFile == old(dir.files)[StoreFile(base)]
    ensures StoreFile(base) !in old(dir.files) ==> fresh(storeFile)
    ensures IndexFile(base) in old(dir.files) ==> indexFile == old(dir.files)[IndexFile(base)]
    ensures IndexFile(base) !in old(dir.files) ==> fresh(indexFile)
  {
    storeFile := dir.Open(StoreFile(base));
    indexFile := dir.Open(IndexFile(base));
    assert storeFile == dir.files[StoreFile(base)];
  }

  /** The two files of a base offset, which may not exist yet, hold exactly these records. */
  ghost predicate HoldsFiles(dir: Directory, c: Codec, base: u64, recs: seq<Record>)
    reads dir, dir.Opened(StoreFile(base)), dir.Opened(IndexFile(base))
  {
    && dir.DataOf(StoreFile(base)) == c.Encoded(recs)
    && dir.DataOf(IndexFile(base)) == EncodeEntries(EntriesOf(c, recs))
  }

  class Segment {
    const store: Store
    const index: Index
    const baseOffset: u64
    const config: Config
    var nextOffset: nat
    ghost var recs: seq<Record>      // the records, when the files hold nothing else
    ghost var orphans: seq<Bytes>    // frames written to the store whose index entry had no room

    ghost function Repr(): set<object> {
      {this, store, store.file, index, index.file, index.mmap}
    }

    ghost function View(): Seg
      reads this
    {
      Seg(baseOffset, recs)
    }

    ghost predicate Closed()
      reads Repr()
    {
      store.closed && index.closed
    }

    /** Both files are open, whatever they hold. */
    ghost predicate Open()
      reads Repr()
    {
      store.Valid() && index.Open() && store.file != index.file && index.mmap.Length == config.maxIndexBytes
    }

    /** The store holds exactly the frames of the records, and of no others unless the index is full;
        the index locates each record. */
    ghost predicate Valid()
      reads Repr()
    {
      && Open() && index.Valid()
      && config.Valid() && View().Ok(config)
      && nextOffset == baseOffset + |recs|
      && index.entries == EntriesOf(config.codec, recs)
      && store.Contents() == config.codec.Encoded(recs) + Frames(orphans)
      && (orphans != [] ==> index.IsMaxed())
    }

    /** Both files have just been opened on these bytes. */
    ghost predicate OpenedOn(stored: Bytes, indexed: Bytes)
      reads Repr()
    {
      && Open() && store.Contents() == stored
      && index.size == |indexed| && index.file.data == Resized(indexed, config.maxIndexBytes)
      && RecoverNext(baseOffset, indexed, config.maxIndexBytes) == Ok(nextOffset)
    }

    /** `newSegment`: open or create both files, and recover the next offset from the last index entry.  On the
        closed files of the records `image` it gives a segment of these records. */
    constructor (dir: Directory, base: u64, c: Config, ghost image: seq<Record>)
      requires dir.Valid() && RecoverNext(base, dir.DataOf(IndexFile(base)), c.maxIndexBytes).Ok?
      modifies dir`files, dir.Opened(IndexFile(base))
      ensures baseOffset == base && config == c && recs == image && orphans == []
      ensures OpenedOn(old(dir.DataOf(StoreFile(base))), old(dir.DataOf(IndexFile(base))))
      ensures c.Valid() && Seg(base, image).Ok(c) && old(HoldsFiles(dir, c.codec, base, image)) ==> Valid()
      ensures dir.Valid()
      ensures dir.files == old(dir.files)[StoreFile(base) := store.file][IndexFile(base) := index.file]
      ensures StoreFile(base) in old(dir.files) ==> store.file == old(dir.files)[StoreFile(base)]
      ensures StoreFile(base) !in old(dir.files) ==> fresh(store.file)
      ensures IndexFile(base) in old(dir.files) ==> index.file == old(dir.files)[IndexFile(base)]
      ensures IndexFile(base) !in old(dir.files) ==> fresh(index.file)
      ensures fresh(store) && fresh(index) && fresh(index.mmap)
    {
      hide Frames, EntriesOf, EncodeEntries, BigEndian, ReadEntry, Resized, Seg.Ok, Config.Valid, Codec.Encoded;
      var storeFile, indexFile := OpenFiles(dir, base);
      var s := new Store(storeFile);
      var x := new Index(indexFile, c.maxIndexBytes, EntriesOf(c.codec, image));
      var last := x.Read(-1);
      store, index, baseOffset, config, recs, orphans := s, x, base, c, image, [];
      match last {
        case Err(_) => nextOffset := base;
        case Ok(e) => nextOffset := Uint64(base + e.off + 1);
      }
      new;
      assert last == ReadEntry(index.file.data, index.size, -1);
      if c.Valid() && Seg(base, image).Ok(c) && old(HoldsFiles(dir, c.codec, base, image)) {
        OpenedOnImage();
      }
    }

    lemma OpenedOnImage()
      requires Open() && config.Valid() && View().Ok(config) && orphans == []
      requires store.Contents() == config.codec.Encoded(recs)
      requires index.entries == EntriesOf(config.codec, recs)
      requires |EncodeEntries(index.entries)| <= config.maxIndexBytes && |recs| <= TWO_32 ==> index.Valid()
      requires Ok(nextOffset) == RecoverNext(baseOffset, EncodeEntries(index.entries), config.maxIndexBytes)
      ensures Valid()
    {
      hide Frames, EntriesOf, EncodeEntries, BigEndian, ReadEntry, Resized, Codec.Encoded, RecoverNext, Index.Valid;
      RecoverClosed(config, View(), config.maxIndexBytes);
      NoOrphans(config.codec, recs);
    }

    /** `segment.IsMaxed`. */
    predicate IsMaxed()
      requires Open()
      reads Repr()
      ensures Valid() && orphans == [] ==> IsMaxed() == View().Maxed(config)
      ensures Valid() && orphans == [] ==>
                (IsMaxed() <==> |config.codec.Encoded(recs)| >= config.maxStoreBytes || |recs| == config.Capacity())
    {
      NoOrphans(config.codec, recs);
      store.size >= config.maxStoreBytes || index.size >= config.maxIndexBytes || index.IsMaxed()
    }

    /** An open segment that is not maxed has room for one more record. */
    lemma HasRoom()
      requires Valid() && orphans == [] && !View().Maxed(config)
      ensures store.size <= TWO_62 && !index.IsMaxed()
    {
      NoOrphans(config.codec, recs);
    }

    /** `segment.Append`: stamp, marshal, write the frame, then the index entry.  When the index is full the
        frame has already been written. */
    method Append(record: Message) returns (r: Result<nat>)
      requires Open() && nextOffset < TWO_64 - 1
      modifies Repr(), record
      ensures Open() && record.rec == Stamped(old(record.rec), old(nextOffset))
      ensures match config.codec.marshal(record.rec)
              case None => r == Err(Malformed) && unchanged(Repr())
              case Some(p) =>
                && store.Contents() == old(store.Contents()) + Frame(p)
                && (r, nextOffset) == if old(index.IsMaxed()) then (Err(EOF), old(nextOffset))
                                      else (Result.Ok(old(nextOffset)), old(nextOffset) + 1)
      ensures old(index.IsMaxed()) ==> index.IsMaxed()
      ensures old(Valid()) && old(store.size) <= TWO_62 ==> Valid()
      ensures old(Valid()) && old(store.size) <= TWO_62 && !old(index.IsMaxed()) ==>
                (View(), r) == AppendToSegment(config, old(View()), old(record.rec)) && orphans == old(orphans)
      ensures old(Valid()) && old(store.size) <= TWO_62 && old(index.IsMaxed()) ==>
                && View() == old(View())
                && match config.codec.marshal(record.rec)
                   case None => orphans == old(orphans)
                   case Some(p) => orphans == old(orphans) + [p]
    {
      hide Frames, EntriesOf, EncodeEntries, BigEndian, Resized, Segment.Valid, Index.Valid;
      NextOfView();
      var cur := nextOffset;
      record.rec := Stamped(record.rec, cur);
      var p := config.codec.marshal(record.rec);
      if p.None? {
        return Err(Malformed);
      }
      var n, pos := store.Append(p.value);
      var full := index.Write(Uint32(nextOffset - baseOffset), Uint64(pos));
      if full.Some? {
        orphans := orphans + [p.value];
        OrphanKeepsValid(p.value);
        return Err(full.value);
      }
      recs := recs + [record.rec];
      nextOffset := nextOffset + 1;
      RecordKeepsValid(record.rec);
      r := Ok(cur);
    }

    lemma NextOfView()
      ensures Valid() ==> nextOffset == View().Next()
    {
      hide Index.Valid, Frames, EntriesOf, EncodeEntries, Codec.Encoded;
    }

    /** A frame without an index entry keeps the byte invariant when the index is full. */
    twostate lemma OrphanKeepsValid(p: Bytes)
      requires Open() && index.IsMaxed() && (old(index.Valid()) ==> index.Valid())
      requires recs == old(recs) && nextOffset == old(nextOffset) && orphans == old(orphans) + [p]
      requires store.Contents() == old(store.Contents()) + Frame(p) && index.entries == old(index.entries)
      ensures old(Valid()) ==> Valid()
    {
      hide Frames, EntriesOf, EncodeEntries, BigEndian, Seg.Ok, Config.Valid, Codec.Encoded, Index.Valid, Index.Open;
      FramesSnoc(old(orphans), p);
      assert orphans != [];
      Assoc(config.codec.Encoded(recs), Frames(old(orphans)), Frame(p));
    }

    /** A frame with its index entry keeps it too. */
    twostate lemma RecordKeepsValid(rec: Record)
      requires Open() && !old(index.IsMaxed())
      requires old(index.Valid()) && old(|index.entries|) < TWO_32 ==> index.Valid()
      requires recs == old(recs) + [rec] && nextOffset == old(nextOffset) + 1 && orphans == old(orphans)
      requires rec.offset == old(nextOffset) < TWO_64 - 1 && config.codec.marshal(rec).Some?
      requires store.Contents() == old(store.Contents()) + Frame(config.codec.marshal(rec).value)
      requires index.entries
               == old(index.entries) + [Entry(Uint32(old(nextOffset) - baseOffset), Uint64(old(store.size)))]
      ensures old(Valid()) && old(store.size) <= TWO_62 ==> Valid()
    {
      hide Frames, EntriesOf, EncodeEntries, BigEndian, Seg.Ok, Codec.Encoded;
      if old(Valid()) && old(store.size) <= TWO_62 {
        NoOrphans(config.codec, old(recs));
        NoOrphans(config.codec, recs);
        AppendedFiles(config, old(View()), rec);
      }
    }

    /** `segment.Read`. */
    method Read(off: u64) returns (r: Result<Record>)
      requires Valid()
      modifies Repr()
      ensures Valid() && View() == old(View()) && orphans == old(orphans)
      ensures r == SegmentRead(View(), off)
    {
      hide Frames, EntriesOf, EncodeEntries, BigEndian;
      LookupDecides(config, View(), Frames(orphans), off);
      var entry := index.Read(Int64(Uint64(off - baseOffset)));
      if entry.Err? {
        return Err(entry.error);
      }
      var p := store.Read(entry.value.pos);
      match config.codec.unmarshal(p.value) {
        case None => r := Err(Malformed);
        case Some(rec) => r := Ok(rec);
      }
    }

    /** `store.ReadAt` on the segment's store, as its readers call it. */
    method ReadStoreAt(n: nat, off: int) returns (p: Bytes, err: Option<Error>)
      requires Valid()
      modifies Repr()
      ensures Valid() && View() == old(View()) && orphans == old(orphans)
      ensures store.Contents() == old(store.Contents())
      ensures (p, err) == FileReadAt(store.Contents(), n, off)
    {
      hide Frames, EntriesOf, EncodeEntries, BigEndian;
      p, err := store.ReadAt(n, off);
    }

    /** `segment.Close`. */
    method Close()
      requires Valid()
      modifies Repr()
      ensures Closed()
      ensures recs == old(recs) && orphans == old(orphans)
      ensures store.file.data == config.codec.Encoded(recs) + Frames(orphans)
      ensures index.file.data == EncodeEntries(EntriesOf(config.codec, recs))
    {
      index.Close();
      store.Close();
    }

    /** `segment.Remove`: close, then delete both files. */
    method Remove(dir: Directory)
      requires Valid() && dir.Valid()
      modifies Repr(), dir`files
      ensures Closed()
      ensures dir.Valid() && dir.files == old(dir.files) - {IndexFile(baseOffset), StoreFile(baseOffset)}
    {
      hide Segment.Valid, Frames, EntriesOf, EncodeEntries, BigEndian;
      Close();
      dir.Remove(IndexFile(baseOffset));
      dir.Remove(StoreFile(baseOffset));
    }
  }
}
