/** The log of internal/log/log.go: a list of segments in a directory, the last of them active. */
module Logs {
  import opened Seqs
  import opened Wire
  import opened Records
  import opened Spec
  import opened Stores
  import opened Indexes
  import opened Names
  import opened Directories
  import opened Segments

  /** The files of these segments. */
  function FileNames(segs: seq<Seg>): set<FileName> {
    if segs == [] then {}
    else FileNames(segs[..|segs| - 1]) + {StoreFile(Uint64(Last(segs).base)), IndexFile(Uint64(Last(segs).base))}
  }

  lemma FirstBaseOnce(segs: seq<Seg>)
    requires segs != [] && Linked(segs)
    ensures forall i :: 1 <= i < |segs| ==> segs[i].base != segs[0].base
  {
    forall i | 1 <= i < |segs| ensures segs[i].base != segs[0].base {
      Ascending(segs, 0, i);
    }
  }

  /** Without the first segment, its two files are the ones missing. */
  lemma FileNamesCons(segs: seq<Seg>)
    requires segs != [] && forall i :: 0 <= i < |segs| ==> segs[i].base < TWO_64
    requires forall i :: 1 <= i < |segs| ==> segs[i].base != segs[0].base
    ensures forall n :: n in FileNames(segs[1..]) <==> n in FileNames(segs) && n.base != segs[0].base
  {
    hide FileNames;
    forall n ensures n in FileNames(segs[1..]) <==> n in FileNames(segs) && n.base != segs[0].base {
      FileNamesBases(segs, n);
      FileNamesBases(segs[1..], n);
      assert forall i :: 1 <= i < |segs| ==> segs[i] == segs[1..][i - 1];
    }
  }

  lemma NoFiles(files: map<FileName, File>)
    requires files.Keys == FileNames([])
    ensures files == map[]
  {
  }

  lemma FileNamesSnoc(segs: seq<Seg>, s: Seg)
    requires s.base < TWO_64
    ensures FileNames(segs + [s]) == FileNames(segs) + {StoreFile(s.base), IndexFile(s.base)}
  {
    SnocInit(segs, s);
  }

  lemma {:induction false} FileNamesBases(segs: seq<Seg>, n: FileName)
    requires forall i :: 0 <= i < |segs| ==> segs[i].base < TWO_64
    ensures n in FileNames(segs) <==> exists i :: 0 <= i < |segs| && segs[i].base == n.base
  {
    if segs != [] {
      var k := |segs| - 1;
      FileNamesBases(segs[..k], n);
      if i :| 0 <= i < |segs| && segs[i].base == n.base {
        assert i < k ==> segs[..k][i].base == n.base;
      }
    }
  }

  lemma {:induction false} FileNamesSameBases(a: seq<Seg>, b: seq<Seg>)
    requires |a| == |b| && forall i :: 0 <= i < |a| ==> a[i].base == b[i].base
    ensures FileNames(a) == FileNames(b)
  {
    if a != [] {
      FileNamesSameBases(a[..|a| - 1], b[..|b| - 1]);
    }
  }

  /** Segment `s` is open on its two files of the directory and stands for `v`. */
  ghost predicate Member(dir: Directory, cfg: Config, s: Segment, v: Seg)
    reads dir, s.Repr()
  {
    && s.Valid() && s.View() == v && s.orphans == [] && s.config.SameLimits(cfg)
    && StoreFile(s.baseOffset) in dir.files && dir.files[StoreFile(s.baseOffset)] == s.store.file
    && IndexFile(s.baseOffset) in dir.files && dir.files[IndexFile(s.baseOffset)] == s.index.file
  }

  lemma MemberFacts(dir: Directory, cfg: Config, s: Segment, v: Seg)
    requires Member(dir, cfg, s, v)
    ensures s.Valid() && s.View() == v && s.baseOffset == v.base && s.recs == v.recs && s.nextOffset == v.Next()
    ensures s.orphans == [] && s.config.SameLimits(cfg)
    ensures v.Maxed(s.config) == v.Maxed(cfg)
  {
    LimitsDecide(s.config, cfg, v);
  }

  /** The files of a segment of a log, which are those of an index that is not closed. */
  lemma MemberFiles(dir: Directory, cfg: Config, s: Segment, v: Seg)
    requires Member(dir, cfg, s, v)
    ensures v.base < TWO_64 && v.Ok(cfg)
    ensures StoreFile(v.base) in dir.files && IndexFile(v.base) in dir.files
    ensures dir.files[StoreFile(v.base)] in s.Repr() && dir.files[IndexFile(v.base)] in s.Repr()
    ensures dir.DataOf(IndexFile(v.base)) == Unclosed(cfg, v) && |Unclosed(cfg, v)| == cfg.maxIndexBytes
  {
    hide Frames, EntriesOf, EncodeEntries, Resized, Codec.Encoded;
    LimitsDecide(s.config, cfg, v);
  }

  /** The claim that a segment belongs to a log. */
  datatype Membership = Membership(dir: Directory, cfg: Config, s: Segment, v: Seg)

  /** A segment whose objects did not change still belongs while the directory keeps its two files. */
  twostate lemma MemberKept(m: Membership)
    requires old(Member(m.dir, m.cfg, m.s, m.v)) && unchanged(m.s.Repr())
    requires forall n :: n in old(m.dir.files) && n.base == m.s.baseOffset ==>
               n in m.dir.files && m.dir.files[n] == old(m.dir.files)[n]
    ensures Member(m.dir, m.cfg, m.s, m.v)
  {
  }

  lemma OtherFile(s: Segment, f: File)
    requires f != s.store.file && f != s.index.file
    ensures f !in s.Repr()
  {
  }

  lemma OwnObjects(s: Segment)
    ensures s.store in s.Repr() && s.index in s.Repr()
  {
  }

  lemma ObjectsOf(s: Segment)
    ensures s.Repr() == {s, s.store, s.store.file, s.index, s.index.file, s.index.mmap}
  {
  }

  lemma SegmentObjects(s: Segment)
    ensures forall o :: o in s.Repr() ==> allocated(o)
    ensures forall o :: o in s.Repr() ==> o is Segment || o is Store || o is Index || o is File || o is array<byte>
  {
  }

  /** The directory holds the closed files of exactly these segments. */
  ghost predicate HoldsImage(dir: Directory, c: Codec, image: seq<Seg>)
    reads dir, dir.files.Values
  {
    && dir.Valid()
    && (forall i :: 0 <= i < |image| ==> image[i].base < TWO_64 && HoldsSegment(dir, c, image[i]))
    && dir.files.Keys == FileNames(image)
  }

  ghost predicate HoldsSegment(dir: Directory, c: Codec, v: Seg)
    requires v.base < TWO_64
    reads dir, dir.files.Values
  {
    && StoreFile(v.base) in dir.files && dir.files[StoreFile(v.base)].data == c.Encoded(v.recs)
    && IndexFile(v.base) in dir.files && dir.files[IndexFile(v.base)].data == EncodeEntries(EntriesOf(c, v.recs))
  }

  lemma OpensBack(dir: Directory, cfg: Config, v: Seg)
    requires cfg.Valid() && v.Ok(cfg) && HoldsSegment(dir, cfg.codec, v)
    ensures HoldsFiles(dir, cfg.codec, v.base, v.recs)
    ensures RecoverNext(v.base, dir.DataOf(IndexFile(v.base)), cfg.maxIndexBytes) == Ok(v.Next())
  {
    RecoverClosed(cfg, v, cfg.maxIndexBytes);
  }

  class Log {
    const dir: Directory
    var config: Config
    var segments: seq<Segment>
    var activeSegment: Segment?
    ghost var model: seq<Seg>

    ghost function Footprint(): set<object>
      reads this`segments
    {
      set s, o | s in segments && o in s.Repr() :: o
    }

    ghost predicate Separate()
      reads this`segments
    {
      && (forall i, j :: 0 <= i < j < |segments| ==> segments[i].Repr() !! segments[j].Repr())
      && (forall i :: 0 <= i < |segments| ==> this !in segments[i].Repr() && dir !in segments[i].Repr())
    }

    /** Every segment is open and stands for its part of the model, and the directory lists their files. */
    ghost predicate Sound()
      reads this, dir, Footprint()
    {
      && dir.Valid() && config.Valid()
      && |segments| == |model| > 0
      && activeSegment == segments[|segments| - 1]
      && Separate()
      && (forall i :: 0 <= i < |segments| ==> Member(dir, config, segments[i], model[i]))
      && dir.files.Keys == FileNames(model)
    }

    /** And the segments are contiguous. */
    ghost predicate Valid()
      reads this, dir, Footprint()
    {
      Sound() && WellFormed(config, model)
    }

    /** `NewLog`: default the limits, then open every segment of the directory, or a first one. */
    constructor (dir: Directory, c: Config, ghost image: seq<Seg>)
      requires c.WithDefaults().Valid() && HoldsImage(dir, c.codec, image)
      requires image == [] || WellFormed(c.WithDefaults(), image)
      modifies dir`files, dir.files.Values
      ensures Valid() && this.dir == dir && config == c.WithDefaults()
      ensures config.maxStoreBytes == if c.maxStoreBytes == 0 then 1024 else c.maxStoreBytes
      ensures config.maxIndexBytes == if c.maxIndexBytes == 0 then 1024 else c.maxIndexBytes
      ensures config.codec == c.codec && config.initialOffset == c.initialOffset
      ensures model == if image == [] then [Seg(c.initialOffset, [])] else image
      ensures forall o :: o in Footprint() ==> fresh(o) || o in old(dir.files.Values)
    {
      this.dir := dir;
      config := c.WithDefaults();
      segments, activeSegment, model := [], null, [];
      new;
      var err := Setup(image);
    }

    /** `setup`: read the directory, sort the base offsets parsed from its names, open a segment for every other
        one, and a first segment when there is none. */
    method Setup(ghost image: seq<Seg>) returns (err: Option<Error>)
      requires dir.present ==>
        && segments == [] && model == [] && config.Valid()
        && HoldsImage(dir, config.codec, image) && (image == [] || WellFormed(config, image))
      modifies this`segments, this`activeSegment, this`model, dir`files, dir.files.Values
      ensures !dir.present ==> err == Some(NotExist) && segments == old(segments) && model == old(model)
      ensures dir.present ==> err == None && Valid()
      ensures dir.present ==> model == if image == [] then [Seg(config.initialOffset, [])] else image
      ensures dir.present ==> forall o :: o in Footprint() ==> fresh(o) || o in old(dir.files.Values)
    {
      hide Log.OpenedUpTo, HoldsImage, Log.Valid, WellFormed, Member, Config.Valid, FileNames, Segment.Repr;
      var baseOffsets: seq<nat>;
      baseOffsets, err := ListBases(image);
      if err.Some? {
        return;
      }
      NothingOpened(image);
      ghost var j := 0;
      var i := 0;
      while i < |baseOffsets|
        invariant i == 2 * j <= |baseOffsets|
        invariant OpenedUpTo(image, j) && dir.files == old(dir.files)
        invariant |segments| == j && (j > 0 ==> activeSegment == segments[j - 1])
        invariant forall o :: o in Footprint() ==> fresh(o) || o in old(dir.files.Values)
      {
        assert baseOffsets[i] == image[j].base;
        OpenListed(baseOffsets[i], image, j);
        i := i + 1;
        i := i + 1;
        j := j + 1;
      }
      AllOpened(image);
      if |segments| == 0 {
        OpenFirst();
      }
    }

    lemma NothingOpened(image: seq<Seg>)
      requires segments == [] && model == [] && config.Valid() && HoldsImage(dir, config.codec, image)
      ensures OpenedUpTo(image, 0) && dir.files.Keys == FileNames(image) && Footprint() == {}
    {
      hide FileNames, Codec.Encoded, EntriesOf, EncodeEntries;
      assert image[..0] == [];
    }

    lemma AllOpened(image: seq<Seg>)
      requires OpenedUpTo(image, |image|) && dir.files.Keys == FileNames(image)
      requires image == [] || (WellFormed(config, image) && activeSegment == segments[|image| - 1])
      ensures model == image
      ensures if image == [] then dir.Valid() && config.Valid() && dir.files == map[] && segments == [] else Valid()
    {
      hide Segment.Valid, Segment.Repr, FileNames, WellFormed;
      assert image[..|image|] == image;
      if image == [] {
        NoFiles(dir.files);
      }
    }

    /** The base offsets found in the directory, sorted. */
    method ListBases(ghost image: seq<Seg>) returns (baseOffsets: seq<nat>, err: Option<Error>)
      requires dir.present ==> HoldsImage(dir, config.codec, image) && (image == [] || WellFormed(config, image))
      ensures !dir.present ==> err == Some(NotExist)
      ensures dir.present ==> err == None && |baseOffsets| == 2 * |image|
      ensures dir.present ==> forall k :: 0 <= k < |image| ==>
                baseOffsets[2 * k] == baseOffsets[2 * k + 1] == image[k].base < TWO_64
    {
      hide FileNames, Seg.Ok, Codec.Encoded, EntriesOf, EncodeEntries, Twice, Sort, Texts;
      baseOffsets := [];
      var listing, names := dir.ReadDir();
      if listing.Err? {
        err := Some(listing.error);
        return;
      }
      var files := listing.value;
      for i := 0 to |files|
        invariant baseOffsets == ParsedBases(files[..i])
      {
        baseOffsets := baseOffsets + [ParseUint(Stem(files[i]))];
      }
      assert files[..|files|] == files;
      baseOffsets := Sort(baseOffsets);
      ScanFindsImage(config, dir, image, names);
      assert baseOffsets == Twice(BaseSeq(image));
      assert forall k :: 0 <= k < |image| ==> BaseSeq(image)[k] == image[k].base;
      err := None;
    }

    /** The first segment of an empty log. */
    method OpenFirst()
      requires dir.Valid() && config.Valid() && dir.files == map[] && segments == [] && model == []
      modifies this`segments, this`activeSegment, this`model, dir`files
      ensures Valid() && model == [Seg(config.initialOffset, [])]
      ensures forall o :: o in Footprint() ==> fresh(o)
    {
      hide Segment.Valid, Segment.Repr, Segment.OpenedOn, Member, Seg.Ok, RecoverNext, Codec.Encoded, EntriesOf;
      hide EncodeEntries, Config.Valid;
      EmptyFiles(config.codec);
      EmptySegOk(config, config.initialOffset);
      FileNamesSnoc([], Seg(config.initialOffset, []));
      NilLeft([Seg(config.initialOffset, [])]);
      RecoverClosed(config, Seg(config.initialOffset, []), config.maxIndexBytes);
      NewSegment(config.initialOffset, []);
      ObjectsOf(activeSegment);
    }

    /** Open the next segment found in the directory. */
    method OpenListed(off: u64, ghost image: seq<Seg>, ghost j: nat)
      requires WellFormed(config, image) && j < |image| && off == image[j].base && OpenedUpTo(image, j)
      modifies this`segments, this`activeSegment, this`model, dir`files, dir.Opened(IndexFile(off))
      ensures OpenedUpTo(image, j + 1) && dir.files == old(dir.files)
      ensures |segments| == j + 1 && activeSegment == segments[j]
      ensures forall o :: o in Footprint() ==> o in old(Footprint()) || fresh(o) || o in dir.files.Values
    {
      hide Segment.Valid, Segment.Repr, Segment.OpenedOn, Member, HoldsSegment, HoldsFiles, RecoverNext;
      hide Log.OpenedUpTo, WellFormed, Seg.Ok, Config.Valid, FileNames;
      SegmentsHold();
      FilesApart(image, j);
      OpensBack(dir, config, image[j]);
      NewSegment(off, image[j].recs);
      ObjectsOf(activeSegment);
      assert dir.files == old(dir.files);
      ImageOpened(image);
    }

    /** The files of a segment yet to open belong to none that is open. */
    lemma FilesApart(image: seq<Seg>, j: nat)
      requires WellFormed(config, image) && j < |image| && OpenedUpTo(image, j)
      ensures dir.Valid() && config.Valid() && image[j].Ok(config) && HoldsSegment(dir, config.codec, image[j])
      ensures |segments| == j && model == image[..j]
      ensures StoreFile(image[j].base) in dir.files && IndexFile(image[j].base) in dir.files
      ensures forall k :: 0 <= k < j ==> dir.files[StoreFile(image[j].base)] !in segments[k].Repr()
      ensures forall k :: 0 <= k < j ==> dir.files[IndexFile(image[j].base)] !in segments[k].Repr()
    {
      hide Segment.Valid, Segment.Repr, FileNames, Seg.Ok, Codec.Encoded, EntriesOf, EncodeEntries;
      assert HoldsSegment(dir, config.codec, image[j]);
      var s, x := dir.files[StoreFile(image[j].base)], dir.files[IndexFile(image[j].base)];
      forall k | 0 <= k < j ensures s !in segments[k].Repr() && x !in segments[k].Repr() {
        Ascending(image, k, j);
        assert Member(dir, config, segments[k], image[k]);
        OtherFile(segments[k], s);
        OtherFile(segments[k], x);
      }
    }

    /** Opening segment `j` of an image touches only its own files. */
    twostate lemma ImageOpened(image: seq<Seg>)
      requires activeSegment != null && segments == old(segments) + [activeSegment] && config == old(config)
      requires |old(segments)| < |image| && model == old(model) + [image[|old(segments)|]]
      requires dir.files == old(dir.files)
      requires forall s :: s in old(segments) ==> unchanged(s.Repr()) && s.Repr() !! activeSegment.Repr()
      requires this !in activeSegment.Repr() && dir !in activeSegment.Repr()
      requires forall n :: n in dir.files && n != IndexFile(Uint64(image[|old(segments)|].base)) ==>
                 unchanged(dir.files[n])
      requires dir.Valid() && Member(dir, config, activeSegment, image[|old(segments)|])
      requires WellFormed(config, image) && old(OpenedUpTo(image, |segments|))
      ensures OpenedUpTo(image, |segments|)
    {
      hide Segment.Valid, Segment.Repr, FileNames, Seg.Ok, Codec.Encoded, EntriesOf, EncodeEntries;
      var j := |old(segments)|;
      TakeOneMore(image, j);
      forall k | 0 <= k <= j ensures Member(dir, config, segments[k], image[k]) {
        if k < j {
          assert segments[k] == old(segments)[k];
          MemberKept(Membership(dir, config, segments[k], image[k]));
        }
      }
      forall k | j < k < |image| ensures image[k].base < TWO_64 && HoldsSegment(dir, config.codec, image[k]) {
        Ascending(image, j, k);
        assert old(HoldsSegment(dir, config.codec, image[k]));
      }
    }

    /** The first `j` segments of the image are open, the files of the others are as they were. */
    ghost predicate OpenedUpTo(image: seq<Seg>, j: nat)
      reads this, dir, dir.files.Values, Footprint()
    {
      && dir.Valid() && config.Valid()
      && j <= |image| && model == image[..j] && |segments| == j && Separate()
      && (forall k :: 0 <= k < j ==> Member(dir, config, segments[k], image[k]))
      && (forall k :: j <= k < |image| ==> image[k].base < TWO_64 && HoldsSegment(dir, config.codec, image[k]))
    }

    /** `LowestOffset`. */
    method LowestOffset() returns (off: nat)
      requires Valid()
      ensures off == FlatOf(model).low
    {
      off := segments[0].baseOffset;
    }

    /** `HighestOffset`. */
    method HighestOffset() returns (off: nat)
      requires Valid()
      ensures off == Highest(model)
      ensures off == if FlatOf(model).Next() == 0 then 0 else FlatOf(model).Next() - 1
    {
      FlatNext(model);
      var next := segments[|segments| - 1].nextOffset;
      off := if next == 0 then 0 else next - 1;
    }

    /** `Append`, with nothing between reading the highest offset and taking the lock. */
    method Append(record: Message) returns (r: Result<nat>)
      requires Valid() && Last(model).Next() < TWO_64 - 1
      modifies this`segments, this`activeSegment, this`model, dir`files, Footprint(), record
      ensures Valid() && fresh(Footprint() - old(Footprint()))
      ensures (model, r) == Spec.Append(config, old(model), old(record.rec))
      ensures record.rec == Stamped(old(record.rec), Last(old(model)).Next())
      ensures old(segments) <= segments
    {
      hide Log.Sound, Log.Footprint, Linked, Seg.Ok, Config.Valid, Spec.Append, Spec.Locked, Seg.Maxed;
      FootprintHolds();
      Shape();
      LockedIsAppend(config, model, record.rec);
      AppendRefines(config, model, record.rec);
      ghost var before := Footprint();
      var highest := HighestOffset();
      r := LockedPart(highest, record);
      assert before == old(Footprint());
      assert forall o :: o in Footprint() && o !in before ==> !old(allocated(o));
    }

    /** The part of `Append` under the write lock, with the highest offset read before.  When the segment to roll to
        is open already, a frame is left behind in its store file. */
    method LockedPart(highest: nat, record: Message) returns (r: Result<nat>)
      requires Valid() && Last(model).Next() < TWO_64 - 1 && highest < TWO_64 - 2
      modifies this`segments, this`activeSegment, this`model, dir`files, Footprint(), record
      ensures (model, r) == Locked(config, old(model), highest, old(record.rec))
      ensures record.rec == Stamped(old(record.rec), Uint64(Last(Rolled(config, old(model), highest)).Next()))
      ensures old(segments) <= segments
      ensures if old(Collides(config, model, highest)) then LeftBehind(highest, record.rec)
              else Sound() && fresh(Footprint() - old(Footprint()))
    {
      hide Segment.Valid, Segment.Repr, Segment.Open, Segment.IsMaxed, Log.Sound, Log.Footprint, Linked;
      hide Seg.Ok, Seg.Maxed;
      FootprintHolds();
      BeforeLock();
      if activeSegment.IsMaxed() {
        RollTo(highest + 1, highest);
      }
      r := AppendToActiveSegment(record);
    }

    lemma BeforeLock()
      requires Valid()
      ensures activeSegment != null && activeSegment.Open() && activeSegment.Repr() <= Footprint()
      ensures this !in Footprint() && dir !in Footprint()
      ensures activeSegment.IsMaxed() == Last(model).Maxed(config) && activeSegment.nextOffset == Last(model).Next()
    {
      hide Segment.Repr, FileNames, Linked, Seg.Ok, Frames, EntriesOf, EncodeEntries, Seg.Maxed;
      var k := |segments| - 1;
      MemberFacts(dir, config, segments[k], model[k]);
      assert segments[k] in segments;
    }

    /** The active segment has its own index on the files of another segment, and only a frame was added. */
    twostate predicate LeftBehind(highest: nat, rec: Record)
      requires highest < TWO_64 - 1
      reads this, dir, if activeSegment == null then {} else activeSegment.Repr()
    {
      && activeSegment != null && segments == old(segments) + [activeSegment]
      && activeSegment.Open() && activeSegment.index.IsMaxed() && activeSegment.nextOffset == rec.offset
      && StoreFile(highest + 1) in old(dir.files)
      && activeSegment.store.file == old(dir.files)[StoreFile(highest + 1)]
      && var left := match config.codec.marshal(rec) case None => [] case Some(p) => Frame(p);
         activeSegment.store.Contents() == old(dir.DataOf(StoreFile(highest + 1))) + left
    }

    /** Roll over to the segment after `highest`, whose files exist only when it is open already. */
    method RollTo(off: u64, ghost highest: nat)
      requires Valid() && Last(model).Maxed(config) && Last(model).Next() < TWO_64 - 1
      requires off == highest + 1 < TWO_64 - 1
      modifies this`segments, this`activeSegment, this`model, dir`files, Footprint()
      ensures model == Rolled(config, old(model), highest)
      ensures activeSegment != null && segments == old(segments) + [activeSegment] && activeSegment.config == config
      ensures activeSegment.Open() && activeSegment.nextOffset == Last(model).Next() < TWO_64 - 1
      ensures forall o :: o in activeSegment.Repr() ==> fresh(o) || o in old(Footprint())
      ensures if old(Collides(config, model, highest))
              then
                && activeSegment.index.IsMaxed() && StoreFile(off) in old(dir.files)
                && activeSegment.store.file == old(dir.files)[StoreFile(off)]
                && activeSegment.store.Contents() == old(dir.DataOf(StoreFile(off)))
              else Sound() && !Last(model).Maxed(config) && fresh(Footprint() - old(Footprint()))
    {
      hide Segment.Valid, Segment.Repr, Log.Sound, Member, FileNames, Linked, Seg.Ok, Seg.Maxed, RecoverNext, Resized;
      SegmentsHold();
      ghost var open := FindBase(model, off);
      if open.None? {
        RollMeetsNothing(off);
      } else {
        RollMeetsOpen(off);
      }
      NewSegment(off, if open.None? then [] else OpenedAgain(config, open.value).recs);
      ObjectsOf(activeSegment);
      if open.None? {
        RolledToNothing(Seg(off, []));
      }
    }

    /** A roll to new files keeps the log sound. */
    twostate lemma RolledToNothing(v: Seg)
      requires activeSegment != null && segments == old(segments) + [activeSegment] && config == old(config)
      requires model == old(model) + [v] && v.base < TWO_64
      requires dir.Valid() && Member(dir, config, activeSegment, v)
      requires StoreFile(v.base) !in old(dir.files) && IndexFile(v.base) !in old(dir.files)
      requires dir.files == old(dir.files)[StoreFile(v.base) := activeSegment.store.file]
                                         [IndexFile(v.base) := activeSegment.index.file]
      requires fresh(activeSegment.Repr()) && old(Sound())
      requires old(forall i :: 0 <= i < |segments| ==> allocated(segments[i]))
      requires forall s, o :: s in old(segments) && o in s.Repr() ==> old(allocated(o)) && unchanged(o)
      ensures Sound() && fresh(Footprint() - old(Footprint()))
    {
      hide Segment.Valid, Segment.Repr, Log.Sound, Member, FileNames;
      forall s | s in old(segments) ensures s.Repr() !! activeSegment.Repr() {
        SegmentObjects(s);
      }
      SegmentObjects(activeSegment);
      SegmentAdded(v);
    }

    /** No files have the name of a base that no segment has. */
    lemma RollMeetsNothing(off: u64)
      requires Sound() && FindBase(model, off).None?
      ensures dir.Valid() && config.Valid() && StoreFile(off) !in dir.files && IndexFile(off) !in dir.files
      ensures HoldsFiles(dir, config.codec, off, [])
      ensures RecoverNext(off, dir.DataOf(IndexFile(off)), config.maxIndexBytes) == Ok(off)
      ensures Seg(off, []).Ok(config) && !Seg(off, []).Maxed(config)
    {
      hide Segment.Repr, FileNames, Member;
      FindBaseFinds(model, off);
      BasesFit();
      FileNamesBases(model, StoreFile(off));
      FileNamesBases(model, IndexFile(off));
      EmptyFiles(config.codec);
      EmptySegOk(config, off);
      EmptySegMaxedIff(config, off);
    }

    lemma BasesFit()
      requires Sound()
      ensures forall i :: 0 <= i < |model| ==> model[i].base < TWO_64
    {
      forall i | 0 <= i < |model| ensures model[i].base < TWO_64 {
        MemberFacts(dir, config, segments[i], model[i]);
      }
    }

    /** A base that a segment has names the files that this segment has open. */
    lemma RollMeetsOpen(off: u64)
      requires Valid() && Last(model).Maxed(config) && Last(model).Next() < TWO_64 - 1 && FindBase(model, off).Some?
      ensures dir.Valid() && StoreFile(off) in dir.files && IndexFile(off) in dir.files
      ensures dir.files[StoreFile(off)] in Footprint() && dir.files[IndexFile(off)] in Footprint()
      ensures |dir.DataOf(IndexFile(off))| == config.maxIndexBytes
      ensures var again := OpenedAgain(config, FindBase(model, off).value);
              && again.base == off && again.Next() < TWO_64 - 1
              && RecoverNext(off, dir.DataOf(IndexFile(off)), config.maxIndexBytes) == Ok(again.Next())
    {
      hide Segment.Valid, Segment.Repr, Member, FileNames, Linked, Seg.Ok, Seg.Maxed, Seg.StoreBytes;
      hide RecoverNext, Unclosed, OpenedAgain;
      var s := FindBase(model, off).value;
      FindBaseFinds(model, off);
      var i :| 0 <= i < |model| && model[i] == s;
      MemberFiles(dir, config, segments[i], s);
      RecoverUnclosed(config, s);
      AgainBounded(config, model, i);
      assert segments[i] in segments;
    }

    /** `newSegment`: open a segment and make it the active one.  On closed files of the records `recs`, none when the
        files do not exist yet, it is a segment of these records. */
    method NewSegment(off: u64, ghost recs: seq<Record>)
      requires dir.Valid() && RecoverNext(off, dir.DataOf(IndexFile(off)), config.maxIndexBytes).Ok?
      modifies this`segments, this`activeSegment, this`model, dir`files, dir.Opened(IndexFile(off))
      ensures activeSegment != null && segments == old(segments) + [activeSegment]
      ensures model == old(model) + [Seg(off, recs)]
      ensures activeSegment.baseOffset == off && activeSegment.config == config
      ensures activeSegment.OpenedOn(old(dir.DataOf(StoreFile(off))), old(dir.DataOf(IndexFile(off))))
      ensures config.Valid() && Seg(off, recs).Ok(config) && old(HoldsFiles(dir, config.codec, off, recs)) ==>
                Member(dir, config, activeSegment, Seg(off, recs))
      ensures dir.Valid()
      ensures dir.files
              == old(dir.files)[StoreFile(off) := activeSegment.store.file][IndexFile(off) := activeSegment.index.file]
      ensures StoreFile(off) in old(dir.files) ==> activeSegment.store.file == old(dir.files)[StoreFile(off)]
      ensures StoreFile(off) !in old(dir.files) ==> fresh(activeSegment.store.file)
      ensures IndexFile(off) in old(dir.files) ==> activeSegment.index.file == old(dir.files)[IndexFile(off)]
      ensures IndexFile(off) !in old(dir.files) ==> fresh(activeSegment.index.file)
      ensures fresh(activeSegment) && fresh(activeSegment.store) && fresh(activeSegment.index)
      ensures fresh(activeSegment.index.mmap)
    {
      hide Segment.Valid, Segment.Open, Segment.OpenedOn, HoldsFiles, RecoverNext, Resized, Codec.Encoded;
      hide EntriesOf, EncodeEntries, Seg.Ok, Config.Valid;
      var s := new Segment(dir, off, config, recs);
      SegmentObjects(s);
      segments := segments + [s];
      activeSegment := s;
      model := model + [Seg(off, recs)];
    }

    /** A new open segment at the end keeps the log valid when the others and their files stay. */
    twostate lemma SegmentAdded(v: Seg)
      requires activeSegment != null && segments == old(segments) + [activeSegment] && config == old(config)
      requires model == old(model) + [v]
      requires dir.Valid() && v.base < TWO_64
      requires dir.files.Keys == old(dir.files.Keys) + {StoreFile(v.base), IndexFile(v.base)}
      requires forall n :: n in old(dir.files) ==> dir.files[n] == old(dir.files)[n]
      requires Member(dir, config, activeSegment, v)
      requires forall s :: s in old(segments) ==> unchanged(s.Repr()) && s.Repr() !! activeSegment.Repr()
      requires this !in activeSegment.Repr() && dir !in activeSegment.Repr()
      requires old(Sound())
      ensures Sound()
    {
      hide Segment.Valid, Segment.Repr, FileNames, Member;
      SnocInit(old(model), v);
      FileNamesSnoc(old(model), v);
      forall i | 0 <= i < |segments| ensures Member(dir, config, segments[i], model[i]) {
        if i < |old(segments)| {
          assert segments[i] == old(segments)[i];
          assert old(Member(dir, config, segments[i], model[i]));
          MemberKept(Membership(dir, config, segments[i], model[i]));
        }
      }
    }

    /** When one segment changed and is again open and without orphans, the log stands for its new model. */
    twostate lemma OneSegmentChanged(k: nat)
      requires segments == old(segments) && activeSegment == old(activeSegment) && config == old(config)
      requires unchanged(dir) && k < |segments| && k < |old(model)|
      requires model == old(model)[k := segments[k].View()]
      requires segments[k].View().base == old(model)[k].base
      requires forall i :: 0 <= i < |segments| && i != k ==> unchanged(segments[i].Repr())
      requires segments[k].orphans == []
      requires segments[k].Valid() && old(Sound())
      ensures Sound()
    {
      hide Segment.Valid, Segment.Repr, FileNames;
      FileNamesSameBases(old(model), model);
      forall i | 0 <= i < |segments| ensures Member(dir, config, segments[i], model[i]) {
        assert old(Member(dir, config, segments[i], model[i]));
        if i != k {
          MemberKept(Membership(dir, config, segments[i], model[i]));
        }
      }
    }

    method AppendToActiveSegment(record: Message) returns (r: Result<nat>)
      requires activeSegment != null && activeSegment.Open() && activeSegment.nextOffset < TWO_64 - 1
      requires this !in activeSegment.Repr() && dir !in activeSegment.Repr()
      modifies this`model, activeSegment.Repr(), record
      ensures activeSegment.Open() && record.rec == Stamped(old(record.rec), old(activeSegment.nextOffset))
      ensures old(Sound() && !Last(model).Maxed(config)) ==>
                && Sound() && Last(old(model)).Next() < TWO_64
                && (model, r) == AppendToActive(config, old(model), old(record.rec))
      ensures old(activeSegment.index.IsMaxed()) ==>
                && activeSegment.index.IsMaxed() && activeSegment.nextOffset == old(activeSegment.nextOffset)
                && model == old(model)
                && match activeSegment.config.codec.marshal(record.rec)
                   case None =>
                     r == Err(Malformed) && activeSegment.store.Contents() == old(activeSegment.store.Contents())
                   case Some(p) =>
                     && r == Err(EOF)
                     && activeSegment.store.Contents() == old(activeSegment.store.Contents()) + Frame(p)
    {
      hide Log.Sound, Segment.Valid, Segment.Repr, Segment.Open, Seg.Maxed, Frames, AppendToActive, AppendToSegment;
      SoundShape();
      ghost var k := |segments| - 1;
      ghost var room := Sound() && !Last(model).Maxed(config);
      if room {
        SegmentsHold();
        ActiveHasRoom(record.rec);
        SegmentApart(k);
      }
      r := activeSegment.Append(record);
      if room {
        model := model[k := activeSegment.View()];
        OneSegmentChanged(k);
      }
    }

    lemma ActiveHasRoom(r: Record)
      requires Sound() && !Last(model).Maxed(config) && activeSegment.nextOffset < TWO_64
      ensures activeSegment.Valid() && activeSegment.store.size <= TWO_62 && !activeSegment.index.IsMaxed()
      ensures |segments| == |model| && activeSegment == segments[|model| - 1] && activeSegment.orphans == []
      ensures activeSegment.View() == Last(model) && Last(model).Next() == activeSegment.nextOffset
      ensures var grown := AppendToSegment(activeSegment.config, Last(model), r);
              && grown.0.base == Last(model).base
              && AppendToActive(config, model, r) == (model[|model| - 1 := grown.0], grown.1)
    {
      hide Segment.Valid, Segment.Repr, FileNames, Linked, Seg.Ok, Frames, EntriesOf, EncodeEntries;
      var k := |segments| - 1;
      MemberFacts(dir, config, segments[k], model[k]);
      segments[k].HasRoom();
      AppendLimits(config, segments[k].config, model, r);
    }

    /** The objects of the segments are allocated, and none is a log, a directory or a message. */
    lemma SegmentsHold()
      requires forall i :: 0 <= i < |segments| ==> allocated(segments[i])
      ensures forall o :: o in Footprint() ==> allocated(o)
      ensures forall i, o :: 0 <= i < |segments| && o in segments[i].Repr() ==>
                allocated(o) && (o is Segment || o is Store || o is Index || o is File || o is array<byte>)
    {
      forall i | 0 <= i < |segments|
        ensures forall o :: o in segments[i].Repr() ==>
                  allocated(o) && (o is Segment || o is Store || o is Index || o is File || o is array<byte>)
      {
        SegmentObjects(segments[i]);
      }
    }

    /** `Read`: the first segment whose range holds the offset answers. */
    method Read(off: u64) returns (r: Result<Record>)
      requires Valid()
      modifies Footprint()
      ensures Valid()
      ensures r == FlatOf(model).Read(off)
    {
      hide Log.Sound, Log.Footprint, Segment.Valid, Segment.Repr, SegmentRead, WellFormed, FlatOf, Flat.Read;
      SegmentsHold();
      var s, k := Find(off);
      if s == null || s.nextOffset <= off {
        return Err(OffsetOutOfRange(off));
      }
      SegmentApart(k);
      UpdateSame(model, k);
      r := s.Read(off);
      OneSegmentChanged(k);
    }

    /** A segment of the log is open, and shares no object with the others. */
    lemma SegmentApart(k: nat)
      requires Sound() && k < |segments|
      ensures |segments| == |model| && segments[k].Valid() && segments[k].View() == model[k]
      ensures segments[k].orphans == []
      ensures forall i :: 0 <= i < |segments| && i != k ==> segments[i].Repr() !! segments[k].Repr()
      ensures this !in segments[k].Repr() && dir !in segments[k].Repr() && segments[k].Repr() <= Footprint()
    {
      hide Segment.Valid, Segment.Repr, FileNames;
      MemberFacts(dir, config, segments[k], model[k]);
      assert segments[k] in segments;
    }

    /** The loop of `Read`. */
    method Find(off: u64) returns (s: Segment?, ghost k: nat)
      requires Valid()
      ensures s == null ==> FlatOf(model).Read(off) == Err(OffsetOutOfRange(off))
      ensures s != null ==> k < |segments| && s == segments[k]
      ensures s != null ==> off < s.nextOffset && SegmentRead(s.View(), off) == FlatOf(model).Read(off)
    {
      hide Log.Valid, Log.Footprint, Segment.Valid, Segment.Repr, Spec.Read, SegmentRead, FlatOf, Flat.Read, WellFormed;
      FootprintHolds();
      Shape();
      ReadModel(off);
      for i := 0 to |segments|
        invariant Spec.Read(model, off) == Spec.Read(model[i..], off)
      {
        Searched(i, off);
        if segments[i].baseOffset <= off && off < segments[i].nextOffset {
          return segments[i], i;
        }
      }
      s, k := null, 0;
    }

    lemma ReadModel(off: u64)
      requires Valid()
      ensures Spec.Read(model, off) == FlatOf(model).Read(off)
      ensures Spec.Read(model[|model|..], off) == Err(OffsetOutOfRange(off)) && model[0..] == model
    {
      hide Log.Sound, Spec.Read, Flat.Read;
      ReadRefines(model, off);
      ReadNone(off);
      assert model[|model|..] == [];
    }

    /** One turn of the loop: segment `i` answers, or the search goes on. */
    lemma Searched(i: nat, off: u64)
      requires Valid() && i < |segments|
      ensures i < |model|
      ensures if segments[i].baseOffset <= off && off < segments[i].nextOffset
              then SegmentRead(segments[i].View(), off) == Spec.Read(model[i..], off)
              else Spec.Read(model[i..], off) == Spec.Read(model[i + 1..], off)
    {
      hide Segment.Valid, Segment.Repr, FileNames, Linked, Seg.Ok, Spec.Read;
      MemberFacts(dir, config, segments[i], model[i]);
      if segments[i].baseOffset <= off && off < segments[i].nextOffset {
        ReadHere(model, i, off);
        SegmentReadInRange(config, model[i], off);
      } else {
        ReadFurther(model, i, off);
      }
    }

    lemma SoundShape()
      ensures Sound() ==> |segments| == |model| > 0
    {
    }

    lemma SoundIsValid()
      requires Sound() && WellFormed(config, model)
      ensures Valid()
    {
    }

    lemma Shape()
      requires Valid()
      ensures |model| == |segments| > 0 && Separate() && config.Valid() && WellFormed(config, model)
    {
    }

    /** The log's objects are allocated, and of these classes. */
    lemma FootprintHolds()
      requires forall i :: 0 <= i < |segments| ==> allocated(segments[i])
      ensures forall o :: o in Footprint() ==>
                allocated(o) && (o is Segment || o is Store || o is Index || o is File || o is array<byte>)
    {
      SegmentsHold();
    }

    /** The directory's files are among the log's objects. */
    lemma FilesInFootprint()
      requires Valid()
      ensures dir.files.Values <= Footprint()
    {
      hide Segment.Valid, FileNames, Linked, Seg.Ok;
      forall f | f in dir.files.Values ensures f in Footprint() {
        var n :| n in dir.files && dir.files[n] == f;
        FileNamesBases(model, n);
        var i :| 0 <= i < |model| && model[i].base == n.base;
        assert Member(dir, config, segments[i], model[i]);
        assert segments[i] in segments;
      }
    }

    /** What an open segment of the log holds. */
    lemma SegmentFacts(k: nat)
      requires Valid() && k < |segments|
      ensures |model| == |segments| && WellFormed(config, model)
      ensures segments[k].Valid() && segments[k].View() == model[k] && segments[k].orphans == []
      ensures segments[k].store.Contents() == model[k].StoreBytes(config.codec)
      ensures segments[k].Repr() <= Footprint()
    {
      hide Segment.Repr, FileNames, Linked, Seg.Ok, Frames, EntriesOf, EncodeEntries, BigEndian;
      assert segments[k] in segments;
      MemberFacts(dir, config, segments[k], model[k]);
      NoOrphans(config.codec, model[k].recs);
    }

    /** `Truncate`: close and remove every segment whose next offset is at most `lowest + 1`. */
    method Truncate(lowest: u64)
      requires Valid()
      modifies this`segments, this`model, dir`files, Footprint()
      ensures model == Kept(old(model), lowest)
      ensures segments == old(segments)[Cut(old(model), lowest)..]
      ensures dir.Valid() && dir.files.Keys == FileNames(model)
      ensures model != [] ==> Valid()
      ensures Footprint() <= old(Footprint())
    {
      hide Log.Examined, Log.Valid, Log.Footprint, Kept, Cut, Segment.Valid, Segment.Repr;
      StartExamining(lowest);
      SegmentsHold();
      ghost var cut, removed := Cut(model, lowest), 0;
      var kept: seq<Segment> := [];
      for i := 0 to |segments|
        invariant segments == old(segments) && model == old(model) && activeSegment == old(activeSegment)
        invariant Examined(i, kept, removed, cut)
      {
        kept, removed := Examine(i, lowest, kept, removed);
      }
      DoneExamining(kept, removed, cut);
      KeepSegments(kept, cut);
      assert Footprint() <= old(Footprint());
    }

    lemma StartExamining(lowest: u64)
      requires Valid()
      ensures Kept(model, lowest) == model[Cut(model, lowest)..]
      ensures Examined(0, [], 0, Cut(model, lowest))
      ensures segments != [] && activeSegment == segments[|segments| - 1]
    {
      hide Segment.Valid, Segment.Repr, FileNames, Linked, Seg.Ok, Kept, Cut;
      KeptIsSuffix(model, lowest);
      assert model[0..] == model;
    }

    lemma DoneExamining(kept: seq<Segment>, removed: nat, cut: nat)
      requires Examined(|segments|, kept, removed, cut)
      ensures RemovedUpTo(cut) && kept == segments[cut..]
    {
      hide Log.RemovedUpTo;
    }

    /** `i` segments are examined: those before the cut are removed and the others kept. */
    ghost predicate Examined(i: nat, kept: seq<Segment>, removed: nat, cut: nat)
      reads this, dir, Footprint()
    {
      && removed <= i <= |segments| && removed <= cut <= |segments| && (removed < cut ==> removed == i)
      && kept == segments[removed..i] && RemovedUpTo(removed)
    }

    method Examine(i: nat, lowest: u64, kept: seq<Segment>, ghost removed: nat)
      returns (kept': seq<Segment>, ghost removed': nat)
      requires i < |segments| && Examined(i, kept, removed, Cut(model, lowest))
      modifies dir`files, Footprint()
      ensures segments == old(segments) && model == old(model) && activeSegment == old(activeSegment)
      ensures Examined(i + 1, kept', removed', Cut(model, lowest))
    {
      hide Log.RemovedUpTo, Log.Footprint, Cut, Seg.Next;
      NextOfRemaining(removed, i, lowest);
      kept', removed' := kept, removed;
      var s := segments[i];
      if s.nextOffset <= Uint64(lowest + 1) {
        RemoveSegment(i);
        removed' := removed + 1;
      } else {
        SliceOneMore(segments, removed, i);
        kept' := kept + [s];
      }
    }

    lemma NextOfRemaining(k: nat, i: nat, lowest: u64)
      requires RemovedUpTo(k) && k <= i < |segments|
      ensures segments[i].nextOffset <= Uint64(lowest + 1) <==> i < Cut(model, lowest)
      ensures segments[i].Repr() <= Footprint() && this !in segments[i].Repr()
    {
      hide Segment.Valid, Segment.Repr, FileNames, Linked, Seg.Ok, Kept, Cut;
      KeptIsSuffix(model, lowest);
      MemberFacts(dir, config, segments[i], model[i]);
      assert segments[i] in segments;
    }

    /** `Close`: close every segment, leaving in the directory the files of exactly these segments. */
    method Close()
      requires Valid()
      modifies Footprint()
      ensures HoldsImage(dir, config.codec, model)
      ensures forall i :: 0 <= i < |segments| ==> segments[i].Closed()
    {
      hide Log.Valid, Log.Sound, Log.ClosedUpTo, Log.Footprint, HoldsImage, Segment.Repr;
      SegmentsHold();
      NothingClosed();
      for i := 0 to |segments|
        invariant segments == old(segments) && model == old(model) && config == old(config)
        invariant ClosedUpTo(i)
      {
        InFootprint(i);
        CloseSegment(i);
      }
      AllClosed();
    }

    lemma NothingClosed()
      requires Valid()
      ensures ClosedUpTo(0)
    {
      hide Segment.Valid, Segment.Repr, FileNames, WellFormed, Codec.Encoded;
    }

    lemma AllClosed()
      requires ClosedUpTo(|segments|)
      ensures HoldsImage(dir, config.codec, model)
      ensures forall i :: 0 <= i < |segments| ==> segments[i].Closed()
    {
      hide FileNames, WellFormed, HoldsSegment, Member;
    }

    lemma InFootprint(i: nat)
      requires i < |segments|
      ensures segments[i].Repr() <= Footprint()
    {
      hide Segment.Repr;
      assert segments[i] in segments;
    }

    /** The first `k` segments are closed and their files complete, the others are as they were. */
    ghost predicate ClosedUpTo(k: nat)
      reads this, dir, dir.files.Values, Footprint()
    {
      && k <= |segments| == |model|
      && dir.Valid() && config.Valid() && WellFormed(config, model) && Separate()
      && dir.files.Keys == FileNames(model)
      && (forall i :: k <= i < |segments| ==> Member(dir, config, segments[i], model[i]))
      && (forall i :: 0 <= i < k ==> model[i].base < TWO_64 && HoldsSegment(dir, config.codec, model[i]))
      && (forall i :: 0 <= i < k ==> segments[i].Closed())
    }

    method CloseSegment(k: nat)
      requires k < |segments| && ClosedUpTo(k)
      modifies segments[k].Repr()
      ensures ClosedUpTo(k + 1) && segments == old(segments) && model == old(model) && config == old(config)
    {
      hide Log.ClosedUpTo, Member, WellFormed, Segment.Valid, Segment.Repr, Codec.Encoded, EntriesOf;
      hide EncodeEntries, Frames;
      SegmentsHold();
      NextToClose(k);
      forall i | 0 <= i < k
        ensures ClosedFilesApart(i, k)
      {
        ClosedApart(i, k);
      }
      segments[k].Close();
      NoOrphans(config.codec, model[k].recs);
      forall i | 0 <= i < k
        ensures unchanged(segments[i].store) && unchanged(segments[i].index)
        ensures forall n :: n in dir.files && n.base == model[i].base ==> unchanged(dir.files[n])
      {
        assert old(ClosedFilesApart(i, k));
      }
      SegmentClosed(k);
    }

    /** The segment to close next is open, and shares no object with the others. */
    lemma NextToClose(k: nat)
      requires k < |segments| && ClosedUpTo(k)
      ensures segments[k].Valid() && segments[k].orphans == [] && segments[k].recs == model[k].recs
      ensures segments[k].config.codec == config.codec && model[k].base == segments[k].baseOffset
      ensures StoreFile(segments[k].baseOffset) in dir.files && IndexFile(segments[k].baseOffset) in dir.files
      ensures dir.files[StoreFile(segments[k].baseOffset)] == segments[k].store.file
      ensures dir.files[IndexFile(segments[k].baseOffset)] == segments[k].index.file
      ensures forall i :: 0 <= i < |segments| && i != k ==> segments[i].Repr() !! segments[k].Repr()
      ensures this !in segments[k].Repr() && dir !in segments[k].Repr() && k < |model|
    {
      hide Segment.Valid, Segment.Repr, FileNames, WellFormed, HoldsSegment;
      MemberFacts(dir, config, segments[k], model[k]);
    }

    /** Segment `i` is closed, and its objects and files are not those of segment `k`. */
    ghost predicate ClosedFilesApart(i: nat, k: nat)
      requires i < |segments| && k < |segments| && i < |model|
      reads this, dir
    {
      && segments[i].store !in segments[k].Repr() && segments[i].index !in segments[k].Repr()
      && forall n :: n in dir.files && n.base == model[i].base ==> dir.files[n] !in segments[k].Repr()
    }

    lemma ClosedApart(i: nat, k: nat)
      requires i < k < |segments| && ClosedUpTo(k)
      ensures i < |model| && ClosedFilesApart(i, k)
    {
      hide Segment.Valid, Segment.Repr, FileNames, HoldsSegment, Seg.Ok;
      Ascending(model, i, k);
      assert Member(dir, config, segments[k], model[k]);
      forall n | n in dir.files && n.base == model[i].base ensures dir.files[n] !in segments[k].Repr() {
        OtherFile(segments[k], dir.files[n]);
      }
      OwnObjects(segments[i]);
    }

    /** When segment `k` has been closed and nothing else has changed, one more is. */
    twostate lemma SegmentClosed(k: nat)
      requires segments == old(segments) && model == old(model) && config == old(config) && unchanged(dir)
      requires k < |segments| && k < |model| && old(ClosedUpTo(k))
      requires segments[k].Closed()
      requires model[k].base < TWO_64 && HoldsSegment(dir, config.codec, model[k])
      requires forall i, o :: k < i < |segments| && o in segments[i].Repr() ==> old(allocated(o)) && unchanged(o)
      requires forall i :: 0 <= i < k ==> unchanged(segments[i].store) && unchanged(segments[i].index)
      requires forall i, n :: 0 <= i < k && n in dir.files && n.base == model[i].base ==> unchanged(dir.files[n])
      ensures ClosedUpTo(k + 1)
    {
      hide Segment.Valid, Segment.Repr, Member, FileNames, WellFormed, Codec.Encoded, EntriesOf, EncodeEntries;
      forall i | k + 1 <= i < |segments| ensures Member(dir, config, segments[i], model[i]) {
        MemberKept(Membership(dir, config, segments[i], model[i]));
      }
      forall i | 0 <= i < k ensures model[i].base < TWO_64 && HoldsSegment(dir, config.codec, model[i]) {
        assert old(HoldsSegment(dir, config.codec, model[i]));
      }
      forall i | 0 <= i < k ensures segments[i].Closed() {
        assert old(segments[i].Closed());
      }
    }

    /** `Remove`: close everything, then delete the directory. */
    method Remove()
      requires Valid()
      modifies Footprint(), dir
      ensures !dir.present && dir.files == map[]
      ensures segments == old(segments) && model == old(model) && config == old(config)
    {
      hide Segment.Valid, Segment.Repr, FileNames, Linked, Seg.Ok;
      SegmentsHold();
      assert this !in Footprint() && dir !in Footprint();
      Close();
      dir.RemoveAll();
    }

    /** Set `Config.Segment.InitialOffset`. */
    method SetInitialOffset(off: u64)
      requires Valid()
      modifies this`config
      ensures Valid() && config == old(config).(initialOffset := off)
    {
      hide Segment.Valid, Segment.Repr, FileNames, Linked, Seg.Ok;
      SegmentsHold();
      ghost var before := config;
      config := config.(initialOffset := off);
      forall i | 0 <= i < |segments| ensures Member(dir, config, segments[i], model[i]) {
        MemberKept(Membership(dir, before, segments[i], model[i]));
        MemberFacts(dir, before, segments[i], model[i]);
        LimitsDecide(before, config, model[i]);
      }
      forall i | 0 <= i < |model| ensures model[i].Ok(config) {
        LimitsDecide(before, config, model[i]);
      }
    }

    /** `Reset`: remove the log and set it up again.  The directory that `setup` reads is gone, so this always
        fails, and the log is left without files and with closed segments. */
    method Reset() returns (err: Option<Error>)
      requires Valid()
      modifies this, dir, Footprint()
      ensures err == Some(NotExist) && !dir.present
      ensures segments == old(segments) && model == old(model) && config == old(config)
    {
      hide Segment.Valid, Segment.Repr, FileNames, Linked, Seg.Ok;
      Remove();
      err := Setup([]);
    }

    method KeepSegments(kept: seq<Segment>, ghost k: nat)
      requires RemovedUpTo(k) && kept == segments[k..] && activeSegment == segments[|segments| - 1]
      modifies this`segments, this`model
      ensures segments == kept && model == old(model)[k..]
      ensures dir.Valid() && dir.files.Keys == FileNames(model)
      ensures model != [] ==> Valid()
      ensures Footprint() <= old(Footprint())
    {
      hide Segment.Valid, Segment.Repr, FileNames, Linked, Seg.Ok;
      SegmentsHold();
      if k < |model| {
        WellFormedSuffix(config, model, k);
      }
      segments := kept;
      model := model[k..];
      if model != [] {
        forall i | 0 <= i < |segments| ensures Member(dir, config, segments[i], model[i]) {
          assert segments[i] == old(segments)[k + i] && model[i] == old(model)[k + i];
          MemberKept(Membership(dir, config, segments[i], model[i]));
        }
      }
    }

    /** The first `k` segments are removed, the others are as they were. */
    ghost predicate RemovedUpTo(k: nat)
      reads this, dir, Footprint()
    {
      && k <= |segments| == |model|
      && dir.Valid() && config.Valid() && WellFormed(config, model) && Separate()
      && dir.files.Keys == FileNames(model[k..])
      && forall i :: k <= i < |segments| ==> Member(dir, config, segments[i], model[i])
    }

    method RemoveSegment(k: nat)
      requires k < |segments| && RemovedUpTo(k)
      modifies segments[k].Repr(), dir`files
      ensures RemovedUpTo(k + 1)
    {
      hide Segment.Valid, Segment.Repr, FileNames, Linked, Seg.Ok;
      SegmentsHold();
      LinkedSuffix(model, k);
      FirstBaseOnce(model[k..]);
      FileNamesCons(model[k..]);
      assert model[k..][1..] == model[k + 1..];
      MemberFacts(dir, config, segments[k], model[k]);
      segments[k].Remove(dir);
      forall i | k + 1 <= i < |segments| ensures Member(dir, config, segments[i], model[i]) {
        assert model[i].base == model[k..][i - k].base;
        MemberKept(Membership(dir, config, segments[i], model[i]));
      }
    }
  }

  function BaseSeq(image: seq<Seg>): seq<u64>
    requires forall i :: 0 <= i < |image| ==> image[i].base < TWO_64
  {
    seq(|image|, i requires 0 <= i < |image| => image[i].base)
  }

  /** Scanning a directory that holds an image finds its base offsets in order, each twice. */
  lemma ScanFindsImage(cfg: Config, dir: Directory, image: seq<Seg>, names: seq<FileName>)
    requires HoldsImage(dir, cfg.codec, image) && (image == [] || WellFormed(cfg, image))
    requires multiset(names) == multiset(dir.files.Keys)
    ensures Sort(ParsedBases(Texts(names))) == Twice(BaseSeq(image))
  {
    var bases := BaseSeq(image);
    AscendingBases(image);
    hide *;
    ImageKeys(cfg.codec, dir, image);
    PairNamesAreKeys(bases, dir.files.Keys);
    ScanFindsBases(names, bases);
  }

  lemma AscendingBases(image: seq<Seg>)
    requires forall i :: 0 <= i < |image| ==> image[i].base < TWO_64
    requires image == [] || Linked(image)
    ensures StrictlyAscending(BaseSeq(image))
  {
    forall i, j | 0 <= i < j < |image| ensures image[i].base < image[j].base {
      Ascending(image, i, j);
    }
  }

  lemma ImageKeys(c: Codec, dir: Directory, image: seq<Seg>)
    requires HoldsImage(dir, c, image)
    ensures AreNamesOf(dir.files.Keys, BaseSeq(image))
  {
    hide FileNames, Codec.Encoded, EntriesOf, EncodeEntries;
    var bases := BaseSeq(image);
    forall n ensures n in dir.files.Keys <==> exists i :: 0 <= i < |image| && bases[i] == n.base {
      FileNamesBases(image, n);
      assert forall i :: 0 <= i < |image| ==> bases[i] == image[i].base;
    }
  }

  lemma EmptyFiles(c: Codec)
    ensures c.Encoded([]) == [] && EncodeEntries(EntriesOf(c, [])) == []
  {
  }
}
