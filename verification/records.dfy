/** Records, the protobuf codec, and the log's configuration. */
module Records {
  import opened Wire

  /** The protobuf message `Record` of api/v1/log.proto. */
  datatype Record = Record(value: Bytes, offset: u64, term: u64, kind: u32)

  /** The generated protobuf code, as its marshal and unmarshal functions for records and for
      produce requests.  Either may fail. */
  datatype Codec = Codec(
    marshal: Record -> Option<Bytes>,
    unmarshal: Bytes -> Option<Record>,
    marshalRequest: Record -> Option<Bytes>,
    unmarshalRequest: Bytes -> Option<Record>)
  {
    /** What the log relies on: what was marshalled unmarshals to the same message, and the bytes
        fit in memory. */
    ghost predicate Lawful() {
      && (forall r: Record :: marshal(r).Some? ==>
            |marshal(r).value| < TWO_61 && unmarshal(marshal(r).value) == Some(r))
      && (forall r: Record :: marshalRequest(r).Some? ==> unmarshalRequest(marshalRequest(r).value) == Some(r))
    }

    /** The stored form of a record that marshals. */
    function Payload(r: Record): Bytes {
      match marshal(r)
      case Some(p) => p
      case None => []
    }

    function Payloads(recs: seq<Record>): (ps: seq<Bytes>)
      ensures |ps| == |recs|
      ensures forall k :: 0 <= k < |recs| ==> ps[k] == Payload(recs[k])
    {
      seq(|recs|, k requires 0 <= k < |recs| => Payload(recs[k]))
    }

    /** The bytes of a store file that holds exactly these records. */
    function Encoded(recs: seq<Record>): Bytes {
      Frames(Payloads(recs))
    }
  }

  /** `Config.Segment`, with the codec every log of a process shares. */
  datatype Config = Config(codec: Codec, maxStoreBytes: nat, maxIndexBytes: nat, initialOffset: u64)
  {
    /** `NewLog` replaces zero limits by 1024. */
    function WithDefaults(): Config {
      this.(maxStoreBytes := if maxStoreBytes == 0 then 1024 else maxStoreBytes,
            maxIndexBytes := if maxIndexBytes == 0 then 1024 else maxIndexBytes)
    }

    /** Room for one index entry, no more entries than a 32-bit relative offset can number, and
        files whose positions fit a signed 64-bit integer. */
    ghost predicate Valid() {
      && codec.Lawful()
      && 1 <= maxStoreBytes <= TWO_62
      && ENT_WIDTH <= maxIndexBytes <= ENT_WIDTH * TWO_32
    }

    /** How many entries the index file can hold. */
    function Capacity(): nat {
      maxIndexBytes / ENT_WIDTH
    }

    ghost predicate SameLimits(that: Config) {
      codec == that.codec && maxStoreBytes == that.maxStoreBytes && maxIndexBytes == that.maxIndexBytes
    }
  }

  const OFF_WIDTH: nat := 4
  const POS_WIDTH: nat := 8
  const ENT_WIDTH: nat := 12

  function Stamped(r: Record, off: u64): Record {
    r.(offset := off)
  }

  lemma EncodedSnoc(c: Codec, recs: seq<Record>, r: Record)
    ensures c.Encoded(recs + [r]) == c.Encoded(recs) + Frame(c.Payload(r))
  {
    assert c.Payloads(recs + [r]) == c.Payloads(recs) + [c.Payload(r)];
    FramesSnoc(c.Payloads(recs), c.Payload(r));
  }

  lemma EncodedConcat(c: Codec, a: seq<Record>, b: seq<Record>)
    ensures c.Encoded(a + b) == c.Encoded(a) + c.Encoded(b)
  {
    assert c.Payloads(a + b) == c.Payloads(a) + c.Payloads(b);
    FramesConcat(c.Payloads(a), c.Payloads(b));
  }

  lemma PayloadsSmall(c: Codec, recs: seq<Record>)
    requires c.Lawful()
    ensures Small(c.Payloads(recs))
    ensures forall r: Record :: |c.Payload(r)| < TWO_61
  {
  }

  // ---------------------------------------------------------------------------------------------
  // A lawful codec: three fixed-width fields, then the value

  function FixedMarshal(r: Record): Option<Bytes> {
    if |r.value| + 20 < TWO_61
    then Some(BigEndian(r.offset, 8) + BigEndian(r.term, 8) + BigEndian(r.kind, 4) + r.value)
    else None
  }

  function FixedUnmarshal(p: Bytes): Option<Record> {
    if |p| < 20 then None
    else
      var off, term := Uint64(FromBigEndian(p[..8])), Uint64(FromBigEndian(p[8..16]));
      Some(Record(p[20..], off, term, Uint32(FromBigEndian(p[16..20]))))
  }

  lemma FixedRoundTrip(r: Record)
    requires FixedMarshal(r).Some?
    ensures FixedUnmarshal(FixedMarshal(r).value) == Some(r)
  {
    Pow256Values();
    DecodeInvertsEncode(r.offset, 8);
    DecodeInvertsEncode(r.term, 8);
    DecodeInvertsEncode(r.kind, 4);
    hide BigEndian, FromBigEndian;
    var p := FixedMarshal(r).value;
    assert p[..8] == BigEndian(r.offset, 8);
    assert p[8..16] == BigEndian(r.term, 8);
    assert p[16..20] == BigEndian(r.kind, 4);
    assert p[20..] == r.value;
  }

  function FixedCodec(): Codec {
    Codec(FixedMarshal, FixedUnmarshal, FixedMarshal, FixedUnmarshal)
  }

  lemma FixedCodecLawful()
    ensures FixedCodec().Lawful()
  {
    hide FixedUnmarshal, BigEndian;
    var c := FixedCodec();
    forall r: Record | c.marshal(r).Some? ensures c.unmarshal(c.marshal(r).value) == Some(r) {
      FixedRoundTrip(r);
    }
  }

  /** The codec law can be met, by a codec that marshals every record of ordinary size. */
  lemma LawfulCodecExists()
    ensures exists c: Codec :: c.Lawful() && forall r: Record :: |r.value| + 20 < TWO_61 ==> c.marshal(r).Some?
  {
    FixedCodecLawful();
    hide Codec.Lawful;
    assert FixedCodec().Lawful();
  }
}
