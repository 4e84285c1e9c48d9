/** What a successful decode of an ESP image says about the bytes: where every
    header field comes from, where every segment record sits, which payloads
    are present, and which segments overlap. An encoder for the segment table
    shows that decoding gives back exactly the segments that were written. */
module EspImageLayout {
  import opened Wrappers
  import opened LittleEndian
  import opened EspBinaryImage

  /** The cursor o of the decoding loop before record i: the sum of
      RecordPrefixSize + size over the records before it. */
  function RecordOffset(segments: seq<SegmentHeader>, i: nat): (o: nat)
    requires i <= |segments|
    ensures o >= RecordPrefixSize * i
    ensures i > 0 ==> o >= RecordPrefixSize + segments[0].size
    decreases i
  {
    if i == 0 then 0
    else RecordPrefixSize + segments[0].size + RecordOffset(segments[1..], i - 1)
  }

  /** The cursor starts at 0 and each record moves it past its prefix and payload. */
  lemma {:induction false} RecordOffsetStep(segments: seq<SegmentHeader>, i: nat)
    requires i < |segments|
    ensures RecordOffset(segments, i + 1) == RecordOffset(segments, i) + RecordPrefixSize + segments[i].size
  {
    if i > 0 {
      RecordOffsetStep(segments[1..], i - 1);
    }
  }

  /** Every record of `segments`, placed from cursor o on, has its prefix inside
      the buffer and is what that prefix says. */
  ghost predicate TableMatchesFrom(data: seq<byte>, o: nat, segments: seq<SegmentHeader>)
  {
    forall i :: 0 <= i < |segments| ==> RecordMatches(data, o + RecordOffset(segments, i), segments[i])
  }

  /** The record prefix at cursor o lies inside the buffer and reads as s. */
  ghost predicate RecordMatches(data: seq<byte>, o: nat, s: SegmentHeader)
  {
    HeaderSize + o + RecordPrefixSize <= |data| && s == SegmentAt(data, o)
  }

  /** The segment table as it lies in the buffer, from the first record on. */
  ghost predicate TableMatches(data: seq<byte>, segments: seq<SegmentHeader>)
  {
    TableMatchesFrom(data, 0, segments)
  }

  /** One unfolding of SegmentsFrom when it succeeds on at least one record. */
  lemma SegmentsFromCons(data: seq<byte>, o: nat, n: nat)
    requires n > 0 && SegmentsFrom(data, o, n).Success?
    ensures HeaderSize + o + RecordPrefixSize <= |data|
    ensures var next := o + RecordPrefixSize + SegmentAt(data, o).size;
      && SegmentsFrom(data, next, n - 1).Success?
      && SegmentsFrom(data, o, n).value == [SegmentAt(data, o)] + SegmentsFrom(data, next, n - 1).value
  {
  }

  /** One unfolding of SegmentsFrom when the first record's prefix fits. */
  lemma SegmentsFromStep(data: seq<byte>, o: nat, n: nat)
    requires n > 0 && HeaderSize + o + RecordPrefixSize <= |data|
    ensures SegmentsFrom(data, o, n) ==
      Prepend([SegmentAt(data, o)], SegmentsFrom(data, o + RecordPrefixSize + SegmentAt(data, o).size, n - 1))
  {
  }

  /** A record that matches at o, in front of a table that matches right after it. */
  lemma TableMatchesCons(data: seq<byte>, o: nat, s: SegmentHeader, rest: seq<SegmentHeader>)
    requires RecordMatches(data, o, s)
    requires TableMatchesFrom(data, o + RecordPrefixSize + s.size, rest)
    ensures TableMatchesFrom(data, o, [s] + rest)
  {
  }

  /** The first record of a matching table matches, and so do the rest after it. */
  lemma TableMatchesUncons(data: seq<byte>, o: nat, segments: seq<SegmentHeader>)
    requires |segments| > 0 && TableMatchesFrom(data, o, segments)
    ensures RecordMatches(data, o, segments[0])
    ensures TableMatchesFrom(data, o + RecordPrefixSize + segments[0].size, segments[1..])
  {
  }

  lemma {:induction false} SegmentsFromSound(data: seq<byte>, o: nat, n: nat)
    requires SegmentsFrom(data, o, n).Success?
    ensures TableMatchesFrom(data, o, SegmentsFrom(data, o, n).value)
    decreases n
  {
    if n > 0 {
      SegmentsFromCons(data, o, n);
      var s := SegmentAt(data, o);
      var next := o + RecordPrefixSize + s.size;
      SegmentsFromSound(data, next, n - 1);
      TableMatchesCons(data, o, s, SegmentsFrom(data, next, n - 1).value);
    }
  }

  lemma {:induction false} SegmentsFromComplete(data: seq<byte>, o: nat, segments: seq<SegmentHeader>)
    requires TableMatchesFrom(data, o, segments)
    ensures SegmentsFrom(data, o, |segments|) == Success(segments)
    decreases |segments|
  {
    if |segments| > 0 {
      var s, rest := segments[0], segments[1..];
      TableMatchesUncons(data, o, segments);
      SegmentsFromComplete(data, o + RecordPrefixSize + s.size, rest);
      SegmentsFromPrepend(data, o, |segments|, rest);
      assert [s] + rest == segments;
    }
  }

  /** A decode succeeds with a given segment list exactly when the buffer
      holds the whole header, starts with Magic, declares as many segments as
      the list has, and holds each record's prefix, in order, at the cursor
      position the earlier records give it. */
  lemma SegmentTableIff(data: seq<byte>, segments: seq<SegmentHeader>)
    ensures (DecodeFileHeader(data).Success? && DecodeFileHeader(data).value.segments == segments)
        <==> (&& |data| >= HeaderSize && data[0] == Magic
              && |segments| == data[1] as nat
              && TableMatches(data, segments))
  {
    if |data| >= HeaderSize && data[0] == Magic {
      if SegmentsFrom(data, 0, data[1]).Success? {
        SegmentsFromSound(data, 0, data[1]);
      }
      if |segments| == data[1] as nat && TableMatches(data, segments) {
        SegmentsFromComplete(data, 0, segments);
      }
    }
  }

  /** Where each header field comes from, for every buffer that decodes. */
  lemma HeaderFieldLayout(data: seq<byte>)
    requires DecodeFileHeader(data).Success?
    ensures var h := DecodeFileHeader(data).value;
      && h.magic == 0xE9
      && h.numberOfSegments == data[1]
      && h.spiFlashMode == data[2]
      && h.flashSizeAndFrequency == data[3]
      && h.entryPointAddress == data[4] as int + 0x100 * data[5] as int
                                + 0x1_0000 * data[6] as int + 0x100_0000 * data[7] as int
      && h.wpPin == data[8]
      && h.wpPinWhenSPIPinsAreSetViaEfuse == data[10] as int + 0x100 * data[11] as int + 0x1_0000 * data[12] as int
      && h.wpPinWhenSPIPinsAreSetViaEfuse < 0x100_0000
      && h.spiFlashDriveSettings == h.chipID == data[12] as int + 0x100 * data[13] as int
      && h.deprecatedMinimalChipRevision == data[14] as int + 0x100 * data[15] as int
      && h.minimalChipRevision == 100 * data[15] as int + data[16] as int
      && h.maximalChipRevision == 100 * data[17] as int + data[18] as int
      && h.reservedBytes == [data[19], data[20], data[21], data[22]]
      && h.hashAppended == data[23]
  {
  }

  /** Byte just past the last payload, if every payload is present: the
      header plus the sum of RecordPrefixSize + size over all records. */
  function TableEnd(segments: seq<SegmentHeader>): nat
  {
    HeaderSize + RecordOffset(segments, |segments|)
  }

  /** Added: the payload of segment i lies inside the buffer. */
  ghost predicate PayloadInBounds(data: seq<byte>, segments: seq<SegmentHeader>, i: nat)
    requires i < |segments|
  {
    HeaderSize + RecordOffset(segments, i + 1) <= |data|
  }

  /** The decoder only reads record prefixes, so a payload that runs past the
      buffer goes unnoticed unless a later prefix then fails to fit: in a
      successful decode only the last payload can be missing, and all of them
      are present exactly when the table ends inside the buffer. */
  lemma PayloadsOfDecodedTable(data: seq<byte>, segments: seq<SegmentHeader>)
    requires |data| >= HeaderSize && TableMatches(data, segments)
    ensures forall i :: 0 <= i < |segments| - 1 ==> PayloadInBounds(data, segments, i)
    ensures (forall i :: 0 <= i < |segments| ==> PayloadInBounds(data, segments, i))
        <==> TableEnd(segments) <= |data|
  {
    forall i | 0 <= i < |segments| - 1
      ensures PayloadInBounds(data, segments, i)
    {
      assert RecordMatches(data, RecordOffset(segments, i + 1), segments[i + 1]);
    }
    if TableEnd(segments) <= |data| {
      forall i | 0 <= i < |segments|
        ensures PayloadInBounds(data, segments, i)
      {
        RecordOffsetMonotone(segments, i + 1, |segments|);
      }
    }
    if |segments| > 0 && PayloadInBounds(data, segments, |segments| - 1) {
      assert TableEnd(segments) <= |data|;
    }
  }

  lemma {:induction false} RecordOffsetMonotone(segments: seq<SegmentHeader>, i: nat, j: nat)
    requires i <= j <= |segments|
    ensures RecordOffset(segments, i) <= RecordOffset(segments, j)
    decreases j - i
  {
    if i < j {
      RecordOffsetStep(segments, i);
      RecordOffsetMonotone(segments, i + 1, j);
    }
  }

  /** Added: the decode, followed by the payload check the source leaves out. */
  function DecodeImage(data: seq<byte>): (r: Result<Header, DecodeError>)
    ensures r.Success? <==>
      (DecodeFileHeader(data).Success? &&
       forall i :: 0 <= i < |DecodeFileHeader(data).value.segments| ==>
         PayloadInBounds(data, DecodeFileHeader(data).value.segments, i))
    ensures r.Success? ==> r == DecodeFileHeader(data)
    ensures r.Failure? && DecodeFileHeader(data).Success? ==>
      r.error == PayloadTruncated(|DecodeFileHeader(data).value.segments| - 1)
    ensures r.Failure? && DecodeFileHeader(data).Failure? ==> r == DecodeFileHeader(data)
  {
    match DecodeFileHeader(data)
    case Failure(e) => Failure(e)
    case Success(h) =>
      SegmentTableIff(data, h.segments);
      PayloadsOfDecodedTable(data, h.segments);
      if TableEnd(h.segments) <= |data| then Success(h)
      else Failure(PayloadTruncated(|h.segments| - 1))
  }

  /** Added: an address inside the half-open range [offset, offset + size) of s. */
  predicate Covers(s: SegmentHeader, address: nat)
  {
    s.offset <= address < s.offset + s.size
  }

  /** Intersect means exactly that some address lies in both segments. */
  lemma IntersectIffSharedAddress(a: SegmentHeader, b: SegmentHeader)
    ensures Intersect(a, b) <==> exists x: nat :: Covers(a, x) && Covers(b, x)
  {
    if Intersect(a, b) {
      var lo := if a.offset < b.offset then b.offset else a.offset;
      assert Covers(a, lo) && Covers(b, lo);
    }
  }

  /** Added: a segment record as an image builder writes it: load address and payload. */
  datatype SegmentRecord = SegmentRecord(address: nat, payload: seq<byte>)

  /** Added: every address and payload length fits the 4-byte fields of a record prefix. */
  predicate Encodable(records: seq<SegmentRecord>)
  {
    forall i :: 0 <= i < |records| ==>
      records[i].address < 0x1_0000_0000 && |records[i].payload| < 0x1_0000_0000
  }

  /** Added: the segment table bytes, per record the little-endian address, the
      little-endian payload length and the payload. */
  function EncodeTable(records: seq<SegmentRecord>): seq<byte>
  {
    if records == [] then []
    else
      LeBytes(records[0].address, 4) + LeBytes(|records[0].payload|, 4)
      + records[0].payload + EncodeTable(records[1..])
  }

  /** Added: the descriptors a decoder should produce for the records, in order. */
  function Descriptors(records: seq<SegmentRecord>): (segments: seq<SegmentHeader>)
    ensures |segments| == |records|
  {
    if records == [] then []
    else [SegmentHeader(records[0].address, |records[0].payload|)] + Descriptors(records[1..])
  }

  /** Pow256(4) is the 32-bit range. */
  lemma Pow256Four()
    ensures Pow256(4) == 0x1_0000_0000
  {
  }

  /** If data[p..p + |x + y|] holds x + y, then x and y sit side by side at p. */
  lemma SplitSlice(data: seq<byte>, p: nat, x: seq<byte>, y: seq<byte>)
    requires p + |x| + |y| <= |data|
    requires data[p..p + |x| + |y|] == x + y
    ensures data[p..p + |x|] == x
    ensures data[p + |x|..p + |x| + |y|] == y
  {
    assert data[p..p + |x|] == data[p..p + |x| + |y|][..|x|];
    assert (x + y)[..|x|] == x;
    assert data[p + |x|..p + |x| + |y|] == data[p..p + |x| + |y|][|x|..];
    assert (x + y)[|x|..] == y;
  }

  /** Added: the records lie one after another from byte p of data on, each as its
      little-endian address, little-endian payload length and payload. */
  ghost predicate WrittenAt(data: seq<byte>, p: nat, records: seq<SegmentRecord>)
    decreases |records|
  {
    records == [] ||
    var r := records[0];
    && p + RecordPrefixSize + |r.payload| <= |data|
    && data[p..p + 4] == LeBytes(r.address, 4)
    && data[p + 4..p + 8] == LeBytes(|r.payload|, 4)
    && data[p + 8..p + 8 + |r.payload|] == r.payload
    && WrittenAt(data, p + RecordPrefixSize + |r.payload|, records[1..])
  }

  /** The four pieces of a written record sit one after the other at p. */
  lemma RecordPieces(data: seq<byte>, p: nat, a: seq<byte>, l: seq<byte>, payload: seq<byte>, tail: seq<byte>)
    requires |a| == 4 && |l| == 4
    requires p + |a + l + payload + tail| <= |data| && data[p..p + |a + l + payload + tail|] == a + l + payload + tail
    ensures data[p..p + 4] == a && data[p + 4..p + 8] == l
    ensures data[p + 8..p + 8 + |payload|] == payload
    ensures data[p + 8 + |payload|..p + 8 + |payload| + |tail|] == tail
  {
    assert a + l + payload + tail == a + (l + (payload + tail));
    SplitSlice(data, p, a, l + (payload + tail));
    SplitSlice(data, p + 4, l, payload + tail);
    SplitSlice(data, p + 8, payload, tail);
  }

  /** Bytes equal to EncodeTable(records) at p hold the records written at p. */
  lemma {:induction false} EncodeTableWritten(data: seq<byte>, p: nat, records: seq<SegmentRecord>)
    requires p + |EncodeTable(records)| <= |data| && data[p..p + |EncodeTable(records)|] == EncodeTable(records)
    ensures WrittenAt(data, p, records)
    decreases |records|
  {
    if records != [] {
      var r := records[0];
      RecordPieces(data, p, LeBytes(r.address, 4), LeBytes(|r.payload|, 4), r.payload, EncodeTable(records[1..]));
      EncodeTableWritten(data, p + RecordPrefixSize + |r.payload|, records[1..]);
    }
  }

  /** Four bytes written by LeBytes read back through GetUint32. */
  lemma ReadEncodedUint32(data: seq<byte>, p: nat, n: nat)
    requires n < 0x1_0000_0000 && p + 4 <= |data| && data[p..p + 4] == LeBytes(n, 4)
    ensures GetUint32(data, p) == n
  {
    Pow256Four();
    GetUintIsLeUint(data, p);
    LeUintOfLeBytes(n, 4);
  }

  /** A record whose prefix fits, followed by a table that decodes, decodes
      to that record in front of the table. */
  lemma SegmentsFromPrepend(data: seq<byte>, o: nat, n: nat, rest: seq<SegmentHeader>)
    requires n > 0 && HeaderSize + o + RecordPrefixSize <= |data|
    requires SegmentsFrom(data, o + RecordPrefixSize + SegmentAt(data, o).size, n - 1) == Success(rest)
    ensures SegmentsFrom(data, o, n) == Success([SegmentAt(data, o)] + rest)
  {
    SegmentsFromStep(data, o, n);
  }

  lemma EncodableTail(records: seq<SegmentRecord>)
    requires records != [] && Encodable(records)
    ensures Encodable(records[1..])
  {
    forall i | 0 <= i < |records| - 1
      ensures records[1..][i].address < 0x1_0000_0000 && |records[1..][i].payload| < 0x1_0000_0000
    {
      assert records[1..][i] == records[i + 1];
    }
  }

  /** The first written record reads back as its descriptor, and the rest
      are written where the decoder's cursor moves to. */
  lemma DecodeWrittenRecord(data: seq<byte>, o: nat, records: seq<SegmentRecord>)
    requires records != [] && Encodable(records) && WrittenAt(data, HeaderSize + o, records)
    ensures HeaderSize + o + RecordPrefixSize <= |data|
    ensures SegmentAt(data, o) == SegmentHeader(records[0].address, |records[0].payload|)
    ensures Encodable(records[1..])
    ensures WrittenAt(data, HeaderSize + o + RecordPrefixSize + |records[0].payload|, records[1..])
  {
    var r := records[0];
    assert r.address < 0x1_0000_0000 && |r.payload| < 0x1_0000_0000;
    ReadEncodedUint32(data, HeaderSize + o, r.address);
    ReadEncodedUint32(data, HeaderSize + o + 4, |r.payload|);
    EncodableTail(records);
  }

  /** A table written by EncodeTable at cursor o decodes to its descriptors. */
  lemma {:induction false} DecodeEncodedTable(data: seq<byte>, o: nat, records: seq<SegmentRecord>)
    requires Encodable(records) && WrittenAt(data, HeaderSize + o, records)
    ensures SegmentsFrom(data, o, |records|) == Success(Descriptors(records))
    decreases |records|
  {
    if records != [] {
      DecodeWrittenRecord(data, o, records);
      var rest := records[1..];
      DecodeEncodedTable(data, o + RecordPrefixSize + |records[0].payload|, rest);
      SegmentsFromPrepend(data, o, |records|, Descriptors(rest));
    }
  }

  /** The table of records ends exactly where its encoding does. */
  lemma {:induction false} EncodedTableEnd(records: seq<SegmentRecord>)
    ensures RecordOffset(Descriptors(records), |records|) == |EncodeTable(records)|
    decreases |records|
  {
    if records != [] {
      EncodedTableEnd(records[1..]);
      assert Descriptors(records)[1..] == Descriptors(records[1..]);
    }
  }

  /** Round trip: a header that starts with Magic and declares the number of
      records, followed by the encoded records, decodes (with the payload
      check) to that header's fields and exactly the records' descriptors, in
      order, and the table ends at the last byte. */
  lemma ImageRoundTrip(header: seq<byte>, records: seq<SegmentRecord>)
    requires |header| == HeaderSize && header[0] == Magic && header[1] as nat == |records|
    requires Encodable(records)
    ensures var data := header + EncodeTable(records);
      && DecodeImage(data) == Success(HeaderFields(header, Descriptors(records)))
      && TableEnd(Descriptors(records)) == |data|
  {
    var data := header + EncodeTable(records);
    assert data[..HeaderSize] == header;
    assert data[HeaderSize..HeaderSize + |EncodeTable(records)|] == EncodeTable(records);
    EncodeTableWritten(data, HeaderSize, records);
    DecodeEncodedTable(data, 0, records);
    EncodedTableEnd(records);
    assert data[1] == header[1];
    HeaderFieldsOfPrefix(data, header, Descriptors(records));
  }

  /** The header fields depend only on the first HeaderSize bytes. */
  lemma HeaderFieldsOfPrefix(data: seq<byte>, header: seq<byte>, segments: seq<SegmentHeader>)
    requires |header| == HeaderSize <= |data| && data[..HeaderSize] == header
    ensures HeaderFields(data, segments) == HeaderFields(header, segments)
  {
    assert forall i :: 0 <= i < HeaderSize ==> data[i] == data[..HeaderSize][i];
    assert data[19..23] == header[19..23];
  }

  /** The overlap examples: [0x1000, 0x1100) and [0x1080, 0x1100) overlap;
      [0x1000, 0x1100) and [0x1100, 0x1200) only touch. */
  lemma OverlapExamples()
    ensures HasOverlap([SegmentHeader(0x1000, 0x100), SegmentHeader(0x1080, 0x80)])
    ensures !HasOverlap([SegmentHeader(0x1000, 0x100), SegmentHeader(0x1100, 0x100)])
  {
    var crossing := [SegmentHeader(0x1000, 0x100), SegmentHeader(0x1080, 0x80)];
    assert Intersect(crossing[0], crossing[1]);
    var touching := [SegmentHeader(0x1000, 0x100), SegmentHeader(0x1100, 0x100)];
    assert !Intersect(touching[0], touching[1]);
  }

  /** The decimal-coded revision examples: (1, 2) is 102 and (0, 0) is 0. */
  lemma ChipRevisionExamples()
    ensures ChipRevision(1, 2) == 102 && ChipRevision(0, 0) == 0
  {
  }
}
