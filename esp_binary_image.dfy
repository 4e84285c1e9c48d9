/** The ESP firmware image (`.bin`) decoder: a fixed 24-byte header followed
    by a table of segment records, each an 8-byte prefix (load address,
    payload length) and the payload.

    The pure functions below say what a successful decode produces; the
    classes ESPFileHeader and ESPBinaryImage do the decode step by step, as the
    JavaScript constructors do, and are proved to agree with them. */
module EspBinaryImage {
  import opened Wrappers
  import opened LittleEndian

  /** The value byte 0 of every image must hold (the MAGIC getter). */
  const Magic: byte := 0xE9

  /** Length of the fixed header; the segment table starts at this byte. */
  const HeaderSize: nat := 24

  /** Length of a segment record's prefix: a 4-byte address and a 4-byte size. */
  const RecordPrefixSize: nat := 8

  /** Why a decode fails. */
  datatype DecodeError =
    | RangeError                    // a DataView read lies outside the buffer
    | BadMagic                      // the ESPError thrown when byte 0 is not Magic
    | PayloadTruncated(segment: nat) // Added: the segment's payload runs past the buffer

  /** ESPSegmentHeader: the load address (`offset`) and payload length (`size`)
      of one segment record. It is never changed after construction. */
  datatype SegmentHeader = SegmentHeader(offset: nat, size: nat)

  /** The decoded fields of an ESPFileHeader, as values. */
  datatype Header = Header(
    magic: byte,
    numberOfSegments: byte,
    spiFlashMode: byte,
    flashSizeAndFrequency: byte,
    entryPointAddress: nat,
    wpPin: byte,
    wpPinWhenSPIPinsAreSetViaEfuse: nat,
    spiFlashDriveSettings: nat,
    chipID: nat,
    deprecatedMinimalChipRevision: nat,
    minimalChipRevision: nat,
    maximalChipRevision: nat,
    reservedBytes: seq<byte>,
    hashAppended: byte,
    segments: seq<SegmentHeader>)

  /** ECMAScript ToInt32 of an unsigned 32-bit value: the operand conversion of `>>`. */
  function ToInt32(w: nat): (r: int)
    requires w < 0x1_0000_0000
    ensures -0x8000_0000 <= r < 0x8000_0000
    ensures r % 0x1_0000_0000 == w
  {
    if w < 0x8000_0000 then w else w - 0x1_0000_0000
  }

  /** `(w >> 8) & 0x00ffffff` in JavaScript: an arithmetic shift of the signed
      32-bit value, then a mask. Whatever the sign, it drops the low byte. */
  function EfuseWpPins(w: nat): (r: nat)
    requires w < 0x1_0000_0000
    ensures r == w / 0x100
    ensures r < 0x100_0000
  {
    var shifted := ToInt32(w) / 0x100;  // Euclidean division by a positive divisor floors, as >> does
    assert w >= 0x8000_0000 ==> shifted == w / 0x100 - 0x100_0000;
    shifted % 0x100_0000                // & 0x00ffffff keeps the low 24 bits of a two's-complement value
  }

  /** A chip revision stored as a decimal-coded pair: `major * 100 + minor`. */
  function ChipRevision(major: byte, minor: byte): (r: nat)
    ensures minor < 100 ==> r / 100 == major && r % 100 == minor
  {
    major as nat * 100 + minor as nat
  }

  /** The segment record whose prefix starts at byte HeaderSize + o, where o is
      the cursor of the decoding loop. */
  function SegmentAt(data: seq<byte>, o: nat): (s: SegmentHeader)
    requires HeaderSize + o + RecordPrefixSize <= |data|
    ensures s.offset < 0x1_0000_0000 && s.size < 0x1_0000_0000
  {
    SegmentHeader(GetUint32(data, HeaderSize + o), GetUint32(data, HeaderSize + o + 4))
  }

  /** The n segment records starting at cursor o, in file order. A record
      whose 8-byte prefix does not fit in the buffer is a RangeError; the
      payload itself is skipped without being looked at. */
  function SegmentsFrom(data: seq<byte>, o: nat, n: nat): (r: Result<seq<SegmentHeader>, DecodeError>)
    ensures r.Success? ==> |r.value| == n
    ensures r.Failure? ==> r.error == RangeError && n > 0
    decreases n
  {
    if n == 0 then Success([])
    else if |data| < HeaderSize + o + RecordPrefixSize then Failure(RangeError)
    else
      var s := SegmentAt(data, o);
      match SegmentsFrom(data, o + RecordPrefixSize + s.size, n - 1)
      case Success(rest) => Success([s] + rest)
      case Failure(e) => Failure(e)
  }

  /** The records already read, put in front of the outcome of reading the rest. */
  function Prepend(done: seq<SegmentHeader>, rest: Result<seq<SegmentHeader>, DecodeError>): Result<seq<SegmentHeader>, DecodeError>
  {
    match rest
    case Success(more) => Success(done + more)
    case Failure(e) => Failure(e)
  }

  lemma PrependTwice(a: seq<SegmentHeader>, b: seq<SegmentHeader>, rest: Result<seq<SegmentHeader>, DecodeError>)
    ensures Prepend(a, Prepend(b, rest)) == Prepend(a + b, rest)
  {
    if rest.Success? {
      assert a + (b + rest.value) == (a + b) + rest.value;
    }
  }

  /** The header fields of a buffer of at least HeaderSize bytes, with the
      given segment list. */
  function HeaderFields(data: seq<byte>, segments: seq<SegmentHeader>): (h: Header)
    requires |data| >= HeaderSize
    ensures h.entryPointAddress < 0x1_0000_0000
    ensures h.wpPinWhenSPIPinsAreSetViaEfuse < 0x100_0000
    ensures h.chipID == h.spiFlashDriveSettings < 0x1_0000
    ensures h.deprecatedMinimalChipRevision < 0x1_0000
    ensures |h.reservedBytes| == 4
    ensures h.segments == segments
  {
    Header(
      data[0], data[1], data[2], data[3],
      GetUint32(data, 4),
      data[8],
      EfuseWpPins(GetUint32(data, 9)),
      GetUint16(data, 12),
      GetUint16(data, 12),
      GetUint16(data, 14),
      ChipRevision(data[15], data[16]),
      ChipRevision(data[17], data[18]),
      data[19..23],
      data[23],
      segments)
  }

  /** What `new ESPFileHeader(data)` produces, or the error it throws. */
  function DecodeFileHeader(data: seq<byte>): (r: Result<Header, DecodeError>)
    ensures r == Failure(BadMagic) <==> |data| > 0 && data[0] != Magic
    ensures |data| == 0 ==> r == Failure(RangeError)
    ensures r.Success? ==>
      && |data| >= HeaderSize
      && r.value.magic == Magic
      && |r.value.segments| == r.value.numberOfSegments
    ensures r.Failure? ==> r.error == RangeError || r.error == BadMagic
  {
    if |data| < 1 then Failure(RangeError)
    else if data[0] != Magic then Failure(BadMagic)
    else if |data| < HeaderSize then Failure(RangeError)
    else
      match SegmentsFrom(data, 0, data[1])
      case Success(segments) => Success(HeaderFields(data, segments))
      case Failure(e) => Failure(e)
  }

  /** Added: true when the half-open address ranges [offset, offset + size) of a and b
      share an address. Zero-length segments share none. */
  predicate Intersect(a: SegmentHeader, b: SegmentHeader)
  {
    var lo := if a.offset < b.offset then b.offset else a.offset;
    var hi := if a.offset + a.size < b.offset + b.size then a.offset + a.size else b.offset + b.size;
    lo < hi
  }

  /** Added: whether two distinct segments of the list intersect. */
  function HasOverlap(segments: seq<SegmentHeader>): (r: bool)
    ensures r <==> exists i, j :: 0 <= i < j < |segments| && Intersect(segments[i], segments[j])
  {
    if segments == [] then false
    else if exists j :: 1 <= j < |segments| && Intersect(segments[0], segments[j]) then true
    else
      var r := HasOverlap(segments[1..]);
      assert r ==> exists i, j :: 1 <= i < j < |segments| && Intersect(segments[i], segments[j]) by {
        if r {
          var i, j :| 0 <= i < j < |segments| - 1 && Intersect(segments[1..][i], segments[1..][j]);
          assert Intersect(segments[i + 1], segments[j + 1]);
        }
      }
      assert !r ==> forall i, j :: 1 <= i < j < |segments| ==> !Intersect(segments[i], segments[j]) by {
        if !r {
          forall i, j | 1 <= i < j < |segments| ensures !Intersect(segments[i], segments[j]) {
            assert segments[i] == segments[1..][i - 1] && segments[j] == segments[1..][j - 1];
          }
        }
      }
      r
  }

  /** An ESPFileHeader object: the header fields, the reserved bytes in a
      4-byte Uint8Array, the decoded segments and the `valid` flag. */
  class ESPFileHeader {
    var chipID: nat
    var deprecatedMinimalChipRevision: nat
    var entryPointAddress: nat
    var flashSizeAndFrequency: byte
    var hashAppended: byte
    var magic: byte
    var maximalChipRevision: nat
    var minimalChipRevision: nat
    var numberOfSegments: byte
    const reservedBytes: array<byte>
    var segments: seq<SegmentHeader>
    var spiFlashDriveSettings: nat
    var spiFlashMode: byte
    var wpPin: byte
    var wpPinWhenSPIPinsAreSetViaEfuse: nat
    var valid: bool

    /** The object's fields as a Header value. */
    function View(): Header
      reads this, reservedBytes
    {
      Header(magic, numberOfSegments, spiFlashMode, flashSizeAndFrequency,
        entryPointAddress, wpPin, wpPinWhenSPIPinsAreSetViaEfuse,
        spiFlashDriveSettings, chipID, deprecatedMinimalChipRevision,
        minimalChipRevision, maximalChipRevision, reservedBytes[..],
        hashAppended, segments)
    }

    /** The field initialisers: a zeroed 4-byte reservedBytes, no segments, not valid.
        Fields the source leaves undefined start at 0 here. */
    constructor ()
      ensures fresh(reservedBytes) && reservedBytes[..] == [0, 0, 0, 0]
      ensures segments == [] && !valid
    {
      reservedBytes := new byte[4](_ => 0);
      segments := [];
      valid := false;
    }

    /** The body of the JavaScript constructor, run on a freshly initialised
        object. It fails exactly when DecodeFileHeader does, with the same
        error; on success the fields are the decoded header and `valid` is set.
        A bad magic number leaves every field but `magic` untouched. */
    method Decode(data: seq<byte>) returns (outcome: Outcome<DecodeError>)
      requires reservedBytes.Length == 4 && segments == [] && !valid
      modifies this, reservedBytes
      ensures outcome.Pass? <==> DecodeFileHeader(data).Success?
      ensures outcome.Fail? ==> outcome.error == DecodeFileHeader(data).error
      ensures outcome.Pass? ==> View() == DecodeFileHeader(data).value
      ensures valid <==> outcome.Pass?
      ensures outcome == Fail(BadMagic) ==> View() == old(View()).(magic := data[0])
    {
      if |data| < 1 {
        return Fail(RangeError);
      }
      magic := data[0];
      if magic != Magic {
        return Fail(BadMagic);
      }
      // Every remaining header read lies below byte HeaderSize, so they all
      // succeed or the first of them throws a RangeError.
      if |data| < HeaderSize {
        return Fail(RangeError);
      }
      DecodeFields(data);
      outcome := ReadSegments(data);
      if outcome.Pass? {
        valid := true;
      }
    }

    /** The header-field assignments of the constructor, on a buffer that holds
        the whole fixed header: every field but `segments` and `valid` becomes
        what HeaderFields decodes. */
    method DecodeFields(data: seq<byte>)
      requires |data| >= HeaderSize && data[0] == magic && reservedBytes.Length == 4
      modifies this, reservedBytes
      ensures View() == HeaderFields(data, segments)
      ensures segments == old(segments) && valid == old(valid)
    {
      DecodeImageFields(data);
      DecodeChipFields(data);
      ReadReservedBytes(data);
      hashAppended := data[23];
    }

    /** The assignments from numberOfSegments to wpPinWhenSPIPinsAreSetViaEfuse. */
    method DecodeImageFields(data: seq<byte>)
      requires |data| >= HeaderSize
      modifies this
      ensures && numberOfSegments == data[1]
              && spiFlashMode == data[2] && flashSizeAndFrequency == data[3]
              && entryPointAddress == GetUint32(data, 4) && wpPin == data[8]
              && wpPinWhenSPIPinsAreSetViaEfuse == EfuseWpPins(GetUint32(data, 9))
      ensures magic == old(magic) && hashAppended == old(hashAppended)
      ensures segments == old(segments) && valid == old(valid)
      ensures spiFlashDriveSettings == old(spiFlashDriveSettings) && chipID == old(chipID)
      ensures deprecatedMinimalChipRevision == old(deprecatedMinimalChipRevision)
      ensures minimalChipRevision == old(minimalChipRevision)
      ensures maximalChipRevision == old(maximalChipRevision)
    {
      numberOfSegments := data[1];
      spiFlashMode := data[2];
      flashSizeAndFrequency := data[3];
      entryPointAddress := GetUint32(data, 4);
      wpPin := data[8];
      wpPinWhenSPIPinsAreSetViaEfuse := EfuseWpPins(GetUint32(data, 9));
    }

    /** The assignments from spiFlashDriveSettings to maximalChipRevision. */
    method DecodeChipFields(data: seq<byte>)
      requires |data| >= HeaderSize
      modifies this
      ensures && spiFlashDriveSettings == GetUint16(data, 12) && chipID == GetUint16(data, 12)
              && deprecatedMinimalChipRevision == GetUint16(data, 14)
              && minimalChipRevision == ChipRevision(data[15], data[16])
              && maximalChipRevision == ChipRevision(data[17], data[18])
      ensures magic == old(magic) && hashAppended == old(hashAppended)
      ensures segments == old(segments) && valid == old(valid)
      ensures numberOfSegments == old(numberOfSegments) && spiFlashMode == old(spiFlashMode)
      ensures flashSizeAndFrequency == old(flashSizeAndFrequency)
      ensures entryPointAddress == old(entryPointAddress) && wpPin == old(wpPin)
      ensures wpPinWhenSPIPinsAreSetViaEfuse == old(wpPinWhenSPIPinsAreSetViaEfuse)
    {
      spiFlashDriveSettings := GetUint16(data, 12);
      chipID := GetUint16(data, 12);
      deprecatedMinimalChipRevision := GetUint16(data, 14);
      var major, minor := data[15], data[16];
      minimalChipRevision := ChipRevision(major, minor);
      major, minor := data[17], data[18];
      maximalChipRevision := ChipRevision(major, minor);
    }

    /** The reserved-bytes loop of the constructor: bytes 19 to 22, copied in
        place into the 4-byte array. */
    method ReadReservedBytes(data: seq<byte>)
      requires |data| >= HeaderSize && reservedBytes.Length == 4
      modifies reservedBytes
      ensures reservedBytes[..] == data[19..23]
    {
      for i := 0 to 4
        invariant forall k :: 0 <= k < i ==> reservedBytes[k] == data[k + 19]
      {
        reservedBytes[i] := data[i + 19];
      }
    }

    /** The segment-table loop of the constructor: the cursor o starts at 0 and
        moves past each record's prefix and payload; each record read is pushed
        onto `segments`. It fails exactly when SegmentsFrom does, and on success
        `segments` is the decoded table. */
    method ReadSegments(data: seq<byte>) returns (outcome: Outcome<DecodeError>)
      requires segments == []
      modifies this`segments
      ensures outcome.Pass? <==> SegmentsFrom(data, 0, numberOfSegments).Success?
      ensures outcome.Fail? ==> outcome.error == SegmentsFrom(data, 0, numberOfSegments).error
      ensures outcome.Pass? ==> segments == SegmentsFrom(data, 0, numberOfSegments).value
    {
      var n := numberOfSegments;
      ghost var table := SegmentsFrom(data, 0, n);
      var o: nat := 0;
      assert table.Success? ==> [] + table.value == table.value;
      for i := 0 to n
        invariant |segments| == i
        invariant table == Prepend(segments, SegmentsFrom(data, o, n - i))
      {
        if |data| < HeaderSize + o + RecordPrefixSize {
          return Fail(RangeError);
        }
        var offset := GetUint32(data, HeaderSize + o);
        var size := GetUint32(data, HeaderSize + o + 4);
        ghost var rest := SegmentsFrom(data, o + (RecordPrefixSize + size), n - i - 1);
        assert SegmentsFrom(data, o, n - i) == Prepend([SegmentHeader(offset, size)], rest);
        PrependTwice(segments, [SegmentHeader(offset, size)], rest);
        o := o + (RecordPrefixSize + size);
        segments := segments + [SegmentHeader(offset, size)];
      }
      return Pass;
    }

    /** `new ESPFileHeader(data)`: a fresh, valid header object holding the
        decoded fields, or the error the constructor throws. */
    static method Parse(data: seq<byte>) returns (r: Result<ESPFileHeader, DecodeError>)
      ensures r.Success? <==> DecodeFileHeader(data).Success?
      ensures r.Failure? ==> r.error == DecodeFileHeader(data).error
      ensures r.Success? ==>
        && fresh(r.value) && fresh(r.value.reservedBytes)
        && r.value.valid
        && r.value.View() == DecodeFileHeader(data).value
    {
      var h := new ESPFileHeader();
      var outcome := h.Decode(data);
      if outcome.Fail? {
        return Failure(outcome.error);
      }
      return Success(h);
    }
  }

  /** An ESPBinaryImage object: the image bytes, their count and the decoded
      header. `overlaps` is declared false by the source and never computed;
      ComputeOverlaps is an addition that fills it. */
  class ESPBinaryImage {
    const data: seq<byte>
    const size: nat
    var overlaps: bool
    const header: ESPFileHeader

    constructor (d: seq<byte>, h: ESPFileHeader)
      ensures data == d && size == |d| && header == h && !overlaps
    {
      data := d;
      size := |d|;
      overlaps := false;
      header := h;
    }

    /** `new ESPBinaryImage(d)`: the image with its decoded header, or the error
        the header's decode throws. */
    static method FromData(d: seq<byte>) returns (r: Result<ESPBinaryImage, DecodeError>)
      ensures r.Success? <==> DecodeFileHeader(d).Success?
      ensures r.Failure? ==> r.error == DecodeFileHeader(d).error
      ensures r.Success? ==>
        && fresh(r.value) && fresh(r.value.header) && fresh(r.value.header.reservedBytes)
        && r.value.data == d && r.value.size == |d| && !r.value.overlaps
        && r.value.header.valid
        && r.value.header.View() == DecodeFileHeader(d).value
    {
      var h := ESPFileHeader.Parse(d);
      if h.Failure? {
        return Failure(h.error);
      }
      var image := new ESPBinaryImage(d, h.value);
      return Success(image);
    }

    /** Added: sets `overlaps` to whether two of the header's segments claim a
        common load address. */
    method ComputeOverlaps()
      modifies this`overlaps
      ensures overlaps <==> exists i, j :: 0 <= i < j < |header.segments|
                              && Intersect(header.segments[i], header.segments[j])
    {
      overlaps := HasOverlap(header.segments);
    }
  }
}
