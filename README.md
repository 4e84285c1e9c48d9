# ESP image decoder and flashing-page helpers, in Dafny

This project models the core of a browser-based ESP flashing tool.

- **ESP firmware image decoding** (`esp_binary_image.mjs`). An ESP `.bin`
  image starts with a fixed 24-byte header whose byte 0 must be the magic
  value `0xE9`. A table of segment records follows; each record is an 8-byte
  prefix (a little-endian load address and a little-endian payload length)
  and then the payload. The `ESPFileHeader` constructor reads the header
  fields through a `DataView` and walks the segment table. It throws when
  the magic is wrong or a read falls outside the buffer. `ESPBinaryImage`
  wraps the bytes, their count and the decoded header.
- **Binary strings** (`index.js`). Two converters move data between a
  `Uint8Array` and a JavaScript string that holds one byte per UTF-16 code
  unit.
- **The program-input check** (`index.js`). Before flashing,
  `validate_program_inputs` walks the rows of the file table, skipping the
  heading row. Each row needs a numeric offset that no earlier row used and
  an attached file. The first failing row is reported.

Files:

- `wrappers.dfy`: `Option`, `Result` and `Outcome`.
- `little_endian.dfy`: bytes, little-endian numbers, and the `DataView`
  reads `getUint16(pos, true)` and `getUint32(pos, true)`.
- `esp_binary_image.dfy`: the decode as pure functions
  (`DecodeFileHeader`, `SegmentsFrom`, `HeaderFields`). It also holds the
  classes `ESPFileHeader` and `ESPBinaryImage`, whose methods decode step by
  step as the constructors do and are proved to agree with those functions.
- `esp_image_layout.dfy`: what a successful decode says about the bytes:
  where each field and each record sits, which payloads are present, and
  what overlap means. It also proves a round trip through a segment-table
  encoder.
- `binary_strings.dfy`: the two converters, as loops over an array.
- `program_inputs.dfy`: the row check, as a loop, and a row-by-row
  characterisation of its verdict.

Modelling choices:

- A JavaScript constructor that may throw becomes three members:
  - a Dafny constructor that runs the field initialisers;
  - a `Decode` method that returns `Pass` or `Fail(error)`;
  - a static factory that returns `Result`.

  A throwing constructor hands no object to its caller, so the factory
  returns either a fresh, valid object or the error.
- A `DataView` is a `seq<byte>`, and every out-of-range read is
  `RangeError`. The header reads at offsets 1 to 23 are replaced by one
  length check. Every one of them lies below byte 24, so with fewer bytes
  some read throws, and with 24 or more none does.
- Table rows are abstracted to `FileRow(offset, hasFile)`. `offset` is
  what `parseInt` returned: `None` stands for `NaN`.

Additions, which the source does not have. Each of these members opens its
doc comment with "Added":

- the payload check: the `PayloadTruncated` error, `PayloadInBounds` and
  `DecodeImage`;
- the overlap test: `Intersect`, `HasOverlap`, `Covers` and
  `ESPBinaryImage.ComputeOverlaps`. The source declares `overlaps = false`
  and never computes it;
- the segment-table encoder used by the round-trip lemma: `SegmentRecord`,
  `Encodable`, `EncodeTable`, `Descriptors` and `WrittenAt`.

The lemmas about these members (`IntersectIffSharedAddress`,
`OverlapExamples`, `EncodeTableWritten`, `DecodeEncodedTable`,
`EncodedTableEnd`, `ImageRoundTrip` and their helpers) prove properties of
the additions and of the source's decoder together.

## Model

| member | source | states |
|---|---|---|
| EspBinaryImage.DecodeFileHeader | esp_binary_image.mjs:57-94 | The decode fails with BadMagic exactly when the buffer is non-empty and byte 0 is not 0xE9. An empty buffer fails with RangeError, and so does any other failure. A success has at least 24 bytes, magic 0xE9, and one segment per declared segment. |
| EspBinaryImage.EfuseWpPins | esp_binary_image.mjs:69 | `(w >> 8) & 0xffffff` on an unsigned 32-bit word is w with its low byte dropped, for either sign of ToInt32(w). The result is below 2^24. |
| EspBinaryImage.ToInt32 | esp_binary_image.mjs:69 | The signed conversion lies in the 32-bit two's-complement range and agrees with w modulo 2^32. |
| EspBinaryImage.ChipRevision | esp_binary_image.mjs:74-79 | `major * 100 + minor` gives back major and minor by division and remainder when minor < 100. |
| EspBinaryImage.SegmentAt | esp_binary_image.mjs:87-88 | A record prefix reads as two unsigned 32-bit values. |
| EspBinaryImage.SegmentsFrom | esp_binary_image.mjs:85-91 | On success the table has exactly n records. The only failure is a RangeError, and only when at least one record remains to be read. |
| EspBinaryImage.PrependTwice | esp_binary_image.mjs:90 | Helper for the loop invariant of ReadSegments: pushing records in two steps equals pushing them in one step. |
| EspBinaryImage.HasOverlap | esp_binary_image.mjs:10 | Added: true exactly when two distinct segments share an address range. |
| EspBinaryImage.ESPFileHeader.constructor | esp_binary_image.mjs:47-55 | Field initialisers: a zeroed 4-byte reservedBytes, no segments, not valid. |
| EspBinaryImage.ESPFileHeader.Decode | esp_binary_image.mjs:57-94 | Fails exactly when DecodeFileHeader fails, with the same error. On success the fields equal the decoded header and `valid` is set. After a bad magic byte only `magic` has changed. |
| EspBinaryImage.HeaderFields | esp_binary_image.mjs:63-83 | The header fields read from a buffer of at least 24 bytes. entryPointAddress is below 2^32, the efuse pins below 2^24, and chipID equals spiFlashDriveSettings, below 2^16. reservedBytes has 4 bytes. The segment list is the one given. HeaderFieldLayout gives the byte formula of each field. |
| EspBinaryImage.ESPFileHeader.DecodeFields | esp_binary_image.mjs:63-83 | Every header field, including the reserved-bytes array, becomes what HeaderFields decodes, with the assignments in the source's order. `segments` and `valid` are unchanged. |
| EspBinaryImage.ESPFileHeader.DecodeImageFields | esp_binary_image.mjs:63-69 | numberOfSegments through wpPinWhenSPIPinsAreSetViaEfuse are read from bytes 1-12. Every other field is unchanged. |
| EspBinaryImage.ESPFileHeader.DecodeChipFields | esp_binary_image.mjs:70-79 | spiFlashDriveSettings, chipID, the deprecated revision and the two decimal-coded revisions are read from bytes 12-18. Every other field is unchanged. |
| EspBinaryImage.ESPFileHeader.ReadReservedBytes | esp_binary_image.mjs:80-82 | The 4-byte array is filled in place with bytes 19-22. |
| EspBinaryImage.ESPFileHeader.ReadSegments | esp_binary_image.mjs:85-91 | The cursor loop fails exactly when SegmentsFrom fails. On success `segments` is the decoded table, in file order. |
| EspBinaryImage.ESPFileHeader.Parse | esp_binary_image.mjs:57-94 | `new ESPFileHeader(data)` yields a fresh, valid object holding the decoded header, or the error that DecodeFileHeader gives. |
| EspBinaryImage.ESPBinaryImage.constructor | esp_binary_image.mjs:25-29 | Stores the bytes, their count and the header. `overlaps` is false. |
| EspBinaryImage.ESPBinaryImage.FromData | esp_binary_image.mjs:25-29 | `new ESPBinaryImage(d)` succeeds exactly when the header decodes. The result has data d, size \|d\|, overlaps false and a valid header equal to the decode, and otherwise the header's error is returned. |
| EspBinaryImage.ESPBinaryImage.ComputeOverlaps | esp_binary_image.mjs:10 | Added: sets `overlaps` to whether two of the header's segments intersect. |
| LittleEndian.GetUint16 | esp_binary_image.mjs:70-72 | A 2-byte read is below 2^16. |
| LittleEndian.GetUint32 | esp_binary_image.mjs:66 | A 4-byte read is below 2^32. |
| LittleEndian.GetUintIsLeUint | esp_binary_image.mjs:66-72 | The 2- and 4-byte reads are the little-endian value of the bytes read: the byte at the lowest position is least significant. |
| LittleEndian.LeUintOfLeBytes | esp_binary_image.mjs:87-88 | Writing n < 256^k as k little-endian bytes and reading them back gives n. |
| EspImageLayout.RecordOffset | esp_binary_image.mjs:85-89 | The cursor o before record i. Each record moves it by at least 8 bytes, and by at least 8 plus the first record's size once that record has been read. RecordOffsetStep gives the exact step. |
| EspImageLayout.RecordOffsetStep | esp_binary_image.mjs:85-89 | The cursor before record i + 1 is the cursor before record i plus 8 plus that record's size. |
| EspImageLayout.SegmentsFromSound | esp_binary_image.mjs:85-91 | Every decoded record's prefix lies inside the buffer, at its cursor position, and reads as that record. |
| EspImageLayout.SegmentsFromComplete | esp_binary_image.mjs:85-91 | A table whose prefixes all lie in the buffer at their cursor positions is exactly what the loop decodes. |
| EspImageLayout.SegmentTableIff | esp_binary_image.mjs:57-94 | A decode succeeds with a given segment list iff the buffer holds the header, starts with 0xE9, declares that many segments, and holds each record's prefix at its cursor position. |
| EspImageLayout.HeaderFieldLayout | esp_binary_image.mjs:59-83 | Byte formulas for each field: entryPointAddress is bytes 4-7 little-endian; the efuse pins are bytes 10-12; chipID equals spiFlashDriveSettings (bytes 12-13); the revisions are 100·major + minor from bytes 15-18; reservedBytes is bytes 19-22; hashAppended is byte 23. |
| EspImageLayout.PayloadsOfDecodedTable | esp_binary_image.mjs:85-91 | The loop reads only record prefixes. In a successful decode every payload except the last lies in the buffer, and all of them do iff the table ends inside the buffer. |
| EspImageLayout.RecordOffsetMonotone | esp_binary_image.mjs:89 | The cursor never moves backwards. |
| EspImageLayout.DecodeImage | esp_binary_image.mjs:85-91 | Added: succeeds iff the decode succeeds and every payload is present, and then equals the decode. Otherwise it reports PayloadTruncated for the last segment, or the decode's own error. |
| EspImageLayout.IntersectIffSharedAddress | esp_binary_image.mjs:10 | Added: two segments intersect iff some address lies in both half-open ranges. |
| EspImageLayout.Descriptors | esp_binary_image.mjs:97-104 | Added, part of the segment-table encoder: one segment header per written record. |
| EspImageLayout.EncodeTableWritten | esp_binary_image.mjs:85-91 | Bytes equal to an encoded table hold each record's prefix and payload one after another. |
| EspImageLayout.DecodeEncodedTable | esp_binary_image.mjs:85-91 | Records written one after another decode to their descriptors, in order. |
| EspImageLayout.EncodedTableEnd | esp_binary_image.mjs:89 | The cursor after the last record equals the length of the encoded table. |
| EspImageLayout.ImageRoundTrip | esp_binary_image.mjs:57-94 | A header with the magic byte and the right count, followed by encoded records, decodes to the header's own fields (the table bytes change none of them) and to those records' descriptors, payload check included. The table ends at the last byte. |
| EspImageLayout.HeaderFieldsOfPrefix | esp_binary_image.mjs:63-83 | The header fields depend only on the first 24 bytes of the buffer. |
| EspImageLayout.OverlapExamples | esp_binary_image.mjs:10 | Added: crossing ranges overlap; touching ranges do not. |
| EspImageLayout.ChipRevisionExamples | esp_binary_image.mjs:74-79 | Revision (1, 2) is 102 and (0, 0) is 0. |
| BinaryStrings.BinaryString | index.js:58-64 | The string has one code unit per byte, each below 256. |
| BinaryStrings.ByteArray | index.js:66-72 | The array has one byte per code unit, and every code unit below 256 is kept unchanged. |
| BinaryStrings.ConvertUint8ArrayToBinaryString | index.js:58-64 | The loop returns BinaryString of the array's contents. |
| BinaryStrings.ConvertBinaryStringToUint8Array | index.js:66-72 | Returns a fresh array whose contents are ByteArray of the string. |
| BinaryStrings.BinaryStringRoundTrip | index.js:58-72 | Bytes turned into a string and back come out unchanged. |
| BinaryStrings.ByteArrayRoundTripIff | index.js:58-72 | A string turned into bytes and back comes out unchanged iff every code unit is below 256. |
| ProgramInputs.CheckedOffsetsDistinct | index.js:301-305 | After k - 1 accepted rows, offsetArr holds their offsets in row order, without repeats, and nothing else. |
| ProgramInputs.CheckRowsSpec | index.js:291-313 | From any accepted prefix, the loop succeeds iff every row passes. Otherwise it reports a later row whose earlier rows pass, with that row's own verdict. |
| ProgramInputs.CheckRows | index.js:291-311 | The loop from row `index` on. A failure names a row at or after `index`. InvalidAddress names a row without a numeric offset, OffsetInUse a row with one, and NoFileSelected a row with a numeric offset and no file. CheckRowsSpec characterises it row by row. |
| ProgramInputs.Validation | index.js:283-313 | The check from row 1 on. A failure names a row after the heading. An InvalidAddress row has no numeric offset, and a NoFileSelected row has no file. A table with only the heading passes. ValidationSpec characterises it row by row. |
| ProgramInputs.ValidationSpec | index.js:283-313 | The check succeeds iff every row after the heading passes: a numeric offset, not used by an earlier row, with a file. Otherwise it names a row whose earlier rows all pass, and the verdict is that row's first failing rule. |
| ProgramInputs.FirstFailingRowReported | index.js:291-311 | If rows 1 to k - 1 pass and row k fails, row k's failure is reported. A repeated offset is reported at its later row. |
| ProgramInputs.RowZeroIgnored | index.js:291 | Changing row 0 (the heading) never changes the verdict. |
| ProgramInputs.ValidateProgramInputs | index.js:283-313 | The loop's verdict is Validation(rows). |
| ProgramInputs.Message | index.js:300-313 | The returned text is "success" iff the verdict is Success. |
| ProgramInputs.Decimal | index.js:300 | A row number is written as a non-empty string of decimal digits, with no leading zero, whose value (DigitsValue) is the number. |

## Left out

- `ESPBinaryImage.FromURL` and the module's top-level `await` of it: network I/O (`fetch`). The model starts from the bytes.
- The `CHECKSUM_MAGIC` getter: it is declared but never used, and no checksum is computed or checked.
- `codefile.mjs` is not part of this model.
- The rest of `index.js` is not modelled: the DOM, the serial transport, the flashing loader, file reading, MD5, terminal output and the progress display. They are I/O and foreign code.
- `parseInt` is not modelled. A row's offset is given already parsed: `Some(n)` for a number, `None` for `NaN`.
- `ProgramInputs.ValidateProgramInputs` returns the verdict, not its text. The text is `ProgramInputs.Message`, and the row number's digits come from `ProgramInputs.Decimal`.
- `EspBinaryImage.ESPFileHeader.constructor`: fields the source leaves `undefined` until the decode runs start at their type's default value here. A failed decode discards the object, so no caller sees them.
- JavaScript numbers are doubles, while the cursor `o` and the sizes are unbounded naturals here. Nothing is lost: at most 255 records of size below 2^32 keep the cursor below 255 · (2^32 + 8) < 2^41, where doubles are exact.
- Two error kinds are not in the code and are not modelled: a length overflow of the segment table and a missing appended hash. The code never reads the appended digest; it only stores the `hashAppended` flag.
- Only the 24-byte header layout the code reads is modelled. Other ESP image layouts are not.
- Error messages are abstracted to `DecodeError` constructors. `ESPError` and its text are not modelled.
