# segpy SEG-Y core, modelled in Dafny

This project models the binary-layout and scanning core of segpy, a reader and
writer for SEG-Y revision 1 seismic files, and proves properties of it.

A SEG-Y file starts with a 3200-byte textual reel header (40 cards of 80
bytes) and a 400-byte binary reel header. Optional 3200-byte extended textual
headers follow, then the trace records. Each trace record is a 240-byte trace
header followed by `ns` samples of `bps` bytes each.

The model covers these parts of `segpy/toolkit.py`, each in its own module:

- `BinaryValues`: reading and packing binary values. This covers `struct`'s
  fixed-width integer codes i/I/h/H/b/B as explicit two's-complement or
  unsigned byte encodings in either byte order, plus IBM floats through an
  opaque per-4-byte conversion.
- `ReelHeader`: reading and writing the binary reel header, and the
  indicative trace length.
- `TextualHeaders`: reading the textual header and the extended textual
  headers. There are two modes, until the `((SEG: EndText))` stanza or a
  counted number of pages.
- `ExtendedFormat`: formatting text into extended header pages, and writing
  encoded pages.
- `TraceHeaderLayout`: compiling the trace header layout from field
  positions and types.
- `Catalog`: the one-pass trace catalog scan (`catalog_traces`).
- `TraceLength`: what the indicative trace length of `trace_length_bytes`
  means for the records `catalog_traces` steps over.

It also covers the type tables of `segpy/datatypes.py` (`DataTypes`) and the
range-checked integer field types of `segpy/field_types.py` (`FieldTypes`).

Shared pieces live in `SegyBase`: byte sequences, the `Result`/`Option`
wrappers, the exception kinds, and the file-image operations. The file
object the writers use is an `OutputFile` class with a byte image and a
cursor. Reading works on a byte sequence and a cursor.

Where the code and its documentation disagree, the model follows the code:

- `read_extended_headers_until_end` appends each page before it tests for
  the stanza (segpy/toolkit.py:199-202). The page holding the stanza is
  therefore returned, although its docstring says it is excluded.
  `TextualHeaders.UntilEndStanza` states the behaviour as written.
- `write_extended_textual_headers` builds the wrong-page-size message from
  three placeholders but only two arguments (segpy/toolkit.py:699-700). That
  case therefore raises `IndexError`, not the documented `ValueError`.
- `write_binary_values` never passes `endian` to `pack_values`
  (segpy/toolkit.py:753), so values are always written big-endian.
- `compile_trace_header_format` computes the padding as `length - pos`
  (segpy/toolkit.py:820), which has the wrong sign; see "Findings".
- `toolkit.py` imports `CTYPES` from segpy/datatypes.py
  (segpy/toolkit.py:12), but that file defines no `CTYPES`, so the import
  fails as the files stand. The model assumes `CTYPES` is
  `SEG_Y_TYPE_TO_CTYPE` (segpy/datatypes.py:39), the table datatypes.py
  defines from SEG-Y type names to struct codes.
- The docstring of `format_extended_textual_header` says newlines are
  preserved (segpy/toolkit.py:624), but an empty line yields no card,
  because its chunk range is empty (segpy/toolkit.py:647). So `"a\n\nb"`
  formats exactly like `"a\nb"`; `ExtendedFormat.BlankLineDropped` and
  `ExtendedFormat.BlankLineExample` state this.

## Model

| member | source | states |
|---|---|---|
| DataTypes.DataSampleFormatOf | segpy/datatypes.py:11-25 | The sample format lookup succeeds exactly for codes 1, 2, 3, 5 and 8, yielding the member with that code. Any other code is ValueError. |
| DataTypes.Invert | segpy/datatypes.py:35 | Inverting an injective map gives a map whose keys are the original values, each mapping back to its key. |
| DataTypes.SampleFormatMapsAreInverse | segpy/datatypes.py:28-35 | SEG_Y_TYPE_TO_DATA_SAMPLE_FORMAT is the exact inverse of DATA_SAMPLE_FORMAT_TO_SEG_Y_TYPE in both directions. Its keys are the five sample type names and its codes are 1, 2, 3, 5 and 8. |
| DataTypes.FormatKeysCovered | segpy/datatypes.py:28-33 | Every DataSampleFormat member has a SEG-Y type. |
| DataTypes.SizeInBytes | segpy/datatypes.py:62-79 | size_in_bytes is 4 for i, I, f and ibm, 2 for h and H, and 1 for b and B. Any other code raises ValueError. |
| DataTypes.SampleFormatSizes | segpy/datatypes.py:28-70 | Every SEG-Y type's ctype has a size. Format code, then type, then ctype, then size gives 4, 4, 2, 4 and 1 bytes per sample for formats 1, 2, 3, 5 and 8. |
| DataTypes.LimitsFitCtypes | segpy/datatypes.py:83-92 | Every integer type's limits satisfy min <= max and fit the signed or unsigned range of its ctype. Non-negative types have min 0. nnint16 and nnint8 are capped at 32767 and 127, below their ctypes' capacity. |
| DataTypes.LimitsFitCtype | segpy/datatypes.py:83-92 | The same facts, for one integer type. |
| FieldTypes.DefineIntField | segpy/field_types.py:17-39 | Defining an integer field class fails with KeyError exactly when the type has no ctype. Otherwise MINIMUM and MAXIMUM default to LIMITS of the type, and SIZE is size_in_bytes of its ctype. |
| FieldTypes.LookupByValue | segpy/field_types.py:69-71 | The enum lookup yields the first member with the value, and None exactly when no member has it. |
| FieldTypes.DefineIntEnumField | segpy/field_types.py:73-82 | An enum field class is defined exactly when every enum value lies within LIMITS of its type (default int16). Otherwise it is ValueError, or KeyError for a type without limits. On success the class is the plain integer field class plus ENUM. |
| FieldTypes.Construct | segpy/field_types.py:9-15 | Constructing an integer field succeeds exactly for values in [MINIMUM, MAXIMUM] and yields that integer. An enum field yields the member with that value. Failures are ValueError. |
| FieldTypes.StandardFieldClasses | segpy/field_types.py:45-62 | Int16, NNInt16, Int32 and NNInt32 have the limits of their types, and SIZE 2, 2, 4 and 4. |
| FieldTypes.EnumInstanceWithinLimits | segpy/field_types.py:69-82 | Every value an enum field accepts lies within its type's limits. |
| BinaryValues.DecodeEncodeLE | segpy/toolkit.py:783-784 | Encoding an unsigned value in w little-endian bytes and decoding it gives the value back. |
| BinaryValues.EncodeDecodeLE | segpy/toolkit.py:474-475 | Decoding w bytes and re-encoding them gives the same bytes. |
| BinaryValues.IntFormatOf | segpy/toolkit.py:474-475 | A struct code is an integer format exactly for i, I, h, H, b and B, with the width size_in_bytes gives. |
| BinaryValues.InRangeIsStructRange | segpy/toolkit.py:783-784 | The values an integer code can encode are exactly the signed or unsigned range of its width. |
| BinaryValues.DecodeEncodeInt | segpy/toolkit.py:783-784 | Packing an in-range integer and unpacking it with the same code and byte order gives the integer back. |
| BinaryValues.EncodeDecodeInt | segpy/toolkit.py:474-475 | Unpacking any bytes of the item width and packing the result gives the same bytes. |
| BinaryValues.UnpackValues | segpy/toolkit.py:456-475 | Unpacking succeeds exactly for a known code with a buffer of count times the item size, and gives count items. Item i comes from bytes [w*i, w*i+w). Otherwise it is struct.error. |
| BinaryValues.UnpackIbmFloats | segpy/toolkit.py:441-453 | count floats are produced, and float i is the conversion of bytes [4i, 4i+4). |
| BinaryValues.PackValues | segpy/toolkit.py:771-784 | Packing succeeds exactly when the code is known and every value packs, giving count times the item size bytes. An unknown code is struct.error. Other failures are struct.error or OverflowError. |
| BinaryValues.PackIbmFloats | segpy/toolkit.py:758-768 | Packing succeeds exactly when every value converts; bytes [4i, 4i+4) are value i's conversion. A failure is OverflowError. |
| BinaryValues.ReadAt | segpy/toolkit.py:427-428 | A read of n bytes at a position returns that slice of the file when available, and fewer than n bytes otherwise. |
| BinaryValues.ItemSize | segpy/toolkit.py:423-424 | The item size is size_in_bytes of the type's ctype, and is positive. An unknown type raises KeyError. |
| BinaryValues.ReadBinaryValues | segpy/toolkit.py:409-438 | An unknown type raises KeyError. EOFError is raised exactly when fewer than size*count bytes remain. Otherwise the result has count items, and for ibm item i is the conversion of its 4 bytes. |
| BinaryValues.EncodeBinaryValues | segpy/toolkit.py:746-753 | Encoding for writing: an unknown type is KeyError, and the result is count times the item size bytes. |
| BinaryValues.WriteBinaryValues | segpy/toolkit.py:733-755 | The write succeeds exactly when the encoding does. It overwrites the file at pos, or at the cursor when pos is omitted, and leaves the cursor after the block. A failure leaves the file unchanged. |
| BinaryValues.WriteReadRoundTrip | segpy/toolkit.py:409-438 | Integers written with write_binary_values read back equal with read_binary_values, big-endian. |
| BinaryValues.ReadSeesBlock | segpy/toolkit.py:423-436 | read_binary_values of a non-ibm type unpacks exactly the size*count bytes at pos. |
| BinaryValues.UnpackPackInts | segpy/toolkit.py:456-475 | Unpacking packed in-range integers gives them back. |
| BinaryValues.PackIntValues | segpy/toolkit.py:771-784 | Packing in-range integers succeeds. |
| BinaryValues.PackIntValuesFlat | segpy/toolkit.py:771-784 | Packed integers are the concatenation of their individual encodings. |
| BinaryValues.PackIntValuesPart | segpy/toolkit.py:771-784 | Bytes [w*i, w*i+w) of packed integers are the encoding of integer i. |
| ReelHeader.ReadValue | segpy/toolkit.py:161-164 | One header field is the single value read_binary_values reads at its position, or that read's error. |
| ReelHeader.ReadFieldsOk | segpy/toolkit.py:159-165 | Reading the binary reel header succeeds exactly when every field read succeeds. |
| ReelHeader.ReadFieldsKeys | segpy/toolkit.py:159-165 | The header read has exactly the definition's field names as keys. |
| ReelHeader.ReadFieldsValues | segpy/toolkit.py:159-165 | Each field of the header read holds the value read at that field's position. |
| ReelHeader.ReadFieldsErr | segpy/toolkit.py:159-165 | A failing header read fails with the error of the first field that fails. |
| ReelHeader.ReadBinaryReelHeader | segpy/toolkit.py:149-165 | The header-reading loop computes the field-by-field reading. |
| ReelHeader.WriteOneField | segpy/toolkit.py:614-617 | Writing one field writes the header's value, or the definition's default, at the field's position. |
| ReelHeader.WriteBinaryReelHeader | segpy/toolkit.py:602-617 | The header-writing loop computes the field-by-field writing, stopping at the first error. |
| ReelHeader.WriteIntField | segpy/toolkit.py:614-617 | An in-range integer field writes exactly its encoding at its position. |
| ReelHeader.WrittenFieldsInPlace | segpy/toolkit.py:602-617 | With non-overlapping fields, writing the header succeeds, and every field's bytes are in place afterwards. |
| ReelHeader.WriteThenReadReelHeader | segpy/toolkit.py:149-165 | Writing a header of in-range integers with distinct, non-overlapping fields, then reading it back, gives every field's value, or its default. |
| ReelHeader.TraceLengthBytes | segpy/toolkit.py:81-117 | trace_length_bytes raises KeyError exactly when ns is missing. Otherwise it is ns*bps + 240. |
| ReelHeader.TraceLengthBounds | segpy/toolkit.py:100-117 | The trace length is at least 240, and one more sample adds bps bytes. |
| TraceLength.TraceLengthIsRecordBytes | segpy/toolkit.py:100-117 | The indicative trace length of a header declaring n samples equals the byte length of a trace record holding n samples. |
| TraceLength.UniformTotalBytes | segpy/toolkit.py:346-359 | Records that all hold n samples occupy 240 + n*bps bytes each. |
| TraceLength.UniformTraceOffsets | segpy/toolkit.py:100-117 | When the header declares n samples and every scanned record holds n, trace i starts i trace lengths after the start cursor, and the scan stops one trace length per record after it. |
| TextualHeaders.Cards | segpy/toolkit.py:145 | A 3200-byte header splits into 40 cards, card i being bytes [80i, 80i+80). |
| TextualHeaders.CardsJoin | segpy/toolkit.py:145 | The 40 cards concatenate back to the header bytes. |
| TextualHeaders.ReadTextualReelHeader | segpy/toolkit.py:120-146 | The read raises EOFError exactly when fewer than 3200 bytes remain. Otherwise it gives 40 cards of 80 bytes, concatenating to the 3200 bytes read, and moves the cursor past them. |
| TextualHeaders.ContainsIff | segpy/toolkit.py:168-178 | The stanza test finds the stanza exactly when it occurs at some offset of the first card. |
| TextualHeaders.UntilEndPages | segpy/toolkit.py:181-203 | Until-end reading returns one or more consecutive pages from the cursor, and moves the cursor past them. |
| TextualHeaders.UntilEndStanza | segpy/toolkit.py:197-203 | In until-end reading, the last page returned is the only page with the stanza, so the stanza page is kept. |
| TextualHeaders.UntilEndErr | segpy/toolkit.py:135-140 | Until-end reading raises EOFError exactly when no full page before the end of file holds the stanza. |
| TextualHeaders.CountedAssertion | segpy/toolkit.py:226 | Counted reading fails its assertion exactly for a negative count. |
| TextualHeaders.CountedPages | segpy/toolkit.py:226-236 | Counted reading returns at most n consecutive pages from the cursor, none holding the stanza. |
| TextualHeaders.CountedCursor | segpy/toolkit.py:228-234 | If fewer than n pages are returned, the next page holds the stanza and was read. Otherwise the cursor is n pages on. |
| TextualHeaders.CountedErr | segpy/toolkit.py:228-229 | Counted reading raises EOFError only when the file holds fewer than n pages, none of them with the stanza. |
| TextualHeaders.CountedNoStanza | segpy/toolkit.py:226-236 | When the first n pages exist and none has the stanza, exactly those n pages are returned, in file order. |
| TextualHeaders.ReadExtendedHeadersUntilEnd | segpy/toolkit.py:181-203 | The until-end loop computes until-end reading. |
| TextualHeaders.ReadExtendedHeadersCounted | segpy/toolkit.py:206-236 | The counted loop computes counted reading. |
| TextualHeaders.ReadExtendedTextualHeaders | segpy/toolkit.py:265-272 | From offset 3600, a negative declared count reads until the stanza, and any other count reads that many pages. |
| ExtendedFormat.FirstBoundary | segpy/toolkit.py:641 | The first line boundary of the text, as str.splitlines defines boundaries. |
| ExtendedFormat.SplitLines | segpy/toolkit.py:641 | splitlines yields lines without boundaries, made of the text's characters. |
| ExtendedFormat.SplitJoinLines | segpy/toolkit.py:641 | Splitting lines joined with newlines gives the lines back. |
| ExtendedFormat.PadAndTerminateHeaderLine | segpy/toolkit.py:659-660 | The line, left-justified with spaces to the width, then CRLF. |
| ExtendedFormat.Chunks | segpy/toolkit.py:645-647 | A line splits into ceil(len/78) chunks, each of 1 to 78 characters. |
| ExtendedFormat.ChunksJoin | segpy/toolkit.py:645-647 | The chunks concatenate back to the line. |
| ExtendedFormat.PaddedChunks | segpy/toolkit.py:646-647 | Each padded chunk is 80 characters ending in CRLF. |
| ExtendedFormat.PaddedChunksJoin | segpy/toolkit.py:643-648 | The text parts of the padded chunks concatenate to the line followed by fewer than 78 spaces. |
| ExtendedFormat.Batched | segpy/toolkit.py:650 | Batching makes pages of exactly n items, none when there are no items. |
| ExtendedFormat.BatchedJoin | segpy/toolkit.py:650 | The batches concatenate to the items followed by fewer than n padding items. |
| ExtendedFormat.FormattedLines | segpy/toolkit.py:643-648 | Every formatted line is 80 characters ending in CRLF. |
| ExtendedFormat.BlankLineDropped | segpy/toolkit.py:645-648 | An empty input line contributes no card: the formatted lines are the same without it. |
| ExtendedFormat.SplitWithBlankLine | segpy/toolkit.py:641 | splitlines keeps the blank line of "a\n\nb" as an empty line. |
| ExtendedFormat.SplitWithoutBlankLine | segpy/toolkit.py:641 | splitlines splits "a\nb" into "a" and "b". |
| ExtendedFormat.BlankLineExample | segpy/toolkit.py:641-650 | "a\n\nb" formats to exactly the pages of "a\nb", although the docstring says newlines are preserved. |
| ExtendedFormat.StanzaFormatsToOnePage | segpy/toolkit.py:652-654 | The stop stanza formats to one page whose first card is the padded stanza. |
| ExtendedFormat.FormatPagesShape | segpy/toolkit.py:640-656 | Formatting gives pages of 40 cards of 80 characters ending in CRLF. The cards are the formatted lines followed by fewer than 40 blank cards. |
| ExtendedFormat.FormattedCharsFromText | segpy/toolkit.py:640-656 | Every formatted character comes from the text, or is a space, CR or LF. |
| ExtendedFormat.FormatExtendedTextualHeader | segpy/toolkit.py:620-656 | Formatting raises UnsupportedEncodingError for an unsupported encoding. Otherwise it gives the batched pages, plus the stop page when asked. |
| ExtendedFormat.FormatLines | segpy/toolkit.py:644-648 | The line loop computes the formatted lines. |
| ExtendedFormat.FormatLine | segpy/toolkit.py:646-647 | The chunk loop computes the padded chunks. |
| ExtendedFormat.EncodePagesOk | segpy/toolkit.py:686-701 | Encoding succeeds exactly when every page has 40 lines, each encoding to 80 bytes. The encoded pages are those encodings. |
| ExtendedFormat.LineErrIsResult | segpy/toolkit.py:690-695 | The first line that fails to encode, or is not 80 bytes, decides the error. |
| ExtendedFormat.PageErrIsResult | segpy/toolkit.py:697-700 | The first page with a wrong line count decides the error. |
| ExtendedFormat.PagesBytesLayout | segpy/toolkit.py:703-706 | Well-formed pages write 3200 bytes each, page k at [3200k, 3200k+3200). |
| ExtendedFormat.WriteEncodedPages | segpy/toolkit.py:703-706 | The write loop overwrites the file at the cursor with the concatenated pages, and moves the cursor past them. |
| ExtendedFormat.WriteExtendedTextualHeaders | segpy/toolkit.py:663-706 | An unsupported encoding, or any line or page error, leaves the file untouched. Otherwise exactly 3200 bytes per page are written at the cursor. |
| ExtendedFormat.CardsOfPage | segpy/toolkit.py:145 | Splitting a written page's 3200 bytes into cards gives the page back. |
| ExtendedFormat.WrittenPagesReadBack | segpy/toolkit.py:703-706 | Each written page reads back as the same page. |
| ExtendedFormat.WriteThenReadCounted | segpy/toolkit.py:226-236 | Written pages without the stanza read back in counted mode as the same pages. |
| ExtendedFormat.ReadBackUntilEnd | segpy/toolkit.py:197-203 | Pages in the file whose only stanza page is the last read back in until-end mode as exactly those pages. |
| ExtendedFormat.WriteThenReadUntilEnd | segpy/toolkit.py:197-203 | Written pages whose only stanza page is the last read back in until-end mode. |
| ExtendedFormat.StopCardHasStanza | segpy/toolkit.py:652-653 | The stop page has 40 cards, and its first card contains the stanza. |
| ExtendedFormat.FormatWithStopShape | segpy/toolkit.py:652-654 | With the text stop, the pages are the formatted pages followed by the stop page. |
| ExtendedFormat.FormatWithStopEncoded | segpy/toolkit.py:652-654 | For ASCII text without the stanza, the pages formatted with the stop encode, and only the last holds the stanza. |
| ExtendedFormat.FormatWriteReadUntilEnd | segpy/toolkit.py:620-706 | Text formatted with the stop, encoded and written reads back in until-end mode as exactly the written pages. |
| TraceHeaderLayout.SortByPosSorted | segpy/toolkit.py:809-814 | The field specs come out in ascending position order. |
| TraceHeaderLayout.SortByPosPermutes | segpy/toolkit.py:809-814 | Sorting is a permutation of the field specs. |
| TraceHeaderLayout.SortStable | segpy/toolkit.py:809-814 | Sorting is stable: specs at the same position keep their order. |
| TraceHeaderLayout.TraceHeaderNames | segpy/toolkit.py:834-843 | TraceHeader has one name per field spec. |
| TraceHeaderLayout.NamesFollowItems | segpy/toolkit.py:834-843 | The k-th TraceHeader name and the k-th struct item both come from the k-th spec in position order. |
| TraceHeaderLayout.TypeSize | segpy/toolkit.py:825-827 | A field advances the length by size_in_bytes of its ctype. |
| TraceHeaderLayout.WalkAsWritten | segpy/toolkit.py:816-827 | The layout loop computes the walk as written. |
| TraceHeaderLayout.CompileTraceHeaderFormat | segpy/toolkit.py:795-831 | compile_trace_header_format is the sort, then the walk, then the 240-byte assertion, then struct's check of the format. |
| TraceHeaderLayout.WalkCtypes | segpy/toolkit.py:825-826 | A successful walk emits the fields' ctypes in order. |
| TraceHeaderLayout.StructAcceptsItems | segpy/toolkit.py:831 | With positive pads, struct accepts the format exactly when every item is a struct code. |
| TraceHeaderLayout.ContiguousWalk | segpy/toolkit.py:816-827 | When the sorted fields tile contiguously, no pad is emitted, and the final length is the sum of the sizes. |
| TraceHeaderLayout.ContiguousCompile | segpy/toolkit.py:809-831 | For contiguous fields the written and the intended padding agree. Compiling succeeds exactly when the sizes sum to 240 and every ctype is a struct code, and the format is then one item per field. |
| TraceHeaderLayout.IntendedWalk | segpy/toolkit.py:818-827 | With padding pos - length, the walk succeeds exactly for known types and non-overlapping fields. Items then sit at the fields' positions with positive pads. |
| TraceHeaderLayout.IntendedCompile | segpy/toolkit.py:809-831 | With padding pos - length, compiling succeeds exactly for known, non-overlapping fields reaching 240 bytes with struct codes. The format then places every item at its field's position and spans 240 bytes. |
| TraceHeaderLayout.AsWrittenGapFails | segpy/toolkit.py:820-829 | As written, any non-overlapping layout with a gap fails, by the assertion or by struct. |
| TraceHeaderLayout.GappedSchemaExample | segpy/toolkit.py:820-829 | For int32 fields at 0 and 236, the code as written fails its assertion. The intended padding gives items at 0 and 236. |
| Catalog.ScanOffsets | segpy/toolkit.py:339-359 | Trace i's header starts at the start cursor plus 240 + ns*bps for each earlier record. |
| Catalog.ScanStops | segpy/toolkit.py:340-350 | The scan stops at the first cursor with fewer than 240 bytes left, where the records end. Every recorded header lies in the file and is decoded from its own bytes; samples are not checked. |
| Catalog.EntriesSnoc | segpy/toolkit.py:346-357 | Each record visited adds one pair to each builder, numbered by the next consecutive trace number from 0. |
| Catalog.CatalogTraces | segpy/toolkit.py:279-383 | A non-callable progress raises TypeError before any progress call, and an empty file raises ZeroDivisionError. Otherwise each builder gets one pair per scanned record. The line catalog falls back to the (TraceSequenceFile, cdp) catalog when create() gives None. Progress gets 0.75*pos/length before each read, then the closing values, the last being 1. |
| SegyBase.Overwrite | segpy/toolkit.py:755 | A write replaces the bytes at the cursor, extends the file when it passes the end, and keeps every other byte. |
| SegyBase.OutputFile.Write | segpy/toolkit.py:755 | fh.write overwrites at the cursor and moves the cursor past the bytes. |
| SegyBase.OutputFile.Seek | segpy/toolkit.py:749 | fh.seek moves the cursor and keeps the contents. |

## Left out

- IBM float conversion (`ibm2ieee`, `ieee2ibm`) and struct's `f` code: opaque functions in a `FloatCodecs` record, because they are floating point in code this model cannot see.
- The float limits of ibm and float32 (segpy/datatypes.py:84, 89): field classes are defined for integer types only.
- FieldTypes.DefineIntField: requires a non-float type, because float limits are not modelled.
- FieldTypes.DefineIntEnumField: requires a non-float type, because float limits are not modelled. The source accepts a float `seg_y_type` and compares the enum values with its float limits (segpy/field_types.py:73-78, segpy/datatypes.py:84, 89).
- BinaryValues.ReadBinaryValues: takes a position. The source's default `pos=None` reaches `fh.seek(None, os.SEEK_SET)` (segpy/toolkit.py:409, 427), which raises TypeError; that default is not modelled.
- BinaryValues.UnpackIbmFloats: `array('f')` rounds each conversion to float32 (segpy/toolkit.py:453). The opaque `ibm2ieee` stands for that rounded value, so rounding is not modelled separately.
- Text encodings (`guess_encoding`, `is_supported_encoding`, codec encode and decode): reading decodes as the identity on bytes. Writing takes a `Codec` record with a `supported` flag and an opaque `encode`.
- ExtendedFormat.FormatWriteReadUntilEnd: stated for an encoding that maps ASCII text to its bytes, because encodings are opaque.
- ExtendedFormat.WriteExtendedTextualHeaders: a page with the wrong line count fails with IndexError, the error the message formatting raises, not the documented ValueError.
- Textual header templating (`format_standard_textual_header`, `parse_template`): it depends on template tables and a regular expression engine that are not part of this model.
- `write_textual_reel_header`: its `''.join` over encoded bytes does not run on Python 3.
- `read_trace_header`, `write_trace_header`, `write_trace_samples`, `extract_revision`, `bytes_per_sample` and `samples_per_trace`: small wrappers outside the scanning and layout core.
- `num_extended_textual_headers`: the declared page count is a parameter of TextualHeaders.ReadExtendedTextualHeaders.
- The field tables `HEADER_DEF` and `TRACE_HEADER_DEF` are not part of this model: the field definitions are parameters.
- `util.batched` is not part of this model: ExtendedFormat.Batched states the behaviour the formatter relies on, padding the last batch with the padding item.
- `file_length` and `fh.tell()`: the file is a byte sequence, and the start cursor is a parameter.
- Catalog.CatalogTraces: the trace header decode is a parameter, so a failure of `compile_trace_header_format` inside `catalog_traces` is not modelled. The `endian` argument only reaches that decode.
- Catalog.CatalogTraces: `CatalogBuilder` internals are not modelled. `create()` is an opaque function of the pairs added, which may give None.
- Catalog.CatalogTraces: progress fractions are exact reals. Floating-point rounding is not modelled, and the values are not claimed to lie within [0, 1]; 1.125 and 1.3125 exceed 1.
- TraceHeaderLayout.CompileTraceHeaderFormat: the result is the list of directives and the byte order, not a `struct.Struct`. The check struct applies is modelled as accepting non-negative pads and known codes only (StructError otherwise).
- TraceHeaderLayout.TraceHeaderNames: `namedtuple`'s validation of field names is not modelled.
- The `print` in counted reading (segpy/toolkit.py:232): a log message only.
- Reading whole files and concurrency: not modelled. All I/O is on in-memory byte images.

## Findings

| source | as written | input that shows it | evidently intended | confidence | as-written member | corrected member |
|---|---|---|---|---|---|---|
| segpy/toolkit.py:820 | The padding before a field is `length - pos`, which is negative when the field starts after the current length. A gap in the trace header definition shrinks the running length and emits a negative pad count. | Two int32 fields at positions 0 and 236. The pad before the second is -232, the final length is -224, and the assertion at line 829 fails. | Pad `pos - length` bytes, so every item starts at its field's position and the format spans 240 bytes. | not executed | TraceHeaderLayout.AsWrittenGapFails | TraceHeaderLayout.IntendedCompile |
