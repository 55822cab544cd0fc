/** The helper-based GDSII writer of `layout/create_correct_gds.py`: one `write_*` function per
    payload kind, and the generator that emits the AxiomaCore-328 library as a fixed sequence of
    records. Every writer returns the bytes it would append to the file, or the error it would
    raise. */
module CorrectGds {
  import opened Wrappers
  import opened Bytes
  import opened Records

  /** The clock reading `datetime.datetime.now()` supplies. */
  datatype DateTime = DateTime(year: int, month: int, day: int, hour: int, minute: int, second: int) {
    /** The ranges a `datetime` value always lies in. */
    predicate Valid() {
      && 1 <= year <= 9999 && 1 <= month <= 12 && 1 <= day <= 31
      && 0 <= hour < 24 && 0 <= minute < 60 && 0 <= second < 60
    }

    /** `[now.year, now.month, now.day, now.hour, now.minute, now.second]`. */
    function Fields(): seq<int> {
      [year, month, day, hour, minute, second]
    }

    /** Every field packs as an unsigned 16-bit value. */
    predicate FitsU16() {
      forall i :: 0 <= i < 6 ==> IsU16(Fields()[i])
    }
  }

  /** The twelve timestamp fields: the six clock fields twice (modification, then access time). */
  function TimeFields(now: DateTime): seq<int> {
    now.Fields() + now.Fields()
  }

  /** A clock reading `datetime` can produce always packs. */
  lemma ValidFitsU16(now: DateTime)
    requires now.Valid()
    ensures now.FitsU16()
  {
  }

  /** `bytes` is exactly one record with the given record and data type. */
  predicate IsRecord(bytes: seq<byte>, recordType: byte, dataType: byte) {
    var r := ReadRecord(bytes);
    && r.Some? && r.value.1 == |bytes|
    && r.value.0.recordType == recordType && r.value.0.dataType == dataType
  }

  /** The payload of the record `bytes` holds. */
  function PayloadOf(bytes: seq<byte>): seq<byte>
    requires ReadRecord(bytes).Some?
  {
    ReadRecord(bytes).value.0.payload
  }

  /** `write_int16`: a 6-byte record of data type 2 whose payload is the value as an unsigned
      big-endian 16-bit integer; a value outside 0..65535 raises. */
  function WriteInt16(recordType: byte, value: int): (r: Result<seq<byte>, WriteError>)
    ensures r.Success? <==> 0 <= value <= 0xFFFF
    ensures r.Failure? ==> r.error == ValueOutOfRange
    ensures r.Success? ==> |r.value| == 6 && IsRecord(r.value, recordType, INT16)
    ensures r.Success? ==> DecodeU16s(PayloadOf(r.value)) == [value]
  {
    if !IsU16(value) then Failure(ValueOutOfRange)
    else
      assert DecodeU16s(U16(value)) == [value] by { assert U16s([value]) == U16(value) + []; }
      WriteRecord(recordType, INT16, U16(value))
  }

  /** `write_int32`: an 8-byte record of data type 3 whose payload is the value as a signed
      (two's-complement) big-endian 32-bit integer; a value outside that range raises. */
  function WriteInt32(recordType: byte, value: int): (r: Result<seq<byte>, WriteError>)
    ensures r.Success? <==> -0x8000_0000 <= value <= 0x7FFF_FFFF
    ensures r.Failure? ==> r.error == ValueOutOfRange
    ensures r.Success? ==> |r.value| == 8 && IsRecord(r.value, recordType, INT32)
    ensures r.Success? ==> DecodeI32s(PayloadOf(r.value)) == [value]
  {
    if !IsI32(value) then Failure(ValueOutOfRange)
    else
      assert DecodeI32s(I32(value)) == [value] by { assert I32s([value]) == I32(value) + []; }
      WriteRecord(recordType, INT32, I32(value))
  }

  /** Text `str.encode('ascii')` accepts. */
  predicate IsAscii(text: string) {
    forall i :: 0 <= i < |text| ==> text[i] as int < 128
  }

  /** The ASCII bytes of the text. */
  function AsciiBytes(text: string): (b: seq<byte>)
    requires IsAscii(text)
    ensures |b| == |text| && forall i :: 0 <= i < |text| ==> b[i] == text[i] as int
  {
    seq(|text|, i requires 0 <= i < |text| => text[i] as int)
  }

  /** The payload of a string record: the ASCII bytes, then one NUL when their count is odd. */
  function StringPayload(text: string): (p: seq<byte>)
    requires IsAscii(text)
    ensures |p| % 2 == 0 && |p| == |text| + |text| % 2
    ensures p[..|text|] == AsciiBytes(text)
    ensures |text| % 2 == 1 ==> p[|text|] == 0
  {
    var data := AsciiBytes(text);
    if |data| % 2 == 1 then data + [0] else data
  }

  /** `write_string`: a record of data type 6 holding the text's ASCII bytes padded to an even
      count with at most one NUL. Non-ASCII text raises before anything is written; text too long
      for the length field raises too. */
  function WriteString(recordType: byte, text: string): (r: Result<seq<byte>, WriteError>)
    ensures r.Success? <==> IsAscii(text) && 4 + |text| + |text| % 2 <= MAX_LENGTH
    ensures r.Failure? ==> (r.error == NotAscii <==> !IsAscii(text))
    ensures r.Success? ==> |r.value| == 4 + |text| + |text| % 2 && |r.value| % 2 == 0
    ensures r.Success? ==> IsRecord(r.value, recordType, ASCII)
    ensures r.Success? ==> PayloadOf(r.value) == StringPayload(text)
  {
    if !IsAscii(text) then Failure(NotAscii)
    else WriteRecord(recordType, ASCII, StringPayload(text))
  }

  /** The reader's view of a string payload: drop one trailing NUL, if there is one, and read the
      remaining bytes as characters. */
  function TextOf(payload: seq<byte>): (text: string)
    ensures |payload| - 1 <= |text| <= |payload|
  {
    var body := if |payload| > 0 && payload[|payload| - 1] == 0 then payload[..|payload| - 1] else payload;
    seq(|body|, i requires 0 <= i < |body| => body[i] as char)
  }

  /** Reading back a string record's payload recovers the text: always for an odd-length text
      (its pad is the one NUL stripped), and for an even-length one that does not itself end in
      NUL. */
  lemma StringRoundTrip(text: string)
    requires IsAscii(text)
    requires |text| % 2 == 1 || |text| == 0 || text[|text| - 1] != '\0'
    ensures TextOf(StringPayload(text)) == text
  {
    var p := StringPayload(text);
    if |text| % 2 == 1 {
      assert p[..|p| - 1] == AsciiBytes(text);
    } else if |text| > 0 {
      assert p[|p| - 1] == text[|text| - 1] as int;
    }
  }

  /** `write_time`: a 28-byte record of data type 2 holding the twelve fields, each an unsigned
      big-endian 16-bit integer; a field outside 0..65535 raises. */
  function WriteTime(recordType: byte, now: DateTime): (r: Result<seq<byte>, WriteError>)
    ensures r.Success? <==> now.FitsU16()
    ensures r.Failure? ==> r.error == ValueOutOfRange
    ensures r.Success? ==> |r.value| == 28 && IsRecord(r.value, recordType, INT16)
    ensures r.Success? ==> DecodeU16s(PayloadOf(r.value)) == TimeFields(now)
  {
    if !now.FitsU16() then Failure(ValueOutOfRange)
    else WriteRecord(recordType, INT16, U16s(TimeFields(now)))
  }

  predicate AllI32(coords: seq<int>) {
    forall i :: 0 <= i < |coords| ==> IsI32(coords[i])
  }

  /** `write_xy_coords`: a record of type XY and data type 3 holding every coordinate, in input
      order, as a signed big-endian 32-bit integer; a coordinate outside that range raises, and so
      does a list too long for the length field. */
  function WriteXY(coords: seq<int>): (r: Result<seq<byte>, WriteError>)
    ensures r.Success? <==> AllI32(coords) && 4 + 4 * |coords| <= MAX_LENGTH
    ensures r.Failure? ==> (r.error == ValueOutOfRange <==> !AllI32(coords))
    ensures r.Success? ==> |r.value| == 4 + 4 * |coords| && IsRecord(r.value, XY, INT32)
    ensures r.Success? ==> DecodeI32s(PayloadOf(r.value)) == coords
  {
    if !AllI32(coords) then Failure(ValueOutOfRange)
    else WriteRecord(XY, INT32, I32s(coords))
  }

  /** The 16 bytes `struct.pack('>dd', 0.001, 1e-9)` produces: two IEEE-754 binary64 values,
      big-endian, kept as opaque bytes. */
  const UNITS_PAYLOAD: seq<byte> :=
    [0x3F, 0x50, 0x62, 0x4D, 0xD2, 0xF1, 0xA9, 0xFC, 0x3E, 0x11, 0x2E, 0x0B, 0xE8, 0x26, 0xD6, 0x95]

  /** The GDSII stream version the HEADER record declares. */
  const VERSION: int := 600

  /** A boundary element: layer, datatype and the flat x, y coordinate list. */
  datatype Boundary = Boundary(layer: int, dataType: int, xy: seq<int>)

  /** One library holding one structure of boundary elements. */
  datatype Layout = Layout(libName: string, structName: string, elements: seq<Boundary>)

  // Records with no data, the fixed HEADER and the UNITS payload always pack, so their writes
  // are taken as values; the writes that can raise are chained with `:-`.

  /** BOUNDARY, LAYER, DATATYPE, XY, ENDEL for one element. It raises exactly when the layer, the
      datatype or a coordinate does not pack, and otherwise writes the element's five records. */
  function WriteBoundary(b: Boundary): (r: Result<seq<byte>, WriteError>)
    ensures r.Success? <==> BoundaryEncodable(b)
    ensures r.Success? ==> r.value == EncodeAll(BoundaryRecords(b))
  {
    var begin := WriteRecord(BOUNDARY, NO_DATA, []).value;
    var layer :- WriteInt16(LAYER, b.layer);
    var kind :- WriteInt16(DATATYPE, b.dataType);
    var xy :- WriteXY(b.xy);
    var end := WriteRecord(ENDEL, NO_DATA, []).value;
    EncodeAllFive(BoundaryRecords(b));
    Success(begin + layer + kind + xy + end)
  }

  /** The elements one after the other; the first one that raises stops the writing. */
  function WriteBoundaries(bs: seq<Boundary>): Result<seq<byte>, WriteError> {
    if |bs| == 0 then Success([])
    else
      var first :- WriteBoundary(bs[0]);
      var rest :- WriteBoundaries(bs[1..]);
      Success(first + rest)
  }

  /** HEADER(600), BGNLIB, LIBNAME, UNITS: the start of the library. It raises exactly when a
      clock field or the library name does not pack. */
  function WriteLibraryHeader(now: DateTime, libName: string): (r: Result<seq<byte>, WriteError>)
    ensures r.Success? <==> now.FitsU16() && NameEncodable(libName)
  {
    var header := WriteInt16(HEADER, VERSION).value;
    var bgnlib :- WriteTime(BGNLIB, now);
    var libname :- WriteString(LIBNAME, libName);
    var units := WriteRecord(UNITS, REAL8, UNITS_PAYLOAD).value;
    Success(header + bgnlib + libname + units)
  }

  /** BGNSTR, STRNAME, the elements, ENDSTR: one structure. It raises exactly when a clock field,
      the structure name or some element does not pack. */
  function WriteStructure(now: DateTime, structName: string, elements: seq<Boundary>): (r: Result<seq<byte>, WriteError>)
    ensures r.Success? <==> now.FitsU16() && NameEncodable(structName) && AllBoundariesEncodable(elements)
  {
    WriteBoundariesEncodes(elements);
    var bgnstr :- WriteTime(BGNSTR, now);
    var strname :- WriteString(STRNAME, structName);
    var body :- WriteBoundaries(elements);
    var endstr := WriteRecord(ENDSTR, NO_DATA, []).value;
    Success(bgnstr + strname + body + endstr)
  }

  /** The record sequence `create_axioma_gds` writes: HEADER(600), BGNLIB, LIBNAME, UNITS,
      BGNSTR, STRNAME, the elements, ENDSTR, ENDLIB; the first record that raises stops it.
      `write_time` reads the clock on each call, so BGNLIB carries the first reading `libTime`
      and BGNSTR the second, `strTime`. It raises exactly when a reading, a name or an element
      does not pack, and otherwise writes the encoding of the layout's records. */
  function WriteLayout(libTime: DateTime, strTime: DateTime, layout: Layout): (r: Result<seq<byte>, WriteError>)
    ensures r.Success? <==> libTime.FitsU16() && strTime.FitsU16() && LayoutEncodable(layout)
    ensures r.Success? ==> r.value == EncodeAll(LayoutRecords(libTime, strTime, layout))
  {
    var library :- WriteLibraryHeader(libTime, layout.libName);
    var structure :- WriteStructure(strTime, layout.structName, layout.elements);
    var endlib := WriteRecord(ENDLIB, NO_DATA, []).value;
    WriteRecordEncodes(ENDLIB, NO_DATA, []);
    LayoutPartsEncode(libTime, strTime, layout);
    Success(library + structure + endlib)
  }

  /** The ten rectangles of the AxiomaCore-328 layout, in the order they are written. */
  const AXIOMA_ELEMENTS: seq<Boundary> := [
    Boundary(0, 0, [0, 0, 1000000, 0, 1000000, 1000000, 0, 1000000, 0, 0]),
    Boundary(1, 0, [50000, 50000, 950000, 50000, 950000, 950000, 50000, 950000, 50000, 50000]),
    Boundary(2, 0, [100000, 100000, 900000, 100000, 900000, 900000, 100000, 900000, 100000, 100000]),
    Boundary(3, 0, [150000, 150000, 850000, 150000, 850000, 850000, 150000, 850000, 150000, 150000]),
    Boundary(4, 0, [200000, 200000, 300000, 200000, 300000, 300000, 200000, 300000, 200000, 200000]),
    Boundary(5, 0, [180000, 180000, 820000, 180000, 820000, 820000, 180000, 820000, 180000, 180000]),
    Boundary(10, 0, [300000, 300000, 700000, 300000, 700000, 700000, 300000, 700000, 300000, 300000]),
    Boundary(11, 0, [320000, 320000, 480000, 320000, 480000, 480000, 320000, 480000, 320000, 320000]),
    Boundary(12, 0, [520000, 320000, 680000, 320000, 680000, 480000, 520000, 480000, 520000, 320000]),
    Boundary(13, 0, [320000, 520000, 680000, 520000, 680000, 680000, 320000, 680000, 320000, 520000])
  ]

  const AXIOMA_LAYOUT: Layout := Layout("AXIOMA_LIB", "AXIOMA_CPU", AXIOMA_ELEMENTS)

  /** `create_axioma_gds`: the bytes written to the file, for the two clock readings taken by its
      two `write_time` calls. It raises exactly when a reading does not pack; otherwise the file
      walks record by record through the AxiomaCore-328 layout and begins with the 6-byte HEADER
      for version 600. */
  function CreateAxiomaGds(libTime: DateTime, strTime: DateTime): (r: Result<seq<byte>, WriteError>)
    ensures r.Success? <==> libTime.FitsU16() && strTime.FitsU16()
    ensures r.Success? ==>
      && LayoutEncodable(AXIOMA_LAYOUT)
      && Walk(r.value) == Some(LayoutRecords(libTime, strTime, AXIOMA_LAYOUT))
      && PeekHeader(r.value) == Some((6, 0x0002, 600))
  {
    AxiomaEncodable();
    if libTime.FitsU16() && strTime.FitsU16() then
      LayoutStream(libTime, strTime, AXIOMA_LAYOUT);
      WriteLayout(libTime, strTime, AXIOMA_LAYOUT)
    else
      WriteLayout(libTime, strTime, AXIOMA_LAYOUT)
  }

  // ---------------------------------------------------------------------------------------
  // The record-level reference: which records a layout is written as.

  /** An element every `write_*` call accepts. */
  predicate BoundaryEncodable(b: Boundary) {
    IsU16(b.layer) && IsU16(b.dataType) && AllI32(b.xy) && 4 + 4 * |b.xy| <= MAX_LENGTH
  }

  /** Text `write_string` accepts. */
  predicate NameEncodable(text: string) {
    IsAscii(text) && 4 + |text| + |text| % 2 <= MAX_LENGTH
  }

  /** A layout every `write_*` call accepts. */
  predicate LayoutEncodable(layout: Layout) {
    && NameEncodable(layout.libName) && NameEncodable(layout.structName)
    && AllBoundariesEncodable(layout.elements)
  }

  function BoundaryRecords(b: Boundary): (rs: seq<Record>)
    requires BoundaryEncodable(b)
    ensures AllWellFormed(rs)
  {
    [ Record(BOUNDARY, NO_DATA, []), Record(LAYER, INT16, U16(b.layer)),
      Record(DATATYPE, INT16, U16(b.dataType)), Record(XY, INT32, I32s(b.xy)),
      Record(ENDEL, NO_DATA, []) ]
  }

  function BoundariesRecords(bs: seq<Boundary>): (rs: seq<Record>)
    requires AllBoundariesEncodable(bs)
    ensures AllWellFormed(rs) && |rs| == 5 * |bs|
  {
    if |bs| == 0 then [] else BoundaryRecords(bs[0]) + BoundariesRecords(bs[1..])
  }

  /** HEADER, BGNLIB, LIBNAME, UNITS, BGNSTR, STRNAME. */
  function LayoutPrelude(libTime: DateTime, strTime: DateTime, layout: Layout): (rs: seq<Record>)
    requires libTime.FitsU16() && strTime.FitsU16() && LayoutEncodable(layout)
    ensures AllWellFormed(rs) && |rs| == 6
  {
    [ Record(HEADER, INT16, U16(VERSION)),
      Record(BGNLIB, INT16, U16s(TimeFields(libTime))),
      Record(LIBNAME, ASCII, StringPayload(layout.libName)),
      Record(UNITS, REAL8, UNITS_PAYLOAD),
      Record(BGNSTR, INT16, U16s(TimeFields(strTime))),
      Record(STRNAME, ASCII, StringPayload(layout.structName)) ]
  }

  /** ENDSTR, ENDLIB. */
  const LAYOUT_TAIL: seq<Record> := [Record(ENDSTR, NO_DATA, []), Record(ENDLIB, NO_DATA, [])]

  function LayoutRecords(libTime: DateTime, strTime: DateTime, layout: Layout): (rs: seq<Record>)
    requires libTime.FitsU16() && strTime.FitsU16() && LayoutEncodable(layout)
    ensures AllWellFormed(rs)
  {
    LayoutPrelude(libTime, strTime, layout) + BoundariesRecords(layout.elements) + LAYOUT_TAIL
  }

  /** The five record types of one element. */
  const ELEMENT_TYPES: seq<byte> := [BOUNDARY, LAYER, DATATYPE, XY, ENDEL]

  /** ELEMENT_TYPES repeated `n` times. */
  function ElementTypes(n: nat): seq<byte> {
    if n == 0 then [] else ELEMENT_TYPES + ElementTypes(n - 1)
  }

  /** The record-type order of a layout stream with `n` elements. */
  function LayoutTypes(n: nat): seq<byte> {
    [HEADER, BGNLIB, LIBNAME, UNITS, BGNSTR, STRNAME] + ElementTypes(n) + [ENDSTR, ENDLIB]
  }

  // ---------------------------------------------------------------------------------------
  // What the writers produce, in terms of records.

  lemma EncodeAllFive(rs: seq<Record>)
    requires |rs| == 5 && AllWellFormed(rs)
    ensures EncodeAll(rs) == Encode(rs[0]) + Encode(rs[1]) + Encode(rs[2]) + Encode(rs[3]) + Encode(rs[4])
  {
    var t1, t2, t3, t4 := rs[1..], rs[2..], rs[3..], rs[4..];
    assert t1[1..] == t2 && t2[1..] == t3 && t3[1..] == t4 && t4[1..] == [];
    assert EncodeAll(t4) == Encode(rs[4]);
    assert EncodeAll(t3) == Encode(rs[3]) + Encode(rs[4]);
    assert EncodeAll(t2) == Encode(rs[2]) + (Encode(rs[3]) + Encode(rs[4]));
    assert EncodeAll(t1) == Encode(rs[1]) + (Encode(rs[2]) + (Encode(rs[3]) + Encode(rs[4])));
  }

  predicate AllBoundariesEncodable(bs: seq<Boundary>) {
    forall i :: 0 <= i < |bs| ==> BoundaryEncodable(bs[i])
  }

  /** Writing a list of elements fails exactly when one of them does not pack; otherwise it is the
      encoding of their records, element after element. */
  lemma {:induction false} WriteBoundariesEncodes(bs: seq<Boundary>)
    ensures WriteBoundaries(bs).Success? <==> AllBoundariesEncodable(bs)
    ensures WriteBoundaries(bs).Success? ==> WriteBoundaries(bs).value == EncodeAll(BoundariesRecords(bs))
  {
    if |bs| > 0 {
      assert AllBoundariesEncodable(bs) <==> BoundaryEncodable(bs[0]) && AllBoundariesEncodable(bs[1..]) by {
        if BoundaryEncodable(bs[0]) && AllBoundariesEncodable(bs[1..]) {
          forall i | 0 <= i < |bs| ensures BoundaryEncodable(bs[i]) {
            if i > 0 { assert bs[i] == bs[1..][i - 1]; }
          }
        }
      }
      WriteBoundariesEncodes(bs[1..]);
      if AllBoundariesEncodable(bs) {
        EncodeAllAppend(BoundaryRecords(bs[0]), BoundariesRecords(bs[1..]));
      }
    }
  }

  lemma EncodeAllSix(a: Record, b: Record, c: Record, d: Record, e: Record, f: Record)
    requires Fits(a.payload) && Fits(b.payload) && Fits(c.payload)
    requires Fits(d.payload) && Fits(e.payload) && Fits(f.payload)
    ensures EncodeAll([a, b, c, d, e, f])
      == Encode(a) + Encode(b) + Encode(c) + Encode(d) + Encode(e) + Encode(f)
  {
    assert [a, b, c, d, e, f] == [a, b] + [c, d] + [e, f];
    EncodeAllAppend([a, b] + [c, d], [e, f]);
    EncodeAllAppend([a, b], [c, d]);
    EncodeAllTwo(a, b);
    EncodeAllTwo(c, d);
    EncodeAllTwo(e, f);
  }

  lemma EncodeAllTwo(a: Record, b: Record)
    requires Fits(a.payload) && Fits(b.payload)
    ensures EncodeAll([a, b]) == Encode(a) + Encode(b)
  {
    assert [a, b][1..] == [b] && [b][1..] == [];
    assert EncodeAll([b]) == Encode(b) + EncodeAll([]) == Encode(b);
  }

  lemma WriteRecordEncodes(recordType: byte, dataType: byte, data: seq<byte>)
    requires Fits(data)
    ensures WriteRecord(recordType, dataType, data) == Success(Encode(Record(recordType, dataType, data)))
  {
  }

  lemma WriteLibraryHeaderEncodes(libTime: DateTime, strTime: DateTime, layout: Layout)
    requires libTime.FitsU16() && strTime.FitsU16() && LayoutEncodable(layout)
    ensures var pre := LayoutPrelude(libTime, strTime, layout);
      WriteLibraryHeader(libTime, layout.libName)
      == Success(Encode(pre[0]) + Encode(pre[1]) + Encode(pre[2]) + Encode(pre[3]))
  {
    WriteRecordEncodes(HEADER, INT16, U16(VERSION));
    WriteRecordEncodes(BGNLIB, INT16, U16s(TimeFields(libTime)));
    WriteRecordEncodes(LIBNAME, ASCII, StringPayload(layout.libName));
    WriteRecordEncodes(UNITS, REAL8, UNITS_PAYLOAD);
  }

  lemma WriteStructureEncodes(libTime: DateTime, strTime: DateTime, layout: Layout)
    requires libTime.FitsU16() && strTime.FitsU16() && LayoutEncodable(layout)
    ensures var pre := LayoutPrelude(libTime, strTime, layout);
      WriteStructure(strTime, layout.structName, layout.elements)
      == Success(Encode(pre[4]) + Encode(pre[5]) + EncodeAll(BoundariesRecords(layout.elements))
           + Encode(LAYOUT_TAIL[0]))
  {
    WriteBoundariesEncodes(layout.elements);
    WriteRecordEncodes(BGNSTR, INT16, U16s(TimeFields(strTime)));
    WriteRecordEncodes(STRNAME, ASCII, StringPayload(layout.structName));
    WriteRecordEncodes(ENDSTR, NO_DATA, []);
  }

  /** The library header, the structure and ENDLIB, written one after the other, are the
      encoding of the layout's records. */
  lemma LayoutPartsEncode(libTime: DateTime, strTime: DateTime, layout: Layout)
    requires libTime.FitsU16() && strTime.FitsU16() && LayoutEncodable(layout)
    ensures WriteLibraryHeader(libTime, layout.libName).Success?
    ensures WriteStructure(strTime, layout.structName, layout.elements).Success?
    ensures WriteLibraryHeader(libTime, layout.libName).value
      + WriteStructure(strTime, layout.structName, layout.elements).value + Encode(LAYOUT_TAIL[1])
      == EncodeAll(LayoutRecords(libTime, strTime, layout))
  {
    var pre := LayoutPrelude(libTime, strTime, layout);
    var els := BoundariesRecords(layout.elements);
    var tail := LAYOUT_TAIL;
    WriteLibraryHeaderEncodes(libTime, strTime, layout);
    WriteStructureEncodes(libTime, strTime, layout);
    LayoutRecordsBytes(libTime, strTime, layout);
    Regroup(Encode(pre[0]), Encode(pre[1]), Encode(pre[2]), Encode(pre[3]), Encode(pre[4]),
      Encode(pre[5]), EncodeAll(els), Encode(tail[0]), Encode(tail[1]));
  }

  lemma Regroup<T>(a: seq<T>, b: seq<T>, c: seq<T>, d: seq<T>, e: seq<T>, f: seq<T>, g: seq<T>, h: seq<T>, i: seq<T>)
    ensures (a + b + c + d) + (e + f + g + h) + i == a + b + c + d + e + f + g + h + i
  {
  }

  lemma LayoutRecordsBytes(libTime: DateTime, strTime: DateTime, layout: Layout)
    requires libTime.FitsU16() && strTime.FitsU16() && LayoutEncodable(layout)
    ensures var pre := LayoutPrelude(libTime, strTime, layout); var tail := LAYOUT_TAIL;
      EncodeAll(LayoutRecords(libTime, strTime, layout))
      == Encode(pre[0]) + Encode(pre[1]) + Encode(pre[2]) + Encode(pre[3]) + Encode(pre[4])
        + Encode(pre[5]) + EncodeAll(BoundariesRecords(layout.elements)) + Encode(tail[0]) + Encode(tail[1])
  {
    var pre := LayoutPrelude(libTime, strTime, layout);
    var els := BoundariesRecords(layout.elements);
    EncodeAllAppend(pre + els, LAYOUT_TAIL);
    EncodeAllAppend(pre, els);
    assert pre == [pre[0], pre[1], pre[2], pre[3], pre[4], pre[5]];
    EncodeAllSix(pre[0], pre[1], pre[2], pre[3], pre[4], pre[5]);
    EncodeAllTwo(LAYOUT_TAIL[0], LAYOUT_TAIL[1]);
    var a := EncodeAll(pre) + EncodeAll(els);
    assert a + (Encode(LAYOUT_TAIL[0]) + Encode(LAYOUT_TAIL[1]))
      == a + Encode(LAYOUT_TAIL[0]) + Encode(LAYOUT_TAIL[1]);
  }

  /** BGNLIB carries the first clock reading and BGNSTR the second, each as its six fields twice
      over; the two records' payloads agree exactly when the two readings have the same fields. */
  lemma LayoutTimestamps(libTime: DateTime, strTime: DateTime, layout: Layout)
    requires libTime.FitsU16() && strTime.FitsU16() && LayoutEncodable(layout)
    ensures var rs := LayoutRecords(libTime, strTime, layout);
      && rs[1].recordType == BGNLIB && DecodeU16s(rs[1].payload) == TimeFields(libTime)
      && rs[4].recordType == BGNSTR && DecodeU16s(rs[4].payload) == TimeFields(strTime)
      && (rs[1].payload == rs[4].payload <==> libTime.Fields() == strTime.Fields())
  {
    var rs := LayoutRecords(libTime, strTime, layout);
    assert rs[1] == LayoutPrelude(libTime, strTime, layout)[1];
    assert rs[4] == LayoutPrelude(libTime, strTime, layout)[4];
    if rs[1].payload == rs[4].payload {
      assert TimeFields(libTime) == TimeFields(strTime);
      assert TimeFields(libTime)[..6] == libTime.Fields();
      assert TimeFields(strTime)[..6] == strTime.Fields();
    }
  }

  lemma {:induction false} TypesAppend(a: seq<Record>, b: seq<Record>)
    ensures Types(a + b) == Types(a) + Types(b)
  {
    assert |Types(a + b)| == |Types(a) + Types(b)|;
    forall i | 0 <= i < |a + b|
      ensures Types(a + b)[i] == (Types(a) + Types(b))[i]
    {
      if i >= |a| {
        assert (a + b)[i] == b[i - |a|];
      }
    }
  }

  lemma {:induction false} BoundariesTypes(bs: seq<Boundary>)
    requires AllBoundariesEncodable(bs)
    ensures Types(BoundariesRecords(bs)) == ElementTypes(|bs|)
  {
    if |bs| > 0 {
      TypesAppend(BoundaryRecords(bs[0]), BoundariesRecords(bs[1..]));
      BoundariesTypes(bs[1..]);
      assert Types(BoundaryRecords(bs[0])) == ELEMENT_TYPES;
    }
  }

  /** The record types of a layout come in the order HEADER, BGNLIB, LIBNAME, UNITS, BGNSTR,
      STRNAME, then BOUNDARY, LAYER, DATATYPE, XY, ENDEL per element, then ENDSTR, ENDLIB. */
  lemma LayoutTypesOrder(libTime: DateTime, strTime: DateTime, layout: Layout)
    requires libTime.FitsU16() && strTime.FitsU16() && LayoutEncodable(layout)
    ensures Types(LayoutRecords(libTime, strTime, layout)) == LayoutTypes(|layout.elements|)
  {
    var pre := LayoutPrelude(libTime, strTime, layout);
    TypesAppend(pre + BoundariesRecords(layout.elements), LAYOUT_TAIL);
    TypesAppend(pre, BoundariesRecords(layout.elements));
    BoundariesTypes(layout.elements);
    assert Types(pre) == [HEADER, BGNLIB, LIBNAME, UNITS, BGNSTR, STRNAME];
    assert Types(LAYOUT_TAIL) == [ENDSTR, ENDLIB];
  }

  /** Whatever follows it, the HEADER record for version 600 peeks as length 6, type word
      0x0002 (HEADER, 2-byte integers) and value 600. */
  lemma HeaderPeek(rest: seq<byte>)
    ensures PeekHeader(Encode(Record(HEADER, INT16, U16(VERSION))) + rest) == Some((6, 0x0002, 600))
  {
    var s := Encode(Record(HEADER, INT16, U16(VERSION))) + rest;
    assert s[0..2] == [0, 6] && s[2..4] == [0, 2] && s[4..6] == [2, 88];
  }

  /** The stream a layout is written as: walking it by declared lengths visits exactly the
      layout's records, in order, and ends at its last byte; its first six bytes read back as
      length 6, word 0x0002, version 600. */
  lemma LayoutStream(libTime: DateTime, strTime: DateTime, layout: Layout)
    requires libTime.FitsU16() && strTime.FitsU16() && LayoutEncodable(layout)
    ensures WriteLayout(libTime, strTime, layout).Success?
    ensures var out := WriteLayout(libTime, strTime, layout).value;
      && Walk(out) == Some(LayoutRecords(libTime, strTime, layout))
      && PeekHeader(out) == Some((6, 0x0002, 600))
  {
    var rs := LayoutRecords(libTime, strTime, layout);
    WalkEncodeAll(rs);
    assert rs[0] == Record(HEADER, INT16, U16(VERSION));
    HeaderPeek(EncodeAll(rs[1..]));
  }

  /** Every XY list of the AxiomaCore-328 layout holds 10 integers (5 points) and is closed: its
      first point equals its last. */
  lemma AxiomaElementsClosed()
    ensures |AXIOMA_ELEMENTS| == 10
    ensures forall i :: 0 <= i < |AXIOMA_ELEMENTS| ==>
      var xy := AXIOMA_ELEMENTS[i].xy; |xy| == 10 && xy[0] == xy[8] && xy[1] == xy[9]
  {
  }

  lemma AxiomaEncodable()
    ensures LayoutEncodable(AXIOMA_LAYOUT)
  {
    forall i | 0 <= i < |AXIOMA_ELEMENTS|
      ensures BoundaryEncodable(AXIOMA_ELEMENTS[i])
    {
      var xy := AXIOMA_ELEMENTS[i].xy;
      assert |xy| == 10;
      assert forall k :: 0 <= k < 10 ==> 0 <= xy[k] <= 1000000;
    }
  }

  /** `create_axioma_gds` never raises for two real clock readings, whether or not they agree,
      and the file it writes walks record by record through the AxiomaCore-328 layout in the
      layout order: the library and structure headers, ten elements, ENDSTR, ENDLIB, beginning
      with the 6-byte HEADER for version 600. `AxiomaShape` gives the record order and
      `LayoutTimestamps` places the two readings. */
  lemma AxiomaStream(libTime: DateTime, strTime: DateTime)
    requires libTime.Valid() && strTime.Valid()
    ensures libTime.FitsU16() && strTime.FitsU16() && LayoutEncodable(AXIOMA_LAYOUT)
    ensures CreateAxiomaGds(libTime, strTime).Success?
    ensures Walk(CreateAxiomaGds(libTime, strTime).value) == Some(LayoutRecords(libTime, strTime, AXIOMA_LAYOUT))
    ensures PeekHeader(CreateAxiomaGds(libTime, strTime).value) == Some((6, 0x0002, 600))
  {
    ValidFitsU16(libTime);
    ValidFitsU16(strTime);
    AxiomaEncodable();
  }

  /** The AxiomaCore-328 layout is written as 58 records in the layout order: HEADER, BGNLIB,
      LIBNAME, UNITS, BGNSTR, STRNAME, five records for each of its ten elements, ENDSTR, ENDLIB. */
  lemma AxiomaShape(libTime: DateTime, strTime: DateTime)
    requires libTime.FitsU16() && strTime.FitsU16()
    ensures LayoutEncodable(AXIOMA_LAYOUT)
    ensures |LayoutRecords(libTime, strTime, AXIOMA_LAYOUT)| == 58
    ensures Types(LayoutRecords(libTime, strTime, AXIOMA_LAYOUT)) == LayoutTypes(10)
  {
    AxiomaEncodable();
    assert |AXIOMA_LAYOUT.elements| == 10;
    LayoutCount(libTime, strTime, AXIOMA_LAYOUT);
    LayoutTypesOrder(libTime, strTime, AXIOMA_LAYOUT);
  }

  /** A layout is written as six header records, five per element and two closing records. */
  lemma LayoutCount(libTime: DateTime, strTime: DateTime, layout: Layout)
    requires libTime.FitsU16() && strTime.FitsU16() && LayoutEncodable(layout)
    ensures |LayoutRecords(libTime, strTime, layout)| == 8 + 5 * |layout.elements|
  {
  }
}
