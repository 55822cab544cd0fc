/** The hand-packed GDSII writer of `layout/create_minimal_gds.py`: every header is packed with
    an explicit length and type word instead of going through record helpers. The model keeps the
    writes grouped per record, thirteen chunks in file order, and proves the result byte-identical
    to the helper-based writer on the same library. */
module MinimalGds {
  import opened Wrappers
  import opened Bytes
  import opened Records
  import opened CorrectGds

  /** `b'AXIOMA'` and `b'CHIP'`. */
  const LIB_NAME: seq<byte> := [0x41, 0x58, 0x49, 0x4F, 0x4D, 0x41]
  const STR_NAME: seq<byte> := [0x43, 0x48, 0x49, 0x50]

  /** The one rectangle: a closed list of five points, 100000 database units on a side. */
  const RECT: seq<int> := [0, 0, 100000, 0, 100000, 100000, 0, 100000, 0, 0]

  /** The library the generator writes, described for the helper-based writer: library AXIOMA,
      structure CHIP, one element on layer 1, datatype 0, with the given coordinate list. */
  function RectLayout(coords: seq<int>): Layout {
    Layout("AXIOMA", "CHIP", [Boundary(1, 0, coords)])
  }

  const MINIMAL_LAYOUT: Layout := RectLayout(RECT)

  /** The bytes written one after the other. */
  function Flatten(chunks: seq<seq<byte>>): (out: seq<byte>)
    ensures chunks == [] ==> out == []
  {
    if |chunks| == 0 then [] else chunks[0] + Flatten(chunks[1..])
  }

  /** `struct.pack('>HH', 4 + len(name), word)` followed by the name, with no padding. */
  function PackedName(recordType: byte, name: seq<byte>): seq<byte>
    requires 4 + |name| <= MAX_LENGTH
  {
    U16s([4 + |name|, recordType * 256 + ASCII]) + name
  }

  /** Records 1-6: HEADER, BGNLIB, LIBNAME, UNITS, BGNSTR, STRNAME, as packed by hand. */
  function LibraryChunks(now: DateTime): (chunks: seq<seq<byte>>)
    requires now.FitsU16()
    ensures |chunks| == 6
  {
    var times := U16s(TimeFields(now));
    [ U16s([6, 0x0002, 600]),
      U16s([28, 0x0102]) + times,
      PackedName(LIBNAME, LIB_NAME),
      U16s([20, 0x0305]) + UNITS_PAYLOAD,
      U16s([28, 0x0502]) + times,
      PackedName(STRNAME, STR_NAME) ]
  }

  /** Record 7: BOUNDARY, LAYER 1, DATATYPE 0, the XY list, ENDEL. */
  function ElementChunks(coords: seq<int>): (chunks: seq<seq<byte>>)
    requires AllI32(coords) && 4 + 4 * |coords| <= MAX_LENGTH
    ensures |chunks| == 5
  {
    [ U16s([4, 0x0800]),
      U16s([6, 0x0D02]) + U16(1),
      U16s([6, 0x0E02]) + U16(0),
      U16s([4 + 4 * |coords|, 0x1003]) + I32s(coords),
      U16s([4, 0x1100]) ]
  }

  /** Records 8-9: ENDSTR, ENDLIB. */
  const TAIL_CHUNKS: seq<seq<byte>> := [U16s([4, 0x0700]), U16s([4, 0x0400])]

  /** The writes of `create_minimal_gds`, grouped per record, for a clock whose fields pack; the
      coordinate list is a parameter so that the proofs below need not unfold its literal. */
  function MinimalChunks(now: DateTime, coords: seq<int>): (chunks: seq<seq<byte>>)
    requires now.FitsU16() && AllI32(coords) && 4 + 4 * |coords| <= MAX_LENGTH
    ensures |chunks| == 13
  {
    LibraryChunks(now) + ElementChunks(coords) + TAIL_CHUNKS
  }

  /** `create_minimal_gds`: the bytes written to the file, for its one clock reading. A clock
      field outside 0..65535 makes `struct.pack('>H', t)` raise; otherwise the file walks record
      by record through the helper-based writer's records for the same library, with the one
      reading in both BGNLIB and BGNSTR. */
  function CreateMinimalGds(now: DateTime): (r: Result<seq<byte>, WriteError>)
    ensures r.Success? <==> now.FitsU16()
    ensures r.Success? ==>
      && LayoutEncodable(MINIMAL_LAYOUT)
      && Walk(r.value) == Some(LayoutRecords(now, now, MINIMAL_LAYOUT))
  {
    if !now.FitsU16() then Failure(ValueOutOfRange)
    else
      MinimalChunksEncode(now, RECT);
      FlattenEncodeAll(MinimalChunks(now, RECT), LayoutRecords(now, now, MINIMAL_LAYOUT));
      WalkEncodeAll(LayoutRecords(now, now, MINIMAL_LAYOUT));
      Success(Flatten(MinimalChunks(now, RECT)))
  }

  /** The total lengths the hand-packed headers declare, in file order. */
  const MINIMAL_LENGTHS: seq<int> := [6, 28, 10, 20, 28, 8, 4, 6, 6, 44, 4, 4, 4]

  /** The type words the hand-packed headers declare, in file order. */
  const MINIMAL_WORDS: seq<int> :=
    [0x0002, 0x0102, 0x0206, 0x0305, 0x0502, 0x0606, 0x0800, 0x0D02, 0x0E02, 0x1003, 0x1100, 0x0700, 0x0400]

  // ---------------------------------------------------------------------------------------
  // Equivalence with the helper-based writer.

  /** Chunks that are record encodings, one for one, flatten to the encoding of the records. */
  lemma {:induction false} FlattenEncodeAll(chunks: seq<seq<byte>>, rs: seq<Record>)
    requires |chunks| == |rs| && AllWellFormed(rs)
    requires forall k :: 0 <= k < |rs| ==> chunks[k] == Encode(rs[k])
    ensures Flatten(chunks) == EncodeAll(rs)
  {
    if |rs| > 0 {
      FlattenEncodeAll(chunks[1..], rs[1..]);
    }
  }

  lemma U16sTwo(a: int, b: int)
    requires IsU16(a) && IsU16(b)
    ensures U16s([a, b]) == U16(a) + U16(b)
  {
    assert [a, b][1..] == [b];
    assert U16s([b]) == U16(b) + U16s([]);
  }

  /** A header packed by hand as `'>HH'` followed by the payload is the encoding of the record
      whose length field is right and whose type word splits into its two bytes. */
  lemma PackedEncodes(length: int, recordType: byte, dataType: byte, payload: seq<byte>)
    requires length == 4 + |payload| <= MAX_LENGTH
    ensures U16s([length, recordType * 256 + dataType]) + payload
      == Encode(Record(recordType, dataType, payload))
  {
    U16sTwo(length, recordType * 256 + dataType);
  }

  /** A name packed by hand is the encoding of the unpadded name record. */
  lemma PackedNameEncodes(recordType: byte, name: seq<byte>)
    requires 4 + |name| <= MAX_LENGTH
    ensures PackedName(recordType, name) == Encode(Record(recordType, ASCII, name))
  {
    PackedEncodes(4 + |name|, recordType, ASCII, name);
  }

  lemma RectLayoutEncodable(coords: seq<int>)
    requires AllI32(coords) && 4 + 4 * |coords| <= MAX_LENGTH
    ensures LayoutEncodable(RectLayout(coords))
  {
    assert BoundaryEncodable(Boundary(1, 0, coords));
  }

  /** Records 1-6 packed by hand are the helper-based writer's library and structure headers. */
  lemma LibraryChunksEncode(now: DateTime, coords: seq<int>)
    requires now.FitsU16() && AllI32(coords) && 4 + 4 * |coords| <= MAX_LENGTH
    ensures LayoutEncodable(RectLayout(coords))
    ensures var chunks := LibraryChunks(now); var rs := LayoutPrelude(now, now, RectLayout(coords));
      forall k :: 0 <= k < 6 ==> chunks[k] == Encode(rs[k])
  {
    RectLayoutEncodable(coords);
    var times := U16s(TimeFields(now));
    assert U16s([6, 0x0002, 600]) == U16(6) + U16(2) + U16(600) by {
      assert [6, 0x0002, 600][1..] == [0x0002, 600];
      U16sTwo(0x0002, 600);
    }
    PackedEncodes(28, BGNLIB, INT16, times);
    PackedEncodes(20, UNITS, REAL8, UNITS_PAYLOAD);
    PackedEncodes(28, BGNSTR, INT16, times);
    assert StringPayload("AXIOMA") == LIB_NAME;
    assert StringPayload("CHIP") == STR_NAME;
    PackedNameEncodes(LIBNAME, LIB_NAME);
    PackedNameEncodes(STRNAME, STR_NAME);
  }

  /** Record 7 packed by hand is the helper-based writer's element on layer 1, datatype 0. */
  lemma ElementChunksEncode(coords: seq<int>)
    requires AllI32(coords) && 4 + 4 * |coords| <= MAX_LENGTH
    ensures BoundaryEncodable(Boundary(1, 0, coords))
    ensures var chunks := ElementChunks(coords); var rs := BoundaryRecords(Boundary(1, 0, coords));
      forall k :: 0 <= k < 5 ==> chunks[k] == Encode(rs[k])
  {
    PackedEncodes(4, BOUNDARY, NO_DATA, []);
    PackedEncodes(6, LAYER, INT16, U16(1));
    PackedEncodes(6, DATATYPE, INT16, U16(0));
    PackedEncodes(4 + 4 * |coords|, XY, INT32, I32s(coords));
    PackedEncodes(4, ENDEL, NO_DATA, []);
  }

  /** Records 8-9 packed by hand are the helper-based writer's ENDSTR and ENDLIB. */
  lemma TailChunksEncode()
    ensures forall k :: 0 <= k < 2 ==> TAIL_CHUNKS[k] == Encode(LAYOUT_TAIL[k])
  {
    PackedEncodes(4, ENDSTR, NO_DATA, []);
    PackedEncodes(4, ENDLIB, NO_DATA, []);
  }

  /** Chunks matching records one for one keep matching when both lists are extended. */
  lemma MatchAppend(a: seq<seq<byte>>, x: seq<Record>, b: seq<seq<byte>>, y: seq<Record>)
    requires |a| == |x| && |b| == |y| && AllWellFormed(x) && AllWellFormed(y)
    requires forall k :: 0 <= k < |x| ==> a[k] == Encode(x[k])
    requires forall k :: 0 <= k < |y| ==> b[k] == Encode(y[k])
    ensures AllWellFormed(x + y)
    ensures forall k :: 0 <= k < |x + y| ==> (a + b)[k] == Encode((x + y)[k])
  {
    forall k | 0 <= k < |x + y|
      ensures WellFormed((x + y)[k]) && (a + b)[k] == Encode((x + y)[k])
    {
      if k >= |x| {
        assert (x + y)[k] == y[k - |x|] && (a + b)[k] == b[k - |x|];
      }
    }
  }

  /** Each hand-packed chunk is the encoding of the helper-based writer's matching record. */
  lemma MinimalChunksEncode(now: DateTime, coords: seq<int>)
    requires now.FitsU16() && AllI32(coords) && 4 + 4 * |coords| <= MAX_LENGTH
    ensures LayoutEncodable(RectLayout(coords))
    ensures var chunks := MinimalChunks(now, coords); var rs := LayoutRecords(now, now, RectLayout(coords));
      |rs| == 13 && forall k :: 0 <= k < 13 ==> chunks[k] == Encode(rs[k])
  {
    var b := Boundary(1, 0, coords);
    LibraryChunksEncode(now, coords);
    ElementChunksEncode(coords);
    TailChunksEncode();
    var pre := LayoutPrelude(now, now, RectLayout(coords));
    var els := BoundaryRecords(b);
    assert BoundariesRecords([b]) == els by {
      assert [b][1..] == [];
    }
    MatchAppend(LibraryChunks(now), pre, ElementChunks(coords), els);
    MatchAppend(LibraryChunks(now) + ElementChunks(coords), pre + els, TAIL_CHUNKS, LAYOUT_TAIL);
  }

  /** Hand-packing and the helper-based writer agree on every coordinate list that packs, when
      the helper-based writer's two clock readings are the hand-packed writer's one: both raise
      on the same clock, and otherwise write the same bytes. */
  lemma HandPackedMatchesHelpers(now: DateTime, coords: seq<int>)
    requires AllI32(coords) && 4 + 4 * |coords| <= MAX_LENGTH
    ensures now.FitsU16() ==> WriteLayout(now, now, RectLayout(coords)) == Success(Flatten(MinimalChunks(now, coords)))
    ensures !now.FitsU16() ==> WriteLayout(now, now, RectLayout(coords)) == Failure(ValueOutOfRange)
  {
    RectLayoutEncodable(coords);
    if now.FitsU16() {
      MinimalChunksEncode(now, coords);
      FlattenEncodeAll(MinimalChunks(now, coords), LayoutRecords(now, now, RectLayout(coords)));
    }
  }

  /** `create_minimal_gds` writes exactly the bytes the helper-based writer produces for the same
      library, names and rectangle when both of its clock readings equal the hand-packed writer's
      one; both raise on the same clock. */
  lemma MinimalMatchesHelpers(now: DateTime)
    ensures CreateMinimalGds(now) == WriteLayout(now, now, MINIMAL_LAYOUT)
  {
    HandPackedMatchesHelpers(now, RECT);
  }

  // ---------------------------------------------------------------------------------------
  // Framing of the hand-packed stream.

  /** The length and type word a `'>HH'` header declares. */
  lemma PackedHeader(length: int, word: int, payload: seq<byte>)
    requires IsU16(length) && IsU16(word)
    ensures var c := U16s([length, word]) + payload;
      DeclaredLength(c) == length && TypeWord(c) == word
  {
    U16sTwo(length, word);
    var c := U16s([length, word]) + payload;
    assert c[..2] == U16(length) && c[2..4] == U16(word);
  }

  /** The chunk at position `k` of the file declares its true length and the expected word. */
  predicate FramedAt(chunk: seq<byte>, k: int)
    requires 0 <= k < 13
  {
    && |chunk| == MINIMAL_LENGTHS[k] && |chunk| >= 4
    && DeclaredLength(chunk) == MINIMAL_LENGTHS[k] && TypeWord(chunk) == MINIMAL_WORDS[k]
  }

  lemma LibraryFraming(now: DateTime)
    requires now.FitsU16()
    ensures forall k :: 0 <= k < 6 ==> FramedAt(LibraryChunks(now)[k], k)
  {
    var times := U16s(TimeFields(now));
    assert DeclaredLength(U16s([6, 0x0002, 600])) == 6 && TypeWord(U16s([6, 0x0002, 600])) == 2 by {
      var c := U16s([6, 0x0002, 600]);
      assert [6, 0x0002, 600][1..] == [0x0002, 600];
      U16sTwo(0x0002, 600);
      assert c[..2] == [0, 6] && c[2..4] == [0, 2];
    }
    PackedHeader(28, 0x0102, times);
    PackedHeader(10, 0x0206, LIB_NAME);
    PackedHeader(20, 0x0305, UNITS_PAYLOAD);
    PackedHeader(28, 0x0502, times);
    PackedHeader(8, 0x0606, STR_NAME);
  }

  lemma ElementFraming(coords: seq<int>)
    requires AllI32(coords) && |coords| == 10
    ensures forall k :: 0 <= k < 5 ==> FramedAt(ElementChunks(coords)[k], 6 + k)
  {
    PackedHeader(4, 0x0800, []);
    PackedHeader(6, 0x0D02, U16(1));
    PackedHeader(6, 0x0E02, U16(0));
    PackedHeader(44, 0x1003, I32s(coords));
    PackedHeader(4, 0x1100, []);
    assert U16s([4, 0x0800]) + [] == U16s([4, 0x0800]);
    assert U16s([4, 0x1100]) + [] == U16s([4, 0x1100]);
  }

  lemma TailFraming()
    ensures forall k :: 0 <= k < 2 ==> FramedAt(TAIL_CHUNKS[k], 11 + k)
  {
    PackedHeader(4, 0x0700, []);
    PackedHeader(4, 0x0400, []);
    assert U16s([4, 0x0700]) + [] == U16s([4, 0x0700]);
    assert U16s([4, 0x0400]) + [] == U16s([4, 0x0400]);
  }

  /** Every hand-packed header declares its chunk's true length, the lengths and type words are
      the thirteen constants above, BGNLIB and BGNSTR carry the same twelve clock fields, and the
      HEADER chunk is byte-identical to `write_int16(0x00, 600)`. */
  lemma MinimalFraming(now: DateTime, coords: seq<int>)
    requires now.FitsU16() && AllI32(coords) && |coords| == 10
    ensures var chunks := MinimalChunks(now, coords);
      && (forall k :: 0 <= k < 13 ==> FramedAt(chunks[k], k))
      && DecodeU16s(chunks[1][4..]) == TimeFields(now) == DecodeU16s(chunks[4][4..])
      && chunks[0] == WriteInt16(HEADER, 600).value
  {
    var chunks := MinimalChunks(now, coords);
    var lib := LibraryChunks(now);
    var el := ElementChunks(coords);
    LibraryFraming(now);
    ElementFraming(coords);
    TailFraming();
    forall k | 0 <= k < 13
      ensures FramedAt(chunks[k], k)
    {
      if k < 6 {
        assert chunks[k] == lib[k];
      } else if k < 11 {
        assert chunks[k] == el[k - 6];
      } else {
        assert chunks[k] == TAIL_CHUNKS[k - 11];
      }
    }
    LibraryChunksEncode(now, coords);
    assert chunks[1][4..] == U16s(TimeFields(now)) == chunks[4][4..];
  }

  /** The rectangle is closed, five points, and `create_minimal_gds` never raises for a real
      clock reading: its output walks record by record to the end, visiting the helper-based
      writer's records for the same library. */
  lemma MinimalStream(now: DateTime)
    requires now.Valid()
    ensures now.FitsU16() && LayoutEncodable(MINIMAL_LAYOUT)
    ensures CreateMinimalGds(now).Success?
    ensures Walk(CreateMinimalGds(now).value) == Some(LayoutRecords(now, now, MINIMAL_LAYOUT))
    ensures |RECT| == 10 && RECT[0] == RECT[8] && RECT[1] == RECT[9]
  {
    ValidFitsU16(now);
  }

  /** Packing a name by hand agrees with `write_string` exactly when the name has even length:
      for an odd one `write_string` adds the NUL pad the hand-packed record lacks. */
  lemma PackedNameVersusWriteString(recordType: byte, text: string)
    requires IsAscii(text) && 4 + |text| + 1 <= MAX_LENGTH
    ensures WriteString(recordType, text).Success?
    ensures WriteString(recordType, text).value == PackedName(recordType, AsciiBytes(text))
      <==> |text| % 2 == 0
  {
    PackedNameEncodes(recordType, AsciiBytes(text));
    var written := WriteString(recordType, text).value;
    var packed := PackedName(recordType, AsciiBytes(text));
    if |text| % 2 == 1 {
      assert |written| != |packed|;
    }
  }

  /** A hand-packed name of odd length declares an odd record length, so a reader that follows
      the stream format rejects it: the names are well-formed only because both have even length. */
  lemma OddPackedNameRejected(recordType: byte, name: seq<byte>, rest: seq<byte>)
    requires 4 + |name| <= MAX_LENGTH && |name| % 2 == 1
    ensures ReadRecord(PackedName(recordType, name) + rest) == None
    ensures Walk(PackedName(recordType, name) + rest) == None
  {
    var s := PackedName(recordType, name) + rest;
    PackedNameEncodes(recordType, name);
    assert s[..2] == U16(4 + |name|);
  }
}
