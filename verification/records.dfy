/** GDSII records: the 4-byte header (total length, then record type and data type in one
    big-endian word) followed by the payload, as both layout generators write them; plus a
    record reader and a stream walker that follow the declared lengths. */
module Records {
  import opened Wrappers
  import opened Bytes

  // Record types, section "Record Description" of the GDSII Stream Format Manual, Release 6.0.
  const HEADER: byte := 0x00
  const BGNLIB: byte := 0x01
  const LIBNAME: byte := 0x02
  const UNITS: byte := 0x03
  const ENDLIB: byte := 0x04
  const BGNSTR: byte := 0x05
  const STRNAME: byte := 0x06
  const ENDSTR: byte := 0x07
  const BOUNDARY: byte := 0x08
  const LAYER: byte := 0x0D
  const DATATYPE: byte := 0x0E
  const XY: byte := 0x10
  const ENDEL: byte := 0x11

  // Data types of the payload.
  const NO_DATA: byte := 0
  const INT16: byte := 2
  const INT32: byte := 3
  const REAL8: byte := 5
  const ASCII: byte := 6

  /** The largest total length the 16-bit length field can hold. */
  const MAX_LENGTH: int := 0xFFFF

  /** What the generators raise: `struct.error` for a value outside the packed width or a record
      longer than the length field allows, `UnicodeEncodeError` for non-ASCII text. */
  datatype WriteError = ValueOutOfRange | NotAscii | LengthOverflow

  datatype Record = Record(recordType: byte, dataType: byte, payload: seq<byte>)

  /** The payload leaves the total length representable in 16 bits. */
  predicate Fits(payload: seq<byte>) {
    4 + |payload| <= MAX_LENGTH
  }

  /** A record the stream format accepts: representable length, and an even one. */
  predicate WellFormed(r: Record) {
    Fits(r.payload) && |r.payload| % 2 == 0
  }

  predicate AllWellFormed(rs: seq<Record>) {
    forall i :: 0 <= i < |rs| ==> WellFormed(rs[i])
  }

  /** The header's first word: the total record length the bytes declare. */
  function DeclaredLength(s: seq<byte>): nat
    requires |s| >= 2
  {
    DecodeU16(s[..2])
  }

  /** The header's second word: record type in the high byte, data type in the low byte. */
  function TypeWord(s: seq<byte>): nat
    requires |s| >= 4
  {
    DecodeU16(s[2..4])
  }

  /** The bytes of one record. */
  function Encode(r: Record): (bytes: seq<byte>)
    requires Fits(r.payload)
    ensures |bytes| == 4 + |r.payload|
  {
    U16(4 + |r.payload|) + [r.recordType, r.dataType] + r.payload
  }

  /** Reads the record at the start of `s`, giving it and the number of bytes it occupies; `None`
      when fewer than 4 bytes remain, the declared length is below 4 or odd, or it runs past the
      end of `s`. */
  function ReadRecord(s: seq<byte>): (r: Option<(Record, nat)>)
    ensures r.Some? ==> var (rec, n) := r.value;
      && 4 <= n <= |s| && n == 4 + |rec.payload| && WellFormed(rec)
      && Encode(rec) == s[..n]
  {
    if |s| < 4 then None
    else
      var n := DeclaredLength(s);
      if n < 4 || n % 2 == 1 || n > |s| then None
      else
        var rec := Record(s[2], s[3], s[4..n]);
        assert U16(n) == s[..2] by { U16Unique(s[..2]); }
        assert Encode(rec) == s[..n];
        Some((rec, n))
  }

  /** A well-formed record reads back from the front of any stream it starts. */
  lemma ReadEncoded(r: Record, rest: seq<byte>)
    requires WellFormed(r)
    ensures ReadRecord(Encode(r) + rest) == Some((r, |Encode(r)|))
  {
    var s := Encode(r) + rest;
    assert s[..2] == U16(4 + |r.payload|);
    assert s[4..4 + |r.payload|] == r.payload;
  }

  /** `write_record`: the header then the payload. The length field holds the total byte count,
      4 + payload length; the second word is `(record_type << 8) | data_type`; a record without
      payload is the 4-byte header alone. A payload too long for the length field raises. */
  function WriteRecord(recordType: byte, dataType: byte, data: seq<byte>): (r: Result<seq<byte>, WriteError>)
    ensures r.Success? <==> Fits(data)
    ensures r.Failure? ==> r.error == LengthOverflow
    ensures r.Success? ==> |r.value| == 4 + |data| && DeclaredLength(r.value) == |r.value|
    ensures r.Success? ==> TypeWord(r.value) == recordType * 256 + dataType
    ensures r.Success? ==> r.value[4..] == data
    ensures r.Success? && |data| % 2 == 0 ==>
      ReadRecord(r.value) == Some((Record(recordType, dataType, data), |r.value|))
  {
    if !Fits(data) then Failure(LengthOverflow)
    else
      var bytes := Encode(Record(recordType, dataType, data));
      assert bytes[..2] == U16(4 + |data|);
      assert bytes[2..4] == [recordType, dataType];
      assert |data| % 2 == 0 ==> ReadRecord(bytes) == Some((Record(recordType, dataType, data), |bytes|)) by {
        if |data| % 2 == 0 {
          ReadEncoded(Record(recordType, dataType, data), []);
          assert bytes + [] == bytes;
        }
      }
      Success(bytes)
  }

  /** The bytes of a record sequence, one record after the other. */
  function EncodeAll(rs: seq<Record>): (bytes: seq<byte>)
    requires forall i :: 0 <= i < |rs| ==> Fits(rs[i].payload)
  {
    if |rs| == 0 then [] else Encode(rs[0]) + EncodeAll(rs[1..])
  }

  lemma {:induction false} EncodeAllAppend(a: seq<Record>, b: seq<Record>)
    requires forall i :: 0 <= i < |a| ==> Fits(a[i].payload)
    requires forall i :: 0 <= i < |b| ==> Fits(b[i].payload)
    ensures EncodeAll(a + b) == EncodeAll(a) + EncodeAll(b)
  {
    if |a| == 0 {
      assert a + b == b;
    } else {
      assert (a + b)[1..] == a[1..] + b;
      EncodeAllAppend(a[1..], b);
    }
  }

  /** Walks a stream record by record, each step advancing by the declared length; `None` as soon
      as a record cannot be read. A successful walk covers the stream exactly: its records,
      re-encoded, are the stream. */
  function Walk(s: seq<byte>): (r: Option<seq<Record>>)
    ensures r.Some? ==> AllWellFormed(r.value) && EncodeAll(r.value) == s
    decreases |s|
  {
    if |s| == 0 then Some([])
    else
      var step := ReadRecord(s);
      if step.None? then None
      else
        var rec := step.value.0;
        var n := step.value.1;
        var tail := Walk(s[n..]);
        if tail.None? then None
        else
          var all := [rec] + tail.value;
          assert all[0] == rec && all[1..] == tail.value;
          assert EncodeAll(all) == Encode(rec) + EncodeAll(tail.value);
          assert s == s[..n] + s[n..];
          Some(all)
  }

  /** Walking the encoding of well-formed records visits exactly those records, in order. */
  lemma {:induction false} WalkEncodeAll(rs: seq<Record>)
    requires AllWellFormed(rs)
    ensures Walk(EncodeAll(rs)) == Some(rs)
  {
    if |rs| > 0 {
      var s := EncodeAll(rs);
      ReadEncoded(rs[0], EncodeAll(rs[1..]));
      assert s[|Encode(rs[0])|..] == EncodeAll(rs[1..]);
      WalkEncodeAll(rs[1..]);
      assert [rs[0]] + rs[1..] == rs;
    }
  }

  /** A stream of well-formed records cut one byte short cannot be walked: the last record's
      declared length runs past the end. */
  lemma {:induction false} TruncatedStreamRejected(rs: seq<Record>)
    requires |rs| > 0 && AllWellFormed(rs)
    ensures var s := EncodeAll(rs); Walk(s[..|s| - 1]) == None
  {
    var s := EncodeAll(rs);
    var first := Encode(rs[0]);
    var cut := s[..|s| - 1];
    if |rs| == 1 {
      assert rs[1..] == [];
      assert EncodeAll(rs[1..]) == [];
      assert s == first + [];
      assert cut[..2] == first[..2];
      assert DeclaredLength(cut) == |first| > |cut|;
    } else {
      var tail := EncodeAll(rs[1..]);
      assert |tail| > 0 by { assert |tail| >= |Encode(rs[1])|; }
      assert cut == first + tail[..|tail| - 1];
      ReadEncoded(rs[0], tail[..|tail| - 1]);
      assert cut[|first|..] == tail[..|tail| - 1];
      TruncatedStreamRejected(rs[1..]);
    }
  }

  /** The record types of a record sequence, in order. */
  function Types(rs: seq<Record>): (ts: seq<byte>)
    ensures |ts| == |rs|
    ensures forall i :: 0 <= i < |rs| ==> ts[i] == rs[i].recordType
  {
    if |rs| == 0 then [] else [rs[0].recordType] + Types(rs[1..])
  }

  /** The peek of `verify_gds_file`: with at least 6 bytes, the first three big-endian words
      (record length, type word, first payload word); otherwise nothing is read. */
  function PeekHeader(content: seq<byte>): (r: Option<(nat, nat, nat)>)
    ensures r.Some? <==> |content| >= 6
    ensures r.Some? ==> r.value.0 == DeclaredLength(content) && r.value.1 == TypeWord(content)
    ensures r.Some? ==> r.value.2 == DecodeU16(content[4..6])
  {
    if |content| >= 6 then
      Some((DecodeU16(content[0..2]), DecodeU16(content[2..4]), DecodeU16(content[4..6])))
    else
      None
  }

  /** Peeking a stream that starts with a record carrying at least one payload word gives the
      record's total length, its type word and that first word. */
  lemma PeekEncoded(r: Record, rest: seq<byte>)
    requires Fits(r.payload) && |r.payload| >= 2
    ensures PeekHeader(Encode(r) + rest)
      == Some((4 + |r.payload|, r.recordType * 256 + r.dataType, DecodeU16(r.payload[..2])))
  {
    var s := Encode(r) + rest;
    assert s[0..2] == U16(4 + |r.payload|);
    assert s[2..4] == [r.recordType, r.dataType];
    assert s[4..6] == r.payload[..2];
  }
}
