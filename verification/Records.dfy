/** The on-disk record format of the append-only log: encode, decode and their round trips. */
module Records {
  import opened Bytes

  const HEADER_LEN: nat := 21

  datatype RecordType = Put | Delete

  datatype Record = Record(kind: RecordType, seqNo: nat, key: Bytes, value: Bytes)

  datatype DecodeOutcome = Ok(record: Record, len: nat) | Incomplete | ChecksumMismatch

  function PutRecord(seqNo: nat, key: Bytes, value: Bytes): Record {
    Record(Put, seqNo, key, value)
  }

  function DeleteRecord(seqNo: nat, key: Bytes): Record {
    Record(Delete, seqNo, key, [])
  }

  /** The record's fields fit the widths the format gives them (u64 seq, u32 lengths). */
  predicate Fits(r: Record) {
    r.seqNo < 0x1_0000_0000_0000_0000 && |r.key| < 0x1_0000_0000 && |r.value| < 0x1_0000_0000
  }

  function EncodedLen(r: Record): nat {
    HEADER_LEN + |r.key| + |r.value|
  }

  function KindByte(kind: RecordType): Byte {
    match kind
    case Put => 0
    case Delete => 1
  }

  function ChecksumInput(kind: Byte, seqNo: nat, key: Bytes, value: Bytes): Bytes {
    [kind] + ToLE(seqNo, 8) + ToLE(|key|, 4) + ToLE(|value|, 4) + key + value
  }

  function Header(crc: Checksum, kind: Byte, seqNo: nat, key: Bytes, value: Bytes): (h: Bytes)
    ensures |h| == HEADER_LEN
  {
    [kind] + ToLE(seqNo, 8) + ToLE(|key|, 4) + ToLE(|value|, 4)
      + ToLE(crc(ChecksumInput(kind, seqNo, key, value)), 4)
  }

  function Encode(crc: Checksum, r: Record): (bs: Bytes)
    ensures |bs| == EncodedLen(r)
  {
    Header(crc, KindByte(r.kind), r.seqNo, r.key, r.value) + r.key + r.value
  }

  function Decode(crc: Checksum, buf: Bytes): (o: DecodeOutcome)
    ensures o.Ok? ==> o.len == EncodedLen(o.record) <= |buf|
  {
    if |buf| < HEADER_LEN then Incomplete else
    var kindByte := buf[0];
    var seqNo := FromLE(buf[1..9]);
    var keyLen := FromLE(buf[9..13]);
    var valueLen := FromLE(buf[13..17]);
    var storedCrc := FromLE(buf[17..21]);
    var totalLen := HEADER_LEN + keyLen + valueLen;
    if |buf| < totalLen then Incomplete else
    var key := buf[HEADER_LEN..HEADER_LEN + keyLen];
    var value := buf[HEADER_LEN + keyLen..totalLen];
    if crc(ChecksumInput(kindByte, seqNo, key, value)) != storedCrc then ChecksumMismatch else
    if kindByte == 0 then Ok(Record(Put, seqNo, key, value), totalLen) else
    if kindByte == 1 then Ok(Record(Delete, seqNo, key, value), totalLen) else
    ChecksumMismatch // unknown type: treated as corrupt
  }

  /** Any buffer that starts with a header parses that header's fields back. */
  lemma HeaderFields(crc: Checksum, r: Record, rest: Bytes)
    requires Fits(r)
    ensures var buf := Header(crc, KindByte(r.kind), r.seqNo, r.key, r.value) + rest;
            && buf[0] == KindByte(r.kind)
            && FromLE(buf[1..9]) == r.seqNo
            && FromLE(buf[9..13]) == |r.key|
            && FromLE(buf[13..17]) == |r.value|
            && FromLE(buf[17..21]) == crc(ChecksumInput(KindByte(r.kind), r.seqNo, r.key, r.value))
  {
    var buf := Header(crc, KindByte(r.kind), r.seqNo, r.key, r.value) + rest;
    var c := crc(ChecksumInput(KindByte(r.kind), r.seqNo, r.key, r.value));
    PowWidths();
    assert buf[1..9] == ToLE(r.seqNo, 8);
    assert buf[9..13] == ToLE(|r.key|, 4);
    assert buf[13..17] == ToLE(|r.value|, 4);
    assert buf[17..21] == ToLE(c, 4);
    FromToLE(r.seqNo, 8);
    FromToLE(|r.key|, 4);
    FromToLE(|r.value|, 4);
    FromToLE(c, 4);
  }

  /** Print then parse: an encoded record is recovered from the front of any buffer. */
  lemma DecodeEncode(crc: Checksum, r: Record, rest: Bytes)
    requires Fits(r)
    ensures Decode(crc, Encode(crc, r) + rest) == Ok(r, EncodedLen(r))
  {
    hide ToLE, FromLE;
    var buf := Encode(crc, r) + rest;
    var h := Header(crc, KindByte(r.kind), r.seqNo, r.key, r.value);
    assert buf == h + (r.key + r.value + rest);
    HeaderFields(crc, r, r.key + r.value + rest);
    assert buf[HEADER_LEN..HEADER_LEN + |r.key|] == r.key;
    assert buf[HEADER_LEN + |r.key|..EncodedLen(r)] == r.value;
  }

  /** The first 21 bytes of any buffer are the print of the fields parsed from them. */
  lemma HeaderBytes(buf: Bytes)
    requires |buf| >= HEADER_LEN
    ensures buf[..HEADER_LEN] == [buf[0]] + ToLE(FromLE(buf[1..9]), 8) + ToLE(FromLE(buf[9..13]), 4)
                                 + ToLE(FromLE(buf[13..17]), 4) + ToLE(FromLE(buf[17..21]), 4)
  {
    ToFromLE(buf[1..9]);
    ToFromLE(buf[9..13]);
    ToFromLE(buf[13..17]);
    ToFromLE(buf[17..21]);
    assert buf[..9] == [buf[0]] + buf[1..9];
    assert buf[..13] == buf[..9] + buf[9..13];
    assert buf[..17] == buf[..13] + buf[13..17];
    assert buf[..21] == buf[..17] + buf[17..21];
  }

  /** Parse then print: whatever decodes re-encodes to exactly the bytes it came from. */
  lemma EncodeDecode(crc: Checksum, buf: Bytes)
    requires Decode(crc, buf).Ok?
    ensures var o := Decode(crc, buf); Fits(o.record) && Encode(crc, o.record) == buf[..o.len]
  {
    hide ToLE, FromLE, Pow256;
    var o := Decode(crc, buf);
    var Record(kind, seqNo, key, value) := o.record;
    PowWidths();
    assert Header(crc, KindByte(kind), seqNo, key, value) == buf[..HEADER_LEN] by { HeaderBytes(buf); }
    assert buf[..HEADER_LEN + |key|] == buf[..HEADER_LEN] + key;
    assert buf[..o.len] == buf[..HEADER_LEN + |key|] + value;
  }

  /** A record cut short anywhere is reported as incomplete, never as a record. */
  lemma TruncatedIsIncomplete(crc: Checksum, r: Record, n: nat)
    requires Fits(r) && n < EncodedLen(r)
    ensures Decode(crc, Encode(crc, r)[..n]).Incomplete?
  {
    if HEADER_LEN <= n {
      var h := Header(crc, KindByte(r.kind), r.seqNo, r.key, r.value);
      var rest := (r.key + r.value)[..n - HEADER_LEN];
      assert Encode(crc, r) == h + (r.key + r.value);
      assert Encode(crc, r)[..n] == h + rest;
      HeaderFields(crc, r, rest);
    }
  }

  /** Every field of the record is under the checksum: two records with the same checksum input are equal. */
  lemma ChecksumCovers(r: Record, q: Record)
    requires Fits(r) && Fits(q)
    requires ChecksumInput(KindByte(r.kind), r.seqNo, r.key, r.value)
          == ChecksumInput(KindByte(q.kind), q.seqNo, q.key, q.value)
    ensures r == q
  {
    hide ToLE, FromLE;
    ChecksumFields(r);
    ChecksumFields(q);
  }

  lemma ChecksumFields(r: Record)
    requires Fits(r)
    ensures var c := ChecksumInput(KindByte(r.kind), r.seqNo, r.key, r.value);
            && |c| == 17 + |r.key| + |r.value| && c[0] == (if r.kind == Put then 0 else 1)
            && FromLE(c[1..9]) == r.seqNo && FromLE(c[9..13]) == |r.key| && FromLE(c[13..17]) == |r.value|
            && c[17..17 + |r.key|] == r.key && c[17 + |r.key|..] == r.value
  {
    hide ToLE, FromLE;
    var c := ChecksumInput(KindByte(r.kind), r.seqNo, r.key, r.value);
    PowWidths();
    assert c[1..9] == ToLE(r.seqNo, 8);
    assert c[9..13] == ToLE(|r.key|, 4);
    assert c[13..17] == ToLE(|r.value|, 4);
    FromToLE(r.seqNo, 8);
    FromToLE(|r.key|, 4);
    FromToLE(|r.value|, 4);
  }

  /** The bytes of a record: type, sequence number, key length, value length, checksum, key, value. */
  lemma EncodeLayout(crc: Checksum, r: Record)
    requires Fits(r)
    ensures var bs := Encode(crc, r);
            && |bs| == 21 + |r.key| + |r.value| && bs[0] == (if r.kind == Put then 0 else 1)
            && FromLE(bs[1..9]) == r.seqNo && FromLE(bs[9..13]) == |r.key| && FromLE(bs[13..17]) == |r.value|
            && FromLE(bs[17..21]) == crc(bs[..17] + r.key + r.value)
            && bs[21..21 + |r.key|] == r.key && bs[21 + |r.key|..] == r.value
  {
    hide ToLE, FromLE;
    var bs := Encode(crc, r);
    var h := Header(crc, KindByte(r.kind), r.seqNo, r.key, r.value);
    assert bs == h + (r.key + r.value);
    HeaderFields(crc, r, r.key + r.value);
    assert bs[..17] + r.key + r.value == ChecksumInput(KindByte(r.kind), r.seqNo, r.key, r.value);
  }

  /** A buffer decodes exactly if it starts with the encoding of a record, and then to that record. */
  lemma DecodesIff(crc: Checksum, buf: Bytes)
    ensures Decode(crc, buf).Ok? <==> exists r :: Fits(r) && Encode(crc, r) <= buf
    ensures forall r :: Fits(r) && Encode(crc, r) <= buf ==> Decode(crc, buf) == Ok(r, EncodedLen(r))
  {
    hide Decode, Encode, Fits;
    if Decode(crc, buf).Ok? {
      EncodeDecode(crc, buf);
    }
    forall r | Fits(r) && Encode(crc, r) <= buf ensures Decode(crc, buf) == Ok(r, EncodedLen(r)) {
      var rest := buf[|Encode(crc, r)|..];
      assert buf == Encode(crc, r) + rest;
      DecodeEncode(crc, r, rest);
    }
  }

  /** More bytes are asked for exactly if the header, or the lengths in it, promise more than there are. */
  lemma IncompleteIff(crc: Checksum, buf: Bytes)
    ensures Decode(crc, buf).Incomplete? <==>
            |buf| < 21 || |buf| < 21 + FromLE(buf[9..13]) + FromLE(buf[13..17])
  {
  }
}
