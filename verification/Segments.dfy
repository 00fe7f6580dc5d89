/** One append-only segment file: the torn-tail scan and batched appends. */
module Segments {
  import opened Bytes
  import opened Records

  datatype Recovered = Recovered(records: seq<Record>, validLen: nat, hadTornTail: bool)

  /** The bytes of a clean segment holding `rs`. */
  function EncodeAll(crc: Checksum, rs: seq<Record>): Bytes {
    if rs == [] then [] else Encode(crc, rs[0]) + EncodeAll(crc, rs[1..])
  }

  predicate AllFit(rs: seq<Record>) {
    forall r :: r in rs ==> Fits(r)
  }

  lemma {:induction false} EncodeAllAppend(crc: Checksum, a: seq<Record>, b: seq<Record>)
    ensures EncodeAll(crc, a + b) == EncodeAll(crc, a) + EncodeAll(crc, b)
  {
    if a == [] {
      assert a + b == b;
    } else {
      assert (a + b)[0] == a[0] && (a + b)[1..] == a[1..] + b;
      EncodeAllAppend(crc, a[1..], b);
    }
  }

  lemma EncodeAllSnoc(crc: Checksum, a: seq<Record>, r: Record)
    ensures EncodeAll(crc, a + [r]) == EncodeAll(crc, a) + Encode(crc, r)
  {
    EncodeAllAppend(crc, a, [r]);
    assert EncodeAll(crc, [r]) == Encode(crc, r) + EncodeAll(crc, []);
  }

  // ---------------------------------------------------------------------------
  // Recovery

  /** What recovery considers committed: records decoded one after another until the first failure. */
  function Parse(crc: Checksum, buf: Bytes): (rs: seq<Record>)
    decreases |buf|
  {
    match Decode(crc, buf)
    case Ok(r, len) => [r] + Parse(crc, buf[len..])
    case _ => []
  }

  function ValidLen(crc: Checksum, buf: Bytes): nat {
    |EncodeAll(crc, Parse(crc, buf))|
  }

  /** Parse and print: re-encoding what recovery keeps reproduces a prefix of the file byte for
      byte, and nothing decodes right after that prefix. */
  lemma {:induction false} ParsePrints(crc: Checksum, buf: Bytes)
    ensures AllFit(Parse(crc, buf))
    ensures ValidLen(crc, buf) <= |buf|
    ensures EncodeAll(crc, Parse(crc, buf)) == buf[..ValidLen(crc, buf)]
    ensures !Decode(crc, buf[ValidLen(crc, buf)..]).Ok?
    decreases |buf|
  {
    hide Decode, Encode;
    match Decode(crc, buf) {
      case Ok(r, len) =>
        var rest := buf[len..];
        ParsePrints(crc, rest);
        EncodeDecode(crc, buf);
        var n := ValidLen(crc, rest);
        assert Parse(crc, buf)[1..] == Parse(crc, rest);
        assert buf[..len] + rest[..n] == buf[..len + n];
        assert buf[len + n..] == rest[n..];
      case _ =>
        assert buf[0..] == buf;
    }
  }

  /** Whatever follows whole records is parsed as if it stood alone. */
  lemma {:induction false} ParseSkips(crc: Checksum, rs: seq<Record>, tail: Bytes)
    requires AllFit(rs)
    ensures Parse(crc, EncodeAll(crc, rs) + tail) == rs + Parse(crc, tail)
  {
    hide Decode, Encode, Fits;
    if rs == [] {
      assert EncodeAll(crc, rs) + tail == tail;
    } else {
      var rest := EncodeAll(crc, rs[1..]) + tail;
      assert rs[0] in rs && rs == [rs[0]] + rs[1..];
      assert EncodeAll(crc, rs) + tail == Encode(crc, rs[0]) + rest;
      ParseSkips(crc, rs[1..], tail);
      ParseOne(crc, rs[0], rest);
    }
  }

  lemma ParseOne(crc: Checksum, r: Record, rest: Bytes)
    requires Fits(r)
    ensures Parse(crc, Encode(crc, r) + rest) == [r] + Parse(crc, rest)
  {
    hide Decode, Encode;
    DecodeEncode(crc, r, rest);
    assert (Encode(crc, r) + rest)[EncodedLen(r)..] == rest;
  }

  lemma ParseClean(crc: Checksum, rs: seq<Record>)
    requires AllFit(rs)
    ensures Parse(crc, EncodeAll(crc, rs)) == rs
    ensures ValidLen(crc, EncodeAll(crc, rs)) == |EncodeAll(crc, rs)|
  {
    ParseSkips(crc, rs, []);
    assert EncodeAll(crc, rs) + [] == EncodeAll(crc, rs);
    assert Parse(crc, []) == [];
  }

  /** `n` whole records survive a cut at byte `cut`, and the next one does not. */
  predicate WholeRecordsIn(crc: Checksum, rs: seq<Record>, cut: nat, n: nat)
  {
    && n <= |rs|
    && |EncodeAll(crc, rs[..n])| <= cut
    && (n < |rs| ==> cut < |EncodeAll(crc, rs[..n + 1])|)
  }

  /** A clean segment cut at any byte recovers exactly the longest whole-record prefix. */
  lemma {:induction false} CutRecoversPrefix(crc: Checksum, rs: seq<Record>, cut: nat) returns (n: nat)
    requires AllFit(rs) && cut <= |EncodeAll(crc, rs)|
    ensures WholeRecordsIn(crc, rs, cut, n)
    ensures Parse(crc, EncodeAll(crc, rs)[..cut]) == rs[..n]
  {
    hide Decode, Encode;
    var buf := EncodeAll(crc, rs)[..cut];
    if rs == [] {
      n := 0;
    } else if cut < EncodedLen(rs[0]) {
      n := 0;
      assert buf == Encode(crc, rs[0])[..cut];
      TruncatedIsIncomplete(crc, rs[0], cut);
      assert rs[..1] == [] + [rs[0]];
      EncodeAllSnoc(crc, [], rs[0]);
    } else {
      var len := EncodedLen(rs[0]);
      n := CutRecoversPrefix(crc, rs[1..], cut - len);
      var rest := EncodeAll(crc, rs[1..])[..cut - len];
      assert buf == Encode(crc, rs[0]) + rest;
      DecodeEncode(crc, rs[0], rest);
      assert buf[len..] == rest;
      n := n + 1;
      assert rs[..n][1..] == rs[1..][..n - 1];
      assert n < |rs| ==> rs[..n + 1][1..] == rs[1..][..n];
    }
  }

  /** Truncating to the valid length and appending recovers the old records followed by the new
      ones, with no torn tail, whatever the file held. */
  lemma TruncateThenAppend(crc: Checksum, buf: Bytes, more: seq<Record>)
    requires AllFit(more)
    ensures ValidLen(crc, buf) <= |buf|
    ensures var buf' := buf[..ValidLen(crc, buf)] + EncodeAll(crc, more);
            Parse(crc, buf') == Parse(crc, buf) + more && ValidLen(crc, buf') == |buf'|
  {
    ParsePrints(crc, buf);
    var old' := Parse(crc, buf);
    EncodeAllAppend(crc, old', more);
    ParseClean(crc, old' + more);
  }

  method Recover(crc: Checksum, buf: Bytes) returns (r: Recovered)
    ensures r.records == Parse(crc, buf)
    ensures r.validLen == ValidLen(crc, buf) <= |buf|
    ensures EncodeAll(crc, r.records) == buf[..r.validLen]
    ensures r.hadTornTail <==> r.validLen < |buf|
  {
    hide Decode, Encode;
    var records := [];
    var offset := 0;
    var outcome := Decode(crc, buf[offset..]);
    assert buf[0..] == buf;
    while outcome.Ok?
      invariant offset <= |buf| && outcome == Decode(crc, buf[offset..])
      invariant Parse(crc, buf) == records + Parse(crc, buf[offset..])
      invariant EncodeAll(crc, records) == buf[..offset]
      decreases |buf| - offset
    {
      ghost var rest := buf[offset..];
      EncodeDecode(crc, rest);
      EncodeAllSnoc(crc, records, outcome.record);
      assert buf[..offset + outcome.len] == buf[..offset] + rest[..outcome.len];
      assert rest[outcome.len..] == buf[offset + outcome.len..];
      records := records + [outcome.record];
      offset := offset + outcome.len;
      outcome := Decode(crc, buf[offset..]);
    }
    assert Parse(crc, buf) == records;
    r := Recovered(records, offset, offset < |buf|);
  }

  // ---------------------------------------------------------------------------
  // Appending

  lemma EncodeNothing(crc: Checksum)
    ensures EncodeAll(crc, []) == []
  {
  }

  /** Writes every record after the current end of the file; one offset per record. */
  method AppendBatch(crc: Checksum, file: Bytes, records: seq<Record>) returns (file': Bytes, offsets: seq<nat>)
    ensures file' == file + EncodeAll(crc, records)
    ensures |offsets| == |records|
    ensures forall i :: 0 <= i < |records| ==> offsets[i] == |file| + |EncodeAll(crc, records[..i])|
  {
    hide EncodeAll, Encode;
    file', offsets := file, [];
    EncodeNothing(crc);
    for i := 0 to |records|
      invariant file' == file + EncodeAll(crc, records[..i])
      invariant |offsets| == i
      invariant forall j :: 0 <= j < i ==> offsets[j] == |file| + |EncodeAll(crc, records[..j])|
    {
      offsets := offsets + [|file'|];
      file' := file' + Encode(crc, records[i]);
      EncodeAllSnoc(crc, records[..i], records[i]);
      assert records[..i + 1] == records[..i] + [records[i]];
    }
    assert records[..|records|] == records;
  }
}
