/** The manifest's per-file records: how `to_vec` writes them and how
    `list_files` reads them back. */
module Manifest {
  import opened Outcomes
  import opened Bytes
  import opened Utf8
  import opened Far

  /** One record: size, a second size field holding `dup`, offset, name byte
      length (each a little-endian `u32`), then the name's bytes. */
  function RecordBytes(e: FarFileInfo, dup: u32): (r: seq<u8>)
    ensures |r| == 16 + |e.name|
    ensures r[16..] == e.name
    ensures |e.name| < U32Limit ==> LeValue(r[12..16]) == |e.name|
  {
    var r := LeBytes(e.size) + LeBytes(dup) + LeBytes(e.offset) + LeBytes(Wrap(|e.name|)) + e.name;
    assert r[12..16] == LeBytes(Wrap(|e.name|));
    LeValueOfLeBytes(Wrap(|e.name|));
    r
  }

  /** Records for `es` in order, the i-th carrying `dups[i]` in its second field. */
  function RecordsBytes(es: seq<FarFileInfo>, dups: seq<u32>): seq<u8>
    requires |dups| == |es|
  {
    if es == [] then [] else RecordBytes(es[0], dups[0]) + RecordsBytes(es[1..], dups[1..])
  }

  function Sizes(es: seq<FarFileInfo>): (r: seq<u32>)
    ensures |r| == |es|
    ensures forall i :: 0 <= i < |es| ==> r[i] == es[i].size
  {
    seq(|es|, i requires 0 <= i < |es| => es[i].size)
  }

  /** The records the writer emits: the second field repeats the size. */
  function EncodeRecords(es: seq<FarFileInfo>): (r: seq<u8>)
    ensures r == [] <==> es == []
    ensures es != [] ==> |r| >= 16 && LeValue(r[..4]) == LeValue(r[4..8]) == es[0].size
  {
    var r := RecordsBytes(es, Sizes(es));
    if es == [] then r
    else
      var first := RecordBytes(es[0], es[0].size);
      assert first <= r;
      assert r[..4] == LeBytes(es[0].size) && r[4..8] == LeBytes(es[0].size);
      LeValueOfLeBytes(es[0].size);
      r
  }

  /** Whether every name fits the `u32` name-length field. */
  predicate NamesFit(es: seq<FarFileInfo>)
  {
    forall i :: 0 <= i < |es| ==> |es[i].name| < U32Limit
  }

  /** One iteration of the loop in `list_files`: four `u32` fields, the
      second one dropped, then `name_len` bytes that must be UTF-8. Returns
      the entry and the reader's remaining input. */
  function ReadRecord(input: seq<u8>): (r: Outcome<(FarFileInfo, seq<u8>)>)
    ensures !r.Err?
    ensures r.Ok? ==> |r.value.0.name| < U32Limit && |r.value.1| < |input|
  {
    var size :- ReadU32(input);
    var dup :- ReadU32(size.1);
    var offset :- ReadU32(dup.1);
    var nameLen :- ReadU32(offset.1);
    var name :- ReadExact(nameLen.1, nameLen.0);
    if ValidUtf8(name.0) then Ok((FarFileInfo(name.0, size.0, offset.0), name.1)) else Panic
  }

  /** What `ReadRecord` accepts is a record followed by the rest of the input;
      `dup` is the value of the dropped second field. */
  lemma ReadRecordSound(input: seq<u8>) returns (dup: u32)
    requires ReadRecord(input).Ok?
    ensures input == RecordBytes(ReadRecord(input).value.0, dup) + ReadRecord(input).value.1
  {
    var size := ReadU32(input).value;
    var second := ReadU32(size.1).value;
    var offset := ReadU32(second.1).value;
    var nameLen := ReadU32(offset.1).value;
    var name := ReadExact(nameLen.1, nameLen.0).value;
    dup := second.0;
    assert input == LeBytes(size.0) + (LeBytes(dup) + (LeBytes(offset.0) + (LeBytes(nameLen.0) + (name.0 + name.1))));
  }

  /** The whole loop of `list_files`: `n` records in order, then the reader's
      remaining input. */
  function ReadRecords(input: seq<u8>, n: nat): (r: Outcome<(seq<FarFileInfo>, seq<u8>)>)
    ensures !r.Err?
    ensures r.Ok? ==> |r.value.0| == n
    decreases n
  {
    if n == 0 then Ok(([], input))
    else
      var first :- ReadRecord(input);
      var rest :- ReadRecords(first.1, n - 1);
      Ok(([first.0] + rest.0, rest.1))
  }

  /** Decoding a record written with any duplicate field gives back the entry
      and leaves the reader just past it. */
  lemma ReadRecordOfRecordBytes(e: FarFileInfo, dup: u32, tail: seq<u8>)
    requires |e.name| < U32Limit
    ensures ReadRecord(RecordBytes(e, dup) + tail) == Ok((e, tail))
  {
    var afterName := e.name + tail;
    var afterOffset := LeBytes(|e.name|) + afterName;
    var afterDup := LeBytes(e.offset) + afterOffset;
    var afterSize := LeBytes(dup) + afterDup;
    var input := LeBytes(e.size) + afterSize;
    assert RecordBytes(e, dup) + tail == input;
    ReadU32OfLeBytes(e.size, afterSize);
    ReadU32OfLeBytes(dup, afterDup);
    ReadU32OfLeBytes(e.offset, afterOffset);
    ReadU32OfLeBytes(|e.name|, afterName);
    assert ReadExact(afterName, |e.name|) == Ok((e.name, tail));
  }

  lemma RecordsBytesCons(e: FarFileInfo, dup: u32, es: seq<FarFileInfo>, dups: seq<u32>)
    requires |dups| == |es|
    ensures RecordsBytes([e] + es, [dup] + dups) == RecordBytes(e, dup) + RecordsBytes(es, dups)
  {
    assert ([e] + es)[1..] == es && ([dup] + dups)[1..] == dups;
  }

  lemma PrependRecord(input: seq<u8>, e: FarFileInfo, dup: u32, rest: seq<u8>,
                      es: seq<FarFileInfo>, dups: seq<u32>, tail: seq<u8>)
    requires |dups| == |es|
    requires input == RecordBytes(e, dup) + rest
    requires rest == RecordsBytes(es, dups) + tail
    ensures input == RecordsBytes([e] + es, [dup] + dups) + tail
  {
    var r, rs := RecordBytes(e, dup), RecordsBytes(es, dups);
    RecordsBytesCons(e, dup, es, dups);
    SeqAssoc(r, rs, tail);
  }

  lemma SeqAssoc(a: seq<u8>, b: seq<u8>, c: seq<u8>)
    ensures (a + b) + c == a + (b + c)
  {
  }

  /** One turn of the loop in `list_files`, then the remaining turns. */
  lemma ReadRecordsCons(input: seq<u8>, n: nat, e: FarFileInfo, rest: seq<u8>, es: seq<FarFileInfo>, tail: seq<u8>)
    requires n > 0
    requires ReadRecord(input) == Ok((e, rest))
    requires ReadRecords(rest, n - 1) == Ok((es, tail))
    ensures ReadRecords(input, n) == Ok(([e] + es, tail))
  {
  }

  lemma {:induction false} ReadRecordsOfRecordsBytes(es: seq<FarFileInfo>, dups: seq<u32>, tail: seq<u8>)
    requires |dups| == |es| && NamesFit(es)
    ensures ReadRecords(RecordsBytes(es, dups) + tail, |es|) == Ok((es, tail))
    decreases |es|
  {
    if es == [] {
      assert RecordsBytes(es, dups) + tail == tail;
    } else {
      var r, rs := RecordBytes(es[0], dups[0]), RecordsBytes(es[1..], dups[1..]);
      var rest := rs + tail;
      assert es == [es[0]] + es[1..] && dups == [dups[0]] + dups[1..];
      RecordsBytesCons(es[0], dups[0], es[1..], dups[1..]);
      assert (r + rs) + tail == r + (rs + tail);
      ReadRecordOfRecordBytes(es[0], dups[0], rest);
      ReadRecordsOfRecordsBytes(es[1..], dups[1..], tail);
      ReadRecordsCons(RecordBytes(es[0], dups[0]) + rest, |es|, es[0], rest, es[1..], tail);
    }
  }

  /** Conversely, whatever the loop decodes is an encoding of the entries it
      returns, with some values in the ignored second fields. */
  lemma {:induction false} ReadRecordsSound(input: seq<u8>, n: nat) returns (dups: seq<u32>)
    requires ReadRecords(input, n).Ok?
    ensures |dups| == n
    ensures input == RecordsBytes(ReadRecords(input, n).value.0, dups) + ReadRecords(input, n).value.1
    decreases n
  {
    if n == 0 {
      dups := [];
    } else {
      var first := ReadRecord(input).value;
      var dup := ReadRecordSound(input);
      var more := ReadRecords(first.1, n - 1).value;
      var moreDups := ReadRecordsSound(first.1, n - 1);
      dups := [dup] + moreDups;
      ReadRecordsCons(input, n, first.0, first.1, more.0, more.1);
      PrependRecord(input, first.0, dup, first.1, more.0, moreDups, more.1);
    }
  }

  /** The encoder's partner: when every name fits its length field, reading
      back as many records as `EncodeRecords` wrote gives exactly the entries
      and consumes every byte. */
  lemma {:induction false} EncodeRecordsReadBack(es: seq<FarFileInfo>)
    requires NamesFit(es)
    ensures ReadRecords(EncodeRecords(es), |es|) == Ok((es, []))
  {
    ReadRecordsOfRecordsBytes(es, Sizes(es), []);
    assert EncodeRecords(es) + [] == EncodeRecords(es);
  }
}
