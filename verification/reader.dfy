/** The parser: `test` checks the signature and reads the version, and
    `list_files` follows the manifest offset and decodes the records. */
module Reader {
  import opened Outcomes
  import opened Bytes
  import opened Far
  import opened Manifest

  /** `file` holds, at the manifest offset stored in bytes 12..16, a count
      followed by records for `es` whose second fields hold `dups`. */
  predicate HoldsManifest(file: seq<u8>, es: seq<FarFileInfo>, dups: seq<u32>)
  {
    && |file| >= HeaderSize
    && LeValue(file[12..16]) <= |file|
    && |es| < U32Limit
    && |dups| == |es|
    && LeBytes(|es|) + RecordsBytes(es, dups) <= file[LeValue(file[12..16])..]
  }

  /** The part of `list_files` after the seek: a `u32` count, then that many
      records. Whatever follows them is ignored. */
  function ReadManifest(input: seq<u8>): (r: Outcome<seq<FarFileInfo>>)
    ensures !r.Err?
    ensures r.Ok? ==> |r.value| < U32Limit
  {
    var count :- ReadU32(input);
    var records :- ReadRecords(count.1, count.0);
    Ok(records.0)
  }

  lemma ReadManifestSound(input: seq<u8>) returns (dups: seq<u32>)
    requires ReadManifest(input).Ok?
    ensures |dups| == |ReadManifest(input).value|
    ensures LeBytes(|ReadManifest(input).value|) + RecordsBytes(ReadManifest(input).value, dups) <= input
  {
    var count := ReadU32(input).value;
    var records := ReadRecords(count.1, count.0).value;
    dups := ReadRecordsSound(count.1, count.0);
    assert input == LeBytes(count.0) + (RecordsBytes(records.0, dups) + records.1);
  }

  lemma ReadManifestComplete(es: seq<FarFileInfo>, dups: seq<u32>, tail: seq<u8>)
    requires |es| < U32Limit && |dups| == |es| && NamesFit(es)
    ensures ReadManifest(LeBytes(|es|) + RecordsBytes(es, dups) + tail) == Ok(es)
  {
    var input := LeBytes(|es|) + RecordsBytes(es, dups) + tail;
    assert input == LeBytes(|es|) + (RecordsBytes(es, dups) + tail);
    LeValueOfLeBytes(|es|);
    ReadRecordsOfRecordsBytes(es, dups, tail);
  }

  /** `list_files`. Every failure is a panic: fewer than 16 bytes, a manifest
      offset past the end, a short count, a truncated record, a name that is
      not UTF-8. */
  function ListFiles(file: seq<u8>): (r: Outcome<seq<FarFileInfo>>)
    ensures !r.Err?
    ensures r.Ok? ==> |file| >= HeaderSize && LeValue(file[12..16]) <= |file|
    ensures r.Ok? ==> |r.value| < U32Limit
  {
    if |file| < 12 then Panic
    else
      var offset :- ReadU32(file[12..]);
      if offset.0 > |file| then Panic
      else
        assert file[12..16] == file[12..][..4];
        ReadManifest(file[offset.0..])
  }

  /** What `list_files` accepts is a manifest for the entries it returns. */
  lemma ListFilesSound(file: seq<u8>) returns (dups: seq<u32>)
    requires ListFiles(file).Ok?
    ensures HoldsManifest(file, ListFiles(file).value, dups)
  {
    var offset := ReadU32(file[12..]).value;
    assert file[12..16] == LeBytes(offset.0) by {
      assert file[12..16] == file[12..][..4];
    }
    LeValueOfLeBytes(offset.0);
    dups := ReadManifestSound(file[offset.0..]);
  }

  /** And every manifest whose names fit their length field is accepted. */
  lemma ListFilesComplete(file: seq<u8>, es: seq<FarFileInfo>, dups: seq<u32>)
    requires HoldsManifest(file, es, dups) && NamesFit(es)
    ensures ListFiles(file) == Ok(es)
  {
    var offset := LeValue(file[12..16]);
    assert file[12..][..4] == file[12..16];
    var manifest := LeBytes(|es|) + RecordsBytes(es, dups);
    var tail := file[offset + |manifest|..];
    assert file[offset..] == manifest + tail;
    ReadManifestComplete(es, dups, tail);
  }

  /** `test`. Fewer than eight bytes panic; eight bytes other than the
      signature are the one `Err`; otherwise the version is read and the
      manifest listed, and the archive comes back with no file data. */
  function Test(file: seq<u8>): (r: Outcome<FarArchive>)
    ensures r.Err? <==> |file| >= 8 && file[..8] != Magic
    ensures |file| < 8 ==> r.Panic?
    ensures r.Ok? <==> |file| >= 8 && file[..8] == Magic && ListFiles(file).Ok?
    ensures r.Ok? ==>
      && r.value.version == LeValue(file[8..12])
      && r.value.fileList == ListFiles(file).value
      && r.value.fileCount == |r.value.fileList|
      && r.value.fileData == []
  {
    var magic :- ReadExact(file, 8);
    if magic.0 != Magic then Err
    else
      var version :- ReadU32(magic.1);
      var files :- ListFiles(file);
      assert file[8..12] == magic.1[..4];
      Ok(FarArchive(version.0, Wrap(|files|), files, []))
  }
}
