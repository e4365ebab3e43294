/** The codec's round trip: building an archive from files, serialising it,
    parsing the bytes and hydrating from the same bytes gives the files back. */
module RoundTrip {
  import opened Outcomes
  import opened Bytes
  import opened Far
  import opened Manifest
  import opened Writer
  import opened Reader

  /** Files the format can carry: every file's bytes have its declared size,
      names fit the name-length field, the count fits a `u32` and the
      manifest offset `16 + total size` does not wrap. */
  predicate Storable(files: seq<FarFile>)
  {
    && |files| < U32Limit
    && HeaderSize + SizeSum(files) < U32Limit
    && forall i :: 0 <= i < |files| ==> |files[i].data| == files[i].size && |files[i].name| < U32Limit
  }

  /** Without wrap-around, file `i` is placed at 16 plus the sizes before it. */
  lemma {:induction false} PlacementOffset(files: seq<FarFile>, i: nat)
    requires HeaderSize + SizeSum(files) < U32Limit && i < |files|
    ensures Placement(files, HeaderSize)[i].offset == HeaderSize + SizeSum(files[..i])
  {
    SizeSumPrefix(files, i);
  }

  /** The header a built archive is written with: signature, version 1,
      manifest offset 16 plus the total size. */
  function ImageHeader(files: seq<FarFile>): (h: seq<u8>)
    requires Storable(files)
    ensures |h| == HeaderSize
  {
    Magic + LeBytes(1) + LeBytes(HeaderSize + SizeSum(files))
  }

  /** The manifest a built archive is written with: the count, then the
      records at true absolute offsets. */
  function ImageManifest(files: seq<FarFile>): seq<u8>
    requires Storable(files)
  {
    LeBytes(|files|) + EncodeRecords(Placement(files, HeaderSize))
  }

  /** The serialised form of a built archive. */
  function Image(files: seq<FarFile>): seq<u8>
    requires Storable(files)
  {
    ImageHeader(files) + (DataRegion(files) + ImageManifest(files))
  }

  /** `to_vec` of a freshly built archive produces `Image`. */
  lemma {:induction false} SerialiseBuilt(files: seq<FarFile>)
    requires Storable(files)
    ensures ToVec(NewFromFiles(files)) == Ok(Image(files))
  {
    var a := NewFromFiles(files);
    assert Placement(files, HeaderSize)[..|a.fileList|] == Placement(files, HeaderSize);
    assert ManifestOf(a) == ImageManifest(files);
  }

  /** Where `Image` keeps its fields. */
  lemma {:induction false} ImageFields(files: seq<FarFile>)
    requires Storable(files)
    ensures var buf, total := Image(files), HeaderSize + SizeSum(files);
      && |buf| >= total
      && buf[..8] == Magic
      && buf[8..12] == LeBytes(1)
      && buf[12..16] == LeBytes(total)
      && buf[total..] == ImageManifest(files)
  {
    var h := ImageHeader(files);
    var buf := Image(files);
    assert h[..8] == Magic && h[8..12] == LeBytes(1) && h[12..16] == LeBytes(HeaderSize + SizeSum(files));
    assert buf[..16] == h;
    DataRegionLength(files);
    assert buf == (h + DataRegion(files)) + ImageManifest(files);
  }

  /** Parsing the serialised bytes of a built archive gives version 1, the
      files' names and sizes in order with their true absolute offsets, and
      no data. */
  lemma {:induction false} ParseImage(files: seq<FarFile>)
    requires Storable(files)
    ensures Test(Image(files)) == Ok(FarArchive(1, |files|, Placement(files, HeaderSize), []))
  {
    var buf := Image(files);
    var es := Placement(files, HeaderSize);
    var total := HeaderSize + SizeSum(files);
    ImageFields(files);
    LeValueOfLeBytes(total);
    LeValueOfLeBytes(1);
    assert LeBytes(|es|) + RecordsBytes(es, Sizes(es)) <= buf[total..];
    assert HoldsManifest(buf, es, Sizes(es));
    ListFilesComplete(buf, es, Sizes(es));
  }

  lemma {:induction false} DataPrefixLength(files: seq<FarFile>, i: nat)
    requires i <= |files|
    requires forall k :: 0 <= k < |files| ==> |files[k].data| == files[k].size
    ensures |DataRegion(files[..i])| == SizeSum(files[..i])
  {
    assert forall k :: 0 <= k < i ==> files[..i][k] == files[k];
    DataRegionLength(files[..i]);
  }

  /** In `header ‖ data region ‖ rest`, file `i`'s bytes start 16 plus the
      sizes before it into the buffer. */
  lemma {:induction false} DataAt(files: seq<FarFile>, i: nat, header: seq<u8>, rest: seq<u8>)
    requires i < |files| && |header| == HeaderSize
    requires forall k :: 0 <= k < |files| ==> |files[k].data| == files[k].size
    ensures var buf, start := header + (DataRegion(files) + rest), HeaderSize + SizeSum(files[..i]);
      && start + files[i].size <= |buf|
      && buf[start..start + files[i].size] == files[i].data
  {
    var before := DataRegion(files[..i]);
    var after := DataRegion(files[i + 1..]) + rest;
    assert header + (DataRegion(files) + rest) == (header + before) + files[i].data + after by {
      DataRegionAt(files, i);
    }
    DataPrefixLength(files, i);
    assert ((header + before) + files[i].data + after)[|header + before|..|header + before| + |files[i].data|] == files[i].data;
  }

  /** In `header ‖ data region ‖ rest`, every entry of the layout selects an
      in-range slice holding exactly its file's bytes. */
  lemma {:induction false} SlicesOfImage(files: seq<FarFile>, header: seq<u8>, rest: seq<u8>)
    requires Storable(files) && |header| == HeaderSize
    ensures var image, es := header + (DataRegion(files) + rest), Placement(files, HeaderSize);
      forall i :: 0 <= i < |files| ==>
        && InBuffer(es[i], image)
        && image[es[i].offset..es[i].offset + es[i].size] == files[i].data
  {
    var image, es := header + (DataRegion(files) + rest), Placement(files, HeaderSize);
    forall i | 0 <= i < |files|
      ensures InBuffer(es[i], image) && image[es[i].offset..es[i].offset + es[i].size] == files[i].data
    {
      DataAt(files, i, header, rest);
      PlacementOffset(files, i);
      assert HeaderSize + SizeSum(files[..i + 1]) <= HeaderSize + SizeSum(files) <= |image| by {
        SizeSumPrefix(files, i + 1);
        DataRegionLength(files);
      }
      SizeSumSnoc(files, i);
    }
  }

  /** Hydration yields `files` when every entry selects an in-range slice
      holding the bytes of the file with the same name and size. */
  lemma {:induction false} LoadGives(a: FarArchive, buf: seq<u8>, files: seq<FarFile>)
    requires |a.fileList| == |files|
    requires forall i :: 0 <= i < |files| ==>
      && InBuffer(a.fileList[i], buf)
      && a.fileList[i].name == files[i].name
      && a.fileList[i].size == files[i].size
      && buf[a.fileList[i].offset..a.fileList[i].offset + a.fileList[i].size] == files[i].data
    ensures LoadFileData(a, buf) == Ok(a.(fileData := files))
  {
    var d := LoadFileData(a, buf).value.fileData;
    assert forall i :: 0 <= i < |files| ==> d[i] == files[i];
    assert d == files;
  }

  /** Hydrating the parsed archive from the same bytes restores every file. */
  lemma {:induction false} HydrateImage(files: seq<FarFile>)
    requires Storable(files)
    ensures LoadFileData(FarArchive(1, |files|, Placement(files, HeaderSize), []), Image(files))
              == Ok(FarArchive(1, |files|, Placement(files, HeaderSize), files))
  {
    SlicesOfImage(files, ImageHeader(files), ImageManifest(files));
    LoadGives(FarArchive(1, |files|, Placement(files, HeaderSize), []), Image(files), files);
  }

  /** The round trip: `load_file_data(test(to_vec(new_from_files(fs))))` on
      the same bytes succeeds, with version 1, the count, every name and size
      in order, offsets 16 plus the sizes before each file, and the files'
      own bytes. */
  lemma {:induction false} FullRoundTrip(files: seq<FarFile>)
    requires Storable(files)
    ensures ToVec(NewFromFiles(files)).Ok?
    ensures var buf := ToVec(NewFromFiles(files)).value;
      && Test(buf).Ok?
      && Test(buf).value.version == 1
      && Test(buf).value.fileCount == |files|
      && |Test(buf).value.fileList| == |files|
      && (forall i :: 0 <= i < |files| ==>
            && Test(buf).value.fileList[i].name == files[i].name
            && Test(buf).value.fileList[i].size == files[i].size
            && Test(buf).value.fileList[i].offset == HeaderSize + SizeSum(files[..i]))
      && LoadFileData(Test(buf).value, buf).Ok?
      && LoadFileData(Test(buf).value, buf).value.fileData == files
  {
    SerialiseBuilt(files);
    ParseImage(files);
    HydrateImage(files);
    forall i | 0 <= i < |files|
      ensures Placement(files, HeaderSize)[i].offset == HeaderSize + SizeSum(files[..i])
    {
      PlacementOffset(files, i);
    }
  }

  /** The builder's offsets are not where `to_vec` puts the data: entry `i`
      of `new_from_files` holds the running total including file `i`, so it
      is the END of the file's bytes measured from the start of the data
      region, while the serialised entry holds the START measured from the
      start of the buffer. */
  lemma {:induction false} BuilderOffsetIsEnd(files: seq<FarFile>, i: nat)
    requires Storable(files) && i < |files|
    ensures NewFromFiles(files).fileList[i].offset + HeaderSize
              == Placement(files, HeaderSize)[i].offset + files[i].size
  {
    PlacementOffset(files, i);
    SizeSumSnoc(files, i);
    SizeSumPrefix(files, i + 1);
  }

  /** An archive of no files serialises to 20 bytes: the header with
      manifest offset 16, then a zero count. */
  lemma {:induction false} EmptyArchive()
    ensures ToVec(NewFromFiles([])) == Ok(Magic + LeBytes(1) + LeBytes(16) + LeBytes(0))
    ensures |ToVec(NewFromFiles([])).value| == 20
  {
    var none: seq<FarFile> := [];
    assert Storable(none);
    SerialiseBuilt(none);
    assert SizeSum(none) == 0;
    assert Placement(none, HeaderSize) == [];
    assert EncodeRecords(Placement(none, HeaderSize)) == [];
    assert DataRegion(none) == [];
    assert ImageHeader(none) == Magic + LeBytes(1) + LeBytes(16);
    assert ImageManifest(none) == LeBytes(0);
    assert Image(none) == Magic + LeBytes(1) + LeBytes(16) + LeBytes(0);
  }

  /** Serialising the hydrated result again reproduces the same bytes: the
      entries' offsets differ from the builder's, but `to_vec` never reads them. */
  lemma {:induction false} Reserialise(files: seq<FarFile>)
    requires Storable(files)
    ensures ToVec(NewFromFiles(files)).Ok?
    ensures var buf := ToVec(NewFromFiles(files)).value;
      && Test(buf).Ok?
      && LoadFileData(Test(buf).value, buf).Ok?
      && ToVec(LoadFileData(Test(buf).value, buf).value) == Ok(buf)
  {
    SerialiseBuilt(files);
    ParseImage(files);
    HydrateImage(files);
    var a := NewFromFiles(files);
    ToVecIgnoresFileList(FarArchive(1, |files|, Placement(files, HeaderSize), files), a);
  }

  /** Files of sizes 10, 20 and 5 are found at offsets 16, 26 and 46, and the
      manifest starts at 51. */
  lemma {:induction false} ThreeFileOffsets(files: seq<FarFile>)
    requires Storable(files) && |files| == 3
    requires files[0].size == 10 && files[1].size == 20 && files[2].size == 5
    ensures ToVec(NewFromFiles(files)).Ok?
    ensures var buf := ToVec(NewFromFiles(files)).value;
      && buf[12..16] == LeBytes(51)
      && Test(buf).Ok?
      && |Test(buf).value.fileList| == 3
      && Test(buf).value.fileList[0].offset == 16
      && Test(buf).value.fileList[1].offset == 26
      && Test(buf).value.fileList[2].offset == 46
  {
    ThreeSums(files);
    SerialiseBuilt(files);
    ParseImage(files);
    PlacementOffset(files, 0);
    PlacementOffset(files, 1);
    PlacementOffset(files, 2);
    ImageFields(files);
  }

  lemma {:induction false} ThreeSums(files: seq<FarFile>)
    requires |files| == 3
    requires files[0].size == 10 && files[1].size == 20 && files[2].size == 5
    ensures SizeSum(files[..0]) == 0 && SizeSum(files[..1]) == 10
    ensures SizeSum(files[..2]) == 30 && SizeSum(files) == 35
  {
    assert files[..0] == [];
    SizeSumSnoc(files, 0);
    SizeSumSnoc(files, 1);
    SizeSumSnoc(files, 2);
    assert files[..3] == files;
  }
}
