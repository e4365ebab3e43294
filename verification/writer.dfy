/** The serialiser `FarArchive::to_vec`: header, data region, manifest. */
module Writer {
  import opened Outcomes
  import opened Bytes
  import opened Far
  import opened Manifest

  /** Entries for `files` laid out back to back from `start`: each offset is
      `start` plus the declared sizes of the files before it, in `u32`. */
  function Placement(files: seq<FarFile>, start: u32): (es: seq<FarFileInfo>)
    ensures |es| == |files|
  {
    seq(|files|, i requires 0 <= i < |files| =>
      FarFileInfo(files[i].name, files[i].size, Wrap(start + SizeSum(files[..i]))))
  }

  /** The first loop of `to_vec`, entered with `bytes_written == start`:
      rebuilds the entry list from the files (the offsets already held in
      `file_list` are not consulted) and returns the final `bytes_written`. */
  function Place(files: seq<FarFile>, start: u32): (r: (seq<FarFileInfo>, u32))
    ensures r.0 == Placement(files, start)
    ensures r.1 == Wrap(start + SizeSum(files))
    decreases |files|
  {
    if files == [] then ([], start)
    else
      var next := Wrap(start + files[0].size);
      var rest := Place(files[1..], next);
      PlaceStep(files, start, rest.0);
      WrapAdd(start + files[0].size, SizeSum(files[1..]));
      ([FarFileInfo(files[0].name, files[0].size, start)] + rest.0, rest.1)
  }

  lemma PlaceStep(files: seq<FarFile>, start: u32, rest: seq<FarFileInfo>)
    requires |files| > 0
    requires rest == Placement(files[1..], Wrap(start + files[0].size))
    ensures [FarFileInfo(files[0].name, files[0].size, start)] + rest == Placement(files, start)
  {
    var r := [FarFileInfo(files[0].name, files[0].size, start)] + rest;
    var p := Placement(files, start);
    forall i | 0 <= i < |files|
      ensures r[i] == p[i]
    {
      if i > 0 {
        ShiftedOffset(files, start, i);
      }
    }
  }

  /** Total number of bytes the files actually hold. */
  function DataLength(files: seq<FarFile>): nat
  {
    if files == [] then 0 else |files[0].data| + DataLength(files[1..])
  }

  /** The data region: the files' bytes concatenated in order. The declared
      sizes play no part here: its length is what the files actually hold. */
  function DataRegion(files: seq<FarFile>): (r: seq<u8>)
    ensures |r| == DataLength(files)
  {
    if files == [] then [] else files[0].data + DataRegion(files[1..])
  }

  lemma {:induction false} DataRegionConcat(a: seq<FarFile>, b: seq<FarFile>)
    ensures DataRegion(a + b) == DataRegion(a) + DataRegion(b)
    decreases |a|
  {
    if a != [] {
      assert (a + b)[1..] == a[1..] + b;
      DataRegionConcat(a[1..], b);
    } else {
      assert a + b == b;
    }
  }

  /** When every file's bytes have its declared length, the data region is as
      long as the sizes add up to. */
  lemma {:induction false} DataRegionLength(files: seq<FarFile>)
    requires forall i :: 0 <= i < |files| ==> |files[i].data| == files[i].size
    ensures |DataRegion(files)| == SizeSum(files)
    decreases |files|
  {
    if files != [] {
      DataRegionLength(files[1..]);
    }
  }

  /** File `i`'s bytes sit in the data region right after those of the files
      before it. */
  lemma DataRegionAt(files: seq<FarFile>, i: nat)
    requires i < |files|
    ensures DataRegion(files) == DataRegion(files[..i]) + files[i].data + DataRegion(files[i + 1..])
  {
    assert files == files[..i] + files[i..];
    DataRegionConcat(files[..i], files[i..]);
    assert files[i..][1..] == files[i + 1..];
  }

  /** `FarArchive::to_vec`. The count written is `file_count` as stored; one
      record is written per entry of `file_list`, but each is taken from the
      list rebuilt from `file_data`, which panics when `file_data` is the
      shorter. The manifest offset and record offsets come from the declared
      sizes, not from the lengths of the bytes. */
  function ToVec(a: FarArchive): (r: Outcome<seq<u8>>)
    ensures !r.Err?
    ensures r.Panic? <==> |a.fileList| > |a.fileData|
    ensures r.Ok? ==>
      r.value == Magic + LeBytes(a.version) + LeBytes(Wrap(HeaderSize + SizeSum(a.fileData)))
                 + (DataRegion(a.fileData) + ManifestOf(a))
  {
    var placed := Place(a.fileData, HeaderSize);
    if |a.fileList| > |placed.0| then Panic
    else
      var header := Magic + LeBytes(a.version) + LeBytes(placed.1);
      var manifest := LeBytes(a.fileCount) + EncodeRecords(placed.0[..|a.fileList|]);
      Ok(header + (DataRegion(a.fileData) + manifest))
  }

  /** The manifest `to_vec` writes for `a`: the stored count, then one record
      per entry of `file_list`, each describing the file at the same index of
      `file_data` at its true absolute offset. */
  function ManifestOf(a: FarArchive): seq<u8>
    requires |a.fileList| <= |a.fileData|
  {
    LeBytes(a.fileCount) + EncodeRecords(Placement(a.fileData, HeaderSize)[..|a.fileList|])
  }

  /** The layout of `to_vec`'s output, field by field: signature, version,
      manifest offset `16 + declared sizes`, data region, manifest. */
  lemma ToVecLayout(a: FarArchive)
    requires |a.fileList| <= |a.fileData|
    ensures ToVec(a).Ok?
    ensures var out := ToVec(a).value;
      && |out| >= HeaderSize
      && out[..8] == Magic
      && out[8..12] == LeBytes(a.version)
      && out[12..16] == LeBytes(Wrap(HeaderSize + SizeSum(a.fileData)))
      && out[16..16 + |DataRegion(a.fileData)|] == DataRegion(a.fileData)
      && out[16 + |DataRegion(a.fileData)|..] == ManifestOf(a)
  {
    var header := Magic + LeBytes(a.version) + LeBytes(Wrap(HeaderSize + SizeSum(a.fileData)));
    assert |header| == HeaderSize;
    var out := ToVec(a).value;
    assert out == header + (DataRegion(a.fileData) + ManifestOf(a));
  }

  /** Only the length of `file_list` reaches the output: its names, sizes and
      offsets are never read. */
  lemma ToVecIgnoresFileList(a: FarArchive, b: FarArchive)
    requires a.version == b.version && a.fileCount == b.fileCount && a.fileData == b.fileData
    requires |a.fileList| == |b.fileList|
    ensures ToVec(a) == ToVec(b)
  {
  }
}
