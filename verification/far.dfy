/** The archive's in-memory values, the builder `FarArchive::new_from_files`
    and hydration (`FarArchive::load_file_data` via `FarFile::new_from_archive`). */
module Far {
  import opened Outcomes
  import opened Bytes
  import opened Utf8

  /** A manifest entry: name, declared size and offset, without the bytes. */
  datatype FarFileInfo = FarFileInfo(name: Str, size: u32, offset: u32)

  /** A file with its bytes. Nothing ties `|data|` to `size`. */
  datatype FarFile = FarFile(name: Str, size: u32, data: seq<u8>)

  datatype FarArchive = FarArchive(
    version: u32,
    fileCount: u32,
    fileList: seq<FarFileInfo>,
    fileData: seq<FarFile>)

  /** The eight ASCII bytes `FAR!byAZ` every archive starts with. */
  const Magic: seq<u8> := [0x46, 0x41, 0x52, 0x21, 0x62, 0x79, 0x41, 0x5A]

  /** Magic, version and manifest offset: where the data region begins. */
  const HeaderSize: nat := 16

  /** Sum of the declared sizes of `files`, unbounded. */
  function SizeSum(files: seq<FarFile>): nat
  {
    if files == [] then 0 else files[0].size + SizeSum(files[1..])
  }

  lemma {:induction false} SizeSumConcat(a: seq<FarFile>, b: seq<FarFile>)
    ensures SizeSum(a + b) == SizeSum(a) + SizeSum(b)
    decreases |a|
  {
    if a != [] {
      assert (a + b)[1..] == a[1..] + b;
      SizeSumConcat(a[1..], b);
    } else {
      assert a + b == b;
    }
  }

  lemma SizeSumSnoc(files: seq<FarFile>, i: nat)
    requires i < |files|
    ensures SizeSum(files[..i + 1]) == SizeSum(files[..i]) + files[i].size
  {
    assert files[..i + 1] == files[..i] + [files[i]];
    SizeSumConcat(files[..i], [files[i]]);
  }

  lemma SizeSumPrefix(files: seq<FarFile>, i: nat)
    requires i <= |files|
    ensures SizeSum(files[..i]) <= SizeSum(files)
  {
    assert files == files[..i] + files[i..];
    SizeSumConcat(files[..i], files[i..]);
  }

  /** `FarFile::new_from_file`: a file from caller-supplied bytes. */
  function NewFromFile(name: Str, size: u32, data: seq<u8>): FarFile
  {
    FarFile(name, size, data)
  }

  // ---------------------------------------------------------------- builder

  /** `entries` is what the builder's loop produces from `files` when entered
      with running offset `offset`: each entry records the cumulative size up
      to AND including its own file. */
  predicate Catalogued(files: seq<FarFile>, offset: u32, entries: seq<FarFileInfo>)
  {
    && |entries| == |files|
    && forall i :: 0 <= i < |files| ==>
         entries[i] == FarFileInfo(files[i].name, files[i].size, Wrap(offset + SizeSum(files[..i + 1])))
  }

  /** The builder's loop: the running offset is advanced by the file's size
      before the entry is pushed. */
  function Catalogue(files: seq<FarFile>, offset: u32): (r: seq<FarFileInfo>)
    ensures Catalogued(files, offset, r)
    decreases |files|
  {
    if files == [] then []
    else
      var next := Wrap(offset + files[0].size);
      var rest := Catalogue(files[1..], next);
      CatalogueStep(files, offset, rest);
      [FarFileInfo(files[0].name, files[0].size, next)] + rest
  }

  lemma CatalogueStep(files: seq<FarFile>, offset: u32, rest: seq<FarFileInfo>)
    requires |files| > 0
    requires Catalogued(files[1..], Wrap(offset + files[0].size), rest)
    ensures Catalogued(files, offset, [FarFileInfo(files[0].name, files[0].size, Wrap(offset + files[0].size))] + rest)
  {
    var r := [FarFileInfo(files[0].name, files[0].size, Wrap(offset + files[0].size))] + rest;
    forall i | 0 <= i < |files|
      ensures r[i] == FarFileInfo(files[i].name, files[i].size, Wrap(offset + SizeSum(files[..i + 1])))
    {
      ShiftedOffset(files, offset, i + 1);
    }
  }

  /** Advancing a running offset past the first file and then by the sizes of
      the next `k - 1` files reaches the same `u32` as adding the first `k`
      sizes at once. */
  lemma ShiftedOffset(files: seq<FarFile>, offset: u32, k: nat)
    requires 0 < k <= |files|
    ensures Wrap(Wrap(offset + files[0].size) + SizeSum(files[1..][..k - 1])) == Wrap(offset + SizeSum(files[..k]))
  {
    assert files[..k][1..] == files[1..][..k - 1];
    WrapAdd(offset + files[0].size, SizeSum(files[1..][..k - 1]));
  }

  /** `FarArchive::new_from_files`. Version 1, one entry per file in order,
      the files themselves kept unchanged as the archive's data. */
  function NewFromFiles(files: seq<FarFile>): (a: FarArchive)
    ensures a.version == 1
    ensures a.fileCount == Wrap(|files|)
    ensures a.fileData == files
    ensures |a.fileList| == |files|
    ensures forall i :: 0 <= i < |files| ==>
      && a.fileList[i].name == files[i].name
      && a.fileList[i].size == files[i].size
      && a.fileList[i].offset == Wrap(SizeSum(files[..i + 1]))
  {
    FarArchive(1, Wrap(|files|), Catalogue(files, 0), files)
  }

  // -------------------------------------------------------------- hydration

  /** Whether `buffer[offset..offset + size]` can be taken: the `u32` sum
      `offset + size` must neither overflow nor pass the end of the buffer. */
  predicate InBuffer(e: FarFileInfo, buffer: seq<u8>)
  {
    e.offset + e.size < U32Limit && e.offset + e.size <= |buffer|
  }

  /** `FarFile::new_from_archive`. The slice end is the `u32` sum
      `offset + size`; when it wraps, the slice starts after it ends and
      panics, exactly as a debug build panics on the overflow itself. */
  function NewFromArchive(name: Str, size: u32, offset: u32, original: seq<u8>): (r: Outcome<FarFile>)
    ensures !r.Err?
    ensures r.Ok? <==> InBuffer(FarFileInfo(name, size, offset), original)
    ensures r.Ok? ==>
      && r.value == NewFromFile(name, size, original[offset..offset + size])
      && |r.value.data| == size
  {
    var end := Wrap(offset + size);
    if offset <= end <= |original| then Ok(FarFile(name, size, original[offset..end]))
    else Panic
  }

  /** The loop of `load_file_data`: one `new_from_archive` per entry, in order. */
  function LoadFiles(list: seq<FarFileInfo>, original: seq<u8>): (r: Outcome<seq<FarFile>>)
    ensures !r.Err?
    ensures r.Ok? <==> forall i :: 0 <= i < |list| ==> InBuffer(list[i], original)
    ensures r.Ok? ==> |r.value| == |list|
    ensures r.Ok? ==> forall i :: 0 <= i < |list| ==>
      && r.value[i].name == list[i].name
      && r.value[i].size == list[i].size
      && r.value[i].data == original[list[i].offset..list[i].offset + list[i].size]
    decreases |list|
  {
    if list == [] then Ok([])
    else
      var first :- NewFromArchive(list[0].name, list[0].size, list[0].offset, original);
      var rest :- LoadFiles(list[1..], original);
      Ok([first] + rest)
  }

  /** `FarArchive::load_file_data`. Version, count and entries pass through;
      the data becomes, for each entry, the bytes its offset and size select
      in `original`. The previous data is discarded. */
  function LoadFileData(a: FarArchive, original: seq<u8>): (r: Outcome<FarArchive>)
    ensures !r.Err?
    ensures r.Ok? <==> forall i :: 0 <= i < |a.fileList| ==> InBuffer(a.fileList[i], original)
    ensures r.Ok? ==>
      && r.value.version == a.version
      && r.value.fileCount == a.fileCount
      && r.value.fileList == a.fileList
      && |r.value.fileData| == |a.fileList|
    ensures r.Ok? ==> forall i :: 0 <= i < |a.fileList| ==>
      && r.value.fileData[i].name == a.fileList[i].name
      && r.value.fileData[i].size == a.fileList[i].size
      && |r.value.fileData[i].data| == a.fileList[i].size
      && r.value.fileData[i].data == original[a.fileList[i].offset..a.fileList[i].offset + a.fileList[i].size]
  {
    var data :- LoadFiles(a.fileList, original);
    Ok(FarArchive(a.version, a.fileCount, a.fileList, data))
  }

  /** Hydrating an archive a second time from the same buffer gives the same
      archive: the data already present plays no part. */
  lemma LoadFileDataIdempotent(a: FarArchive, original: seq<u8>)
    requires LoadFileData(a, original).Ok?
    ensures LoadFileData(LoadFileData(a, original).value, original) == LoadFileData(a, original)
  {
  }
}
