# FAR archive codec — a Dafny model

FAR ("FAR!byAZ") is a flat archive format. A buffer starts with a 16-byte
header:

- the 8-byte signature `FAR!byAZ`
- a little-endian `u32` version
- a little-endian `u32` manifest offset

The files' raw bytes come next, back to back. The buffer ends with the
manifest: a `u32` file count, then one record per file. Each record holds
size, size again, offset and name length as `u32`s, followed by the UTF-8
name.

The model covers the library core in `src/farlib.rs`:

- **Data model.** The structs `FarFileInfo`, `FarFile` and `FarArchive` become
  the datatypes of module `Far`. Names are `Str`, byte strings that pass a
  concrete UTF-8 validity check (module `Utf8`, using the ranges of Table 3-7
  of the Unicode Standard). Fields the code declares `u32` use the subset type
  `u32`.
- **Builder.** `FarArchive::new_from_files` becomes `Far.NewFromFiles` (with
  `Far.Catalogue`). `FarFile::new_from_file` becomes `Far.NewFromFile`, a plain
  constructor with no contract.
- **Hydration.** `FarFile::new_from_archive` becomes `Far.NewFromArchive`.
  `FarArchive::load_file_data` becomes `Far.LoadFileData` (with `Far.LoadFiles`).
- **Serialiser.** `FarArchive::to_vec` becomes `Writer.ToVec`, with the data
  layout `Writer.Place` and the manifest encoding `Manifest.EncodeRecords`.
- **Parser.** `test` becomes `Reader.Test`, and `list_files` becomes
  `Reader.ListFiles`. They are built from `Manifest.ReadRecord`,
  `Manifest.ReadRecords` and `Bytes.ReadU32`.

Every fallible operation returns an `Outcome<T>`, which is one of three
values:

- `Ok(value)`.
- `Err`: the only `Err` the code returns, for a buffer whose first 8 bytes are
  not the signature.
- `Panic`: any `unwrap`/`expect` failure, out-of-range slice or out-of-bounds
  index in the code.

Arithmetic on the code's `u32` fields is modelled with release-build
wrap-around (`Bytes.Wrap`, i.e. modulo 2^32).

Points where the code's behaviour is easy to misread:

- **Failures are panics.** Only a bad signature is an `Err`. A buffer shorter
  than 8 bytes, a truncated manifest, a non-UTF-8 name and an out-of-range
  slice are all panics.
- **Builder offsets are scratch values.** The builder adds each file's size
  *before* it records the entry. Entry `i` therefore holds the total size of
  files `0..=i`, which is where file `i` ends within the data region
  (`RoundTrip.BuilderOffsetIsEnd`). `to_vec` never reads these offsets. It
  recomputes the absolute start offsets 16, 16 + size₀, … itself.
- **Declared sizes decide the layout.** The recorded offsets and the manifest
  offset come from each file's declared `size`. The data region holds each
  file's actual bytes. The two agree only when every file's data has its
  declared size, which is part of `RoundTrip.Storable`.
- **The count is copied.** `to_vec` writes the archive's stored `file_count`
  unchanged, and writes one record for each *catalogue* entry, with fields taken
  from the *file data* at the same index. It does not reconcile the two. A
  catalogue longer than the data is an out-of-bounds panic.
- **Little is validated.** The parser never checks the
  version, the duplicated size field or bytes left after the manifest. A
  record's offset is only checked by hydration, which panics when
  `offset + size` wraps or runs past the buffer.
- **Hydrating twice changes nothing.** Hydration never reads the archive's
  existing data, so hydrating an already hydrated archive from the same
  buffer gives the same archive (`Far.LoadFileDataIdempotent`).

## Model

| member | source | states |
|---|---|---|
| Bytes.Wrap | src/farlib.rs:119 | the low 32 bits of a count, length or running total: the value itself below 2^32, and otherwise the unique `u32` that differs from it by a multiple of 2^32 |
| Bytes.LeBytes | src/farlib.rs:212-215 | `u32::to_le_bytes` yields exactly four bytes; `Bytes.LeValueOfLeBytes` and `Bytes.LeBytesOfLeValue` make it the inverse of `Bytes.LeValue` |
| Bytes.LeValue | src/farlib.rs:256-258 | `u32::from_le_bytes` is little-endian: byte `k` of the input is digit `k` of the value in base 256, from the least significant (byte 0) to the most significant (byte 3) |
| Bytes.LeValueOfLeBytes | src/farlib.rs:256-258 | decoding the four little-endian bytes written for a `u32` gives that value back |
| Bytes.LeBytesOfLeValue | src/farlib.rs:212-215 | encoding a decoded four-byte group gives the same four bytes back |
| Bytes.ReadExact | src/farlib.rs:251-252 | `read_exact(..).unwrap()` never returns an error; it succeeds exactly when enough bytes remain, and then splits the input into the `n` bytes read and the remainder |
| Bytes.ReadU32 | src/farlib.rs:256-258 | reading a `u32` succeeds exactly when 4 bytes remain; the value re-encoded, followed by the remainder, is the input |
| Bytes.ReadU32OfLeBytes | src/farlib.rs:272-274 | reading a `u32` from its own encoding followed by anything gives the value and leaves exactly the rest |
| Bytes.WrapAdd | src/farlib.rs:204 | adding to a wrapped running total and wrapping again is the same as wrapping the exact sum |
| Utf8.ValidUtf8 | src/farlib.rs:299 | the well-formedness `String::from_utf8` demands: a valid string never starts with a continuation byte and never contains C0, C1 or F5 to FF; `Utf8.AsciiIsValid` and `Utf8.Examples` pin what it accepts and rejects |
| Utf8.AsciiIsValid | src/farlib.rs:299 | every all-ASCII name passes the UTF-8 check that `String::from_utf8` performs |
| Utf8.Examples | src/farlib.rs:299 | the check accepts a well-formed two-byte sequence and rejects a truncated sequence, an overlong encoding and an encoded surrogate |
| Far.Catalogue | src/farlib.rs:115-126 | the catalogue has one entry per file, with that file's name and size, and an offset equal to the start offset plus the sizes of that file and all before it, wrapped to 32 bits |
| Far.NewFromFiles | src/farlib.rs:114-133 | the built archive has version 1, a count of the number of files (wrapped), the files themselves as data, and entry `i` holding file `i`'s name, its size and the wrapped total size of files `0..=i` |
| Far.NewFromArchive | src/farlib.rs:61-70 | hydrating one entry never returns an error; it succeeds exactly when `offset + size` neither wraps nor runs past the buffer, and then the file has the entry's name and size and exactly the bytes `[offset, offset + size)` |
| Far.LoadFiles | src/farlib.rs:152-160 | hydrating a catalogue succeeds exactly when every entry is in the buffer, and then yields one file per entry, in order, each with that entry's name, size and slice |
| Far.LoadFileData | src/farlib.rs:151-167 | `load_file_data` keeps version, count and catalogue unchanged; it succeeds exactly when every entry is in the buffer, and then replaces the data with one file per entry holding that entry's name, size and exactly `size` bytes from its offset |
| Far.LoadFileDataIdempotent | src/farlib.rs:151-167 | hydrating an already hydrated archive from the same buffer gives the same archive again |
| Manifest.RecordBytes | src/farlib.rs:212-216 | one record is 16 bytes of fields followed by the name's bytes, and its name-length field decodes to the name's byte length; `Manifest.ReadRecordOfRecordBytes` reads it back |
| Manifest.EncodeRecords | src/farlib.rs:211-217 | the manifest records are empty exactly when there are no entries, and the first record's size and repeated size fields both decode to the first entry's size; `Manifest.EncodeRecordsReadBack` reads all records back |
| Manifest.EncodeRecordsReadBack | src/farlib.rs:211-217 | the records the writer emits (size, size again, offset, name length, name) read back, when every name fits its length field, as exactly the entries written, consuming every byte |
| Manifest.ReadRecord | src/farlib.rs:284-302 | reading one record never returns an error; a successful read consumes input and yields a name shorter than 2^32 bytes |
| Manifest.ReadRecordSound | src/farlib.rs:284-302 | when a record is read, the input is exactly that record's encoding (with some stored duplicate size) followed by what remains |
| Manifest.ReadRecordOfRecordBytes | src/farlib.rs:284-302 | reading the encoding of an entry gives that entry back and leaves the rest, whatever the duplicate size field holds |
| Manifest.ReadRecords | src/farlib.rs:282-304 | reading `n` records never returns an error, and a successful read yields exactly `n` entries |
| Manifest.ReadRecordsOfRecordsBytes | src/farlib.rs:282-304 | reading as many records as were encoded gives back exactly the encoded entries and leaves the rest of the buffer |
| Manifest.ReadRecordsSound | src/farlib.rs:282-304 | when `n` records are read, the input is their encoding followed by what remains |
| Writer.Place | src/farlib.rs:192-205 | the data layout gives file `i` its name and size and the offset 16 plus the sizes before it (wrapped), and returns the final running total as the manifest offset |
| Writer.DataRegion | src/farlib.rs:195-198 | the data region is exactly as long as the bytes the files actually hold, whatever their declared sizes; `Writer.DataRegionLength` and `Writer.DataRegionAt` relate it to the sizes and locate each file |
| Writer.DataRegionLength | src/farlib.rs:195-198 | when every file's bytes have its declared size, the data region is as long as the sum of the sizes |
| Writer.DataRegionAt | src/farlib.rs:195-198 | the data region is the region of the files before `i`, then file `i`'s bytes, then the region of the files after |
| Writer.ToVec | src/farlib.rs:183-228 | `to_vec` panics exactly when the catalogue is longer than the file data; otherwise the buffer is the signature, the version, the manifest offset 16 plus the total size, the files' bytes in order, the stored count, and one record per catalogue entry taken from the recomputed layout |
| Writer.ToVecLayout | src/farlib.rs:219-227 | in the serialised buffer, bytes 0..8 are the signature, 8..12 the version, 12..16 the manifest offset, then the data region, then the manifest |
| Writer.ToVecIgnoresFileList | src/farlib.rs:211-217 | two archives with the same version, count, catalogue length and file data serialise to the same bytes, whatever their catalogues' names, sizes and offsets |
| Reader.ReadManifest | src/farlib.rs:278-304 | reading the manifest never returns an error; a successful read yields a number of entries that fits a `u32` |
| Reader.ReadManifestSound | src/farlib.rs:278-304 | a successful manifest read means the input starts with the count followed by the encoding of exactly the entries returned |
| Reader.ReadManifestComplete | src/farlib.rs:278-304 | a count followed by the encoding of that many entries reads back as exactly those entries |
| Reader.ListFiles | src/farlib.rs:269-305 | `list_files` never returns an error; a successful listing implies a full 16-byte header whose stored manifest offset lies within the buffer, and fewer than 2^32 entries |
| Reader.ListFilesSound | src/farlib.rs:269-305 | when listing succeeds, the buffer has a 16-byte header whose manifest offset is in range, and from that offset holds the count and the encoding of exactly the listed entries |
| Reader.ListFilesComplete | src/farlib.rs:269-305 | a buffer holding a count and matching records at its stored manifest offset lists exactly those entries |
| Reader.Test | src/farlib.rs:249-267 | `test` returns an error exactly for a buffer of at least 8 bytes that does not start with the signature; it panics on a shorter buffer; it succeeds exactly when the signature matches and listing succeeds, and then the archive has the stored version, the listed entries, a count equal to their number, and no data |
| RoundTrip.SerialiseBuilt | src/farlib.rs:183-228 | serialising a freshly built archive of storable files never panics and gives the header, the files' bytes and a manifest of the true absolute offsets |
| RoundTrip.ParseImage | src/farlib.rs:249-305 | parsing the serialised bytes of a built archive gives version 1, the count, and each file's name and size at its true absolute offset, with no data |
| RoundTrip.HydrateImage | src/farlib.rs:151-167 | hydrating that parsed archive from the same bytes restores exactly the original files |
| RoundTrip.FullRoundTrip | src/farlib.rs:114-305 | build, serialise, parse and hydrate gives back version 1, the file count, every name and size in order, offsets 16 plus the sizes before each file, and the original files' bytes |
| RoundTrip.BuilderOffsetIsEnd | src/farlib.rs:117-124 | the builder's entry offset for file `i`, plus 16, equals the serialised start offset of file `i` plus its size: the builder records where a file ends, not where it starts |
| RoundTrip.EmptyArchive | src/farlib.rs:183-228 | an archive of no files serialises to exactly 20 bytes: signature, version 1, manifest offset 16, count 0 |
| RoundTrip.Reserialise | src/farlib.rs:183-228 | serialising the parsed and hydrated archive reproduces the original buffer byte for byte |
| RoundTrip.ThreeFileOffsets | src/farlib.rs:194-204 | files of sizes 10, 20 and 5 are parsed back at offsets 16, 26 and 46, with the manifest offset 51 |

## Left out

- Reading through `BufReader` is modelled as slicing the buffer. Panic and error message texts are not modelled. Every panic is the single value `Panic`.
- Far.NewFromFiles: a debug build panics when the running offset overflows `u32`. The model gives the release build's wrap-around instead.
- Writer.ToVec: a debug build panics when the layout's running total overflows `u32`. The model wraps instead. `to_vec` writes the stored `file_count` unchanged. The casts `file_list.len() as u32` in `new_from_files` and `name.len() as u32` in `to_vec` truncate in every build, and the model reproduces them with `Wrap`.
- Far.NewFromFile has no contract. It only packs its three arguments into a `FarFile` without checking that `size` matches the data's length.
- A manifest whose name length asks for more memory than can be allocated aborts the process in the code. The model treats such a read as the ordinary `Panic` for running past the buffer.
- File-system use in the documentation examples is outside the codec and is not modelled.
