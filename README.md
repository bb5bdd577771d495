# cra archive adapter — a Dafny model

`cra` offers one way to read and write zip, tar and 7z archives. Every
archive member is an `ArcEntry`: a `File` with a name and its full content,
or a `Directory` with a name. The crate itself owns only a thin layer over
the codec libraries, and this project models that layer:

- `ArcFormats` (`formats.dfy`): the three formats, the error kinds, and the
  map from the sniffed extension (`"zip"`, `"7z"`, `"tar"`) to a format.
  Any other extension gives `UnrecognizedFormat`.
- `ArcEntries` (`entries.dfy`): the entry model and the decoding of a
  codec's native member record. A member flagged as a directory becomes
  `Directory(name)`. Anything else becomes `File(name, data)`. Names pass
  through verbatim.
- `ArcReading` (`reader.dfy`): `read_zip`, `read_tar` and `read_7z`, and
  `ArcReader::new`, which classifies the buffer and decodes it with the
  matching codec. The reader itself is a class. Its `format` and `entries`
  are `const` fields, so the `format()` and `entries()` accessors are those
  fields. Its cursor `i` is the only mutable field, and `Iterator::next`
  moves it forward.
- `ArcWriting` (`writer.dfy`): the writer, a class with a format and an
  append-only entry sequence, and `archive` with its three encoders.
- `ArcScenario` (`scenario.dfy`): the three entries of the crate's tests,
  written by a writer and read back by a reader.

The archive bytes are opaque in this model. A read buffer is represented by
what the collaborators report for it: the extension the signature sniffer
detects, and the member records each codec enumerates (`Buffer`). A written
archive is represented by the trace of append calls the encoder makes on
the codec writer (`CodecRecord`: kind, name, declared size, content and
per-format metadata). The codec's own failures are parameters (`Codec`):
creating the writer (only the 7z writer can fail there), each append given
the records before it, and finalising. The host's clock and identity are a
parameter too (`Host`). The clock gives the time read while encoding the
k-th entry, as the source reads it once per entry.

In a few places the code does less than the crate's documented intent. The
model follows the code:
- The writer's `format` is a `pub` field in the source, so a caller may
  reassign it. The model keeps it a mutable field. No writer method changes
  it.
- Unreadable content, an unopenable zip, a failing tar member, a failing 7z
  traversal and an unknown host user or group all abort (`unwrap`) in the
  source. They are not propagated as errors.
- A buffer the sniffer cannot classify at all also aborts. Only an extension
  the crate does not support yields `UnrecognizedFormat`.

## Model

| member | source | states |
|---|---|---|
| `ArcFormats.TryFromExtension` | src/lib.rs:24-35 | the result is a format exactly when the extension is that format's extension; otherwise the error is `UnrecognizedFormat` |
| `ArcFormats.ExtensionRoundTrip` | src/lib.rs:27-34 | each format is recognised from its own extension and from no other string |
| `ArcEntries.DecodeEntry` | src/lib.rs:46-69 | the entry keeps the native name; it is a directory iff the record is flagged as one; a file carries the record's full content |
| `ArcEntries.DecodeAll` | src/lib.rs:127-130 | one entry per listed member, in listing order, each the decoding of its member |
| `ArcReading.DecodeZip` | src/lib.rs:116-124 | succeeds iff every member can be fetched, giving one decoded entry per member in index order; otherwise fails with the error of the first failing member |
| `ArcReading.DecodeZipErrPersists` | src/lib.rs:120-122 | once a member fails, members after it cannot change the outcome |
| `ArcReading.ReadZip` | src/lib.rs:116-124 | the loop pushing decoded members computes `DecodeZip` |
| `ArcReading.DecodeListing` | src/lib.rs:126-131 | `read_tar`: fails iff the listing fails, with its error; otherwise one decoded entry per listed member, in order |
| `ArcReading.Read7z` | src/lib.rs:133-148 | fails iff opening fails, with its error; otherwise the closure's pushes give one decoded entry per member, in order |
| `ArcReading.DecodeWith` | src/lib.rs:97-101 | succeeds iff `f`'s own codec produces every member (each zip member, or the tar or 7z listing); then one entry per member of that codec, in its order, each the member's decoding; otherwise that codec's error (the first failing zip member's, or the listing's) |
| `ArcReading.Load` | src/lib.rs:93-104 | an unsupported extension gives `UnrecognizedFormat`; for a supported extension the read succeeds iff that format's codec decodes, with that format and the decoded entries, and otherwise fails with the codec's error |
| `ArcReading.NextStep` | src/lib.rs:154-161 | one `next` keeps the cursor within the entries |
| `ArcReading.Drain` | src/lib.rs:154-161 | k calls of `next` return k items |
| `ArcReading.DrainExhausted` | src/lib.rs:155-156 | at the end, every further `next` returns `None` |
| `ArcReading.DrainYieldsEntries` | src/lib.rs:154-161 | successive `next` calls return the remaining entries in order, each once, then `None` forever |
| `ArcReading.ArcReader.Init` | src/lib.rs:95-103 | a new reader holds the given format and entries, with its cursor at 0 |
| `ArcReading.ArcReader.New` | src/lib.rs:93-104 | a fresh reader with `Load`'s format and entries and cursor 0, or `Load`'s error |
| `ArcReading.ArcReader.Next` | src/lib.rs:154-161 | returns `None` iff the cursor is at the end, otherwise the entry under the cursor, and the cursor advances by exactly one; format and entries are constant |
| `ArcWriting.MetadataFor` | src/lib.rs:223-262 | zip members get the default options; every tar header gets mode 0o766, the clock reading for that entry, and the host's uid, user name, gid and group name; every 7z entry gets the clock reading as its last-modified time |
| `ArcWriting.RecordOf` | src/lib.rs:239-248 | a record named after its entry; a directory record with size 0 and no content for a directory; a regular record with the file's content and its length as size for a file |
| `ArcWriting.Trace` | src/lib.rs:202-212 | one record per entry, in entry order |
| `ArcWriting.TracePrefix` | src/lib.rs:202-212 | encoding a prefix of the entries gives a prefix of the records |
| `ArcWriting.Emit` | src/lib.rs:202-212 | when every append succeeds, the codec received exactly the trace of the entries |
| `ArcWriting.EmitStep` | src/lib.rs:202-212 | each entry's record is appended after those of earlier entries, unless the codec refuses it |
| `ArcWriting.EmitErrPersists` | src/lib.rs:205-209 | a refused append fails the whole encoding with its error; later entries are not appended |
| `ArcWriting.EmitOkIffAccepted` | src/lib.rs:202-212 | appending succeeds iff the codec accepts each record after the records before it |
| `ArcWriting.Encode` | src/lib.rs:190-277 | a successful `archive` hands the codec exactly the trace of the entries; a 7z writer that cannot be created fails with its error |
| `ArcWriting.EncodeOkIffAccepted` | src/lib.rs:190-277 | `archive` succeeds iff the 7z writer (for 7z) can be created, every append is accepted after the ones before it, and finalising succeeds |
| `ArcWriting.FirstRefusalExtends` | src/lib.rs:202-212 | the first refused append within a prefix of the appends is the first refused append overall |
| `ArcWriting.LastIsFirstRefusal` | src/lib.rs:202-212 | if all earlier appends succeed and the last fails, the last is the first refused append |
| `ArcWriting.EmitErrIsFirstRefusal` | src/lib.rs:202-212 | a failed run of appends fails with the error of the first append the codec refuses, all earlier appends having been accepted |
| `ArcWriting.EncodeErrIsCodecError` | src/lib.rs:190-277 | a failed `archive` passes the codec's error on unchanged: the 7z writer's creation error, or the first refused append's error, or (all appends accepted) finalising's error |
| `ArcWriting.EncodeOneRecordPerEntry` | src/lib.rs:198-277 | a successful archive has one record per entry, in order, with the entry's name, the format's metadata and the kind, size and content of its variant |
| `ArcWriting.EntryRoundTrip` | src/lib.rs:46-69 | decoding the record written for an entry gives back that entry |
| `ArcWriting.WriteThenRead` | src/lib.rs:190-196 | reading back a successful archive gives the writer's format and exactly its entries, in order, for any host clock and identity, provided the sniffer reports the format's extension and the codecs list the members as appended (see Left out) |
| `ArcWriting.ExtendIsRepeatedPush` | src/lib.rs:184-187 | pushing the elements of a slice one by one appends the slice |
| `ArcWriting.ArcWriter.constructor` | src/lib.rs:172-177 | a new writer has the chosen format and no entries |
| `ArcWriting.ArcWriter.Push` | src/lib.rs:180-182 | the entries become the old entries plus the new one at the end; nothing else changes |
| `ArcWriting.ArcWriter.Extend` | src/lib.rs:185-187 | the entries become the old entries followed by the slice, the same as pushing each element; nothing else changes |
| `ArcWriting.ArcWriter.Archive` | src/lib.rs:190-196 | changes nothing and returns the encoding of the entries in the writer's own format |
| `ArcWriting.ArcWriter.ArchiveZip` | src/lib.rs:198-216 | the zip encoder's appends and finish compute the zip encoding |
| `ArcWriting.ArcWriter.ArchiveTar` | src/lib.rs:218-254 | the tar encoder's headers (mode 0o766, the host's time, user and group), appends and finish compute the tar encoding |
| `ArcWriting.ArcWriter.Archive7z` | src/lib.rs:256-277 | the 7z encoder's creation, time-stamped appends and finish compute the 7z encoding |
| `ArcScenario.RoundTripScenario` | tests/tar.rs:20-28 | pushing the three test entries, archiving and opening a reader yields the writer's format and the same three entries, or the encoding's error |

## Left out

- The binary layouts, compression and checksums of zip, tar and 7z belong to
  the codec libraries. The model works on member records, not bytes, and
  claims no byte-level round trip.
- `WriteThenRead` proves the round trip under three assumptions about the
  foreign libraries, all built into `Reopen`. The model does not establish
  any of them:
  - The codecs report each record's name, kind and content as stored. The
    zip library, for example, adds a trailing `/` to a directory name that
    lacks one.
  - The signature sniffer reports the written format's extension for every
    written archive. An empty tar, or a tar whose first member name looks
    like another type's signature, may be sniffed differently or not at all.
  - Each codec lists the members in the order they were appended. A 7z
    reader may, for instance, visit members without content after those
    with content.
- Signature sniffing (`infer::get`) is a foreign call. It is represented by
  the extension it reports. Its "nothing detected" case aborts in the source
  and is not modelled.
- The aborting `unwrap` calls are not modelled: reading content to the end,
  opening a zip archive, a failing tar member, the 7z traversal, path-to-text
  conversion, the host user and group name lookup and header setting, and
  a clock reading earlier than 1970 (the tar encoder's
  `duration_since(UNIX_EPOCH)`).
  The types of `Buffer` and `Host` exclude these cases.
- The error payloads of the wrapped I/O, zip and 7z errors are foreign. The
  error kinds carry no payload.
- The clock's units (seconds since 1970 for tar, NT file time for 7z) and
  the integer widths of sizes, uids and gids (`u64`, `usize`) are not
  modelled. All are unbounded naturals.
