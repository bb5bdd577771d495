/** The write side: the append-only writer and the encoding of its entries
    into a codec's append calls. The codec libraries are abstracted as the
    trace of member records they are asked to append. */
module ArcWriting {
  import opened ArcFormats
  import opened ArcEntries
  import opened ArcReading

  /** Permission bits of every tar member header written: octal 766. */
  const TarMode: nat := 0x1F6

  /** What the encoders read from the host: the wall-clock time read while
      encoding the `k`-th entry, and the current user and group. */
  datatype Host = Host(clock: nat -> nat, uid: nat, gid: nat, username: string, groupname: string)

  /** Per-format metadata attached to an appended member. */
  datatype Metadata =
    | ZipDefaults
    | TarHeader(mode: nat, mtime: nat, uid: nat, username: string, gid: nat, groupname: string)
    | SevenzLastModified(time: nat)

  datatype RecordKind = DirectoryRecord | RegularRecord

  /** One append call on a codec writer: the member's kind, its name, its
      declared size, its content and its metadata. */
  datatype CodecRecord = CodecRecord(kind: RecordKind, name: string, size: nat, content: seq<byte>, meta: Metadata)

  /** The codec writer of the configured format, as far as its failures go:
      `open` is the error creating it reports (only the 7z writer can fail
      there), `refuse` the error an append reports given the records already
      appended, `finish` the error finalising the container reports. */
  datatype Codec = Codec(
    open: Option<ArcError>,
    refuse: (seq<CodecRecord>, CodecRecord) -> Option<ArcError>,
    finish: seq<CodecRecord> -> Option<ArcError>)

  /** The metadata the encoder of format `f` sets on the `k`-th member. */
  function MetadataFor(f: ArcFormat, host: Host, k: nat): (m: Metadata)
    ensures m.ZipDefaults? <==> f == Zip
    ensures m.TarHeader? <==> f == Tar
    ensures m.TarHeader? ==> m.mode == TarMode && m.mtime == host.clock(k)
    ensures m.TarHeader? ==> m.uid == host.uid && m.username == host.username
    ensures m.TarHeader? ==> m.gid == host.gid && m.groupname == host.groupname
    ensures m.SevenzLastModified? <==> f == Sevenz
    ensures m.SevenzLastModified? ==> m.time == host.clock(k)
  {
    match f
    case Zip => ZipDefaults
    case Tar => TarHeader(TarMode, host.clock(k), host.uid, host.username, host.gid, host.groupname)
    case Sevenz => SevenzLastModified(host.clock(k))
  }

  /** The append call for one entry: a directory becomes an empty directory
      record, a file a regular record carrying its content and declaring
      its length as size. */
  function RecordOf(e: ArcEntry, meta: Metadata): (rec: CodecRecord)
    ensures rec.name == e.name && rec.meta == meta
    ensures rec.kind == DirectoryRecord <==> e.Directory?
    ensures rec.size == |rec.content|
    ensures rec.content == (if e.File? then e.data else [])
  {
    match e
    case Directory(name) => CodecRecord(DirectoryRecord, name, 0, [], meta)
    case File(name, data) => CodecRecord(RegularRecord, name, |data|, data, meta)
  }

  /** The records the encoder of format `f` appends for `es`, one per entry
      in entry order. */
  function Trace(f: ArcFormat, es: seq<ArcEntry>, host: Host): (t: seq<CodecRecord>)
    ensures |t| == |es|
    ensures forall k :: 0 <= k < |es| ==> t[k] == RecordOf(es[k], MetadataFor(f, host, k))
  {
    if es == [] then []
    else Trace(f, es[..|es| - 1], host) + [RecordOf(es[|es| - 1], MetadataFor(f, host, |es| - 1))]
  }

  /** The records for a prefix of the entries are the prefix of the records. */
  lemma TracePrefix(f: ArcFormat, es: seq<ArcEntry>, host: Host, n: nat)
    requires n <= |es|
    ensures Trace(f, es[..n], host) == Trace(f, es, host)[..n]
  {
  }

  /** Appending the records for `es` one by one: the full trace when the
      codec accepts every append, otherwise the error of the first append it
      refuses. */
  function Emit(f: ArcFormat, es: seq<ArcEntry>, host: Host, codec: Codec): (r: Result<seq<CodecRecord>>)
    ensures r.Ok? ==> r.value == Trace(f, es, host)
  {
    if es == [] then Ok([])
    else
      match Emit(f, es[..|es| - 1], host, codec)
      case Err(e) => Err(e)
      case Ok(t) =>
        var rec := RecordOf(es[|es| - 1], MetadataFor(f, host, |es| - 1));
        match codec.refuse(t, rec)
        case Some(e) => Err(e)
        case None => Ok(t + [rec])
  }

  /** One more entry: its record is appended after those of the entries
      before it, unless the codec refuses it. */
  lemma EmitStep(f: ArcFormat, es: seq<ArcEntry>, host: Host, codec: Codec, k: nat, out: seq<CodecRecord>)
    requires k < |es| && Emit(f, es[..k], host, codec) == Ok(out)
    ensures var rec := RecordOf(es[k], MetadataFor(f, host, k));
      Emit(f, es[..k + 1], host, codec) ==
        if codec.refuse(out, rec).Some? then Err(codec.refuse(out, rec).value) else Ok(out + [rec])
  {
    assert es[..k + 1][..k] == es[..k];
  }

  /** Once an append is refused, encoding fails with that error whatever
      entries follow. */
  lemma {:induction false} EmitErrPersists(f: ArcFormat, es: seq<ArcEntry>, host: Host, codec: Codec, n: nat)
    requires n <= |es|
    requires Emit(f, es[..n], host, codec).Err?
    ensures Emit(f, es, host, codec) == Emit(f, es[..n], host, codec)
    decreases |es| - n
  {
    if n < |es| {
      assert es[..n + 1][..n] == es[..n];
      EmitErrPersists(f, es, host, codec, n + 1);
    } else {
      assert es[..n] == es;
    }
  }

  /** Encoding succeeds exactly when the codec accepts every record, each
      appended after the records before it. */
  lemma {:induction false} EmitOkIffAccepted(f: ArcFormat, es: seq<ArcEntry>, host: Host, codec: Codec)
    ensures Emit(f, es, host, codec).Ok? <==>
            forall k :: 0 <= k < |es| ==> codec.refuse(Trace(f, es, host)[..k], Trace(f, es, host)[k]).None?
    decreases |es|
  {
    if es != [] {
      var n := |es| - 1;
      var t := Trace(f, es, host);
      EmitOkIffAccepted(f, es[..n], host, codec);
      TracePrefix(f, es, host, n);
      assert t[..n] == Trace(f, es[..n], host);
      forall k | 0 <= k < n
        ensures Trace(f, es[..n], host)[..k] == t[..k]
      {
      }
    }
  }

  /** The `k`-th append of trace `t` is the first one the codec refuses,
      and it refuses it with error `e`. */
  ghost predicate FirstRefusal(codec: Codec, t: seq<CodecRecord>, k: int, e: ArcError)
  {
    && 0 <= k < |t|
    && codec.refuse(t[..k], t[k]) == Some(e)
    && forall j :: 0 <= j < k ==> codec.refuse(t[..j], t[j]).None?
  }

  /** A first refusal within a prefix of a trace is the first refusal of the
      whole trace. */
  lemma FirstRefusalExtends(codec: Codec, t: seq<CodecRecord>, n: nat, k: int, e: ArcError)
    requires n <= |t| && FirstRefusal(codec, t[..n], k, e)
    ensures FirstRefusal(codec, t, k, e)
  {
    forall j | 0 <= j <= k
      ensures t[..n][..j] == t[..j] && t[..n][j] == t[j]
    {
    }
  }

  /** When the entries before the last encode and the last is refused, that
      refusal is the first one. */
  lemma LastIsFirstRefusal(f: ArcFormat, es: seq<ArcEntry>, host: Host, codec: Codec)
    requires es != [] && Emit(f, es[..|es| - 1], host, codec).Ok? && Emit(f, es, host, codec).Err?
    ensures FirstRefusal(codec, Trace(f, es, host), |es| - 1, Emit(f, es, host, codec).error)
  {
    var n := |es| - 1;
    var t := Trace(f, es, host);
    var ti := Trace(f, es[..n], host);
    TracePrefix(f, es, host, n);
    assert ti == t[..n];
    EmitOkIffAccepted(f, es[..n], host, codec);
    EmitStep(f, es, host, codec, n, ti);
    assert es[..n + 1] == es;
    forall j | 0 <= j < n
      ensures codec.refuse(t[..j], t[j]).None?
    {
      assert ti[..j] == t[..j] && ti[j] == t[j];
    }
  }

  /** A failed encoding fails with the error of the first append the codec
      refuses, every earlier append having been accepted. */
  lemma {:induction false} EmitErrIsFirstRefusal(f: ArcFormat, es: seq<ArcEntry>, host: Host, codec: Codec)
    requires Emit(f, es, host, codec).Err?
    ensures exists k :: FirstRefusal(codec, Trace(f, es, host), k, Emit(f, es, host, codec).error)
    decreases |es|
  {
    var n := |es| - 1;
    var e := Emit(f, es, host, codec).error;
    if Emit(f, es[..n], host, codec).Err? {
      EmitErrIsFirstRefusal(f, es[..n], host, codec);
      EmitErrPersists(f, es, host, codec, n);
      TracePrefix(f, es, host, n);
      var k :| FirstRefusal(codec, Trace(f, es[..n], host), k, e);
      FirstRefusalExtends(codec, Trace(f, es, host), n, k, e);
    } else {
      LastIsFirstRefusal(f, es, host, codec);
    }
  }

  /** What `archive()` computes, as the trace handed to the codec: creating
      the writer (7z only), one append per entry in order, and finalising;
      the first failure is the result. */
  function Encode(f: ArcFormat, es: seq<ArcEntry>, host: Host, codec: Codec): (r: Result<seq<CodecRecord>>)
    ensures r.Ok? ==> r.value == Trace(f, es, host)
    ensures f == Sevenz && codec.open.Some? ==> r == Err(codec.open.value)
  {
    if f == Sevenz && codec.open.Some? then Err(codec.open.value)
    else
      match Emit(f, es, host, codec)
      case Err(e) => Err(e)
      case Ok(t) => if codec.finish(t).Some? then Err(codec.finish(t).value) else Ok(t)
  }

  /** Encoding succeeds exactly when the 7z writer (if that is the format)
      can be created, the codec accepts every record after the records
      before it, and finalising the full trace succeeds. */
  lemma EncodeOkIffAccepted(f: ArcFormat, es: seq<ArcEntry>, host: Host, codec: Codec)
    ensures Encode(f, es, host, codec).Ok? <==>
              && (f == Sevenz ==> codec.open.None?)
              && (forall k :: 0 <= k < |es| ==>
                    codec.refuse(Trace(f, es, host)[..k], Trace(f, es, host)[k]).None?)
              && codec.finish(Trace(f, es, host)).None?
  {
    EmitOkIffAccepted(f, es, host, codec);
  }

  /** A failed `archive` passes on the codec's error unchanged: the 7z
      writer's creation error, else the error of the first refused append,
      else (every append accepted) the error of finalising. */
  lemma EncodeErrIsCodecError(f: ArcFormat, es: seq<ArcEntry>, host: Host, codec: Codec)
    requires Encode(f, es, host, codec).Err?
    ensures var e := Encode(f, es, host, codec).error;
            var t := Trace(f, es, host);
            || (f == Sevenz && codec.open == Some(e))
            || ((f == Sevenz ==> codec.open.None?) && exists k :: FirstRefusal(codec, t, k, e))
            || ((f == Sevenz ==> codec.open.None?) &&
                (forall k :: 0 <= k < |es| ==> codec.refuse(t[..k], t[k]).None?) &&
                codec.finish(t) == Some(e))
  {
    if !(f == Sevenz && codec.open.Some?) {
      EmitOkIffAccepted(f, es, host, codec);
      if Emit(f, es, host, codec).Err? {
        EmitErrIsFirstRefusal(f, es, host, codec);
      }
    }
  }

  /** A successful encoding hands the codec exactly one record per entry,
      in entry order, each naming its entry: a directory record with no
      data for a directory, a regular record with the file's content and
      its length as size for a file. */
  lemma EncodeOneRecordPerEntry(f: ArcFormat, es: seq<ArcEntry>, host: Host, codec: Codec)
    requires Encode(f, es, host, codec).Ok?
    ensures var t := Encode(f, es, host, codec).value;
      && |t| == |es|
      && forall k :: 0 <= k < |es| ==>
           && t[k].name == es[k].name
           && t[k].meta == MetadataFor(f, host, k)
           && (es[k].Directory? ==> t[k].kind == DirectoryRecord && t[k].size == 0 && t[k].content == [])
           && (es[k].File? ==> t[k].kind == RegularRecord && t[k].size == |es[k].data| && t[k].content == es[k].data)
  {
  }

  /** The member record a codec reports back for an appended record, when it
      stores name, kind and content as given. */
  function NativeOf(rec: CodecRecord): NativeEntry
  {
    NativeEntry(rec.name, rec.kind == DirectoryRecord, rec.content)
  }

  /** Reading back an entry's record yields the entry itself. */
  lemma EntryRoundTrip(e: ArcEntry, meta: Metadata)
    ensures DecodeEntry(NativeOf(RecordOf(e, meta))) == e
  {
  }

  /** The buffer a finished trace of format `f` becomes, assuming that the
      sniffer reports `f`'s extension for it and that every codec lists the
      records in append order with their name, kind and content as given. */
  function Reopen(f: ArcFormat, t: seq<CodecRecord>): Buffer
  {
    var natives := seq(|t|, k requires 0 <= k < |t| => NativeOf(t[k]));
    Buffer(Extension(f), seq(|t|, k requires 0 <= k < |t| => Ok(natives[k])), Ok(natives), Ok(natives))
  }

  /** Writing then reading back, for the buffer `Reopen` builds, yields the
      writer's format and exactly its entries in order, whatever the host's
      clock and identity. */
  lemma {:induction false} WriteThenRead(f: ArcFormat, es: seq<ArcEntry>, host: Host, codec: Codec)
    requires Encode(f, es, host, codec).Ok?
    ensures Load(Reopen(f, Encode(f, es, host, codec).value)) == Ok(Loaded(f, es))
  {
    var t := Encode(f, es, host, codec).value;
    var buf := Reopen(f, t);
    ExtensionRoundTrip(f, buf.extension);
    var decoded := DecodeWith(f, buf);
    assert decoded.Ok?;
    forall k | 0 <= k < |es|
      ensures decoded.value[k] == es[k]
    {
      EntryRoundTrip(es[k], MetadataFor(f, host, k));
    }
    assert decoded.value == es;
  }

  /** A pure function of the entries and of `extend`: pushing the elements
      of `s` one at a time, in order. */
  function PushEach(entries: seq<ArcEntry>, s: seq<ArcEntry>): seq<ArcEntry>
    decreases |s|
  {
    if s == [] then entries else PushEach(entries + [s[0]], s[1..])
  }

  /** `extend(s)` appends the same entries as pushing each element of `s`
      in order. */
  lemma {:induction false} ExtendIsRepeatedPush(entries: seq<ArcEntry>, s: seq<ArcEntry>)
    ensures PushEach(entries, s) == entries + s
    decreases |s|
  {
    if s != [] {
      ExtendIsRepeatedPush(entries + [s[0]], s[1..]);
      assert entries + [s[0]] + s[1..] == entries + s;
    }
  }

  /** The writer: a format chosen at construction and the entries pushed so
      far, which only ever grow at the end. */
  class ArcWriter {
    var format: ArcFormat
    var entries: seq<ArcEntry>

    /** `ArcWriter::new`: the chosen format, no entries. */
    constructor (format: ArcFormat)
      ensures this.format == format && entries == []
    {
      this.format := format;
      entries := [];
    }

    /** `push`: appends one entry; the format is untouched. */
    method Push(e: ArcEntry)
      modifies this`entries
      ensures entries == old(entries) + [e]
    {
      entries := entries + [e];
    }

    /** `extend`: appends all of `s`, in order; the format is untouched. */
    method Extend(s: seq<ArcEntry>)
      modifies this`entries
      ensures entries == old(entries) + s
      ensures entries == PushEach(old(entries), s)
    {
      ExtendIsRepeatedPush(entries, s);
      entries := entries + s;
    }

    /** `archive`: reads the writer without changing it and dispatches to the
        encoder of its format. */
    method Archive(host: Host, codec: Codec) returns (r: Result<seq<CodecRecord>>)
      ensures r == Encode(format, entries, host, codec)
    {
      match format {
        case Zip => r := ArchiveZip(host, codec);
        case Tar => r := ArchiveTar(host, codec);
        case Sevenz => r := Archive7z(host, codec);
      }
    }

    /** `archive_zip`: for each entry, `add_directory` or `start_file` then
        `write_all`, with default options; then `finish`. */
    method ArchiveZip(host: Host, codec: Codec) returns (r: Result<seq<CodecRecord>>)
      ensures r == Encode(Zip, entries, host, codec)
    {
      var out: seq<CodecRecord> := [];
      for k := 0 to |entries|
        invariant Emit(Zip, entries[..k], host, codec) == Ok(out)
      {
        var rec: CodecRecord;
        match entries[k] {
          case Directory(name) => rec := CodecRecord(DirectoryRecord, name, 0, [], ZipDefaults);
          case File(name, data) => rec := CodecRecord(RegularRecord, name, |data|, data, ZipDefaults);
        }
        assert rec == RecordOf(entries[k], MetadataFor(Zip, host, k));
        EmitStep(Zip, entries, host, codec, k, out);
        var refused := codec.refuse(out, rec);
        if refused.Some? {
          EmitErrPersists(Zip, entries, host, codec, k + 1);
          return Err(refused.value);
        }
        out := out + [rec];
      }
      assert entries[..|entries|] == entries;
      var failed := codec.finish(out);
      if failed.Some? {
        return Err(failed.value);
      }
      return Ok(out);
    }

    /** `archive_tar`: for each entry a fresh GNU header with mode 0o766, the
        current time and the current user and group, typed directory (no
        data) or regular (size set to the data length); then `finish`. */
    method ArchiveTar(host: Host, codec: Codec) returns (r: Result<seq<CodecRecord>>)
      ensures r == Encode(Tar, entries, host, codec)
    {
      var out: seq<CodecRecord> := [];
      for k := 0 to |entries|
        invariant Emit(Tar, entries[..k], host, codec) == Ok(out)
      {
        var header := TarHeader(TarMode, host.clock(k), host.uid, host.username, host.gid, host.groupname);
        var rec: CodecRecord;
        match entries[k] {
          case Directory(name) => rec := CodecRecord(DirectoryRecord, name, 0, [], header);
          case File(name, data) => rec := CodecRecord(RegularRecord, name, |data|, data, header);
        }
        assert rec == RecordOf(entries[k], MetadataFor(Tar, host, k));
        EmitStep(Tar, entries, host, codec, k, out);
        var refused := codec.refuse(out, rec);
        if refused.Some? {
          EmitErrPersists(Tar, entries, host, codec, k + 1);
          return Err(refused.value);
        }
        out := out + [rec];
      }
      assert entries[..|entries|] == entries;
      var failed := codec.finish(out);
      if failed.Some? {
        return Err(failed.value);
      }
      return Ok(out);
    }

    /** `archive_7z`: creating the 7z writer may fail; then for each entry a
        default 7z entry stamped with the current time, flagged as a
        directory and pushed without data, or pushed with the file's data;
        then `finish`. */
    method Archive7z(host: Host, codec: Codec) returns (r: Result<seq<CodecRecord>>)
      ensures r == Encode(Sevenz, entries, host, codec)
    {
      if codec.open.Some? {
        return Err(codec.open.value);
      }
      var out: seq<CodecRecord> := [];
      for k := 0 to |entries|
        invariant Emit(Sevenz, entries[..k], host, codec) == Ok(out)
      {
        var stamp := SevenzLastModified(host.clock(k));
        var rec: CodecRecord;
        match entries[k] {
          case Directory(name) => rec := CodecRecord(DirectoryRecord, name, 0, [], stamp);
          case File(name, data) => rec := CodecRecord(RegularRecord, name, |data|, data, stamp);
        }
        assert rec == RecordOf(entries[k], MetadataFor(Sevenz, host, k));
        EmitStep(Sevenz, entries, host, codec, k, out);
        var refused := codec.refuse(out, rec);
        if refused.Some? {
          EmitErrPersists(Sevenz, entries, host, codec, k + 1);
          return Err(refused.value);
        }
        out := out + [rec];
      }
      assert entries[..|entries|] == entries;
      var failed := codec.finish(out);
      if failed.Some? {
        return Err(failed.value);
      }
      return Ok(out);
    }
  }
}
