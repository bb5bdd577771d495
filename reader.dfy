/** The read side: decoding a buffer with the codec of its sniffed format,
    and the reader whose cursor walks the decoded entries. */
module ArcReading {
  import opened ArcFormats
  import opened ArcEntries

  /** An archive buffer as the crate's collaborators see it. The bytes are
      opaque here; what the crate does with them depends only on what the
      signature sniffer and each codec report for them:
      - `extension`: the extension of the type the sniffer detects;
      - `zipMembers`: the zip codec's members fetched by index, each of which
        may fail;
      - `tarListing`: the tar codec's member listing, which may fail as a
        whole;
      - `sevenzListing`: the 7z codec's members, after opening the buffer
        with an empty password, which may fail. */
  datatype Buffer = Buffer(
    extension: string,
    zipMembers: seq<Result<NativeEntry>>,
    tarListing: Result<seq<NativeEntry>>,
    sevenzListing: Result<seq<NativeEntry>>)

  /** What a successful read produces: the detected format and the decoded
      entries in container order. */
  datatype Loaded = Loaded(format: ArcFormat, entries: seq<ArcEntry>)

  /** Zip decoding, member by member: every member decoded in index order,
      or the error of the first member that cannot be fetched. */
  function DecodeZip(members: seq<Result<NativeEntry>>): (r: Result<seq<ArcEntry>>)
    ensures r.Ok? <==> forall k :: 0 <= k < |members| ==> members[k].Ok?
    ensures r.Ok? ==> |r.value| == |members|
    ensures r.Ok? ==> forall k :: 0 <= k < |members| ==> r.value[k] == DecodeEntry(members[k].value)
    ensures r.Err? ==> exists k :: 0 <= k < |members| && members[k] == Err(r.error) &&
                                   forall j :: 0 <= j < k ==> members[j].Ok?
  {
    if members == [] then Ok([])
    else
      var init := DecodeZip(members[..|members| - 1]);
      var last := members[|members| - 1];
      if init.Err? then init
      else if last.Err? then Err(last.error)
      else Ok(init.value + [DecodeEntry(last.value)])
  }

  /** Once a prefix of the members fails to decode, the whole archive fails
      with the same error: later members are never looked at. */
  lemma {:induction false} DecodeZipErrPersists(members: seq<Result<NativeEntry>>, n: nat)
    requires n <= |members|
    requires DecodeZip(members[..n]).Err?
    ensures DecodeZip(members) == DecodeZip(members[..n])
    decreases |members| - n
  {
    if n < |members| {
      var m := n + 1;
      assert members[..m][..n] == members[..n];
      DecodeZipErrPersists(members, m);
    } else {
      assert members[..n] == members;
    }
  }

  /** `read_zip`: fetches the members by index, decoding each, and stops at
      the first member that cannot be fetched. */
  method ReadZip(members: seq<Result<NativeEntry>>) returns (r: Result<seq<ArcEntry>>)
    ensures r == DecodeZip(members)
  {
    var entries: seq<ArcEntry> := [];
    for i := 0 to |members|
      invariant DecodeZip(members[..i]) == Ok(entries)
    {
      assert members[..i + 1][..i] == members[..i];
      match members[i] {
        case Err(e) =>
          DecodeZipErrPersists(members, i + 1);
          return Err(e);
        case Ok(n) =>
          entries := entries + [DecodeEntry(n)];
      }
    }
    assert members[..|members|] == members;
    return Ok(entries);
  }

  /** Decodes a codec's member listing: a listing that cannot be produced
      fails the read with its error; otherwise one entry per listed member,
      in listing order. This is `read_tar` itself (a map and collect over
      the listing) and what the 7z reading loop computes. */
  function DecodeListing(listing: Result<seq<NativeEntry>>): (r: Result<seq<ArcEntry>>)
    ensures r.Err? <==> listing.Err?
    ensures r.Err? ==> r.error == listing.error
    ensures r.Ok? ==> |r.value| == |listing.value|
    ensures r.Ok? ==> forall k :: 0 <= k < |listing.value| ==> r.value[k] == DecodeEntry(listing.value[k])
  {
    match listing
    case Err(e) => Err(e)
    case Ok(ns) => Ok(DecodeAll(ns))
  }

  /** `read_7z`: opening the buffer may fail; otherwise the closure visits
      every member in turn and pushes its decoded entry. */
  method Read7z(listing: Result<seq<NativeEntry>>) returns (r: Result<seq<ArcEntry>>)
    ensures r.Err? <==> listing.Err?
    ensures r.Err? ==> r.error == listing.error
    ensures r.Ok? ==> |r.value| == |listing.value|
    ensures r.Ok? ==> forall k :: 0 <= k < |listing.value| ==> r.value[k] == DecodeEntry(listing.value[k])
  {
    if listing.Err? {
      return Err(listing.error);
    }
    var members := listing.value;
    var entries: seq<ArcEntry> := [];
    for i := 0 to |members|
      invariant |entries| == i
      invariant forall k :: 0 <= k < i ==> entries[k] == DecodeEntry(members[k])
    {
      var m := members[i];
      if m.isDir {
        entries := entries + [Directory(m.name)];
      } else {
        entries := entries + [File(m.name, m.data)];
      }
    }
    return Ok(entries);
  }

  /** The entries the codec of format `f` decodes from `buf`: it succeeds
      exactly when `f`'s own codec can produce every member, giving one
      entry per member of that codec in its order, and otherwise fails with
      that codec's error. */
  function DecodeWith(f: ArcFormat, buf: Buffer): (r: Result<seq<ArcEntry>>)
    ensures r.Ok? <==>
              && (f == Zip ==> forall k :: 0 <= k < |buf.zipMembers| ==> buf.zipMembers[k].Ok?)
              && (f == Tar ==> buf.tarListing.Ok?)
              && (f == Sevenz ==> buf.sevenzListing.Ok?)
    ensures r.Ok? && f == Zip ==>
              && |r.value| == |buf.zipMembers|
              && forall k :: 0 <= k < |buf.zipMembers| ==> r.value[k] == DecodeEntry(buf.zipMembers[k].value)
    ensures r.Ok? && f == Tar ==>
              && |r.value| == |buf.tarListing.value|
              && forall k :: 0 <= k < |buf.tarListing.value| ==> r.value[k] == DecodeEntry(buf.tarListing.value[k])
    ensures r.Ok? && f == Sevenz ==>
              && |r.value| == |buf.sevenzListing.value|
              && forall k :: 0 <= k < |buf.sevenzListing.value| ==> r.value[k] == DecodeEntry(buf.sevenzListing.value[k])
    ensures r.Err? && f == Zip ==>
              exists k :: 0 <= k < |buf.zipMembers| && buf.zipMembers[k] == Err(r.error) &&
                          forall j :: 0 <= j < k ==> buf.zipMembers[j].Ok?
    ensures r.Err? && f == Tar ==> r.error == buf.tarListing.error
    ensures r.Err? && f == Sevenz ==> r.error == buf.sevenzListing.error
  {
    match f
    case Zip => DecodeZip(buf.zipMembers)
    case Tar => DecodeListing(buf.tarListing)
    case Sevenz => DecodeListing(buf.sevenzListing)
  }

  /** What `ArcReader::new` computes: classify the sniffed extension, then
      decode the buffer with the matching codec, propagating either
      failure. */
  function Load(buf: Buffer): (r: Result<Loaded>)
    ensures (forall f: ArcFormat :: Extension(f) != buf.extension) ==> r == Err(UnrecognizedFormat)
    ensures r.Ok? ==> Extension(r.value.format) == buf.extension
    ensures r.Ok? ==> DecodeWith(r.value.format, buf) == Ok(r.value.entries)
    ensures forall f: ArcFormat :: Extension(f) == buf.extension ==>
              && (r.Ok? <==> DecodeWith(f, buf).Ok?)
              && (r.Err? ==> r.error == DecodeWith(f, buf).error)
    ensures r.Err? && r.error != UnrecognizedFormat ==>
              exists f: ArcFormat :: Extension(f) == buf.extension && DecodeWith(f, buf) == Err(r.error)
  {
    match TryFromExtension(buf.extension)
    case Err(e) => Err(e)
    case Ok(f) =>
      match DecodeWith(f, buf)
      case Err(e) => Err(e)
      case Ok(es) => Ok(Loaded(f, es))
  }

  /** One call of `next` on entries `entries` with the cursor at `i`: the
      item returned and the new cursor. */
  function NextStep(entries: seq<ArcEntry>, i: nat): (step: (Option<ArcEntry>, nat))
    requires i <= |entries|
    ensures step.1 <= |entries|
  {
    if i == |entries| then (None, i) else (Some(entries[i]), i + 1)
  }

  /** The items returned by `k` successive calls of `next` starting with the
      cursor at `i`. */
  function Drain(entries: seq<ArcEntry>, i: nat, k: nat): (items: seq<Option<ArcEntry>>)
    requires i <= |entries|
    ensures |items| == k
    decreases k
  {
    if k == 0 then []
    else
      var step := NextStep(entries, i);
      [step.0] + Drain(entries, step.1, k - 1)
  }

  /** An exhausted cursor stays exhausted: every later call returns `None`. */
  lemma {:induction false} DrainExhausted(entries: seq<ArcEntry>, extra: nat)
    ensures Drain(entries, |entries|, extra) == seq(extra, _ => None)
    decreases extra
  {
    if extra > 0 {
      DrainExhausted(entries, extra - 1);
    }
  }

  /** Calling `next` from cursor `i` returns the remaining entries in order,
      each exactly once, and then `None` on every further call. */
  lemma {:induction false} DrainYieldsEntries(entries: seq<ArcEntry>, i: nat, extra: nat)
    requires i <= |entries|
    ensures Drain(entries, i, |entries| - i + extra) ==
            seq(|entries| - i, k requires 0 <= k < |entries| - i => Some(entries[i + k])) +
            seq(extra, _ => None)
    decreases |entries| - i
  {
    if i == |entries| {
      DrainExhausted(entries, extra);
    } else {
      DrainYieldsEntries(entries, i + 1, extra);
    }
  }

  /** The reader: the detected format and the decoded entries are fixed at
      construction; only the iteration cursor `i` moves, forward. */
  class ArcReader {
    const format: ArcFormat
    const entries: seq<ArcEntry>
    var i: nat

    /** The cursor never passes the end of the entries. */
    ghost predicate Valid()
      reads this
    {
      i <= |entries|
    }

    /** The struct literal of `ArcReader::new`: the cursor starts at zero. */
    constructor Init(format: ArcFormat, entries: seq<ArcEntry>)
      ensures this.format == format && this.entries == entries
      ensures i == 0 && Valid()
    {
      this.format := format;
      this.entries := entries;
      i := 0;
    }

    /** `ArcReader::new`: a fresh reader over everything the matching codec
        decodes, or the error of the classification or of the decoding. */
    static method New(buf: Buffer) returns (r: Result<ArcReader>)
      ensures Load(buf).Err? ==> r == Err(Load(buf).error)
      ensures Load(buf).Ok? ==> r.Ok? && fresh(r.value) && r.value.Valid() && r.value.i == 0
      ensures Load(buf).Ok? ==> r.value.format == Load(buf).value.format
      ensures Load(buf).Ok? ==> r.value.entries == Load(buf).value.entries
    {
      var classified := TryFromExtension(buf.extension);
      if classified.Err? {
        return Err(classified.error);
      }
      var format := classified.value;
      var decoded: Result<seq<ArcEntry>>;
      match format {
        case Zip => decoded := ReadZip(buf.zipMembers);
        case Tar => decoded := DecodeListing(buf.tarListing);
        case Sevenz => decoded := Read7z(buf.sevenzListing);
      }
      if decoded.Err? {
        return Err(decoded.error);
      }
      var reader := new ArcReader.Init(format, decoded.value);
      return Ok(reader);
    }

    /** `Iterator::next`: `None` once the cursor is at the end, otherwise the
        entry under the cursor, which then moves on by one. */
    method Next() returns (item: Option<ArcEntry>)
      requires Valid()
      modifies this
      ensures Valid()
      ensures (item, i) == NextStep(entries, old(i))
      ensures item == None <==> old(i) == |entries|
      ensures old(i) < |entries| ==> item == Some(entries[old(i)]) && i == old(i) + 1
      ensures old(i) == |entries| ==> i == old(i)
    {
      if i == |entries| {
        item := None;
      } else {
        i := i + 1;
        item := Some(entries[i - 1]);
      }
    }
  }
}
