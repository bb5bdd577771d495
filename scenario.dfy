/** The three entries of the crate's own reader and writer tests, written
    with a writer of any format and read back through a reader. */
module ArcScenario {
  import opened ArcFormats
  import opened ArcEntries
  import opened ArcReading
  import opened ArcWriting

  /** The bytes of "twoja stara\n". */
  const Greeting: seq<byte> := [0x74, 0x77, 0x6F, 0x6A, 0x61, 0x20, 0x73, 0x74, 0x61, 0x72, 0x61, 0x0A]

  const Sample: seq<ArcEntry> := [File("hmmm", Greeting), Directory("uwu/"), File("uwu/owo", [])]

  /** Pushes the sample entries, archives them and opens a reader on the
      result: the reader reports the writer's format and exactly the pushed
      entries, the empty file still a file; an encoding failure is passed
      on unchanged. */
  method RoundTripScenario(f: ArcFormat, host: Host, codec: Codec) returns (read: Result<Loaded>)
    ensures Encode(f, Sample, host, codec).Ok? ==> read == Ok(Loaded(f, Sample))
    ensures Encode(f, Sample, host, codec).Err? ==> read == Err(Encode(f, Sample, host, codec).error)
  {
    var writer := new ArcWriter(f);
    writer.Push(File("hmmm", Greeting));
    writer.Push(Directory("uwu/"));
    writer.Push(File("uwu/owo", []));
    assert writer.entries == Sample;
    var archived := writer.Archive(host, codec);
    if archived.Err? {
      return Err(archived.error);
    }
    WriteThenRead(f, Sample, host, codec);
    var reader := ArcReader.New(Reopen(f, archived.value));
    read := Ok(Loaded(reader.value.format, reader.value.entries));
  }
}
