/** The format-neutral entry model and the decoding of a codec's native
    member record into it. */
module ArcEntries {
  import opened ArcFormats

  /** One byte of archive content. */
  newtype byte = b: int | 0 <= b < 0x100

  /** One archive member: a file with its full content, or a directory. */
  datatype ArcEntry = File(name: string, data: seq<byte>) | Directory(name: string)

  /** A member as a codec library enumerates it: the path the codec reports,
      whether the codec flags the member as a directory, and the member's
      content read to the end. */
  datatype NativeEntry = NativeEntry(name: string, isDir: bool, data: seq<byte>)

  /** The `From` conversions of the zip and tar adapters (and the body of the
      7z reading closure): a directory keeps only its name, anything else
      becomes a file with its whole content. Names are passed through
      verbatim, so a trailing separator the codec reports is kept. */
  function DecodeEntry(n: NativeEntry): (e: ArcEntry)
    ensures e.name == n.name
    ensures e.Directory? <==> n.isDir
    ensures e.File? ==> e.data == n.data
  {
    if n.isDir then Directory(n.name) else File(n.name, n.data)
  }

  /** Decodes a whole listing, keeping the codec's order. */
  function DecodeAll(ns: seq<NativeEntry>): (es: seq<ArcEntry>)
    ensures |es| == |ns|
    ensures forall k :: 0 <= k < |ns| ==> es[k] == DecodeEntry(ns[k])
  {
    if ns == [] then [] else DecodeAll(ns[..|ns| - 1]) + [DecodeEntry(ns[|ns| - 1])]
  }
}
