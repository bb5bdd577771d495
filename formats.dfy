/** The archive formats the crate supports, its error kinds, and the map from
    the extension reported by the signature sniffer to a format. */
module ArcFormats {

  /** The three supported container formats. */
  datatype ArcFormat = Zip | Tar | Sevenz

  /** The crate's error kinds. The codec errors carry no payload here: the
      wrapped library errors are foreign. */
  datatype ArcError = IoError | ZipError | SevenzError | UnrecognizedFormat

  datatype Option<+T> = None | Some(value: T)

  /** The crate's `ArcResult<T>`. */
  datatype Result<+T> = Ok(value: T) | Err(error: ArcError)

  /** The extension string that the signature sniffer reports for a
      container of format `f`. */
  function Extension(f: ArcFormat): string
  {
    match f
    case Zip => "zip"
    case Tar => "tar"
    case Sevenz => "7z"
  }

  /** Classifies a sniffed extension: the format whose extension it is, or
      `UnrecognizedFormat` when it is the extension of no supported format. */
  function TryFromExtension(ext: string): (r: Result<ArcFormat>)
    ensures r.Ok? ==> Extension(r.value) == ext
    ensures r.Err? <==> forall f: ArcFormat :: Extension(f) != ext
    ensures r.Err? ==> r.error == UnrecognizedFormat
  {
    if ext == "zip" then Ok(Zip)
    else if ext == "7z" then Ok(Sevenz)
    else if ext == "tar" then Ok(Tar)
    else Err(UnrecognizedFormat)
  }

  /** Classification inverts `Extension`: every format is recognised from
      its own extension and from no other string. */
  lemma ExtensionRoundTrip(f: ArcFormat, ext: string)
    ensures TryFromExtension(Extension(f)) == Ok(f)
    ensures TryFromExtension(ext) == Ok(f) <==> ext == Extension(f)
  {
  }
}
