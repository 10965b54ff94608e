/**
 * The platform's data model: the closed set of download encodings with
 * their three text tables (the serde tags, `Display` and `FromStr`), and
 * the later revision of the decoded response records, in which several
 * fields became optional.
 */
module Data {
  import opened Results

  /** The encodings the platform offers for a purchased release. */
  datatype DownloadFormat = Mp3V0 | Mp3320 | Flac | Aac | Vorbis | Alac | Wav | AiffLossless

  /** The tag under which a format appears as a key of a `downloads` object (the serde rename). */
  function SerdeTag(f: DownloadFormat): string {
    match f
    case Mp3V0 => "mp3-v0"
    case Mp3320 => "mp3-320"
    case Flac => "flac"
    case Aac => "aac-hi"
    case Vorbis => "vorbis"
    case Alac => "alac"
    case Wav => "wav"
    case AiffLossless => "aiff-lossless"
  }

  /** The name that `Display` wraps in parentheses. */
  function Name(f: DownloadFormat): string {
    match f
    case Mp3V0 => "mp3-v0"
    case Mp3320 => "mp3-320"
    case Flac => "flac"
    case Aac => "aac-hi"
    case Vorbis => "vorbis"
    case Alac => "alac"
    case Wav => "wav"
    case AiffLossless => "aiff-lossless"
  }

  /** `format!("{}", f)` */
  function Display(f: DownloadFormat): (s: string)
    ensures |s| == |Name(f)| + 2 && s[0] == '(' && s[|s| - 1] == ')'
    ensures s[1..|s| - 1] == Name(f)
  {
    "(" + Name(f) + ")"
  }

  datatype ParseDownloadFormatError = ParseDownloadFormatError

  /**
   * `DownloadFormat::from_str`: exactly the eight names are accepted, each
   * for its own format; every other string is an error.
   */
  function FromStr(s: string): (r: Result<DownloadFormat, ParseDownloadFormatError>)
    ensures r.Ok? ==> Name(r.value) == s
    ensures r.Err? <==> forall f: DownloadFormat :: Name(f) != s
  {
    match s
    case "mp3-v0" => Ok(Mp3V0)
    case "mp3-320" => Ok(Mp3320)
    case "flac" => Ok(Flac)
    case "aac-hi" => Ok(Aac)
    case "vorbis" => Ok(Vorbis)
    case "alac" => Ok(Alac)
    case "wav" => Ok(Wav)
    case "aiff-lossless" => Ok(AiffLossless)
    case _ => Err(ParseDownloadFormatError)
  }

  /** Parsing a format's name gives that format back. */
  lemma FromStrOfName(f: DownloadFormat)
    ensures FromStr(Name(f)) == Ok(f)
  {
    var r := FromStr(Name(f));
    assert r.Ok?;
    NameInjective(r.value, f);
  }

  /** Different formats have different names. */
  lemma NameInjective(f: DownloadFormat, g: DownloadFormat)
    ensures Name(f) == Name(g) ==> f == g
  {
    if f != g {
      NamesDiffer(f, g);
    }
  }

  lemma NamesDiffer(f: DownloadFormat, g: DownloadFormat)
    requires f != g
    ensures Name(f) != Name(g)
  {
  }

  /** `Display` text is not itself a name: parsing it fails. */
  lemma FromStrOfDisplay(f: DownloadFormat)
    ensures FromStr(Display(f)).Err?
  {
    var d := Display(f);
    forall g: DownloadFormat ensures Name(g) != d {
      assert d[0] == '(';
    }
  }

  /** The serde tags coincide with the `FromStr` names, so map keys and text names agree. */
  lemma SerdeTagIsName(f: DownloadFormat)
    ensures SerdeTag(f) == Name(f)
    ensures FromStr(SerdeTag(f)) == Ok(f)
  {
    FromStrOfName(f);
  }

  // ---------------------------------------------------------------------
  // Response records of the later revision
  // ---------------------------------------------------------------------

  /** The payload of the stat endpoint, with its `result` status. */
  datatype ParsedStatDownload = ParsedStatDownload(
    result: Option<string>,
    downloadUrl: Option<string>,
    url: string)
}
