/**
 * The lecture-recording downloader script: it asks for a URL and an output
 * directory, downloads the file into that directory and converts it to MP3
 * with `ffmpeg` unless its name already ends in `.mp3`.
 *
 * The network transfer, the `ffmpeg` process, `platform.system()` and the
 * home directory are not computed here: their results are parameters. What
 * is modelled is every decision the script takes around them and every
 * string it builds: the file name, the paths, the converter's argument list
 * and the order of the side effects of one run.
 */
module Downloader {
  import opened PyStr
  import opened PosixPath

  datatype Option<T> = None | Some(value: T)

  /** A value, or the message of the exception raised instead. */
  datatype Result<T> = Ok(value: T) | Err(message: string)

  /** How the streamed GET and the write of the body to disk ended. */
  datatype Transfer = Transferred | TransferFailed(detail: string)

  /** How the converter process ended. */
  datatype Process =
    | ExitedZero
    | ExitedNonZero(detail: string)   // `subprocess.CalledProcessError`
    | NotStarted(detail: string)      // the program could not be run at all, e.g. not on `PATH`

  /** A request the script makes of the outside world. */
  datatype Effect =
    | HttpGet(url: string, saveAs: string)  // stream `url` into the file `saveAs`
    | Exec(argv: seq<string>)               // run a program and wait for it

  /** What one run of the script did. */
  datatype Run = Run(
    outputDirectory: string,
    effects: seq<Effect>,
    download: Result<string>,
    conversion: Option<Result<string>>)

  const DefaultFilename := "downloaded_file"
  const Mp3Suffix := ".mp3"
  const DownloadError := "An error occurred during download: "
  const ConversionError := "FFmpeg conversion failed: "

  // ---------------------------------------------------------------------------
  // Output directory
  // ---------------------------------------------------------------------------

  /**
   * `get_default_download_directory`, given what `platform.system()` and
   * `os.path.expanduser("~")` return: `Downloads` under the home directory on
   * Windows and macOS, the current directory anywhere else.
   */
  function DefaultDownloadDirectory(system: string, home: string): (d: string)
    ensures d != ""
    ensures system == "Windows" || system == "Darwin" ==>
      Basename(d) == "Downloads" && Dirname(d) == TrimDir(home)
    ensures system != "Windows" && system != "Darwin" ==> d == "."
  {
    if system == "Windows" || system == "Darwin" then
      JoinFile(home, "Downloads");
      Join(home, "Downloads")
    else "."
  }

  /**
   * The directory `main` works in: what the user typed, stripped, or the
   * default directory when that is blank.
   */
  function OutputDirectory(typed: string, system: string, home: string): (d: string)
    ensures d != ""
    ensures !AllSpace(typed) ==> d == Strip(typed) && !IsSpace(d[0]) && !IsSpace(d[|d| - 1])
    ensures AllSpace(typed) ==> d == DefaultDownloadDirectory(system, home)
  {
    var entered := Strip(typed);
    if entered == "" then DefaultDownloadDirectory(system, home) else entered
  }

  // ---------------------------------------------------------------------------
  // Download
  // ---------------------------------------------------------------------------

  /**
   * The local file name `download_file` derives from a URL: the last
   * `/`-separated piece, or `downloaded_file` when that piece is empty.
   * Query strings and fragments are not removed.
   */
  function DownloadFilename(url: string): (name: string)
    ensures name != "" && '/' !in name
    ensures url == "" || url[|url| - 1] == '/' ==> name == DefaultFilename
    ensures url != "" && url[|url| - 1] != '/' ==>
      EndsWith(url, name) && (|name| == |url| || url[|url| - |name| - 1] == '/')
  {
    LastPieceIsBasename(url);
    BasenameEmpty(url);
    DefaultFilenameIsPlain();
    var pieces := Split(url, '/');
    var last := pieces[|pieces| - 1];
    if last == "" then DefaultFilename else last
  }

  /** The fallback name is a plain file name. */
  lemma DefaultFilenameIsPlain()
    ensures DefaultFilename != "" && '/' !in DefaultFilename
  {
  }

  /** `url.split("/")[-1]` is `posixpath.basename(url)`. */
  lemma LastPieceIsBasename(url: string)
    ensures var pieces := Split(url, '/');
      pieces[|pieces| - 1] == Basename(url)
  {
    SplitLast(url, '/');
  }

  /** The path `download_file` writes to: the file name joined onto the output directory. */
  function DownloadTarget(url: string, outputDirectory: string): (path: string)
    ensures Basename(path) == DownloadFilename(url)
    ensures Dirname(path) == TrimDir(outputDirectory)
  {
    JoinFile(outputDirectory, DownloadFilename(url));
    Join(outputDirectory, DownloadFilename(url))
  }

  /**
   * `download_file`: a completed transfer returns the target path; any
   * failure (the request, the HTTP status, opening or writing the file) is
   * re-raised with the download prefix.
   */
  function DownloadFile(url: string, outputDirectory: string, transfer: Transfer): (r: Result<string>)
    ensures r.Ok? <==> transfer.Transferred?
    ensures r.Ok? ==> r.value == DownloadTarget(url, outputDirectory)
    ensures r.Err? ==> r.message == DownloadError + transfer.detail
  {
    match transfer
    case Transferred => Ok(DownloadTarget(url, outputDirectory))
    case TransferFailed(detail) => Err(DownloadError + detail)
  }

  // ---------------------------------------------------------------------------
  // Conversion
  // ---------------------------------------------------------------------------

  /**
   * The test `main` applies to the downloaded path: its lower-cased form does
   * not end in `.mp3`. Only the last four characters matter, in any case:
   * `X.MP3` and `x.Mp3` are not converted, `x.mp4` and `mp3` are.
   */
  predicate NeedsConversion(path: string): (r: bool)
    ensures r <==> !HasMp3Tail(path)
  {
    LowerEndsWithMp3(path);
    !EndsWith(Lower(path), Mp3Suffix)
  }

  /** The last four characters spell `.mp3`, in any mix of case. */
  predicate HasMp3Tail(p: string) {
    var n := |p|;
    n >= 4 && p[n - 4] == '.'
    && (p[n - 3] == 'm' || p[n - 3] == 'M')
    && (p[n - 2] == 'p' || p[n - 2] == 'P')
    && p[n - 1] == '3'
  }

  /** `lower()` ends in `.mp3` exactly when the last four characters are `.`, `m`/`M`, `p`/`P`, `3`. */
  lemma LowerEndsWithMp3(path: string)
    ensures EndsWith(Lower(path), Mp3Suffix) <==> HasMp3Tail(path)
  {
    var low := Lower(path);
    var n := |path|;
    if n >= 4 {
      assert low[n - 4..] == [low[n - 4], low[n - 3], low[n - 2], low[n - 1]];
      assert Mp3Suffix == ['.', 'm', 'p', '3'];
    }
  }

  /** The name of the MP3 file: the input's base name without its extension, plus `.mp3`. */
  function Mp3Filename(input: string): (file: string)
    ensures '/' !in file
    ensures EndsWith(file, Mp3Suffix)
  {
    var name := Basename(input);
    NoSlashInRoot(name);
    Mp3Appended(SplitExt(name).0);
    SplitExt(name).0 + Mp3Suffix
  }

  /** Appending `.mp3` to a slash-free root gives a slash-free name ending in `.mp3`. */
  lemma Mp3Appended(root: string)
    requires '/' !in root
    ensures '/' !in root + Mp3Suffix
    ensures EndsWith(root + Mp3Suffix, Mp3Suffix)
  {
    var file := root + Mp3Suffix;
    assert file[|root|..] == Mp3Suffix;
    forall k | 0 <= k < |file|
      ensures file[k] != '/'
    {
      if k < |root| {
        assert file[k] == root[k];
      }
    }
  }

  /**
   * The path `convert_to_mp3` writes: the MP3 file name in the output
   * directory (not the input's).
   */
  function Mp3Path(input: string, outputDirectory: string): (out: string)
    ensures EndsWith(out, Mp3Suffix)
    ensures Basename(out) == Mp3Filename(input)
  {
    var file := Mp3Filename(input);
    JoinBasename(outputDirectory, file);
    var out := Join(outputDirectory, file);
    EndsWithTrans(out, file, Mp3Suffix);
    out
  }

  /** The MP3 file lands in the output directory, whatever directory the input was in. */
  lemma Mp3PathInOutputDirectory(input: string, outputDirectory: string)
    ensures Dirname(Mp3Path(input, outputDirectory)) == TrimDir(outputDirectory)
  {
    JoinFile(outputDirectory, Mp3Filename(input));
  }

  /** The root `splitext` leaves of a slash-free name is slash-free. */
  lemma NoSlashInRoot(name: string)
    requires '/' !in name
    ensures '/' !in SplitExt(name).0
  {
    var parts := SplitExt(name);
    forall k | 0 <= k < |parts.0| ensures parts.0[k] != '/' {
      assert name[k] == parts.0[k];
    }
  }

  /** The options `convert_to_mp3` passes between input and output: no video, 192k bit rate, 44100 Hz, overwrite. */
  const AudioOptions: seq<string> := ["-vn", "-ab", "192k", "-ar", "44100", "-y"]

  /**
   * The argument list `convert_to_mp3` runs to turn `input` into `output`:
   * `ffmpeg`, the input as its only `-i` argument, the audio options, and
   * the output as the last word.
   */
  function ConverterCommand(input: string, output: string): (argv: seq<string>)
    ensures |argv| == 10 && argv[0] == "ffmpeg"
    ensures argv[1] == "-i" && argv[2] == input
    ensures argv[3..9] == AudioOptions
    ensures argv[9] == output
  {
    ["ffmpeg", "-i", input] + AudioOptions + [output]
  }

  /**
   * `convert_to_mp3` as seen from `main`: the MP3 path on exit status 0; a
   * non-zero exit re-raised with the conversion prefix; a converter that
   * cannot be started raises its own error, which `main` prints unchanged.
   */
  function ConvertToMp3(input: string, outputDirectory: string, process: Process): (r: Result<string>)
    ensures r.Ok? <==> process.ExitedZero?
    ensures r.Ok? ==> r.value == Mp3Path(input, outputDirectory)
    ensures process.ExitedNonZero? ==> r == Err(ConversionError + process.detail)
    ensures process.NotStarted? ==> r == Err(process.detail)
  {
    match process
    case ExitedZero => Ok(Mp3Path(input, outputDirectory))
    case ExitedNonZero(detail) => Err(ConversionError + detail)
    case NotStarted(detail) => Err(detail)
  }

  // ---------------------------------------------------------------------------
  // main
  // ---------------------------------------------------------------------------

  /**
   * One run of `main`: strip the URL, choose the directory, download, and
   * convert only when the downloaded path does not already end in `.mp3`.
   */
  function Main(typedUrl: string, typedDirectory: string, system: string, home: string,
                transfer: Transfer, process: Process): (run: Run)
    ensures run.outputDirectory == OutputDirectory(typedDirectory, system, home)
    ensures 1 <= |run.effects| <= 2
    ensures run.effects[0] == HttpGet(Strip(typedUrl), DownloadTarget(Strip(typedUrl), run.outputDirectory))
    ensures run.download == DownloadFile(Strip(typedUrl), run.outputDirectory, transfer)
    ensures run.download.Err? ==> |run.effects| == 1 && run.conversion.None?
    ensures |run.effects| == 2 <==>
      transfer.Transferred? && NeedsConversion(DownloadFilename(Strip(typedUrl)))
    ensures run.conversion.Some? <==> |run.effects| == 2
    ensures |run.effects| == 2 ==>
      run.effects[1] == Exec(ConverterCommand(run.download.value, Mp3Path(run.download.value, run.outputDirectory)))
      && run.conversion.value == ConvertToMp3(run.download.value, run.outputDirectory, process)
  {
    var url := Strip(typedUrl);
    var dir := OutputDirectory(typedDirectory, system, home);
    var get := HttpGet(url, DownloadTarget(url, dir));
    var download := DownloadFile(url, dir, transfer);
    if download.Err? then Run(dir, [get], download, None)
    else
      var path := download.value;
      ConversionDecidedByFilename(url, dir);
      if NeedsConversion(path) then
        Run(dir, [get, Exec(ConverterCommand(path, Mp3Path(path, dir)))], download, Some(ConvertToMp3(path, dir, process)))
      else
        Run(dir, [get], download, None)
  }

  // ---------------------------------------------------------------------------
  // Properties
  // ---------------------------------------------------------------------------

  /** A file name after a `/` ends in `.mp3` exactly when the whole path does. */
  lemma Mp3TailOfFile(path: string, name: string)
    requires EndsWith(path, name)
    requires |name| < |path| ==> path[|path| - |name| - 1] == '/'
    ensures HasMp3Tail(path) <==> HasMp3Tail(name)
  {
    var n, m := |path|, |name|;
    if m >= 4 {
      assert path[n - 4] == name[m - 4];
      assert path[n - 3] == name[m - 3];
      assert path[n - 2] == name[m - 2];
      assert path[n - 1] == name[m - 1];
    } else if m < n {
      assert path[n - m - 1] == '/';
    }
  }

  /**
   * Whether a download is converted depends only on the file name taken from
   * the URL, not on the output directory it is joined onto.
   */
  lemma ConversionDecidedByFilename(url: string, outputDirectory: string)
    ensures NeedsConversion(DownloadTarget(url, outputDirectory)) <==> NeedsConversion(DownloadFilename(url))
  {
    var name := DownloadFilename(url);
    var path := DownloadTarget(url, outputDirectory);
    TargetTail(url, outputDirectory);
    assert NeedsConversion(name) == !HasMp3Tail(name);
    assert NeedsConversion(path) == !HasMp3Tail(path);
  }

  /** The download path has the `.mp3` tail exactly when its file name does. */
  lemma TargetTail(url: string, outputDirectory: string)
    ensures HasMp3Tail(DownloadTarget(url, outputDirectory)) <==> HasMp3Tail(DownloadFilename(url))
  {
    Mp3TailOfFile(DownloadTarget(url, outputDirectory), DownloadFilename(url));
  }

  /** A conversion never writes over the file it reads: the MP3 path differs from the download. */
  lemma ConversionNeverOverwritesInput(input: string, outputDirectory: string)
    requires NeedsConversion(input)
    ensures Mp3Path(input, outputDirectory) != input
  {
    var out := Mp3Path(input, outputDirectory);
    Mp3SuffixHasTail(out);
  }

  /** A path ending in lower-case `.mp3` has the `.mp3` tail. */
  lemma Mp3SuffixHasTail(p: string)
    requires EndsWith(p, Mp3Suffix)
    ensures HasMp3Tail(p)
  {
    var n := |p|;
    assert p[n - 4..] == Mp3Suffix;
    assert p[n - 4] == Mp3Suffix[0] && p[n - 3] == Mp3Suffix[1];
    assert p[n - 2] == Mp3Suffix[2] && p[n - 1] == Mp3Suffix[3];
  }

  /**
   * A base name `stem + ext` with a real extension is converted to
   * `stem + ".mp3"` in the output directory: only the last extension goes.
   */
  lemma Mp3PathReplacesExtension(input: string, outputDirectory: string, stem: string, ext: string)
    requires Basename(input) == stem + ext
    requires ext != "" && ext[0] == '.' && '.' !in ext[1..]
    requires !AllDots(stem)
    ensures Mp3Path(input, outputDirectory) == Join(outputDirectory, stem + Mp3Suffix)
  {
    var name := Basename(input);
    assert '/' !in stem && '/' !in ext by {
      forall k | 0 <= k < |stem| ensures stem[k] != '/' {
        assert name[k] == stem[k];
      }
      forall k | 0 <= k < |ext| ensures ext[k] != '/' {
        assert name[|stem| + k] == ext[k];
      }
    }
    SplitExtOfName(stem, ext);
  }

  /**
   * A base name with no extension (no dot, or only leading dots such as
   * `.wav`) keeps all of it and gets `.mp3` appended.
   */
  lemma Mp3PathAppendsWithoutExtension(input: string, outputDirectory: string)
    requires LeadingDotsOnly(Basename(input))
    ensures Mp3Path(input, outputDirectory) == Join(outputDirectory, Basename(input) + Mp3Suffix)
  {
    SplitExtOfPlainName(Basename(input));
  }

  /** A URL whose last piece is non-empty names the file after that piece, query string included. */
  lemma DownloadFilenameIsLastPiece(prefix: string, name: string)
    requires prefix == "" || prefix[|prefix| - 1] == '/'
    requires name != "" && '/' !in name
    ensures DownloadFilename(prefix + name) == name
  {
    var url := prefix + name;
    assert url[|url| - 1] == name[|name| - 1];
    assert url[|prefix|..] == name;
    SlashFreeSuffixUnique(url, DownloadFilename(url), name);
  }

  /** A string has only one suffix that is free of `/` and starts it or follows a `/`. */
  lemma SlashFreeSuffixUnique(s: string, a: string, b: string)
    requires EndsWith(s, a) && '/' !in a && (|a| == |s| || s[|s| - |a| - 1] == '/')
    requires EndsWith(s, b) && '/' !in b && (|b| == |s| || s[|s| - |b| - 1] == '/')
    ensures a == b
  {
  }
}
