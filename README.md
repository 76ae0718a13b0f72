# Lecture-recording downloader, modelled in Dafny

`234235.py` is a small command-line script. It asks for the URL of a lecture
recording and for an output directory, downloads the file into that directory
and, unless the downloaded name already ends in `.mp3` (in any case), runs
`ffmpeg` to turn it into an MP3 file in the same directory.

This project models every decision the script takes and every string it builds:

* the local file name taken from the URL (`url.split("/")[-1]`, or
  `downloaded_file`), and the path it is joined onto;
* the default directory (`~/Downloads` on Windows and macOS, `.` elsewhere) and
  the choice between it and the stripped directory the user typed;
* the MP3 path (`splitext(basename(input))[0] + ".mp3"` in the output
  directory) and the exact `ffmpeg` argument list;
* what `main` does: download once, stop on a failed download, convert at most
  once and only when needed, and report a failed conversion without retrying.

The outside world enters as parameters:

* how the HTTP transfer ended (`Transfer`);
* how the converter process ended (`Process`);
* what `platform.system()` returned;
* the home directory.

`Main` returns a `Run`. It holds the chosen directory, the ordered side effects
(`HttpGet`, `Exec`), the download result and the conversion result.

Files:

* `pystr.dfy` (module `PyStr`) holds the Python `str` operations the script
  uses: `split` with a one-character separator, `rfind`, `strip()` and
  `endswith` with CPython's semantics, and an ASCII-only `lower()` (see
  "Left out").
* `posixpath.dfy` (module `PosixPath`) holds `os.path.join`, `basename`,
  `dirname` and `splitext` as CPython's `posixpath` defines them. `dirname`
  is used only to state where files land.
* `downloader.dfy` (module `Downloader`) holds the script's four functions and
  the properties of the whole run.

## Model

| member | source | states |
|---|---|---|
| `PyStr.Split` | 234235.py:27 | `str.split("/")` always yields at least one piece |
| `PyStr.SplitJoin` | 234235.py:27 | joining the pieces of a split with the separator gives the string back, and no piece contains the separator (this characterises `str.split`) |
| `PyStr.SplitLast` | 234235.py:27 | the last piece of a split is the text after the last separator |
| `PyStr.RFind` | 234235.py:51 | `rfind`, which `basename` and `splitext` use to find the last `/` and `.`, returns -1 or an index holding the character, with no occurrence after it |
| `PyStr.RFindAbsent` | 234235.py:51 | `rfind` returns -1 exactly when the character does not occur |
| `PyStr.LStrip` | 234235.py:72 | `lstrip()` returns a suffix of its input that does not start with whitespace and drops only whitespace |
| `PyStr.RStrip` | 234235.py:72 | `rstrip()` returns a prefix of its input that does not end with whitespace and drops only whitespace |
| `PyStr.Strip` | 234235.py:72 | the stripped text has no whitespace at either edge, and is empty exactly when the input is all whitespace |
| `PyStr.StripPadded` | 234235.py:70 | stripping whitespace padding off a text without whitespace at its edges gives that text back |
| `PyStr.StripIdempotent` | 234235.py:70 | stripping twice is stripping once |
| `PyStr.EndsWithConcat` | 234235.py:84 | `s.endswith(suffix)` holds exactly when `s` is some string followed by `suffix`; this lemma carries the contract of the predicate `PyStr.EndsWith` |
| `PyStr.Lower` | 234235.py:84 | `lower()` restricted to ASCII letters (see "Left out"): the length is kept |
| `PyStr.LowerChars` | 234235.py:84 | `Lower` turns every upper-case ASCII letter into its lower-case partner (code point plus 32), so none is left, and keeps every other character |
| `PosixPath.Basename` | 234235.py:51 | `basename` is a slash-free suffix of the path that is either the whole path or follows a `/` |
| `PosixPath.BasenameEmpty` | 234235.py:51 | `basename` is empty exactly when the path is empty or ends in `/` |
| `PosixPath.JoinFile` | 234235.py:30 | joining a directory and a slash-free non-empty name yields a path whose `basename` is the name and whose `dirname` is the directory as `dirname` reports it |
| `PosixPath.JoinBasename` | 234235.py:52 | the separator `join` puts before a file name is the last `/` of the joined path |
| `PosixPath.JoinShape` | 234235.py:16 | `join(d, name)` ends with the name, preceded by `/` exactly when `d` is non-empty |
| `PosixPath.Join` | 234235.py:30 | `join(a, b)` ends with `b`; for a relative `b` it starts with `a` and has the length of `a + b`, plus one when `a` is non-empty and does not end in `/`; with `JoinShape`'s `/` before the name this fixes the result as `a + b` or `a + "/" + b` |
| `PosixPath.Dirname` | 234235.py:52 | `dirname(p)` is a prefix of `p`, and is empty when `p` has no `/`; it is the yardstick for "lands in the output directory" in `JoinFile`, `DownloadTarget` and `Mp3PathInOutputDirectory` |
| `PosixPath.SplitExt` | 234235.py:51 | `splitext` cuts the path into two parts whose concatenation is the path |
| `PosixPath.SplitExtShape` | 234235.py:51 | the extension is empty, or a `.` followed by no `.` or `/` after a root whose last component is not all dots; it is empty only when every dot of the last component is a leading dot |
| `PosixPath.ExtensionStart` | 234235.py:51 | where `splitext` cuts: at the last `.` of the last component when it is not among its leading dots, else at the end |
| `PosixPath.LeadingDots` | 234235.py:51 | the number of leading dots of a name: all dots up to it, and a non-dot right after |
| `PosixPath.SplitExtOfName` | 234235.py:51 | a name `stem + ext` with `ext` a `.` and no further dot, and `stem` not all dots, splits into exactly `(stem, ext)` |
| `PosixPath.SplitExtOfPlainName` | 234235.py:51 | a slash-free name whose dots are all leading dots (`.wav`, `lecture`) has no extension |
| `Downloader.DefaultDownloadDirectory` | 234235.py:14-18 | on `Windows` and `Darwin` the default is a path whose base name is `Downloads` inside the home directory; elsewhere it is `.`; never empty |
| `Downloader.OutputDirectory` | 234235.py:72-74 | the stripped entry when it is not blank, else the default directory; never empty |
| `Downloader.DownloadFilename` | 234235.py:27-29 | the file name is non-empty and slash-free; it is `downloaded_file` when the URL is empty or ends in `/`, and otherwise a suffix of the URL that is the whole URL or follows a `/` |
| `Downloader.LastPieceIsBasename` | 234235.py:27 | `url.split("/")[-1]` is `basename(url)` |
| `Downloader.DownloadFilenameIsLastPiece` | 234235.py:27-29 | a URL `prefix + name`, with `prefix` empty or ending in `/` and `name` non-empty and slash-free, yields exactly `name`, query string included |
| `Downloader.SlashFreeSuffixUnique` | 234235.py:27 | a string has only one slash-free suffix that is the whole string or follows a `/` |
| `Downloader.DownloadTarget` | 234235.py:30 | the download path has the file name as its base name and the output directory as its directory |
| `Downloader.DownloadFile` | 234235.py:32-41 | success exactly when the transfer completed, and then the result is the target path; otherwise the error is the download prefix plus the cause |
| `Downloader.Mp3Filename` | 234235.py:51-52 | the MP3 file name is slash-free and ends in `.mp3` |
| `Downloader.Mp3Path` | 234235.py:51-52 | the MP3 path ends in `.mp3`, and its base name is the input's base name minus its extension, plus `.mp3` |
| `Downloader.Mp3PathInOutputDirectory` | 234235.py:52 | the MP3 file lands in the output directory, whatever the input's directory |
| `Downloader.Mp3PathReplacesExtension` | 234235.py:51-52 | a base name `stem + ext` with a real extension becomes `join(dir, stem + ".mp3")`: only the last extension is replaced |
| `Downloader.Mp3PathAppendsWithoutExtension` | 234235.py:51-52 | a base name without an extension (no dot, or only leading dots) becomes `join(dir, name + ".mp3")` |
| `Downloader.ConverterCommand` | 234235.py:53-60 | the argument list has ten words: `ffmpeg`, `-i`, the input, the six audio options in order, and the output path last |
| `Downloader.ConvertToMp3` | 234235.py:61-65 | success exactly when `ffmpeg` exits with 0, and then the result is the MP3 path; a non-zero exit gives the conversion prefix plus the cause; a converter that cannot be started gives its own error unchanged |
| `Downloader.ConversionNeverOverwritesInput` | 234235.py:51-59 | when a conversion runs, the MP3 path differs from the input path |
| `Downloader.NeedsConversion` | 234235.py:84 | the convert-or-not test `not path.lower().endswith(".mp3")` holds exactly when the last four characters are not `.`, `m`/`M`, `p`/`P`, `3` |
| `Downloader.LowerEndsWithMp3` | 234235.py:84 | the lower-cased path ends in `.mp3` exactly when its last four characters are `.`, `m`/`M`, `p`/`P`, `3` |
| `Downloader.Mp3TailOfFile` | 234235.py:84 | a path ends in `.mp3` (any case) exactly when the file name after its last `/` does |
| `Downloader.Mp3SuffixHasTail` | 234235.py:84 | a path ending in `.mp3` has the `.mp3` tail that blocks conversion |
| `Downloader.ConversionDecidedByFilename` | 234235.py:84 | whether a download is converted depends only on the file name taken from the URL, not on the directory |
| `Downloader.TargetTail` | 234235.py:84 | the download path has the `.mp3` tail exactly when the file name taken from the URL does |
| `Downloader.Main` | 234235.py:68-92 | the run uses the output directory chosen from the entry; its first effect is the GET of the stripped URL into the target path; a failed download has no further effect and no conversion; there is a second effect exactly when the transfer completed and the file name does not end in `.mp3`; that effect runs the converter on the downloaded path into the MP3 path, and the conversion result is reported as is |

## Left out

- The HTTP request, `raise_for_status` and the 8192-byte chunk loop that writes the body to disk. Only whether the whole transfer succeeded, and the text of its error, enter the model (`Transfer`).
- Running `ffmpeg` and discarding its output. Only how the process ended enters the model (`Process`).
- `platform.system()` and `os.path.expanduser("~")`. They are parameters of `DefaultDownloadDirectory`, `OutputDirectory` and `Main`.
- The prompts and the messages `main` prints. The model records the results they report, not their text.
- Windows path rules. On Windows CPython's `os.path` is `ntpath`, with `\` separators and drive letters; the model uses the POSIX rules everywhere.
- `PyStr.Lower` changes only ASCII letters. Python's `str.lower()` also lowers other letters, and turns U+0130 into two characters. No character lowers to `.`, `m`, `p` or `3` except those and `M` and `P`, and a two-character expansion never ends in one of them. So the `.mp3` test decided by `NeedsConversion` is the same as Python's.
- The exception objects themselves. An error is modelled as its message; `str(e)` of the underlying exception is the `detail` parameter.
- Retries with backoff, provider fallback and URL-versus-query classification: `234235.py` has no code for them. It downloads one URL once and converts at most once; the model follows the code.
