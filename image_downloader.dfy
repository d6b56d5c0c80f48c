/**
 * `ImageDownloader#download`: names the destination after the last segment of the URL's
 * path, fetches the URL and writes the bytes there, and maps every outcome to exactly one
 * log entry; only a permission error is raised again.
 */
module ImageDownloader {
  import opened Wrappers
  import Uri
  import opened Logging
  import opened SystemErrors
  import opened FilePaths
  import opened UrlReader

  /** The message of the `TypeError` that `File.basename(nil)` raises. */
  const NilPathMessage := "no implicit conversion of nil into String"

  /** `File.basename(URI.parse(url).path)`, or the message of the exception it raises: the
      parser's syntax error, or the type error for a URI without a path. */
  function FileName(url: string): (r: Result<string, string>)
    ensures r.Success? <==> Uri.Parse(url).Success? && Uri.Parse(url).value.path.Some?
    ensures Uri.Parse(url).Failure? ==> r == Failure(Uri.Parse(url).error.message)
  {
    match Uri.Parse(url)
    case Failure(e) => Failure(e.message)
    case Success(u) => if u.path.Some? then Success(Basename(u.path.value)) else Failure(NilPathMessage)
  }

  /** `File.join(images_folder, file_name)`. */
  function Destination(imagesFolder: string, url: string): Result<string, string> {
    match FileName(url)
    case Failure(m) => Failure(m)
    case Success(name) => Success(Join(imagesFolder, name))
  }

  /** A constructed `ImageDownloader`: the URL, the folder and the logger it writes to. */
  datatype Downloader = Downloader(url: string, imagesFolder: string, logger: Logger)

  /** How fetching the URL and writing the file ends: the bytes were fetched and written;
      the server answered with an HTTP error (`OpenURI::HTTPError`); writing was refused
      (`Errno::EACCES`, with the system call and the detail it was raised with); or any other
      `StandardError`, with its message. */
  datatype FetchOutcome =
    | Fetched(bytes: seq<bv8>)
    | HttpError(message: string)
    | AccessDenied(func: Option<string>, detail: Option<string>)
    | OtherError(message: string)

  /** The files on disk, by path. */
  class Disk {
    var files: map<string, seq<bv8>>

    constructor (files: map<string, seq<bv8>>)
      ensures this.files == files
    {
      this.files := files;
    }

    /** `File.open(path, 'wb') { |file| file.write(bytes) }`. */
    method Write(path: string, bytes: seq<bv8>)
      modifies this
      ensures files == old(files)[path := bytes]
    {
      files := files[path := bytes];
    }
  }

  /** What one call of `download` does: the entry it logs, the file it writes and the
      exception it raises. */
  datatype Effect = Effect(entry: LogEntry, written: Option<(string, seq<bv8>)>, raised: Option<Errno>)

  function DownloadedMessage(name: string): string {
    "Downloaded " + name
  }

  function HttpErrorMessage(url: string, message: string): string {
    "Failed to download " + url + ": " + message
  }

  function AccessDeniedMessage(folder: string, message: string): string {
    "Permission denied while writing to " + folder + ": " + message
  }

  function OtherErrorMessage(url: string, message: string): string {
    "An error occurred while downloading " + url + ": " + message
  }

  /** The effect of `download` for a URL, a folder and the outcome of the fetch. An error in
      naming the file happens before any fetch and is reported like any other error. */
  function DownloadEffect(url: string, folder: string, outcome: FetchOutcome): (e: Effect)
    ensures e.entry.level == Info <==> FileName(url).Success? && outcome.Fetched?
    ensures e.entry.level != Info ==> e.entry.level == Error
    ensures e.written.Some? <==> e.entry.level == Info
    ensures e.written.Some? ==> e.written.value == (Join(folder, FileName(url).value), outcome.bytes)
    ensures e.raised.Some? <==> FileName(url).Success? && outcome.AccessDenied?
    ensures e.raised.Some? ==> e.raised.value == EACCES(outcome.func, outcome.detail)
  {
    match FileName(url)
    case Failure(m) => Effect(LogEntry(Error, OtherErrorMessage(url, m)), None, None)
    case Success(name) =>
      match outcome
      case Fetched(bytes) => Effect(LogEntry(Info, DownloadedMessage(name)), Some((Join(folder, name), bytes)), None)
      case HttpError(m) => Effect(LogEntry(Error, HttpErrorMessage(url, m)), None, None)
      case AccessDenied(f, d) =>
      Effect(LogEntry(Error, AccessDeniedMessage(folder, Message(EACCES(f, d)))), None, Some(EACCES(f, d)))
      case OtherError(m) => Effect(LogEntry(Error, OtherErrorMessage(url, m)), None, None)
  }

  /** `download`: logs one entry, writes the fetched bytes to the destination on success,
      and returns the exception it raises (`None` when it returns normally). */
  method Download(d: Downloader, outcome: FetchOutcome, disk: Disk) returns (raised: Option<Errno>)
    modifies d.logger, disk
    ensures d.logger.entries == old(d.logger.entries) + [DownloadEffect(d.url, d.imagesFolder, outcome).entry]
    ensures var w := DownloadEffect(d.url, d.imagesFolder, outcome).written;
      disk.files == if w.Some? then old(disk.files)[w.value.0 := w.value.1] else old(disk.files)
    ensures raised == DownloadEffect(d.url, d.imagesFolder, outcome).raised
  {
    var fileName := FileName(d.url);
    if fileName.Failure? {
      d.logger.Error(OtherErrorMessage(d.url, fileName.error));
      return None;
    }
    var destination := Join(d.imagesFolder, fileName.value);
    match outcome {
      case Fetched(bytes) =>
        disk.Write(destination, bytes);
        d.logger.Info(DownloadedMessage(fileName.value));
        raised := None;
      case HttpError(m) =>
        d.logger.Error(HttpErrorMessage(d.url, m));
        raised := None;
      case AccessDenied(func, detail) =>
        var e := EACCES(func, detail);
        d.logger.Error(AccessDeniedMessage(d.imagesFolder, Message(e)));
        raised := Some(e);
      case OtherError(m) =>
        d.logger.Error(OtherErrorMessage(d.url, m));
        raised := None;
    }
  }

  /** A refused write, once the file is named, logs the folder and the exception's message
      and raises that exception. */
  lemma AccessDeniedEffect(url: string, folder: string, func: Option<string>, detail: Option<string>)
    requires FileName(url).Success?
    ensures DownloadEffect(url, folder, AccessDenied(func, detail)) ==
      Effect(LogEntry(Error, AccessDeniedMessage(folder, Message(EACCES(func, detail)))),
             None, Some(EACCES(func, detail)))
  {
  }

  /** For a URL built from a scheme, an authority, a path and optional query and fragment,
      the file is named after the last segment of the path alone. */
  lemma FileNameOfServerUri(u: Uri.Uri)
    requires Uri.WellFormedServerUri(u)
    ensures FileName(Uri.Recompose(u)) == Success(Basename(u.path.value))
  {
    Uri.ParseRecompose(u);
  }

  /** Two such URLs whose paths end in the same segment get the same destination, whatever
      their hosts, the rest of their paths, queries and fragments. */
  lemma SameSegmentSameDestination(folder: string, u: Uri.Uri, v: Uri.Uri)
    requires Uri.WellFormedServerUri(u) && Uri.WellFormedServerUri(v)
    requires Basename(u.path.value) == Basename(v.path.value)
    ensures Destination(folder, Uri.Recompose(u)) == Destination(folder, Uri.Recompose(v))
    ensures Destination(folder, Uri.Recompose(u)).Success?
  {
    FileNameOfServerUri(u);
    FileNameOfServerUri(v);
  }

  /** Every URL the reader yields names a file in the folder whose name is the path's last
      segment, keeps the image extension, and holds no separator. */
  lemma YieldedUrlFileName(folder: string, url: string)
    requires ValidImageUrl(url)
    ensures FileName(url).Success?
    ensures var name := FileName(url).value;
      name != [] && NoSlash(name) && HasImageExtension(name) &&
      Destination(folder, url) == Success(Join(folder, name)) &&
      Basename(Join(folder, name)) == name
  {
    var u := Uri.Parse(url).value;
    BasenameKeepsExtension(u.path.value);
    BasenameJoin(folder, FileName(url).value);
  }

  /** An image extension ends a path's last segment, so its base name keeps it. */
  lemma BasenameKeepsExtension(path: string)
    requires HasImageExtension(path)
    ensures var name := Basename(path); name != [] && NoSlash(name) && HasImageExtension(name)
  {
    var e := ImageExtension(path);
    ExtensionNoSlash(e);
    BasenameKeepsSuffix(path, e);
    ExtensionIsImage(Basename(path), e);
  }

  /** A non-empty suffix without separators, matched without regard to case, ends the base
      name too. */
  lemma BasenameKeepsSuffix(path: string, e: string)
    requires e != [] && NoSlash(e) && Text.EndsWithIgnoringCase(path, e)
    ensures var name := Basename(path); name != [] && NoSlash(name) && Text.EndsWithIgnoringCase(name, e)
  {
    var name := Basename(path);
    assert NoSlash(path[|path| - |e|..]) by {
      SuffixWithoutSlash(path, e);
    }
    assert name != [] && NoSlash(name) && |e| <= |name| && name[|name| - |e|..] == path[|path| - |e|..] by {
      BasenameEndsWith(path, |path| - |e|);
    }
    SameSuffixEndsWith(name, path, e);
  }

  lemma SameSuffixEndsWith(a: string, b: string, e: string)
    requires |e| <= |a| && Text.EndsWithIgnoringCase(b, e) && a[|a| - |e|..] == b[|b| - |e|..]
    ensures Text.EndsWithIgnoringCase(a, e)
  {
  }

  lemma ExtensionIsImage(name: string, e: string)
    requires e in [".jpg", ".jpeg", ".png", ".gif", ".bmp"] && Text.EndsWithIgnoringCase(name, e)
    ensures HasImageExtension(name)
  {
  }

  lemma ExtensionNoSlash(e: string)
    requires e in [".jpg", ".jpeg", ".png", ".gif", ".bmp"]
    ensures e != [] && NoSlash(e)
  {
    if e == ".jpg" { assert NoSlash(".jpg"); }
    else if e == ".jpeg" { assert NoSlash(".jpeg"); }
    else if e == ".png" { assert NoSlash(".png"); }
    else if e == ".gif" { assert NoSlash(".gif"); }
    else { assert NoSlash(".bmp"); }
  }

  /** A suffix matched without regard to case by a text without separators has none. */
  lemma SuffixWithoutSlash(path: string, e: string)
    requires Text.EndsWithIgnoringCase(path, e) && NoSlash(e)
    ensures NoSlash(path[|path| - |e|..])
  {
    var m := |path| - |e|;
    assert forall i :: 0 <= i < |e| ==> Text.LowerChar(path[m..][i]) == e[i];
  }

  /** A path whose end from `m` on holds no separator has a base name that ends with it. */
  lemma BasenameEndsWith(path: string, m: nat)
    requires m < |path| && NoSlash(path[m..])
    ensures var name := Basename(path);
      name != [] && NoSlash(name) && |path| - m <= |name| && name[|name| - (|path| - m)..] == path[m..]
  {
    assert path[|path| - 1] == path[m..][|path| - 1 - m];
    assert !AllSlashes(path);
    BasenameShape(path);
    var name := Basename(path);
    assert TrimmedLength(path) == |path|;
    var k := |path| - |name|;
    assert path[k..] == name;
    assert forall i :: m <= i < |path| ==> path[i] == path[m..][i - m];
  }

  /** The extension that `HasImageExtension` found at the end of `path`. */
  function ImageExtension(path: string): (e: string)
    requires HasImageExtension(path)
    ensures e in [".jpg", ".jpeg", ".png", ".gif", ".bmp"]
    ensures Text.EndsWithIgnoringCase(path, e)
  {
    if Text.EndsWithIgnoringCase(path, ".jpg") then ".jpg"
    else if Text.EndsWithIgnoringCase(path, ".jpeg") then ".jpeg"
    else if Text.EndsWithIgnoringCase(path, ".png") then ".png"
    else if Text.EndsWithIgnoringCase(path, ".gif") then ".gif"
    else ".bmp"
  }
}
