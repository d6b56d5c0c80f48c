# image_downloader: the URL filter and the download rule

This project models the two parts of the image downloader that decide what happens to each line of a list file.

- `URLReader` reads a list file line by line and splits each line on whitespace. Each token that is an http or https URL whose path ends in an image extension is yielded. Every other token gets one warning. A read error logs one error entry and ends the iteration without raising; a missing file is refused when the reader is built.
- `ImageDownloader#download` names the destination after the last segment of the URL's path, joins it to the image folder, and writes the fetched bytes there. Each outcome maps to exactly one log entry. Only a permission error is raised again.

Modules:

- `Text`: `String#split` without a pattern.
- `Uri`: a simplified `URI.parse` that splits a string into scheme, authority, path, query and fragment as in section 3 of RFC 3986. It refuses non-ASCII text, a scheme, authority, path or fragment outside the RFC 3986 grammar, and a query with a `%` that does not start a percent-encoding. The query itself is any text up to the first `#`, as in Ruby's parser, so `|`, `[` and `]` are allowed there. It is proved to round-trip: a text that parses is the recomposition of its parts, and a well-formed URI with an authority parses back to itself.
- `FilePaths`: `File.basename` and `File.join` on POSIX paths.
- `Logging`: a logger that records every entry in order, modelled as a class with a sequence field.
- `SystemErrors`: the `Errno` exceptions and their messages.
- `UrlReader`: `URLReader`. `EachValidUrl` is an imperative method with the source's two nested loops. It is proved against the specification functions `Accepted`, `Rejected`, `Warnings` and `ReaderLog`.
- `ImageDownloader`: `download` as an imperative method over a `Disk` class and the logger. It is proved against the function `DownloadEffect`.
- `UrlReaderCases` and `ImageDownloaderCases`: the inputs of the repository's tests, derived from the general lemmas.

The outside world becomes parameters:

- the file system is a map from paths to what `File.foreach` delivers: the lines read, and the error that stopped reading, if any;
- the network fetch is a `FetchOutcome` value: the bytes, an HTTP error, a refused write, or another error.

Code and tests disagree on one point: file names. `download` names the file after the bare last path segment (lib/downloader/image_downloader.rb:16-17), with no random or unique suffix. So `http://example.com/img.jpg` and `http://anotherexample.com/img.jpg` both go to `<folder>/img.jpg`, and the second write replaces the first. The end-to-end test at spec/image_downloader_e2e_spec.rb:106-133 expects two distinct file names. The model follows the code: `ImageDownloaderCases.SameNameCollides` shows the two URLs of that test get the same destination, and `ImageDownloader.SameSegmentSameDestination` proves it in general.

## Model

| member | source | states |
|---|---|---|
| UrlReader.Open | lib/downloader/url_reader.rb:8-13 | Building a reader succeeds exactly when the file exists, and keeps the path and the logger. Otherwise it fails with `Errno::ENOENT` and detail `File not found: <path>`, before anything is read or logged. |
| UrlReader.EachValidUrl | lib/downloader/url_reader.rb:15-28 | Returns, in order, the valid tokens of all lines read. It appends exactly the warnings for the other tokens to the logger, then one error entry when reading failed; nothing is raised. |
| UrlReader.VisitLine | lib/downloader/url_reader.rb:17-24 | For one line: returns its valid tokens in order and appends one warning per invalid token, in order. |
| UrlReader.VisitToken | lib/downloader/url_reader.rb:19-23 | Reports validity exactly as `ValidImageUrl`. It logs `Invalid image URL: <token>` exactly when the token is invalid, and otherwise nothing. |
| Logging.Logger.Warn | lib/downloader/url_reader.rb:22 | A warning call appends one entry at level warn with the message and changes nothing else. |
| Text.TokensAreWords | lib/downloader/url_reader.rb:17 | Every token of `split` is non-empty and holds no whitespace. |
| Text.TokensEmptyIffBlank | lib/downloader/url_reader.rb:17 | A line yields no tokens if and only if it is empty or only whitespace. |
| Text.TokensKeepText | lib/downloader/url_reader.rb:17 | The tokens joined back together are exactly the line's non-whitespace characters, in order. |
| Text.TokensJoinWords | lib/downloader/url_reader.rb:17 | Splitting words joined by single spaces gives the same words back. |
| Text.TokensOfTwo | lib/downloader/url_reader.rb:17 | Two words joined by one space split into exactly those two words. |
| UrlReader.Partition | lib/downloader/url_reader.rb:18-24 | Yielded and warned tokens together are exactly the input tokens, counted with multiplicity. |
| UrlReader.AcceptedCount | lib/downloader/url_reader.rb:18-20 | A token occurs among the yielded ones as often as in the input if it is valid, and never otherwise. |
| UrlReader.RejectedCount | lib/downloader/url_reader.rb:18-23 | A token gets as many warnings as it has occurrences if it is invalid, and none otherwise. |
| UrlReader.Soundness | lib/downloader/url_reader.rb:18-24 | Every yielded token is a valid image URL from the input. Every warned token is an invalid token from the input. |
| UrlReader.AcceptedAppend | lib/downloader/url_reader.rb:16-24 | The yield order is the token order: yields for `a + b` are those for `a`, then those for `b`. |
| UrlReader.AllTokensAppend | lib/downloader/url_reader.rb:16-17 | The tokens of consecutive groups of lines come in line order. |
| UrlReader.WarningsAppend | lib/downloader/url_reader.rb:18-23 | Warnings for `a + b` are those for `a`, then those for `b`. |
| UrlReader.LineAccounted | lib/downloader/url_reader.rb:17-24 | A line's yields plus warnings equal its token count, and a blank line contributes nothing. |
| UrlReader.BlankLineSilent | lib/downloader/url_reader.rb:16-24 | Inserting a whitespace-only line anywhere changes neither the yields nor the log. |
| UrlReader.FailureKeepsPrefix | lib/downloader/url_reader.rb:16-27 | A read error after some lines keeps exactly what those lines yielded: the same yields an error-free read gives first. The log is their warnings followed by the single error entry with the path and the message, and those warnings are the start of the log an error-free read of all lines gives. |
| UrlReader.ReaderLogCounts | lib/downloader/url_reader.rb:22-27 | The log holds one warn entry per invalid token, one error entry exactly when reading failed, and no info entry. |
| UrlReader.WarningsLevels | lib/downloader/url_reader.rb:22 | The warnings are all at level warn, one per invalid token. |
| UrlReader.ParseFailureRejected | lib/downloader/url_reader.rb:35-36 | A token that does not parse, including any non-ASCII token, is invalid; the error is not raised. |
| UrlReader.ValidImageUrlOfServerUri | lib/downloader/url_reader.rb:32-34 | For a well-formed URL with an authority, validity holds if and only if the scheme is http or https (any case) and the path ends in an image extension (any case). The host, query and fragment do not matter. |
| UrlReader.ValidImageUrlParts | lib/downloader/url_reader.rb:32-34 | A valid token parses to parts that recompose to the token, with an http or https scheme and a path ending in an image extension. |
| Uri.ParseRecompose | lib/downloader/url_reader.rb:33 | A well-formed URI with scheme, authority and path parses back to itself from its text. |
| Uri.RecomposeParse | lib/downloader/url_reader.rb:33 | Any text that parses is the recomposition of its parts. |
| UrlReader.AllTokens | lib/downloader/url_reader.rb:16-17 | The tokens of all lines read: the `split` of each line, line after line. |
| UrlReader.Accepted | lib/downloader/url_reader.rb:18-20 | The tokens `each_valid_url` yields: the valid ones, in their order, never more than the input. |
| UrlReader.Rejected | lib/downloader/url_reader.rb:18-23 | The tokens warned about: the invalid ones, in their order, never more than the input. |
| UrlReader.Warning | lib/downloader/url_reader.rb:22 | The warn entry for a token: `Invalid image URL: <token>`. |
| UrlReader.Warnings | lib/downloader/url_reader.rb:21-23 | One warning per rejected token, in the same order, and nothing else. |
| UrlReader.ReadError | lib/downloader/url_reader.rb:27 | The error entry for a failed read: `An unexpected error occurred while reading file: <path>. Error: <message>`. |
| UrlReader.ReaderLog | lib/downloader/url_reader.rb:16-27 | Everything one call logs for a listing: the warnings for all its tokens, then the read-error entry when reading stopped on an error. |
| UrlReaderCases.HttpUrlValidity | lib/downloader/url_reader.rb:32-34 | `http://<host><path>` with a plain host and path is valid if and only if the path ends in an image extension. |
| UrlReaderCases.JpgAccepted | spec/url_reader_spec.rb:52-59 | `http://example.com/image.jpg` is valid. |
| UrlReaderCases.TxtRejected | spec/url_reader_spec.rb:61-65 | `http://example.com/file.txt` is invalid. |
| UrlReaderCases.EmptyPathRejected | spec/image_downloader_e2e_spec.rb:55-68 | `http://invalid.url` is invalid, because its path is empty. |
| UrlReaderCases.MixedLine | spec/url_reader_spec.rb:19-35 | The line `http://example.com/image.jpg http://example.com/not_image.txt` yields only the first URL and logs exactly one warning, for the second. |
| UrlReaderCases.ValidThenInvalid | lib/downloader/url_reader.rb:16-24 | A one-line file of a valid token, a space and an invalid token yields the first and logs only a warning for the second. |
| Text.Tokens | lib/downloader/url_reader.rb:17 | `line.split`: the maximal runs of characters other than space, tab, line feed, vertical tab, form feed and carriage return, from left to right. |
| Uri.Parse | lib/downloader/url_reader.rb:33 | `URI.parse`, also used at lib/downloader/image_downloader.rb:16. Success exactly for ASCII text that splits into parts and whose query, with tab, line feed and carriage return dropped, has a hex pair after every `%`. The query is any text up to the first `#`. Non-ASCII text fails with `URI must be ascii only "<text>"`, a grammar failure with `bad URI(is not URI?): "<text>"`, and a bad escape with `invalid percent escape: <query>`. |
| UrlReader.ValidImageUrl | lib/downloader/url_reader.rb:32-37 | `valid_image_url?`: the token parses, has an http or https scheme and a path ending in an image extension. A parse error makes it false instead of raising. Characters in the query, such as `|` or `[w]`, do not decide. |
| UrlReader.IsHttpScheme | lib/downloader/url_reader.rb:34 | The `URI::HTTP` or `URI::HTTPS` test: the scheme, lower-cased, is `http` or `https`. |
| UrlReader.HasImageExtension | lib/downloader/url_reader.rb:34 | The path ends in `.jpg`, `.jpeg`, `.png`, `.gif` or `.bmp`, compared without regard to case. |
| UrlReader.ReadListing | lib/downloader/url_reader.rb:16 | `File.foreach`: what the file system holds for the path. A file that is gone delivers no lines and the `ENOENT` message `No such file or directory @ rb_sysopen - <path>`. |
| Logging.Logger.Error | lib/downloader/url_reader.rb:27 | An error call appends one entry at level error with the message and changes nothing else. It is used also at lib/downloader/image_downloader.rb:27, 29 and 32. |
| UrlReaderCases.HttpQueryUrlValidity | lib/downloader/url_reader.rb:33-34 | `http://<host><path>?<query>` with a plain host and path and an ASCII query without `#` whose escapes are well formed is valid if and only if the path ends in an image extension. |
| UrlReaderCases.PipeInQueryAccepted | lib/downloader/url_reader.rb:33-34 | `http://example.com/a.png?family=A|B` is valid. |
| UrlReaderCases.BracketsInQueryAccepted | lib/downloader/url_reader.rb:33-34 | `http://example.com/a.jpg?size[w]=100` is valid. |
| FilePaths.BasenameShape | lib/downloader/image_downloader.rb:16 | `File.basename` gives `""` for an empty path and `/` for an all-slash path. Otherwise it gives a non-empty, slash-free segment that ends the path once trailing slashes are dropped, and that starts the path or follows a slash. |
| FilePaths.JoinShape | lib/downloader/image_downloader.rb:17 | `File.join` keeps the folder and puts exactly one slash before a name that does not start with one, adding at most that character. A name that starts with a slash replaces the folder's trailing slashes. |
| FilePaths.BasenameJoin | lib/downloader/image_downloader.rb:16-17 | The last segment of a folder joined with a plain name is that name. |
| FilePaths.BasenameAfterSlash | lib/downloader/image_downloader.rb:16 | A path that ends in a slash followed by a slash-free segment has that segment as its base name. |
| FilePaths.Basename | lib/downloader/image_downloader.rb:16 | `File.basename`: `""` for an empty path, `/` for an all-slash path, and otherwise the segment after the last slash once trailing slashes are dropped. |
| FilePaths.Join | lib/downloader/image_downloader.rb:17 | `File.join` of a folder and a name: a name that starts with a slash replaces the folder's trailing slashes, a folder without a trailing slash gets one, and otherwise the two are concatenated. |
| ImageDownloader.Destination | lib/downloader/image_downloader.rb:16-17 | The destination path: the folder joined with the URL's file name, or the naming error. |
| ImageDownloader.ImageExtension | lib/downloader/url_reader.rb:34 | Names one of the five image extensions that the path ends in, without regard to case. |
| ImageDownloader.AccessDeniedEffect | lib/downloader/image_downloader.rb:28-30 | A refused write of a nameable URL logs `Permission denied while writing to <folder>: <message of the EACCES>`, writes nothing and raises that `EACCES` with the same system call and detail. |
| Logging.Logger.Info | lib/downloader/image_downloader.rb:25 | An info call appends one entry at level info with the message and changes nothing else. |
| ImageDownloader.DownloadedMessage | lib/downloader/image_downloader.rb:25 | The info text on success: `Downloaded <file name>`. |
| ImageDownloader.HttpErrorMessage | lib/downloader/image_downloader.rb:27 | The error text for an HTTP error: `Failed to download <url>: <message>`. |
| ImageDownloader.AccessDeniedMessage | lib/downloader/image_downloader.rb:29 | The error text for a refused write: `Permission denied while writing to <folder>: <message>`. |
| ImageDownloader.OtherErrorMessage | lib/downloader/image_downloader.rb:32 | The error text for any other error: `An error occurred while downloading <url>: <message>`. |
| SystemErrors.Message | lib/downloader/image_downloader.rb:29 | `e.message` of an `Errno` exception, as Ruby's `SystemCallError` builds it: the system's description, then ` @ <system call>` when there is a detail and a system call, then ` - <detail>` when there is a detail. It is also the read error's text at lib/downloader/url_reader.rb:27 for a vanished file. |
| SystemErrors.MessageParts | spec/image_downloader_spec.rb:62-67 | A message starts with the description and is only the description when there is no detail, as `Errno::EACCES.new` gives `Permission denied`. With a detail it ends in ` - <detail>`, and a system call stands right after the description, after ` @ `. |
| ImageDownloader.FileName | lib/downloader/image_downloader.rb:16 | Naming succeeds exactly when the URL parses and has a path. A parse failure gives the parser's message as the error. |
| ImageDownloader.FileNameOfServerUri | lib/downloader/image_downloader.rb:16 | A URL with an authority is named after the last segment of its path alone. |
| ImageDownloader.SameSegmentSameDestination | lib/downloader/image_downloader.rb:16-17 | Two such URLs whose paths have the same last segment get the same destination, whatever their hosts, the rest of their paths, their queries and their fragments. |
| ImageDownloader.YieldedUrlFileName | lib/downloader/image_downloader.rb:16-17 | Every URL the reader yields names a non-empty, slash-free file with an image extension, at `Join(folder, name)`, whose base name is that name. |
| ImageDownloader.BasenameKeepsExtension | lib/downloader/image_downloader.rb:16 | A path ending in an image extension has a non-empty, slash-free base name ending in one too. |
| ImageDownloader.DownloadEffect | lib/downloader/image_downloader.rb:15-33 | One log entry per call. It is at info exactly when the name is found and the fetch succeeded, and at error otherwise. A file (destination, fetched bytes) is written exactly on success. An exception (`EACCES` with the same system call and detail) is raised exactly on a refused write. |
| ImageDownloader.Download | lib/downloader/image_downloader.rb:15-33 | Appends exactly the one entry of `DownloadEffect` to the logger. It changes the disk only by the file `DownloadEffect` writes, and returns the exception it raises. |
| ImageDownloader.Disk.Write | lib/downloader/image_downloader.rb:20-22 | Writing puts the bytes at the path and leaves every other file unchanged. |
| ImageDownloaderCases.PlainUrlDestination | spec/image_downloader_spec.rb:4-12 | `http://<host>/<name>` for a plain host and a plain name is named `name` and saved at `Join(folder, name)`. |
| ImageDownloaderCases.DownloadSucceeds | spec/image_downloader_spec.rb:33-45 | `http://example.com/test_image.jpg` is written to `/tmp/images/test_image.jpg` with the fetched bytes, and `Downloaded test_image.jpg` is logged. |
| ImageDownloaderCases.DownloadHttpError | spec/image_downloader_spec.rb:49-57 | An HTTP error logs `Failed to download <url>: Error message`, writes nothing and raises nothing. |
| ImageDownloaderCases.DownloadAccessDenied | spec/image_downloader_spec.rb:60-68 | `Errno::EACCES.new` logs `Permission denied while writing to /tmp/images: Permission denied` and is raised again. |
| ImageDownloaderCases.DownloadRefusedOpen | lib/downloader/image_downloader.rb:20-30 | `File.open` refused with `EACCES` for `rb_sysopen` on the destination logs `Permission denied while writing to /tmp/images: Permission denied @ rb_sysopen - <destination>` and raises that exception again. |
| ImageDownloaderCases.DownloadOtherError | spec/image_downloader_spec.rb:71-79 | Another error logs `An error occurred while downloading <url>: Unexpected error!`, writes nothing and raises nothing. |
| ImageDownloaderCases.SameNameCollides | spec/image_downloader_e2e_spec.rb:106-133 | `http://example.com/img.jpg` and `http://anotherexample.com/img.jpg` get the same destination, `Join(folder, "img.jpg")`. |

## Left out

- lib/downloader/batch_downloader.rb is not part of this model. It runs downloads on a thread pool and also catches the re-raised `EACCES`; its ordering is a concurrency property.
- lib/configuration.rb, lib/logger/custom_logger.rb and lib/downloader.rb are not part of this model: YAML loading, fanning log calls out to two sinks, and the entry point.
- The loggers' level filtering, and the default `Logger.new(STDOUT)` when no logger is given, are not modelled: every call is recorded.
- Real I/O is abstracted away:
  - `File.exist?` and `File.foreach` become a map from paths to listings;
  - `URI.open` and the write become a `FetchOutcome`;
  - a write that fails halfway, leaving a partial file, is not modelled.
- `UrlReader.EachValidUrl` returns the yielded URLs as a sequence, so the interleaving of yields with warnings is not modelled, and neither is lazy streaming. An exception raised by the caller's block is not modelled either (the source's `rescue` would log it too).
- `Uri.Parse` is a simplified RFC 3986 parser, not Ruby's full grammar:
  - an IP literal is hex digits, colons and dots with at least one colon;
  - error messages are Ruby's three forms, without escaping the quoted text;
  - Ruby's `query=` stores the query with characters outside its alphabet percent-encoded; the model keeps the query as written, so `Uri.RecomposeParse` gives back the input text;
  - which URI class Ruby picks is reduced to the scheme test, compared without regard to case.
- `File.basename` and `File.join` are modelled for POSIX paths; Windows separators and drive letters are not.
- Text is `seq<char>` and the HTTP body is `seq<bv8>`. Ruby string encodings are not modelled, and `split`'s whitespace is ASCII only, as Ruby's is.
- `UrlReader.ReadListing`: a file removed after the reader was built is given Linux's `ENOENT` wording for `rb_sysopen`; other operating systems may word it differently, and other read errors come from the file system map.
- `SystemErrors.Message` covers only the two `Errno` classes the core uses.
