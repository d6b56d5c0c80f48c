/**
 * `URLReader`: reads a list file line by line, splits each line into tokens, yields the
 * tokens that are http(s) image URLs and logs a warning for every other token. A read
 * error ends the stream with one error entry and is not raised.
 */
module UrlReader {
  import opened Wrappers
  import opened Text
  import Uri
  import opened Logging
  import opened SystemErrors
  import opened Sequences

  /** `uri.path =~ /\.(jpg|jpeg|png|gif|bmp)$/i`. A URI path holds no line break, so `$`
      is the end of the path. */
  predicate HasImageExtension(path: string) {
    EndsWithIgnoringCase(path, ".jpg") || EndsWithIgnoringCase(path, ".jpeg") ||
    EndsWithIgnoringCase(path, ".png") || EndsWithIgnoringCase(path, ".gif") ||
    EndsWithIgnoringCase(path, ".bmp")
  }

  /** `uri.is_a?(URI::HTTP) || uri.is_a?(URI::HTTPS)`: Ruby picks the URI class from the
      scheme without regard to case (section 3.1 of RFC 3986). */
  predicate IsHttpScheme(scheme: string) {
    Lower(scheme) == "http" || Lower(scheme) == "https"
  }

  /** `valid_image_url?`: the token parses as a URI, its scheme is http or https, and its
      path ends in an image extension. A token that does not parse is not valid. */
  predicate ValidImageUrl(url: string) {
    match Uri.Parse(url)
    case Failure(_) => false
    case Success(u) => u.scheme.Some? && IsHttpScheme(u.scheme.value) && u.path.Some? && HasImageExtension(u.path.value)
  }

  /** What `File.foreach` delivers from a file: the lines it read, in order, and the error
      that stopped it, if one did. */
  datatype Listing = Listing(lines: seq<string>, failure: Option<string>)

  /** The files on disk, each as `File.foreach` would read it. */
  datatype FileSystem = FileSystem(files: map<string, Listing>)

  /** A constructed `URLReader`: the list file's path and the logger it writes to. */
  datatype Reader = Reader(filePath: string, logger: Logger)

  /** `URLReader.new(file_path, logger)`: fails with `Errno::ENOENT` when the file does not
      exist, before anything is read or logged. */
  function Open(fs: FileSystem, filePath: string, logger: Logger): (r: Result<Reader, Errno>)
    ensures r.Success? <==> filePath in fs.files
    ensures r.Success? ==> r.value.filePath == filePath && r.value.logger == logger
    ensures r.Failure? ==> r.error == ENOENT(None, Some("File not found: " + filePath))
  {
    if filePath in fs.files then Success(Reader(filePath, logger))
    else Failure(ENOENT(None, Some("File not found: " + filePath)))
  }

  /** What reading `filePath` delivers; a file removed since the reader was built fails
      to open. */
  function ReadListing(fs: FileSystem, filePath: string): Listing {
    if filePath in fs.files then fs.files[filePath]
    else Listing([], Some(Message(ENOENT(Some("rb_sysopen"), Some(filePath)))))
  }

  /** The tokens of all lines, line by line and within a line from left to right. */
  function AllTokens(lines: seq<string>): seq<string> {
    if lines == [] then []
    else AllTokens(lines[..|lines| - 1]) + Tokens(lines[|lines| - 1])
  }

  /** The tokens that are yielded, in their order. */
  function Accepted(ts: seq<string>): (r: seq<string>)
    ensures |r| <= |ts|
  {
    if ts == [] then []
    else Accepted(ts[..|ts| - 1]) + (if ValidImageUrl(ts[|ts| - 1]) then [ts[|ts| - 1]] else [])
  }

  /** The tokens that are warned about, in their order. */
  function Rejected(ts: seq<string>): (r: seq<string>)
    ensures |r| <= |ts|
  {
    if ts == [] then []
    else Rejected(ts[..|ts| - 1]) + (if ValidImageUrl(ts[|ts| - 1]) then [] else [ts[|ts| - 1]])
  }

  function Warning(url: string): LogEntry {
    LogEntry(Warn, "Invalid image URL: " + url)
  }

  /** One warning per token of `urls`, in the same order. */
  function WarningEntries(urls: seq<string>): (r: seq<LogEntry>)
    ensures |r| == |urls|
    ensures forall k :: 0 <= k < |r| ==> r[k] == Warning(urls[k])
  {
    seq(|urls|, k requires 0 <= k < |urls| => Warning(urls[k]))
  }

  /** One warning per rejected token, in the same order. */
  function Warnings(ts: seq<string>): (r: seq<LogEntry>)
    ensures |r| == |Rejected(ts)|
    ensures forall k :: 0 <= k < |r| ==> r[k] == Warning(Rejected(ts)[k])
  {
    WarningEntries(Rejected(ts))
  }

  function ReadError(filePath: string, message: string): LogEntry {
    LogEntry(Error, "An unexpected error occurred while reading file: " + filePath + ". Error: " + message)
  }

  /** Everything `each_valid_url` logs for a listing. */
  function ReaderLog(filePath: string, listing: Listing): seq<LogEntry> {
    Warnings(AllTokens(listing.lines)) +
    (if listing.failure.Some? then [ReadError(filePath, listing.failure.value)] else [])
  }

  /** `each_valid_url`: yields (here: returns, in the order yielded) the valid tokens and
      logs one warning per other token, line by line; a read error logs one error entry
      and ends the iteration without raising. */
  method EachValidUrl(reader: Reader, fs: FileSystem) returns (yielded: seq<string>)
    modifies reader.logger
    ensures yielded == Accepted(AllTokens(ReadListing(fs, reader.filePath).lines))
    ensures reader.logger.entries ==
      old(reader.logger.entries) + ReaderLog(reader.filePath, ReadListing(fs, reader.filePath))
  {
    var listing := ReadListing(fs, reader.filePath);
    var lines := listing.lines;
    yielded := [];
    var i := 0;
    while i < |lines|
      invariant 0 <= i <= |lines|
      invariant yielded == Accepted(AllTokens(lines[..i]))
      invariant reader.logger.entries == old(reader.logger.entries) + Warnings(AllTokens(lines[..i]))
    {
      var lineUrls := VisitLine(reader, lines[i]);
      AllTokensNext(lines, i);
      AcceptedAppend(AllTokens(lines[..i]), Tokens(lines[i]));
      WarningsAppend(AllTokens(lines[..i]), Tokens(lines[i]));
      Assoc(old(reader.logger.entries), Warnings(AllTokens(lines[..i])), Warnings(Tokens(lines[i])));
      yielded := yielded + lineUrls;
      i := i + 1;
    }
    WholePrefix(lines);
    if listing.failure.Some? {
      reader.logger.Error("An unexpected error occurred while reading file: " + reader.filePath +
                          ". Error: " + listing.failure.value);
    }
  }

  /** The body of the outer loop: visits the tokens of one line from left to right and
      returns those it yields. */
  method VisitLine(reader: Reader, line: string) returns (yielded: seq<string>)
    modifies reader.logger
    ensures yielded == Accepted(Tokens(line))
    ensures reader.logger.entries == old(reader.logger.entries) + Warnings(Tokens(line))
  {
    var urls := Tokens(line);
    yielded := [];
    var j := 0;
    while j < |urls|
      invariant 0 <= j <= |urls|
      invariant yielded == Accepted(urls[..j])
      invariant reader.logger.entries == old(reader.logger.entries) + Warnings(urls[..j])
    {
      PrefixNext(urls, j);
      AcceptedSnoc(urls[..j], urls[j]);
      WarningsSnoc(urls[..j], urls[j]);
      Assoc(old(reader.logger.entries), Warnings(urls[..j]), if ValidImageUrl(urls[j]) then [] else [Warning(urls[j])]);
      var ok := VisitToken(reader, urls[j]);
      if ok {
        yielded := yielded + [urls[j]];
      }
      j := j + 1;
    }
    WholePrefix(urls);
  }

  /** The body of the inner loop: `yield url` when it is valid, else log a warning. */
  method VisitToken(reader: Reader, url: string) returns (valid: bool)
    modifies reader.logger
    ensures valid == ValidImageUrl(url)
    ensures reader.logger.entries == old(reader.logger.entries) + (if valid then [] else [Warning(url)])
  {
    valid := ValidImageUrl(url);
    if !valid {
      reader.logger.Warn("Invalid image URL: " + url);
    }
  }

  lemma AllTokensNext(lines: seq<string>, i: int)
    requires 0 <= i < |lines|
    ensures AllTokens(lines[..i + 1]) == AllTokens(lines[..i]) + Tokens(lines[i])
  {
    assert lines[..i + 1][..i] == lines[..i];
  }

  lemma AcceptedSnoc(ts: seq<string>, t: string)
    ensures Accepted(ts + [t]) == Accepted(ts) + (if ValidImageUrl(t) then [t] else [])
  {
    assert (ts + [t])[..|ts|] == ts;
  }

  lemma RejectedSnoc(ts: seq<string>, t: string)
    ensures Rejected(ts + [t]) == Rejected(ts) + (if ValidImageUrl(t) then [] else [t])
  {
    assert (ts + [t])[..|ts|] == ts;
  }

  lemma WarningsSnoc(ts: seq<string>, t: string)
    ensures Warnings(ts + [t]) == Warnings(ts) + (if ValidImageUrl(t) then [] else [Warning(t)])
  {
    RejectedSnoc(ts, t);
    WarningEntriesAppend(Rejected(ts), if ValidImageUrl(t) then [] else [t]);
  }

  /** Filtering distributes over concatenation: the tokens yielded for `a + b` are those
      yielded for `a` followed by those yielded for `b`. */
  lemma {:induction false} AcceptedAppend(a: seq<string>, b: seq<string>)
    ensures Accepted(a + b) == Accepted(a) + Accepted(b)
    decreases |b|
  {
    if b == [] {
      assert a + b == a;
    } else {
      var b' := b[..|b| - 1];
      var t := b[|b| - 1];
      assert b == b' + [t];
      assert a + b == (a + b') + [t];
      AcceptedSnoc(a + b', t);
      AcceptedSnoc(b', t);
      AcceptedAppend(a, b');
    }
  }

  lemma {:induction false} RejectedAppend(a: seq<string>, b: seq<string>)
    ensures Rejected(a + b) == Rejected(a) + Rejected(b)
    decreases |b|
  {
    if b == [] {
      assert a + b == a;
    } else {
      var b' := b[..|b| - 1];
      var t := b[|b| - 1];
      assert b == b' + [t];
      assert a + b == (a + b') + [t];
      RejectedSnoc(a + b', t);
      RejectedSnoc(b', t);
      RejectedAppend(a, b');
    }
  }

  lemma WarningsAppend(a: seq<string>, b: seq<string>)
    ensures Warnings(a + b) == Warnings(a) + Warnings(b)
  {
    RejectedAppend(a, b);
    WarningEntriesAppend(Rejected(a), Rejected(b));
  }

  lemma WarningEntriesAppend(x: seq<string>, y: seq<string>)
    ensures WarningEntries(x + y) == WarningEntries(x) + WarningEntries(y)
  {
  }

  /** The tokens of consecutive groups of lines are the tokens of the first group followed
      by those of the second. */
  lemma {:induction false} AllTokensAppend(a: seq<string>, b: seq<string>)
    ensures AllTokens(a + b) == AllTokens(a) + AllTokens(b)
    decreases |b|
  {
    if b == [] {
      assert a + b == a;
    } else {
      var b' := b[..|b| - 1];
      assert (a + b)[..|a + b| - 1] == a + b';
      assert (a + b)[|a + b| - 1] == b[|b| - 1];
      AllTokensAppend(a, b');
      Assoc(AllTokens(a), AllTokens(b'), Tokens(b[|b| - 1]));
    }
  }

  /** A token occurrence is yielded exactly when the token is a valid image URL. */
  lemma {:induction false} AcceptedCount(ts: seq<string>, t: string)
    ensures multiset(Accepted(ts))[t] == if ValidImageUrl(t) then multiset(ts)[t] else 0
    decreases |ts|
  {
    if ts != [] {
      assert ts == ts[..|ts| - 1] + [ts[|ts| - 1]];
      AcceptedCount(ts[..|ts| - 1], t);
    }
  }

  /** A token occurrence is warned about exactly when the token is not a valid image URL. */
  lemma {:induction false} RejectedCount(ts: seq<string>, t: string)
    ensures multiset(Rejected(ts))[t] == if ValidImageUrl(t) then 0 else multiset(ts)[t]
    decreases |ts|
  {
    if ts != [] {
      assert ts == ts[..|ts| - 1] + [ts[|ts| - 1]];
      RejectedCount(ts[..|ts| - 1], t);
    }
  }

  /** Every token is accounted for once: yielded or warned about, never both, never neither. */
  lemma Partition(ts: seq<string>)
    ensures multiset(Accepted(ts)) + multiset(Rejected(ts)) == multiset(ts)
    ensures |Accepted(ts)| + |Rejected(ts)| == |ts|
  {
    forall t
      ensures (multiset(Accepted(ts)) + multiset(Rejected(ts)))[t] == multiset(ts)[t]
    {
      AcceptedCount(ts, t);
      RejectedCount(ts, t);
    }
    assert multiset(Accepted(ts)) + multiset(Rejected(ts)) == multiset(ts);
    assert |multiset(Accepted(ts) + Rejected(ts))| == |Accepted(ts) + Rejected(ts)|;
  }

  /** Only valid image URLs of the input are yielded, and only other tokens of the input are
      warned about. */
  lemma Soundness(ts: seq<string>)
    ensures forall k :: 0 <= k < |Accepted(ts)| ==> ValidImageUrl(Accepted(ts)[k]) && Accepted(ts)[k] in ts
    ensures forall k :: 0 <= k < |Rejected(ts)| ==> !ValidImageUrl(Rejected(ts)[k]) && Rejected(ts)[k] in ts
  {
    forall k | 0 <= k < |Accepted(ts)|
      ensures ValidImageUrl(Accepted(ts)[k]) && Accepted(ts)[k] in ts
    {
      AcceptedCount(ts, Accepted(ts)[k]);
    }
    forall k | 0 <= k < |Rejected(ts)|
      ensures !ValidImageUrl(Rejected(ts)[k]) && Rejected(ts)[k] in ts
    {
      RejectedCount(ts, Rejected(ts)[k]);
    }
  }

  /** An empty or all-whitespace line yields nothing and logs nothing; any other line yields
      or warns about at least one token. */
  lemma LineAccounted(line: string)
    ensures |Accepted(Tokens(line))| + |Warnings(Tokens(line))| == |Tokens(line)|
    ensures Tokens(line) == [] <==> AllWhitespace(line)
  {
    Partition(Tokens(line));
    TokensEmptyIffBlank(line);
  }

  /** Inserting a blank line anywhere in the list file changes neither what is yielded nor
      what is logged. */
  lemma BlankLineSilent(path: string, a: seq<string>, line: string, b: seq<string>, failure: Option<string>)
    requires AllWhitespace(line)
    ensures Accepted(AllTokens(a + [line] + b)) == Accepted(AllTokens(a + b))
    ensures ReaderLog(path, Listing(a + [line] + b, failure)) == ReaderLog(path, Listing(a + b, failure))
  {
    TokensEmptyIffBlank(line);
    AllTokensAppend(a + [line], b);
    AllTokensAppend(a, [line]);
    AllTokensAppend(a, b);
    assert [line][..0] == [];
    assert AllTokens(a) + [] == AllTokens(a);
  }

  /** A read error after the lines `done` ends the iteration there: what it yields is what an
      error-free read of `done` and further lines `rest` yields first, and its log is the
      warnings for `done` followed by the one error entry. */
  lemma FailureKeepsPrefix(path: string, done: seq<string>, rest: seq<string>, message: string)
    ensures Accepted(AllTokens(done + rest)) == Accepted(AllTokens(done)) + Accepted(AllTokens(rest))
    ensures var w := Warnings(AllTokens(done));
      ReaderLog(path, Listing(done, Some(message))) == w + [ReadError(path, message)] &&
      |w| <= |ReaderLog(path, Listing(done + rest, None))| &&
      ReaderLog(path, Listing(done + rest, None))[..|w|] == w
  {
    AllTokensAppend(done, rest);
    AcceptedAppend(AllTokens(done), AllTokens(rest));
    WarningsAppend(AllTokens(done), AllTokens(rest));
    var w := Warnings(AllTokens(done));
    var full := ReaderLog(path, Listing(done + rest, None));
    assert full == w + Warnings(AllTokens(rest)) + [];
    assert full[..|w|] == w;
  }

  /** Warnings are logged at level warn only. */
  lemma WarningsLevels(ts: seq<string>)
    ensures Count(Warnings(ts), Warn) == |Rejected(ts)|
    ensures Count(Warnings(ts), Error) == 0 && Count(Warnings(ts), Info) == 0
  {
    WarningEntriesLevels(Rejected(ts));
  }

  lemma {:induction false} WarningEntriesLevels(urls: seq<string>)
    ensures Count(WarningEntries(urls), Warn) == |urls|
    ensures Count(WarningEntries(urls), Error) == 0 && Count(WarningEntries(urls), Info) == 0
    decreases |urls|
  {
    if urls != [] {
      var w := WarningEntries(urls);
      assert w[..|w| - 1] == WarningEntries(urls[..|urls| - 1]);
      WarningEntriesLevels(urls[..|urls| - 1]);
    }
  }

  /** `each_valid_url` logs one warning per rejected token, one error entry exactly when
      reading failed, and nothing at level info. */
  lemma ReaderLogCounts(path: string, listing: Listing)
    ensures Count(ReaderLog(path, listing), Warn) == |Rejected(AllTokens(listing.lines))|
    ensures Count(ReaderLog(path, listing), Error) == (if listing.failure.Some? then 1 else 0)
    ensures Count(ReaderLog(path, listing), Info) == 0
  {
    var ws := Warnings(AllTokens(listing.lines));
    var tail: seq<LogEntry> := if listing.failure.Some? then [ReadError(path, listing.failure.value)] else [];
    ReadErrorCounts(tail);
    WarningsLevels(AllTokens(listing.lines));
    CountAppend(ws, tail, Warn);
    CountAppend(ws, tail, Error);
    CountAppend(ws, tail, Info);
  }

  lemma ReadErrorCounts(tail: seq<LogEntry>)
    requires |tail| <= 1 && forall k :: 0 <= k < |tail| ==> tail[k].level == Error
    ensures Count(tail, Warn) == 0 && Count(tail, Info) == 0 && Count(tail, Error) == |tail|
  {
    assert tail != [] ==> tail[..0] == [];
  }

  /** A token that `URI.parse` rejects is not valid: the syntax error is caught, never
      raised. In particular every token with a character outside ASCII is invalid. */
  lemma ParseFailureRejected(url: string)
    requires Uri.Parse(url).Failure? || !Uri.IsAscii(url)
    ensures !ValidImageUrl(url)
  {
  }

  /** For a URL built from a scheme, an authority, a path and optional query and fragment,
      validity depends on the scheme and the path alone. */
  lemma ValidImageUrlOfServerUri(u: Uri.Uri)
    requires Uri.WellFormedServerUri(u)
    ensures ValidImageUrl(Uri.Recompose(u)) <==> IsHttpScheme(u.scheme.value) && HasImageExtension(u.path.value)
  {
    Uri.ParseRecompose(u);
  }

  /** Conversely, a valid image URL is the text of its own parse, whose scheme is http or
      https and whose path ends in an image extension. */
  lemma ValidImageUrlParts(url: string) returns (u: Uri.Uri)
    requires ValidImageUrl(url)
    ensures Uri.Parse(url) == Success(u) && Uri.Recompose(u) == url
    ensures u.scheme.Some? && IsHttpScheme(u.scheme.value)
    ensures u.path.Some? && HasImageExtension(u.path.value)
  {
    u := Uri.Parse(url).value;
    Uri.RecomposeParse(url);
  }
}
