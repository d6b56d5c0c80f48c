/**
 * A simplified `URI.parse`: the split of a URI reference into scheme, authority, path,
 * query and fragment of section 3 of RFC 3986, with the syntax errors that matter for
 * telling an http image URL from anything else.
 *
 * What counts as a syntax error here, as in Ruby's RFC 3986 parser: a character outside
 * ASCII anywhere; in the scheme, authority, path and fragment, a character outside the
 * RFC 3986 alphabet (unreserved, reserved, `%`) or a `%` not followed by two hex digits;
 * something before the first `:` that is not a scheme (section 3.1); an authority that
 * is not `[userinfo@]host[:port]` (section 3.2); square brackets outside an IP literal;
 * a second `#`. The query is any text up to the `#`; only a `%` in it that does not start
 * a percent-encoding is refused, once tab, line feed and carriage return are dropped.
 */
module Uri {
  import opened Wrappers
  import Sequences

  /** The parts of a URI reference. As in Ruby's `URI::Generic`, a URI whose scheme is
      followed by a rootless path (`http:x.jpg`) has an opaque part and no path. */
  datatype Uri = Uri(
    scheme: Option<string>,
    authority: Option<string>,
    path: Option<string>,
    opaquePart: Option<string>,
    query: Option<string>,
    fragment: Option<string>)

  datatype ParseError = InvalidUri(message: string)

  predicate IsAlpha(c: char) { 'a' <= c <= 'z' || 'A' <= c <= 'Z' }
  predicate IsDigit(c: char) { '0' <= c <= '9' }
  predicate IsHexDigit(c: char) { IsDigit(c) || 'a' <= c <= 'f' || 'A' <= c <= 'F' }

  /** The RFC 3986 alphabet: unreserved, gen-delims, sub-delims and `%`. */
  predicate IsUriChar(c: char) {
    IsAlpha(c) || IsDigit(c) || c in "-._~" || c in ":/?#[]@" || c in "!$&'()*+,;=" || c == '%'
  }

  predicate IsAscii(s: string) {
    s == [] || (s[0] as int < 128 && IsAscii(s[1..]))
  }

  /** Every character is in the RFC 3986 alphabet and every `%` starts a percent-encoding. */
  predicate WellFormedText(s: string) {
    s == [] ||
    (IsUriChar(s[0]) && (s[0] == '%' ==> |s| >= 3 && IsHexDigit(s[1]) && IsHexDigit(s[2])) &&
     WellFormedText(s[1..]))
  }

  /** Every `%` of `s` starts a percent-encoding. */
  predicate ValidEscapes(s: string) {
    s == [] ||
    ((s[0] == '%' ==> |s| >= 3 && IsHexDigit(s[1]) && IsHexDigit(s[2])) && ValidEscapes(s[1..]))
  }

  /** `s` without its tabs, line feeds and carriage returns. */
  function DropLineBreaks(s: string): string {
    if s == [] then []
    else if s[0] in "\t\n\r" then DropLineBreaks(s[1..])
    else [s[0]] + DropLineBreaks(s[1..])
  }

  /** The query as Ruby's `query=` accepts it: no `%` that does not start a
      percent-encoding, once tab, line feed and carriage return are dropped. */
  predicate ValidQuery(q: string) {
    ValidEscapes(DropLineBreaks(q))
  }

  /** No character of `s` is in `cs`. */
  predicate Avoids(s: string, cs: set<char>) {
    s == [] || (s[0] !in cs && Avoids(s[1..], cs))
  }

  predicate NoBrackets(s: string) { Avoids(s, {'[', ']'}) }

  predicate AllDigits(s: string) {
    s == [] || (IsDigit(s[0]) && AllDigits(s[1..]))
  }

  /** Position of the first character of `s` that is in `cs`, or `|s|` when there is none. */
  function IndexOf(s: string, cs: set<char>): (i: nat)
    ensures i <= |s| && Avoids(s[..i], cs)
    ensures i < |s| ==> s[i] in cs
  {
    if s == [] then 0
    else if s[0] in cs then 0
    else
      var j := IndexOf(s[1..], cs);
      assert s[..j + 1] == [s[0]] + s[1..][..j];
      1 + j
  }

  /** `scheme = ALPHA *( ALPHA / DIGIT / "+" / "-" / "." )`, section 3.1 of RFC 3986. */
  predicate IsScheme(s: string) {
    s != [] && IsAlpha(s[0]) && SchemeTail(s[1..])
  }

  predicate SchemeTail(s: string) {
    s == [] || ((IsAlpha(s[0]) || IsDigit(s[0]) || s[0] in "+-.") && SchemeTail(s[1..]))
  }

  /** `[ ":" port ]` with `port = *DIGIT`. */
  predicate IsPortSuffix(s: string) {
    s == [] || (s[0] == ':' && AllDigits(s[1..]))
  }

  /** An IP literal between brackets, simplified to hex digits, colons and dots with at
      least one colon. */
  predicate IsIpLiteralBody(s: string) {
    ':' in s && IpLiteralChars(s)
  }

  predicate IpLiteralChars(s: string) {
    s == [] || ((IsHexDigit(s[0]) || s[0] in ":.") && IpLiteralChars(s[1..]))
  }

  /** `host [ ":" port ]`, section 3.2.2 and 3.2.3 of RFC 3986. */
  predicate ValidHostPort(hp: string) {
    if hp != [] && hp[0] == '[' then
      var e := IndexOf(hp, {']'});
      e < |hp| && IsIpLiteralBody(hp[1..e]) && IsPortSuffix(hp[e + 1..])
    else
      var c := IndexOf(hp, {':'});
      NoBrackets(hp[..c]) && IsPortSuffix(hp[c..])
  }

  /** `authority = [ userinfo "@" ] host [ ":" port ]`, section 3.2 of RFC 3986. */
  predicate ValidAuthority(a: string) {
    var at := IndexOf(a, {'@'});
    if at < |a| then NoBrackets(a[..at]) && '@' !in a[at + 1..] && ValidHostPort(a[at + 1..])
    else ValidHostPort(a)
  }

  /** The scheme and what follows its `:`, or the whole text of a relative reference.
      `None` when the text before the first `:` (and before any `/`) is not a scheme:
      a relative reference cannot have a `:` in its first segment. */
  function SplitScheme(hier: string): Option<(Option<string>, string)> {
    var c := IndexOf(hier, {':', '/'});
    if c < |hier| && hier[c] == ':' then
      if IsScheme(hier[..c]) then Some((Some(hier[..c]), hier[c + 1..])) else None
    else Some((None, hier))
  }

  /** The hierarchical part after the scheme: `"//" authority path-abempty`, an absolute
      or empty path, or a rootless path (opaque after a scheme, a path otherwise). */
  function SplitHier(scheme: Option<string>, rest: string,
      query: Option<string>, fragment: Option<string>): Option<Uri> {
    if |rest| >= 2 && rest[..2] == "//" then WithAuthority(scheme, rest[2..], query, fragment)
    else if !NoBrackets(rest) then None
    else if scheme.Some? && rest != [] && rest[0] != '/' then
      Some(Uri(scheme, None, None, Some(rest + Rejoin('?', query)), None, fragment))
    else Some(Uri(scheme, None, Some(rest), None, query, fragment))
  }

  /** What follows `//`: the authority up to the first `/`, then the path. */
  function WithAuthority(scheme: Option<string>, after: string,
      query: Option<string>, fragment: Option<string>): Option<Uri> {
    var p := IndexOf(after, {'/'});
    if ValidAuthority(after[..p]) && NoBrackets(after[p..]) then
      Some(Uri(scheme, Some(after[..p]), Some(after[p..]), None, query, fragment))
    else None
  }

  function Quote(s: string): string { "\"" + s + "\"" }

  /** `s` cut at its first `c`: what comes before, and what comes after if there is a `c`. */
  function SplitOff(s: string, c: char): (r: (string, Option<string>))
    ensures Avoids(r.0, {c})
    ensures r.0 + Rejoin(c, r.1) == s
  {
    var i := IndexOf(s, {c});
    if i < |s| then
      assert s == s[..i] + ([s[i]] + s[i + 1..]);
      (s[..i], Some(s[i + 1..]))
    else
      assert s[..i] == s;
      (s, None)
  }

  /** `c` followed by the optional part, or nothing. */
  function Rejoin(c: char, part: Option<string>): string {
    if part.Some? then [c] + part.value else ""
  }

  /** `URI.parse(s)`: the parts of `s`, or the `URI::InvalidURIError` it raises. The text
      is checked for ASCII, then matched against the grammar, and last the query is set,
      which refuses a malformed percent-encoding. */
  function Parse(s: string): (r: Result<Uri, ParseError>)
    ensures r.Success? ==> IsAscii(s) && Components(s) == Some(r.value)
    ensures r.Success? && r.value.query.Some? ==> ValidQuery(r.value.query.value)
    ensures !IsAscii(s) ==> r == Failure(InvalidUri("URI must be ascii only " + Quote(s)))
  {
    if !IsAscii(s) then Failure(InvalidUri("URI must be ascii only " + Quote(s)))
    else
      match Components(s)
      case None => Failure(InvalidUri("bad URI(is not URI?): " + Quote(s)))
      case Some(u) =>
        if u.query.Some? && !ValidQuery(u.query.value) then
          Failure(InvalidUri("invalid percent escape: " + u.query.value))
        else Success(u)
  }

  /** The split of a text into its parts: the fragment after the first `#`, the query
      after the first `?` before it, then the scheme and the hierarchical part. */
  function Components(s: string): Option<Uri> {
    var (base, fragment) := SplitOff(s, '#');
    WithFragment(base, fragment)
  }

  function WithFragment(base: string, fragment: Option<string>): Option<Uri> {
    var (hier, query) := SplitOff(base, '?');
    if !WellFormedText(hier) then None
    else if fragment.Some? && !(Avoids(fragment.value, {'#', '[', ']'}) && WellFormedText(fragment.value)) then None
    else WithQuery(hier, query, fragment)
  }

  function WithQuery(hier: string, query: Option<string>, fragment: Option<string>): Option<Uri> {
    match SplitScheme(hier)
    case None => None
    case Some((scheme, rest)) => SplitHier(scheme, rest, query, fragment)
  }

  /** The text of a URI put back together from its parts (section 5.3 of RFC 3986). */
  function Recompose(u: Uri): string {
    SchemePrefix(u.scheme) + HierText(u) + Rejoin('#', u.fragment)
  }

  function SchemePrefix(scheme: Option<string>): string {
    if scheme.Some? then scheme.value + ":" else ""
  }

  function AuthorityText(authority: Option<string>): string {
    if authority.Some? then "//" + authority.value else ""
  }

  /** Everything between the scheme's `:` and the fragment's `#`. */
  function HierText(u: Uri): string {
    if u.opaquePart.Some? then u.opaquePart.value + Rejoin('?', u.query)
    else AuthorityText(u.authority) + (if u.path.Some? then u.path.value else "") + Rejoin('?', u.query)
  }

  lemma {:induction false} SplitSchemeParts(hier: string)
    requires SplitScheme(hier).Some?
    ensures var (scheme, rest) := SplitScheme(hier).value;
      hier == SchemePrefix(scheme) + rest
  {
    var c := IndexOf(hier, {':', '/'});
    if c < |hier| && hier[c] == ':' {
      assert hier == hier[..c] + ([hier[c]] + hier[c + 1..]);
    }
  }

  lemma {:induction false} WithAuthorityParts(scheme: Option<string>, after: string,
      query: Option<string>, fragment: Option<string>)
    requires WithAuthority(scheme, after, query, fragment).Some?
    ensures var u := WithAuthority(scheme, after, query, fragment).value;
      u.scheme == scheme && u.fragment == fragment && HierText(u) == "//" + after + Rejoin('?', query)
  {
    var p := IndexOf(after, {'/'});
    var u := WithAuthority(scheme, after, query, fragment).value;
    assert HierText(u) == ("//" + after[..p]) + after[p..] + Rejoin('?', query);
    assert after[..p] + after[p..] == after;
    Sequences.Assoc("//", after[..p], after[p..]);
  }

  lemma {:induction false} SplitHierParts(scheme: Option<string>, rest: string,
      query: Option<string>, fragment: Option<string>)
    requires SplitHier(scheme, rest, query, fragment).Some?
    ensures var u := SplitHier(scheme, rest, query, fragment).value;
      u.scheme == scheme && u.fragment == fragment && HierText(u) == rest + Rejoin('?', query)
  {
    if |rest| >= 2 && rest[..2] == "//" {
      WithAuthorityParts(scheme, rest[2..], query, fragment);
      assert rest == "//" + rest[2..];
    } else if scheme.Some? && rest != [] && rest[0] != '/' {
      OpaqueHierText(scheme, rest + Rejoin('?', query), fragment);
    } else {
      PathHierText(scheme, rest, query, fragment);
    }
  }

  lemma OpaqueHierText(scheme: Option<string>, opaquePart: string, fragment: Option<string>)
    ensures HierText(Uri(scheme, None, None, Some(opaquePart), None, fragment)) == opaquePart
  {
    assert opaquePart + Rejoin('?', None) == opaquePart;
  }

  lemma PathHierText(scheme: Option<string>, path: string, query: Option<string>, fragment: Option<string>)
    ensures HierText(Uri(scheme, None, Some(path), None, query, fragment)) == path + Rejoin('?', query)
  {
    assert AuthorityText(None) + path == path;
  }

  lemma {:induction false} RecomposeWithQuery(hier: string, query: Option<string>, fragment: Option<string>)
    requires WithQuery(hier, query, fragment).Some?
    ensures var u := WithQuery(hier, query, fragment).value;
      u.fragment == fragment && SchemePrefix(u.scheme) + HierText(u) == hier + Rejoin('?', query)
  {
    var (scheme, rest) := SplitScheme(hier).value;
    assert WithQuery(hier, query, fragment) == SplitHier(scheme, rest, query, fragment);
    SplitSchemeParts(hier);
    SplitHierParts(scheme, rest, query, fragment);
    Sequences.Assoc(SchemePrefix(scheme), rest, Rejoin('?', query));
  }

  lemma {:induction false} RecomposeComponents(s: string)
    requires Components(s).Some?
    ensures Recompose(Components(s).value) == s
  {
    var (base, fragment) := SplitOff(s, '#');
    var (hier, query) := SplitOff(base, '?');
    RecomposeWithQuery(hier, query, fragment);
  }

  /** Parsing loses nothing: a URI that parses is recomposed from its parts into the
      very same text. */
  lemma {:induction false} RecomposeParse(s: string)
    requires Parse(s).Success?
    ensures Recompose(Parse(s).value) == s
  {
    RecomposeComponents(s);
  }

  /** The parts of an absolute URI with an authority, as `Recompose` can write them so
      that `Parse` reads them back: a scheme, an authority and a path without the
      delimiters that would end them early, an ASCII query without `#` that `query=`
      accepts, and a fragment in the RFC 3986 alphabet without `#`. */
  predicate WellFormedServerUri(u: Uri) {
    u.scheme.Some? && IsScheme(u.scheme.value) &&
    u.authority.Some? && ValidAuthority(u.authority.value) &&
    Avoids(u.authority.value, {'/', '?', '#'}) && WellFormedText(u.authority.value) &&
    u.path.Some? && (u.path.value == [] || u.path.value[0] == '/') &&
    Avoids(u.path.value, {'?', '#', '[', ']'}) && WellFormedText(u.path.value) &&
    u.opaquePart.None? &&
    (u.query.Some? ==> Avoids(u.query.value, {'#'}) && IsAscii(u.query.value) && ValidQuery(u.query.value)) &&
    (u.fragment.Some? ==> Avoids(u.fragment.value, {'#', '[', ']'}) && WellFormedText(u.fragment.value))
  }

  lemma {:induction false} IndexOfAppend(a: string, b: string, cs: set<char>)
    requires Avoids(a, cs)
    ensures IndexOf(a + b, cs) == |a| + IndexOf(b, cs)
  {
    if a == [] {
      assert a + b == b;
    } else {
      assert (a + b)[0] == a[0];
      assert (a + b)[1..] == a[1..] + b;
      IndexOfAppend(a[1..], b, cs);
    }
  }

  lemma {:induction false} AvoidsAppend(a: string, b: string, cs: set<char>)
    requires Avoids(a, cs) && Avoids(b, cs)
    ensures Avoids(a + b, cs)
  {
    if a == [] {
      assert a + b == b;
    } else {
      assert (a + b)[1..] == a[1..] + b;
      AvoidsAppend(a[1..], b, cs);
    }
  }

  lemma {:induction false} WellFormedAppend(a: string, b: string)
    requires WellFormedText(a) && WellFormedText(b)
    ensures WellFormedText(a + b)
  {
    if a == [] {
      assert a + b == b;
    } else {
      var c := a + b;
      assert c[1..] == a[1..] + b;
      WellFormedAppend(a[1..], b);
      assert WellFormedText(c[1..]);
      assert c[0] == a[0] && (|a| >= 3 ==> c[1] == a[1] && c[2] == a[2]);
    }
  }

  lemma {:induction false} WellFormedRejoin(c: char, part: Option<string>)
    requires IsUriChar(c) && c != '%'
    requires part.Some? ==> WellFormedText(part.value)
    ensures WellFormedText(Rejoin(c, part))
  {
    if part.Some? {
      WellFormedAppend([c], part.value);
    }
  }

  lemma {:induction false} AsciiAppend(a: string, b: string)
    requires IsAscii(a) && IsAscii(b)
    ensures IsAscii(a + b)
  {
    if a == [] {
      assert a + b == b;
    } else {
      assert (a + b)[1..] == a[1..] + b;
      AsciiAppend(a[1..], b);
    }
  }

  lemma {:induction false} WellFormedIsAscii(s: string)
    requires WellFormedText(s)
    ensures IsAscii(s)
  {
    if s != [] { WellFormedIsAscii(s[1..]); }
  }

  lemma {:induction false} SchemeTailFacts(s: string)
    requires SchemeTail(s)
    ensures Avoids(s, {':', '/', '?', '#'}) && WellFormedText(s)
  {
    if s != [] { SchemeTailFacts(s[1..]); }
  }

  /** Cutting at the first `c` undoes `Rejoin`. */
  lemma {:induction false} SplitOffRejoin(a: string, part: Option<string>, c: char)
    requires Avoids(a, {c})
    ensures SplitOff(a + Rejoin(c, part), c) == (a, part)
  {
    var s := a + Rejoin(c, part);
    IndexOfAppend(a, Rejoin(c, part), {c});
    assert s[..|a|] == a;
    if part.Some? {
      assert s[|a| + 1..] == part.value;
    }
  }

  lemma {:induction false} SplitSchemeOf(scheme: string, rest: string)
    requires IsScheme(scheme)
    ensures SplitScheme(scheme + ":" + rest) == Some((Some(scheme), rest))
  {
    var hier := scheme + ":" + rest;
    assert hier == scheme + (":" + rest);
    SchemeTailFacts(scheme[1..]);
    AvoidsSubset(scheme[1..], {':', '/', '?', '#'}, {':', '/'});
    IndexOfAppend(scheme, ":" + rest, {':', '/'});
    assert hier[..|scheme|] == scheme;
    assert hier[|scheme| + 1..] == rest;
  }

  lemma {:induction false} WithAuthorityOf(scheme: Option<string>, authority: string, path: string,
      query: Option<string>, fragment: Option<string>)
    requires Avoids(authority, {'/'}) && ValidAuthority(authority)
    requires (path == [] || path[0] == '/') && NoBrackets(path)
    ensures WithAuthority(scheme, authority + path, query, fragment) ==
      Some(Uri(scheme, Some(authority), Some(path), None, query, fragment))
  {
    IndexOfAppend(authority, path, {'/'});
    var after := authority + path;
    assert after[..|authority|] == authority;
    assert after[|authority|..] == path;
  }

  lemma {:induction false} AvoidsSubset(s: string, cs: set<char>, ds: set<char>)
    requires Avoids(s, cs) && ds <= cs
    ensures Avoids(s, ds)
  {
    if s != [] { AvoidsSubset(s[1..], cs, ds); }
  }

  /** `Recompose` of a server URI, grouped as `Components` takes it apart. */
  function ServerUriText(scheme: string, authority: string, path: string,
      query: Option<string>, fragment: Option<string>): string {
    scheme + ":" + ("//" + authority + path) + Rejoin('?', query) + Rejoin('#', fragment)
  }

  lemma {:induction false} ServerHierWellFormed(scheme: string, authority: string, path: string)
    requires IsScheme(scheme) && WellFormedText(authority) && WellFormedText(path)
    ensures WellFormedText(scheme + ":" + ("//" + authority + path))
  {
    SchemeTailFacts(scheme[1..]);
    WellFormedAppend(scheme, ":");
    WellFormedAppend("//", authority);
    WellFormedAppend("//" + authority, path);
    WellFormedAppend(scheme + ":", "//" + authority + path);
  }

  /** The text of a server URI is ASCII when its query is. */
  lemma {:induction false} ServerUriTextAscii(scheme: string, authority: string, path: string,
      query: Option<string>, fragment: Option<string>)
    requires IsScheme(scheme) && WellFormedText(authority) && WellFormedText(path)
    requires query.Some? ==> IsAscii(query.value)
    requires fragment.Some? ==> WellFormedText(fragment.value)
    ensures IsAscii(ServerUriText(scheme, authority, path, query, fragment))
  {
    var hier := scheme + ":" + ("//" + authority + path);
    ServerHierWellFormed(scheme, authority, path);
    WellFormedIsAscii(hier);
    assert IsAscii(Rejoin('?', query)) by {
      if query.Some? {
        assert IsAscii("?");
        AsciiAppend("?", query.value);
      }
    }
    assert IsAscii(Rejoin('#', fragment)) by {
      WellFormedRejoin('#', fragment);
      WellFormedIsAscii(Rejoin('#', fragment));
    }
    AsciiAppend(hier, Rejoin('?', query));
    AsciiAppend(hier + Rejoin('?', query), Rejoin('#', fragment));
  }

  lemma {:induction false} ServerUriTextAvoids(scheme: string, authority: string, path: string,
      query: Option<string>, cs: set<char>)
    requires IsScheme(scheme) && cs <= {'?', '#'} && Avoids(authority, cs) && Avoids(path, cs)
    ensures Avoids(scheme + ":" + ("//" + authority + path), cs)
  {
    SchemeTailFacts(scheme[1..]);
    AvoidsSubset(scheme[1..], {':', '/', '?', '#'}, cs);
    AvoidsAppend(scheme, ":", cs);
    AvoidsAppend("//", authority, cs);
    AvoidsAppend("//" + authority, path, cs);
    AvoidsAppend(scheme + ":", "//" + authority + path, cs);
  }

  lemma {:induction false} WithQueryOfServerUri(scheme: string, authority: string, path: string,
      query: Option<string>, fragment: Option<string>)
    requires IsScheme(scheme)
    requires ValidAuthority(authority) && Avoids(authority, {'/'})
    requires (path == [] || path[0] == '/') && NoBrackets(path)
    ensures WithQuery(scheme + ":" + ("//" + authority + path), query, fragment) ==
      Some(Uri(Some(scheme), Some(authority), Some(path), None, query, fragment))
  {
    var rest := "//" + authority + path;
    SplitSchemeOf(scheme, rest);
    assert rest[..2] == "//" && rest[2..] == authority + path;
    WithAuthorityOf(Some(scheme), authority, path, query, fragment);
  }

  lemma {:induction false} ComponentsOfServerUri(scheme: string, authority: string, path: string,
      query: Option<string>, fragment: Option<string>)
    requires IsScheme(scheme)
    requires ValidAuthority(authority) && Avoids(authority, {'/', '?', '#'})
    requires (path == [] || path[0] == '/') && Avoids(path, {'?', '#', '[', ']'})
    requires WellFormedText(authority) && WellFormedText(path)
    requires query.Some? ==> Avoids(query.value, {'#'})
    requires fragment.Some? ==> Avoids(fragment.value, {'#', '[', ']'}) && WellFormedText(fragment.value)
    ensures Components(ServerUriText(scheme, authority, path, query, fragment)) ==
      Some(Uri(Some(scheme), Some(authority), Some(path), None, query, fragment))
  {
    var hier := scheme + ":" + ("//" + authority + path);
    AvoidsSubset(authority, {'/', '?', '#'}, {'#'});
    AvoidsSubset(authority, {'/', '?', '#'}, {'?'});
    AvoidsSubset(authority, {'/', '?', '#'}, {'/'});
    AvoidsSubset(path, {'?', '#', '[', ']'}, {'#'});
    AvoidsSubset(path, {'?', '#', '[', ']'}, {'?'});
    AvoidsSubset(path, {'?', '#', '[', ']'}, {'[', ']'});
    ServerUriTextAvoids(scheme, authority, path, query, {'#'});
    ServerUriTextAvoids(scheme, authority, path, query, {'?'});
    ServerHierWellFormed(scheme, authority, path);
    assert Avoids(Rejoin('?', query), {'#'});
    AvoidsAppend(hier, Rejoin('?', query), {'#'});
    SplitOffRejoin(hier + Rejoin('?', query), fragment, '#');
    SplitOffRejoin(hier, query, '?');
    WithQueryOfServerUri(scheme, authority, path, query, fragment);
  }

  /** Reading back what `Recompose` wrote: every well-formed absolute URI with an
      authority parses into exactly its parts. */
  lemma {:induction false} ParseRecompose(u: Uri)
    requires WellFormedServerUri(u)
    ensures Parse(Recompose(u)) == Success(u)
  {
    RecomposeServerUri(u);
    ParseServerUriText(u.scheme.value, u.authority.value, u.path.value, u.query, u.fragment);
  }

  lemma RecomposeServerUri(u: Uri)
    requires u.scheme.Some? && u.authority.Some? && u.path.Some? && u.opaquePart.None?
    ensures Recompose(u) == ServerUriText(u.scheme.value, u.authority.value, u.path.value, u.query, u.fragment)
  {
    var a := u.scheme.value + ":";
    var b := "//" + u.authority.value + u.path.value;
    assert HierText(u) == b + Rejoin('?', u.query);
    Sequences.Assoc(a, b, Rejoin('?', u.query));
  }

  lemma {:induction false} ParseServerUriText(scheme: string, authority: string, path: string,
      query: Option<string>, fragment: Option<string>)
    requires WellFormedServerUri(Uri(Some(scheme), Some(authority), Some(path), None, query, fragment))
    ensures Parse(ServerUriText(scheme, authority, path, query, fragment)) ==
      Success(Uri(Some(scheme), Some(authority), Some(path), None, query, fragment))
  {
    ServerUriTextAscii(scheme, authority, path, query, fragment);
    ComponentsOfServerUri(scheme, authority, path, query, fragment);
  }
}
