/**
 * The reader's behaviour on the inputs its own unit tests use (spec/url_reader_spec.rb),
 * derived from the general lemmas of `UrlReader`: which `http` URLs with a plain host, a
 * plain path and an optional query are valid, and what a line of such URLs yields and
 * logs. Each fact about one literal string (its characters, its extension) is a lemma
 * of its own.
 */
module UrlReaderCases {
  import opened Wrappers
  import opened Text
  import Uri
  import opened Logging
  import opened UrlReader
  import opened Sequences

  predicate HostChar(c: char) { Uri.IsAlpha(c) || Uri.IsDigit(c) || c == '.' || c == '-' }

  /** Letters, digits, `.` and `-`: the only characters of the hosts below. */
  predicate PlainHost(s: string) { forall i :: 0 <= i < |s| ==> HostChar(s[i]) }

  /** Host characters, `_` and `/`: the only characters of the paths below. */
  predicate PlainPath(s: string) { forall i :: 0 <= i < |s| ==> HostChar(s[i]) || s[i] in "_/" }

  lemma {:induction false} PlainHostText(s: string)
    requires PlainHost(s)
    ensures Uri.Avoids(s, {'/', '?', '#', '@', ':', '[', ']'}) && Uri.WellFormedText(s)
  {
    if s != [] {
      assert HostChar(s[0]);
      assert forall i :: 0 <= i < |s[1..]| ==> s[1..][i] == s[i + 1];
      PlainHostText(s[1..]);
    }
  }

  lemma {:induction false} PlainPathText(s: string)
    requires PlainPath(s)
    ensures Uri.Avoids(s, {'?', '#', '[', ']'}) && Uri.WellFormedText(s)
  {
    if s != [] {
      assert HostChar(s[0]) || s[0] in "_/";
      assert forall i :: 0 <= i < |s[1..]| ==> s[1..][i] == s[i + 1];
      PlainPathText(s[1..]);
    }
  }

  lemma {:induction false} IndexOfAbsent(s: string, cs: set<char>)
    requires Uri.Avoids(s, cs)
    ensures Uri.IndexOf(s, cs) == |s|
  {
    if s != [] {
      IndexOfAbsent(s[1..], cs);
    }
  }

  /** A plain host is an authority without userinfo and port. */
  lemma PlainHostAuthority(s: string)
    requires PlainHost(s)
    ensures Uri.ValidAuthority(s) && Uri.Avoids(s, {'/', '?', '#'}) && Uri.WellFormedText(s)
  {
    PlainHostText(s);
    Uri.AvoidsSubset(s, {'/', '?', '#', '@', ':', '[', ']'}, {'@'});
    Uri.AvoidsSubset(s, {'/', '?', '#', '@', ':', '[', ']'}, {':'});
    Uri.AvoidsSubset(s, {'/', '?', '#', '@', ':', '[', ']'}, {'[', ']'});
    Uri.AvoidsSubset(s, {'/', '?', '#', '@', ':', '[', ']'}, {'/', '?', '#'});
    IndexOfAbsent(s, {'@'});
    IndexOfAbsent(s, {':'});
    assert s[..|s|] == s;
  }

  /** `http://<host><path>` is the text of a well-formed server URI. */
  lemma HttpUri(host: string, path: string) returns (u: Uri.Uri)
    requires PlainHost(host) && PlainPath(path) && (path == [] || path[0] == '/')
    ensures Uri.WellFormedServerUri(u) && Uri.Recompose(u) == "http://" + host + path
    ensures u.scheme == Some("http") && u.path == Some(path)
  {
    PlainHostAuthority(host);
    PlainPathText(path);
    u := Uri.Uri(Some("http"), Some(host), Some(path), None, None, None);
    assert Uri.IsScheme("http");
    RecomposeHttp(host, path);
  }

  lemma HttpPrefix() ensures "http" + ":" + "//" == "http://" {}

  lemma RecomposeHttp(host: string, path: string)
    ensures Uri.Recompose(Uri.Uri(Some("http"), Some(host), Some(path), None, None, None)) == "http://" + host + path
  {
    var u := Uri.Uri(Some("http"), Some(host), Some(path), None, None, None);
    assert Uri.SchemePrefix(u.scheme) == "http" + ":";
    assert Uri.HierText(u) == ("//" + host) + path + [];
    assert Uri.Rejoin('#', None) == [];
    HttpPrefix();
    Assoc("http" + ":", "//" + host, path);
    Assoc("http" + ":", "//", host);
  }

  /** An `http` URL with a plain host and path is yielded exactly when its path ends in an
      image extension. */
  lemma HttpUrlValidity(host: string, path: string)
    requires PlainHost(host) && PlainPath(path) && (path == [] || path[0] == '/')
    ensures ValidImageUrl("http://" + host + path) <==> HasImageExtension(path)
  {
    var u := HttpUri(host, path);
    assert IsHttpScheme("http");
    ValidImageUrlOfServerUri(u);
  }

  /** `http://<host><path>?<query>` is the text of a well-formed server URI when the query
      is ASCII text without `#` whose every `%` starts a percent-encoding. */
  lemma HttpQueryUri(host: string, path: string, query: string) returns (u: Uri.Uri)
    requires PlainHost(host) && PlainPath(path) && (path == [] || path[0] == '/')
    requires Uri.Avoids(query, {'#'}) && Uri.IsAscii(query) && Uri.ValidQuery(query)
    ensures Uri.WellFormedServerUri(u) && Uri.Recompose(u) == "http://" + host + path + "?" + query
    ensures u.scheme == Some("http") && u.path == Some(path)
  {
    PlainHostAuthority(host);
    PlainPathText(path);
    u := Uri.Uri(Some("http"), Some(host), Some(path), None, Some(query), None);
    assert Uri.IsScheme("http");
    RecomposeHttpQuery(host, path, query);
  }

  lemma RecomposeHttpQuery(host: string, path: string, query: string)
    ensures Uri.Recompose(Uri.Uri(Some("http"), Some(host), Some(path), None, Some(query), None))
      == "http://" + host + path + "?" + query
  {
    var u := Uri.Uri(Some("http"), Some(host), Some(path), None, Some(query), None);
    assert Uri.SchemePrefix(u.scheme) == "http" + ":";
    assert Uri.HierText(u) == ("//" + host) + path + ("?" + query);
    assert Uri.Rejoin('#', None) == [];
    HttpPrefix();
    Assoc("http" + ":", "//" + host, path);
    Assoc("http" + ":", "//", host);
    Assoc("http://" + host + path, "?", query);
  }

  /** The query does not decide validity: `|`, `[` and `]` in it are accepted, as the
      query takes any text up to the fragment. */
  lemma HttpQueryUrlValidity(host: string, path: string, query: string)
    requires PlainHost(host) && PlainPath(path) && (path == [] || path[0] == '/')
    requires Uri.Avoids(query, {'#'}) && Uri.IsAscii(query) && Uri.ValidQuery(query)
    ensures ValidImageUrl("http://" + host + path + "?" + query) <==> HasImageExtension(path)
  {
    var u := HttpQueryUri(host, path, query);
    assert IsHttpScheme("http");
    ValidImageUrlOfServerUri(u);
  }

  lemma APngPath() ensures PlainPath("/a.png") {}

  lemma APngIsImage()
    ensures HasImageExtension("/a.png")
  {
    assert "/a.png"[2..] == ".png";
    assert Lower(".png") == ".png";
  }

  lemma AJpgPath() ensures PlainPath("/a.jpg") {}

  lemma AJpgIsImage()
    ensures HasImageExtension("/a.jpg")
  {
    assert "/a.jpg"[2..] == ".jpg";
    assert Lower(".jpg") == ".jpg";
  }

  /** Host characters and `=|[]&`: the only characters of the queries below. */
  predicate PlainQuery(s: string) { forall i :: 0 <= i < |s| ==> HostChar(s[i]) || s[i] in "=|[]&" }

  lemma PlainQueryText(s: string)
    requires PlainQuery(s)
    ensures Uri.Avoids(s, {'#'}) && Uri.IsAscii(s) && Uri.ValidQuery(s)
  {
    PlainQueryAscii(s);
    PlainQueryKept(s);
    PlainQueryEscapes(s);
  }

  lemma {:induction false} PlainQueryAscii(s: string)
    requires PlainQuery(s)
    ensures Uri.Avoids(s, {'#'}) && Uri.IsAscii(s)
  {
    if s != [] {
      assert HostChar(s[0]) || s[0] in "=|[]&";
      assert forall i :: 0 <= i < |s[1..]| ==> s[1..][i] == s[i + 1];
      PlainQueryAscii(s[1..]);
    }
  }

  lemma {:induction false} PlainQueryKept(s: string)
    requires PlainQuery(s)
    ensures Uri.DropLineBreaks(s) == s
  {
    if s != [] {
      assert HostChar(s[0]) || s[0] in "=|[]&";
      assert s[0] !in "\t\n\r";
      assert forall i :: 0 <= i < |s[1..]| ==> s[1..][i] == s[i + 1];
      PlainQueryKept(s[1..]);
      assert s == [s[0]] + s[1..];
    }
  }

  lemma {:induction false} PlainQueryEscapes(s: string)
    requires PlainQuery(s)
    ensures Uri.ValidEscapes(s)
  {
    if s != [] {
      assert s[0] != '%';
      assert forall i :: 0 <= i < |s[1..]| ==> s[1..][i] == s[i + 1];
      PlainQueryEscapes(s[1..]);
    }
  }

  lemma FamilyQuery() ensures PlainQuery("family=A|B") {}
  lemma SizeQuery() ensures PlainQuery("size[w]=100") {}

  /** `http://example.com/a.png?family=A|B` is yielded: `|` is allowed in the query. */
  lemma PipeInQueryAccepted()
    ensures ValidImageUrl("http://" + "example.com" + "/a.png" + "?" + "family=A|B")
  {
    ExampleComHost();
    APngPath();
    APngIsImage();
    FamilyQuery();
    PlainQueryText("family=A|B");
    HttpQueryUrlValidity("example.com", "/a.png", "family=A|B");
  }

  /** `http://example.com/a.jpg?size[w]=100` is yielded: brackets are allowed in the query. */
  lemma BracketsInQueryAccepted()
    ensures ValidImageUrl("http://" + "example.com" + "/a.jpg" + "?" + "size[w]=100")
  {
    ExampleComHost();
    AJpgPath();
    AJpgIsImage();
    SizeQuery();
    PlainQueryText("size[w]=100");
    HttpQueryUrlValidity("example.com", "/a.jpg", "size[w]=100");
  }

  /** Such a URL is one token: it holds no whitespace. */
  lemma {:induction false} PlainHttpUrlIsWord(host: string, path: string)
    requires PlainHost(host) && PlainPath(path)
    ensures IsWord("http://" + host + path)
  {
    var url := "http://" + host + path;
    forall i | 0 <= i < |url|
      ensures !IsWhitespace(url[i])
    {
      if i >= 7 + |host| {
        assert url[i] == path[i - 7 - |host|];
      } else if i >= 7 {
        assert url[i] == host[i - 7];
      }
    }
  }

  lemma ExampleComHost() ensures PlainHost("example.com") {}
  lemma InvalidUrlHost() ensures PlainHost("invalid.url") {}
  lemma ImageJpgPath() ensures PlainPath("/image.jpg") {}

  lemma ImageJpgIsImage()
    ensures HasImageExtension("/image.jpg")
  {
    assert "/image.jpg"[6..] == ".jpg";
    assert Lower(".jpg") == ".jpg";
  }
  lemma FileTxtPath() ensures PlainPath("/file.txt") {}
  lemma NotImageTxtPath() ensures PlainPath("/not_image.txt") {}

  lemma FileTxtNotImage()
    ensures !HasImageExtension("/file.txt")
  {
    assert "/file.txt"[5..] == ".txt" && Lower(".txt")[1] == 't';
    assert "/file.txt"[4..] == "e.txt" && Lower("e.txt")[0] == 'e';
  }

  lemma NotImageTxtNotImage()
    ensures !HasImageExtension("/not_image.txt")
  {
    assert "/not_image.txt"[10..] == ".txt" && Lower(".txt")[1] == 't';
    assert "/not_image.txt"[9..] == "e.txt" && Lower("e.txt")[0] == 'e';
  }

  /** `http://example.com/image.jpg` is yielded. */
  lemma JpgAccepted()
    ensures ValidImageUrl("http://" + "example.com" + "/image.jpg")
  {
    ExampleComHost();
    ImageJpgPath();
    ImageJpgIsImage();
    HttpUrlValidity("example.com", "/image.jpg");
  }

  /** `http://example.com/file.txt` is warned about: its path has no image extension. */
  lemma TxtRejected()
    ensures !ValidImageUrl("http://" + "example.com" + "/file.txt")
  {
    ExampleComHost();
    FileTxtPath();
    FileTxtNotImage();
    HttpUrlValidity("example.com", "/file.txt");
  }

  /** `http://invalid.url` is warned about: its path is empty. */
  lemma EmptyPathRejected()
    ensures !ValidImageUrl("http://" + "invalid.url" + "")
  {
    InvalidUrlHost();
    HttpUrlValidity("invalid.url", "");
  }

  /** A line holding `http://example.com/image.jpg` and `http://example.com/not_image.txt`
      yields the first and logs one warning, for the second. */
  lemma MixedLine(path: string)
    ensures var v := "http://" + "example.com" + "/image.jpg";
      var w := "http://" + "example.com" + "/not_image.txt";
      Accepted(AllTokens([v + " " + w])) == [v] &&
      ReaderLog(path, Listing([v + " " + w], None)) == [Warning(w)]
  {
    var v := "http://" + "example.com" + "/image.jpg";
    var w := "http://" + "example.com" + "/not_image.txt";
    assert ValidImageUrl(v) && IsWord(v) by {
      ExampleComHost();
      ImageJpgPath();
      ImageJpgIsImage();
      HttpUrlValidity("example.com", "/image.jpg");
      PlainHttpUrlIsWord("example.com", "/image.jpg");
    }
    assert !ValidImageUrl(w) && IsWord(w) by {
      ExampleComHost();
      NotImageTxtPath();
      NotImageTxtNotImage();
      HttpUrlValidity("example.com", "/not_image.txt");
      PlainHttpUrlIsWord("example.com", "/not_image.txt");
    }
    ValidThenInvalid(path, v, w);
  }

  /** A line of a valid URL and an invalid one yields the first and warns about the second. */
  lemma ValidThenInvalid(path: string, v: string, w: string)
    requires ValidImageUrl(v) && IsWord(v) && !ValidImageUrl(w) && IsWord(w)
    ensures Accepted(AllTokens([v + " " + w])) == [v]
    ensures ReaderLog(path, Listing([v + " " + w], None)) == [Warning(w)]
  {
    TwoTokenLine(v, w);
    AcceptedPair(v, w);
    RejectedPair(v, w);
  }

  lemma TwoTokenLine(v: string, w: string)
    requires IsWord(v) && IsWord(w)
    ensures AllTokens([v + " " + w]) == [v, w]
  {
    TokensOfTwo(v, w);
    assert [v + " " + w][..0] == [];
  }

  lemma AcceptedPair(v: string, w: string)
    ensures Accepted([v, w]) == (if ValidImageUrl(v) then [v] else []) + (if ValidImageUrl(w) then [w] else [])
  {
    assert [v, w] == [v] + [w];
    AcceptedSnoc([v], w);
    assert [v] == [] + [v];
    AcceptedSnoc([], v);
  }

  lemma RejectedPair(v: string, w: string)
    ensures Rejected([v, w]) == (if ValidImageUrl(v) then [] else [v]) + (if ValidImageUrl(w) then [] else [w])
  {
    assert [v, w] == [v] + [w];
    RejectedSnoc([v], w);
    assert [v] == [] + [v];
    RejectedSnoc([], v);
  }
}
