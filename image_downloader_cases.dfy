/**
 * `download` on the inputs of its own tests (spec/image_downloader_spec.rb and
 * spec/image_downloader_e2e_spec.rb), derived from the general lemmas.
 */
module ImageDownloaderCases {
  import opened Wrappers
  import opened Logging
  import opened SystemErrors
  import opened FilePaths
  import opened UrlReaderCases
  import opened ImageDownloader

  /** `http://<host>/<name>` for a plain host and a plain name without separators is saved
      as `name` in the folder. */
  lemma PlainUrlDestination(folder: string, host: string, name: string)
    requires PlainHost(host) && PlainPath(name) && name != [] && NoSlash(name)
    ensures FileName("http://" + host + ("/" + name)) == Success(name)
    ensures Destination(folder, "http://" + host + ("/" + name)) == Success(Join(folder, name))
  {
    assert forall i :: 0 <= i < |"/" + name| ==> ("/" + name)[i] == if i == 0 then '/' else name[i - 1];
    var u := HttpUri(host, "/" + name);
    FileNameOfServerUri(u);
    BasenameAfterSlash("/" + name, 1);
    assert ("/" + name)[1..] == name;
  }

  lemma TestImageName()
    ensures PlainPath("test_image.jpg") && NoSlash("test_image.jpg")
  {
  }

  lemma ImgName()
    ensures PlainPath("img.jpg") && NoSlash("img.jpg")
  {
  }

  lemma AnotherHost()
    ensures PlainHost("anotherexample.com")
  {
  }

  lemma TmpImagesJoin()
    ensures Join("/tmp/images", "test_image.jpg") == "/tmp/images" + "/" + "test_image.jpg"
  {
    assert TrimmedLength("/tmp/images") == |"/tmp/images"|;
  }

  /** `http://example.com/test_image.jpg` is saved as `/tmp/images/test_image.jpg`; on
      success the fetched bytes are written there and `Downloaded test_image.jpg` is logged. */
  lemma DownloadSucceeds(bytes: seq<bv8>)
    ensures var url := "http://" + "example.com" + ("/" + "test_image.jpg");
      DownloadEffect(url, "/tmp/images", Fetched(bytes)) ==
        Effect(LogEntry(Info, "Downloaded " + "test_image.jpg"),
               Some(("/tmp/images" + "/" + "test_image.jpg", bytes)), None)
  {
    ExampleComHost();
    TestImageName();
    PlainUrlDestination("/tmp/images", "example.com", "test_image.jpg");
    TmpImagesJoin();
  }

  /** An HTTP error is logged with the URL and the error's message, and not raised. */
  lemma DownloadHttpError()
    ensures var url := "http://" + "example.com" + ("/" + "test_image.jpg");
      DownloadEffect(url, "/tmp/images", HttpError("Error message")) ==
        Effect(LogEntry(Error, "Failed to download " + url + ": " + "Error message"), None, None)
  {
    ExampleComHost();
    TestImageName();
    PlainUrlDestination("/tmp/images", "example.com", "test_image.jpg");
  }

  /** `Errno::EACCES.new` is logged with the folder and `Permission denied`, and raised again. */
  lemma DownloadAccessDenied()
    ensures var url := "http://" + "example.com" + ("/" + "test_image.jpg");
      DownloadEffect(url, "/tmp/images", AccessDenied(None, None)) ==
        Effect(LogEntry(Error, "Permission denied while writing to " + "/tmp/images" + ": " + "Permission denied"),
               None, Some(EACCES(None, None)))
  {
    TestUrlNamed();
    AccessDeniedEffect("http://" + "example.com" + ("/" + "test_image.jpg"), "/tmp/images", None, None);
  }

  /** A write the system refuses raises `Errno::EACCES` from `rb_sysopen` with the path it
      could not open; the entry names the folder, the system call and that path. */
  lemma DownloadRefusedOpen(dest: string)
    ensures var url := "http://" + "example.com" + ("/" + "test_image.jpg");
      DownloadEffect(url, "/tmp/images", AccessDenied(Some("rb_sysopen"), Some(dest))) ==
        Effect(LogEntry(Error, AccessDeniedMessage("/tmp/images",
                                                 "Permission denied" + " @ " + "rb_sysopen" + " - " + dest)),
               None, Some(EACCES(Some("rb_sysopen"), Some(dest))))
  {
    TestUrlNamed();
    AccessDeniedEffect("http://" + "example.com" + ("/" + "test_image.jpg"), "/tmp/images",
                       Some("rb_sysopen"), Some(dest));
  }

  lemma TestUrlNamed()
    ensures FileName("http://" + "example.com" + ("/" + "test_image.jpg")).Success?
  {
    ExampleComHost();
    TestImageName();
    PlainUrlDestination("/tmp/images", "example.com", "test_image.jpg");
  }

  /** Any other error is logged with the URL and its message, and not raised. */
  lemma DownloadOtherError()
    ensures var url := "http://" + "example.com" + ("/" + "test_image.jpg");
      DownloadEffect(url, "/tmp/images", OtherError("Unexpected error!")) ==
        Effect(LogEntry(Error, "An error occurred while downloading " + url + ": " + "Unexpected error!"), None, None)
  {
    ExampleComHost();
    TestImageName();
    PlainUrlDestination("/tmp/images", "example.com", "test_image.jpg");
  }

  /** `http://example.com/img.jpg` and `http://anotherexample.com/img.jpg` are saved under
      the same name, so the second download overwrites the first. */
  lemma SameNameCollides(folder: string)
    ensures Destination(folder, "http://" + "example.com" + ("/" + "img.jpg"))
         == Destination(folder, "http://" + "anotherexample.com" + ("/" + "img.jpg"))
         == Success(Join(folder, "img.jpg"))
  {
    ExampleComHost();
    AnotherHost();
    ImgName();
    PlainUrlDestination(folder, "example.com", "img.jpg");
    PlainUrlDestination(folder, "anotherexample.com", "img.jpg");
  }
}
