/** What the backend makes of the data URLs the test clients send: the extension it picks
    and the payload it decodes, for every path and every base64 payload, and for the fixed
    test image of the smoke-test script. */
module RoundTrip {
  import opened Wrappers
  import opened Text
  import Http
  import DataUrl
  import MimeClient
  import RacetrackStore

  /** A character of the base64 alphabet of section 4 of RFC 4648, or its `=` padding. */
  predicate IsBase64Char(c: char)
  {
    'A' <= c <= 'Z' || 'a' <= c <= 'z' || '0' <= c <= '9' || c == '+' || c == '/' || c == '='
  }

  predicate IsBase64(s: string)
  {
    forall i :: 0 <= i < |s| ==> IsBase64Char(s[i])
  }

  /** The extension the backend should give an image the client read from a file with the
      (lower-cased) extension `ext`: `.jpg` for both JPEG spellings, the file's own extension
      for the other four known types, and `.png` otherwise. */
  function ExpectedExtension(ext: string): (saved: string)
  {
    if ext == ".jpg" || ext == ".jpeg" then ".jpg"
    else if ext == ".png" || ext == ".gif" || ext == ".bmp" || ext == ".webp" then ext
    else ".png"
  }

  /** Every MIME type a client sends starts with `image/` and holds neither `;` nor `:`, so
      the backend reads it back whole. */
  lemma ClientMimeTypesArePlain(mime: string)
    requires mime in MimeClient.ImageMimeTypes
    ensures StartsWith(mime, "image/") && ';' !in mime && ':' !in mime && ',' !in mime
  {
  }

  /** Across the two tables, a file extension comes back as the expected saved-file
      extension. */
  lemma TablesAgree(ext: string)
    ensures DataUrl.ExtensionForMime(MimeClient.MimeForExtension(ext)) == ExpectedExtension(ext)
  {
    MimeClient.MimeTable(ext);
    if ext !in MimeClient.MimeTypes {
      assert ext != ".jpg" && ext != ".jpeg" && ext != ".png" && ext != ".gif" && ext != ".bmp" && ext != ".webp";
    }
  }

  /** The backend reads a client's MIME type back out of the data URL it is sent in. */
  lemma ClientDataUrlExtension(mime: string, contents: string)
    requires mime in MimeClient.ImageMimeTypes
    ensures DataUrl.ExtensionFromDataUrl("data:" + mime + ";base64," + contents) == DataUrl.ExtensionForMime(mime)
  {
    ClientMimeTypesArePlain(mime);
    assert "data:" + mime + ";base64," + contents == "data:" + mime + ";" + ("base64," + contents);
    DataUrl.MediaTypeOf(mime, "base64," + contents);
  }

  /** The backend picks the base64 payload back out of a client's data URL. */
  lemma ClientDataUrlPayload(mime: string, contents: string)
    requires mime in MimeClient.ImageMimeTypes
    requires IsBase64(contents)
    ensures DataUrl.Base64Payload("data:" + mime + ";base64," + contents) == contents
  {
    var header := "data:" + mime + ";base64";
    ClientMimeTypesArePlain(mime);
    assert ',' !in header;
    assert ',' !in contents;
    assert "data:" + mime + ";base64," + contents == header + [','] + contents;
    BreaksAtFirst(header, ',', contents);
  }

  /** The backend saves a client upload under the extension that matches the file the
      client read: the client's MIME type survives the trip through the data URL. */
  lemma ExtensionRoundTrip(path: string, contents: string)
    ensures MimeClient.ImageToBase64(path, Some(contents)).Some?
    ensures DataUrl.ExtensionFromDataUrl(MimeClient.ImageToBase64(path, Some(contents)).value)
              == ExpectedExtension(Lower(MimeClient.ExtName(path)))
  {
    var mime := MimeClient.GetMimeType(path);
    ClientDataUrlExtension(mime, contents);
    TablesAgree(Lower(MimeClient.ExtName(path)));
  }

  /** The base64 alphabet has no comma, so the backend's `split(',')[1]` picks out exactly
      the payload the client placed after `;base64,`. */
  lemma PayloadRoundTrip(path: string, contents: string)
    requires IsBase64(contents)
    ensures MimeClient.ImageToBase64(path, Some(contents)).Some?
    ensures DataUrl.Base64Payload(MimeClient.ImageToBase64(path, Some(contents)).value) == contents
  {
    ClientDataUrlPayload(MimeClient.GetMimeType(path), contents);
  }

  /** The backend decodes only the text between the first and the second comma: a second
      comma cuts the payload short. */
  lemma SecondCommaCutsPayload(header: string, first: string, rest: string)
    requires ',' !in header && ',' !in first
    ensures DataUrl.Base64Payload(header + "," + first + "," + rest) == first
  {
    assert header + "," + first + "," + rest == header + [','] + (first + [','] + rest);
    BreaksAtFirst(header, ',', first + [','] + rest);
    BreaksAtFirst(first, ',', rest);
  }

  /** A client upload body `{name, username, image}` passes the backend's checks; the name
      and the data URL are what gets stored, and `username` is dropped. */
  lemma ClientUploadAccepted(name: string, username: string, path: string, contents: string)
    ensures
      var url := MimeClient.ImageToBase64(path, Some(contents)).value;
      var body := Http.JObject(map["name" := Http.JString(name), "username" := Http.JString(username),
                                   "image" := Http.JString(url)]);
      RacetrackStore.CheckUpload(Http.JsonBody(body)) == RacetrackStore.Accepted(Http.JString(name), url)
  {
  }

  /** The smoke-test script's upload body `{name, image}` is accepted as sent. */
  lemma ScriptBodyAccepted(name: string, url: string)
    ensures
      var body := Http.JObject(map["name" := Http.JString(name), "image" := Http.JString(url)]);
      RacetrackStore.CheckUpload(Http.JsonBody(body)) == RacetrackStore.Accepted(Http.JString(name), url)
  {
  }

  /** The smoke-test script's upload body `{name, image}`, with the data URL its own copy of
      the client helpers builds, is accepted as sent; the backend names the file after the
      file's extension and, for a base64 payload, decodes exactly that payload. */
  lemma ScriptUploadRoundTrip(name: string, path: string, contents: string)
    ensures
      var url := MimeClient.ImageToBase64(path, Some(contents)).value;
      var body := Http.JObject(map["name" := Http.JString(name), "image" := Http.JString(url)]);
      && RacetrackStore.CheckUpload(Http.JsonBody(body)) == RacetrackStore.Accepted(Http.JString(name), url)
      && DataUrl.ExtensionFromDataUrl(url) == ExpectedExtension(Lower(MimeClient.ExtName(path)))
      && (IsBase64(contents) ==> DataUrl.Base64Payload(url) == contents)
  {
    ScriptBodyAccepted(name, MimeClient.ImageToBase64(path, Some(contents)).value);
    ExtensionRoundTrip(path, contents);
    if IsBase64(contents) {
      PayloadRoundTrip(path, contents);
    }
  }

  const FallbackMime := "image/png"

  /** The base64 text of the 1x1 PNG the smoke-test script uploads when no image file is at
      hand, in pieces of 32 characters whose concatenation is the script's literal. */
  const FallbackPayload := FallbackPiece1 + FallbackPiece2 + FallbackPiece3
  const FallbackPiece1 := "iVBORw0KGgoAAAANSUhEUgAAAAEAAAAB"
  const FallbackPiece2 := "CAYAAAAfFcSJAAAADUlEQVR42mNkYPhf"
  const FallbackPiece3 := "DwAChwGA60e6kgAAAABJRU5ErkJggg=="

  /** The smoke-test script's fallback image, the data URL `data:image/png;base64,<payload>`. */
  const FallbackTestImage := "data:" + FallbackMime + ";base64," + FallbackPayload

  /** The fallback payload is in the base64 alphabet. */
  lemma FallbackPayloadIsBase64()
    ensures IsBase64(FallbackPayload)
  {
    FallbackPiece1IsBase64();
    FallbackPiece2IsBase64();
    FallbackPiece3IsBase64();
    Base64Concat(FallbackPiece1, FallbackPiece2);
    Base64Concat(FallbackPiece1 + FallbackPiece2, FallbackPiece3);
  }

  lemma FallbackPiece1IsBase64()
    ensures IsBase64(FallbackPiece1)
  {
  }

  lemma FallbackPiece2IsBase64()
    ensures IsBase64(FallbackPiece2)
  {
  }

  lemma FallbackPiece3IsBase64()
    ensures IsBase64(FallbackPiece3)
  {
  }

  lemma Base64Concat(a: string, b: string)
    requires IsBase64(a) && IsBase64(b)
    ensures IsBase64(a + b)
  {
    assert forall i :: |a| <= i < |a| + |b| ==> (a + b)[i] == b[i - |a|];
  }

  /** The backend names the file of the fallback test image `.png`. */
  lemma FallbackTestImageExtension()
    ensures DataUrl.ExtensionFromDataUrl(FallbackTestImage) == ".png"
  {
    ClientDataUrlExtension(FallbackMime, FallbackPayload);
    DataUrl.ExtensionTable(FallbackMime);
  }

  /** The fallback test image has a single comma, so the backend decodes its whole payload. */
  lemma FallbackTestImagePayload()
    ensures DataUrl.Base64Payload(FallbackTestImage) == FallbackPayload
  {
    FallbackPayloadIsBase64();
    ClientDataUrlPayload(FallbackMime, FallbackPayload);
  }

  /** Uploading the fallback test image stores it under `<id>.png` in the image directory,
      or with no saved file when the write fails. */
  lemma FallbackTestImageStored(id: string, now: string, stored: string -> bool)
    requires !StartsWith(id, "/")
    ensures
      var body := Http.JObject(map["name" := Http.JString("Test Circuit"), "image" := Http.JString(FallbackTestImage)]);
      RacetrackStore.CheckUpload(Http.JsonBody(body)) == RacetrackStore.Accepted(Http.JString("Test Circuit"), FallbackTestImage)
    ensures
      var r := RacetrackStore.NewRecord(id, Http.JString("Test Circuit"), FallbackTestImage, now, stored);
      && r.savedFile == (if stored(FallbackPayload) then Some(DataUrl.ImagesDir + "/" + id + ".png") else None)
      && r.name == Http.JString("Test Circuit") && r.image == FallbackTestImage
  {
    ScriptBodyAccepted("Test Circuit", FallbackTestImage);
    FallbackTestImageExtension();
    FallbackTestImagePayload();
  }
}
