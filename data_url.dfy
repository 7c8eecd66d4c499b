/** The backend's reading of the `image` field of an upload: a `data:` URL in the shape of
    section 3 of RFC 2397 (`data:<media type>;base64,<payload>`), or bare base64 text.
    It picks a file extension from the media type and picks out the base64 payload. */
module DataUrl {
  import opened Wrappers
  import opened Text

  /** Directory the decoded images are written to. */
  const ImagesDir := "saved_images"

  const DataImagePrefix := "data:image/"

  /** The backend's table from media type to file extension. */
  const Extensions: map<string, string> := map[
    "image/png" := ".png",
    "image/jpeg" := ".jpg",
    "image/jpg" := ".jpg",
    "image/gif" := ".gif",
    "image/bmp" := ".bmp",
    "image/webp" := ".webp"
  ]

  const DefaultExtension := ".png"

  /** Every extension the backend can give a saved image. */
  const KnownExtensions := {".png", ".jpg", ".gif", ".bmp", ".webp"}

  /** Every known extension is a `.` followed by a name. */
  lemma KnownExtensionsAreDotted(ext: string)
    requires ext in KnownExtensions
    ensures |ext| > 1 && ext[0] == '.'
  {
  }

  /** `extensions.get(mime_type, '.png')`. */
  function ExtensionForMime(mime: string): (ext: string)
    ensures ext in KnownExtensions
    ensures mime !in Extensions ==> ext == DefaultExtension
  {
    if mime in Extensions then Extensions[mime] else DefaultExtension
  }

  /** The media type as the backend reads it, `s.split(';')[0].split(':')[1]`: the text after
      `data:` up to the first `;` or `:`, whichever comes first. */
  function MediaType(s: string): (mime: string)
    requires StartsWith(s, DataImagePrefix)
    ensures mime == Before(Before(s[5..], ';'), ':')
  {
    var head := Split(s, ';')[0];
    SplitFirst(s, ';');
    HeadOfDataUrl(s);
    SplitSecond(head, ':');
    Split(head, ':')[1]
  }

  /** The part of a `data:image/` URL before its first `;` still starts with `data:`, and
      the text after its first `:` is the text after `data:` up to the first `;`. */
  lemma HeadOfDataUrl(s: string)
    requires StartsWith(s, DataImagePrefix)
    ensures ':' in Before(s, ';')
    ensures After(Before(s, ';'), ':') == Before(s[5..], ';')
  {
    var head := Before(s, ';');
    assert s[..11] == DataImagePrefix;
    assert ';' !in s[..11];
    BeforeAfterPrefix(s, ';', 11);
    BeforeAfterPrefix(s, ';', 5);
    assert head[..5] == s[..5];
    assert head == "data" + [':'] + head[5..];
    BreaksAtFirst("data", ':', head[5..]);
  }

  /** Taking the text before the first `c` commutes with dropping a prefix free of `c`. */
  lemma BeforeAfterPrefix(s: string, c: char, k: nat)
    requires k <= |s|
    requires c !in s[..k]
    ensures k <= |Before(s, c)|
    ensures Before(s, c)[k..] == Before(s[k..], c)
  {
    assert forall j :: 0 <= j < k ==> s[j] == s[..k][j];
    if c in s {
      var i := IndexOf(s, c);
      assert k <= i;
      var a := s[k..i];
      assert c !in a by {
        assert forall j :: 0 <= j < |a| ==> a[j] == s[..i][k + j];
      }
      assert s[k..] == a + [c] + s[i + 1..];
      BreaksAtFirst(a, c, s[i + 1..]);
    }
  }

  /** `get_extension_from_base64`: the extension for the media type of a `data:image/` URL,
      and `.png` for anything else. */
  function ExtensionFromDataUrl(s: string): (ext: string)
    ensures ext in KnownExtensions
    ensures !StartsWith(s, DataImagePrefix) ==> ext == DefaultExtension
    ensures StartsWith(s, DataImagePrefix) ==> ext == ExtensionForMime(Before(Before(s[5..], ';'), ':'))
  {
    if StartsWith(s, DataImagePrefix) then
      var mime := MediaType(s);
      ExtensionForMime(mime)
    else
      DefaultExtension
  }

  /** The base64 text `save_base64_image` decodes: `split(',')[1]` when the string has a
      comma, which is only the text between the first and the second comma; otherwise the
      whole string. */
  function Base64Payload(s: string): (payload: string)
    ensures ',' in s ==> payload == Before(After(s, ','), ',')
    ensures ',' !in s ==> payload == s
    ensures ',' !in payload
  {
    if ',' in s then
      SplitSecond(s, ',');
      Split(s, ',')[1]
    else
      s
  }

  /** Python's `os.path.join(dir, name)` with the POSIX separator. */
  function JoinPath(dir: string, name: string): (path: string)
    ensures !StartsWith(name, "/") && dir != [] && dir[|dir| - 1] != '/' ==> path == dir + "/" + name
    ensures !StartsWith(name, "/") && (dir == [] || dir[|dir| - 1] == '/') ==> path == dir + name
    ensures StartsWith(name, "/") ==> path == name
  {
    if StartsWith(name, "/") then name
    else if dir == [] || dir[|dir| - 1] == '/' then dir + name
    else dir + "/" + name
  }

  /** `save_base64_image(image, filename)`. Whether base64-decoding the payload and writing
      the file succeed is the parameter `stored`; on success the path of the written file is
      returned, on any failure `None`. */
  function SaveBase64Image(image: string, filename: string, stored: string -> bool): (path: Option<string>)
    ensures path.Some? <==> stored(Base64Payload(image))
    ensures path.Some? ==> path.value == JoinPath(ImagesDir, filename)
    ensures path.Some? && !StartsWith(filename, "/") ==> path.value == ImagesDir + "/" + filename
  {
    var payload := Base64Payload(image);
    if stored(payload) then Some(JoinPath(ImagesDir, filename)) else None
  }

  /** The media type read back from `data:<mime>;<rest>` is `mime` itself, provided it holds
      neither `;` nor `:`. */
  lemma {:induction false} MediaTypeOf(mime: string, rest: string)
    requires StartsWith(mime, "image/")
    requires ';' !in mime && ':' !in mime
    ensures StartsWith("data:" + mime + ";" + rest, DataImagePrefix)
    ensures MediaType("data:" + mime + ";" + rest) == mime
  {
    var s := "data:" + mime + ";" + rest;
    assert s[..11] == "data:" + mime[..6];
    assert s[5..] == mime + [';'] + rest;
    BreaksAtFirst(mime, ';', rest);
  }

  /** The extension table: `image/jpeg` and `image/jpg` both give `.jpg`, png, gif, bmp and
      webp give their own extension, and every other media type gives `.png`. */
  lemma ExtensionTable(mime: string)
    ensures mime == "image/jpeg" || mime == "image/jpg" ==> ExtensionForMime(mime) == ".jpg"
    ensures mime == "image/png" ==> ExtensionForMime(mime) == ".png"
    ensures mime == "image/gif" ==> ExtensionForMime(mime) == ".gif"
    ensures mime == "image/bmp" ==> ExtensionForMime(mime) == ".bmp"
    ensures mime == "image/webp" ==> ExtensionForMime(mime) == ".webp"
    ensures mime !in Extensions ==> ExtensionForMime(mime) == ".png"
  {
  }
}
