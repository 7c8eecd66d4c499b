/** The test clients' side of an upload: the MIME type guessed from an image file's
    extension, and the `data:<mime>;base64,<payload>` string sent as the `image` field.
    Reading the file and base64-encoding its bytes are outside the model: their result is
    the parameter `contents`. */
module MimeClient {
  import opened Wrappers
  import opened Text

  /** The clients' table from lower-cased extension to MIME type. */
  const MimeTypes: map<string, string> := map[
    ".png" := "image/png",
    ".jpg" := "image/jpeg",
    ".jpeg" := "image/jpeg",
    ".gif" := "image/gif",
    ".bmp" := "image/bmp",
    ".webp" := "image/webp"
  ]

  const DefaultMime := "image/png"

  /** Every MIME type a client can put in a data URL. */
  const ImageMimeTypes := {"image/png", "image/jpeg", "image/gif", "image/bmp", "image/webp"}

  /** The last path component: the text after the last `/`. */
  function BaseName(path: string): (base: string)
    ensures '/' !in base
    ensures |base| <= |path| && path[|path| - |base|..] == base
    ensures |base| == |path| || path[|path| - |base| - 1] == '/'
  {
    path[LastIndexOf(path, '/') + 1..]
  }

  /** Node's `path.extname` on a path without trailing separators: the base name from its
      last `.` on, or empty when the base name has no `.`, has its only leading `.` there
      (a dot-file such as `.png`), or is `..`. */
  function ExtName(path: string): (ext: string)
    ensures ext == [] || (ext[0] == '.' && '.' !in ext[1..] && '/' !in ext)
    ensures |ext| <= |path| && path[|path| - |ext|..] == ext
    ensures ext == [] <==> LastIndexOf(BaseName(path), '.') <= 0 || BaseName(path) == ".."
  {
    var base := BaseName(path);
    var ext := ExtOfBase(base);
    SuffixOfSuffix(path, base, ext);
    assert '/' !in ext;
    assert ext == [] <==> LastIndexOf(base, '.') <= 0 || base == "..";
    ext
  }

  /** A suffix of a suffix of `s` is a suffix of `s`, and holds no character the middle one
      lacks. */
  lemma SuffixOfSuffix(s: string, t: string, u: string)
    requires |t| <= |s| && s[|s| - |t|..] == t
    requires |u| <= |t| && t[|t| - |u|..] == u
    ensures |u| <= |s| && s[|s| - |u|..] == u
    ensures forall c :: c in u ==> c in t
  {
    assert s[|s| - |u|..] == s[|s| - |t|..][|t| - |u|..];
  }

  /** The extension of a base name. */
  function ExtOfBase(base: string): (ext: string)
    ensures ext == [] || (ext[0] == '.' && '.' !in ext[1..])
    ensures |ext| <= |base| && base[|base| - |ext|..] == ext
    ensures ext == [] <==> LastIndexOf(base, '.') <= 0 || base == ".."
  {
    var dot := LastIndexOf(base, '.');
    if dot <= 0 || base == ".." then ""
    else
      assert base[dot..][0] == '.' && base[dot..][1..] == base[dot + 1..];
      base[dot..]
  }

  /** `mimeTypes[ext] || 'image/png'`. */
  function MimeForExtension(ext: string): (mime: string)
    ensures mime in ImageMimeTypes
    ensures ext !in MimeTypes ==> mime == DefaultMime
  {
    if ext in MimeTypes then MimeTypes[ext] else DefaultMime
  }

  /** `getMimeType(filePath)`: the MIME type for the path's lower-cased extension. */
  function GetMimeType(path: string): (mime: string)
    ensures mime in ImageMimeTypes
    ensures Lower(ExtName(path)) in MimeTypes ==> mime == MimeTypes[Lower(ExtName(path))]
    ensures Lower(ExtName(path)) !in MimeTypes ==> mime == DefaultMime
  {
    MimeForExtension(Lower(ExtName(path)))
  }

  /** `imageToBase64(imagePath)`: `null` when the file cannot be read, otherwise the data URL
      built from the path's MIME type and the base64 text of the file's bytes. */
  function ImageToBase64(path: string, contents: Option<string>): (url: Option<string>)
    ensures url.None? <==> contents.None?
    ensures url.Some? ==> url.value == "data:" + GetMimeType(path) + ";base64," + contents.value
  {
    match contents
    case None => None
    case Some(payload) => Some("data:" + GetMimeType(path) + ";base64," + payload)
  }

  /** The MIME table: `.png`, `.gif`, `.bmp` and `.webp` give their own image type, both
      `.jpg` and `.jpeg` give `image/jpeg`, and any other extension gives `image/png`. */
  lemma MimeTable(ext: string)
    ensures ext == ".png" ==> MimeForExtension(ext) == "image/png"
    ensures ext == ".jpg" || ext == ".jpeg" ==> MimeForExtension(ext) == "image/jpeg"
    ensures ext == ".gif" ==> MimeForExtension(ext) == "image/gif"
    ensures ext == ".bmp" ==> MimeForExtension(ext) == "image/bmp"
    ensures ext == ".webp" ==> MimeForExtension(ext) == "image/webp"
    ensures ext !in MimeTypes ==> MimeForExtension(ext) == "image/png"
  {
  }

  /** Lower-casing a path lower-cases its extension and nothing else about it. */
  lemma ExtNameOfLower(path: string)
    ensures ExtName(Lower(path)) == Lower(ExtName(path))
  {
    BaseNameOfLower(path);
    ExtOfBaseOfLower(BaseName(path));
  }

  lemma ExtOfBaseOfLower(base: string)
    ensures ExtOfBase(Lower(base)) == Lower(ExtOfBase(base))
  {
    var dot := LastIndexOf(base, '.');
    LowerKeepsLastIndex(base, '.');
    LowerDotDot(base);
    if !(dot <= 0 || base == "..") {
      LowerSuffix(base, dot);
    }
  }

  lemma BaseNameOfLower(path: string)
    ensures BaseName(Lower(path)) == Lower(BaseName(path))
  {
    var k := LastIndexOf(path, '/') + 1;
    LowerKeepsLastIndex(path, '/');
    assert BaseName(Lower(path)) == Lower(path)[k..];
    LowerSuffix(path, k);
  }

  lemma LowerDotDot(s: string)
    ensures Lower(s) == ".." <==> s == ".."
  {
    if Lower(s) == ".." {
      assert LowerChar(s[0]) == '.' && LowerChar(s[1]) == '.';
    }
  }

  /** Extension matching ignores case: two paths that agree once lower-cased, such as
      `TRACK.PNG` and `track.png`, get the same MIME type. */
  lemma GetMimeTypeIgnoresCase(path: string, other: string)
    requires Lower(path) == Lower(other)
    ensures GetMimeType(path) == GetMimeType(other)
  {
    ExtNameOfLower(path);
    ExtNameOfLower(other);
    LowerIdempotent(ExtName(path));
    LowerIdempotent(ExtName(other));
  }
}
