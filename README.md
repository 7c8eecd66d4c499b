# Racetrack API: the backend's racetrack store, the sample item API and the test clients' data URLs

This project models the server side of the racing repository: the Flask backend's in-memory
racetrack store (`backend/app.py`) and the sample item API (`app.py`). It also models the one
piece of logic in the two Node test scripts, which turns an image file into a
`data:<mime>;base64,<payload>` URL (`getMimeType` and `imageToBase64`). The backend reads such
a URL back, so the project proves properties that span both languages.

Modules:

- `Wrappers`: `Option`.
- `Text`: the string operations the source uses. These are Python's `str.split`, as a
  `Split`/`Join` pair with a round trip, the text before and after the first occurrence of a
  character, and JavaScript's `toLowerCase`.
- `Http`: request bodies as JSON values and responses as values (status and body, status and
  error message, or an uncaught exception, which Flask answers with 500). `Contains` models
  Python's `key in data` on each kind of JSON value.
- `DataUrl`: the backend's pure helpers. It covers `get_extension_from_base64` (media type,
  extension table, `.png` default) and the payload that `save_base64_image` decodes, which is
  the text from the first comma up to the second comma, or to the end when there is none. It also covers the path the function
  returns and `None` on failure.
- `RacetrackStore`: the module-level dictionary `racetracks`, as a class `Store`. It holds a
  map plus the insertion order that a Python dictionary keeps. Its operations are `Upload`
  (`upload_racetrack`), `List` (`get_racetracks`, a loop) and `Get` (`get_racetrack`). The
  invariant: every record sits under its own id, and the order lists each key exactly once.
- `ItemStore`: the sample API's list `items`, as a class `Catalog`, with `GetItems`,
  `GetItem` and `AddItem`. The invariant: the item at position `i` has id `i + 1`.
- `MimeClient`: the clients' `path.extname`, the lower-casing, the MIME table and the data URL.
  The two test scripts carry identical copies of these functions, so they are defined once.
- `RoundTrip`: what the backend makes of the clients' data URLs. For every path, the backend
  saves the image under `ExpectedExtension` of the file's lower-cased extension: `.jpg` for
  `.jpg`/`.jpeg`, the same extension for png/gif/bmp/webp, `.png` for anything else. For every
  base64 payload, the backend picks
  out exactly that payload. The smoke-test script's hard-coded 1x1 PNG is saved as `<id>.png`.

The uuid, the clock and the outcome of decoding and writing the image are parameters of
`Upload`:

- `freshId` stands for the uuid.
- `now` stands for the timestamp.
- `stored` says whether `b64decode` and the file write succeed on a given payload.

The file read and base64 encoding of the clients are the parameter `contents` of
`ImageToBase64`.

Behaviour worth stating up front:

- backend/app.py has no leaderboard, update, start-position, name-validation or locking code;
  the frontend's leaderboard modal calls a `/leaderboard` endpoint that no route defines.
- A failed image save does not fail the upload: the record is stored with `saved_file` set
  to `None`.
- `username` is never stored.
- `Upload` does not require the fresh id to be absent. A reused id overwrites the entry, as a
  dictionary assignment does, and keeps its place in the order.

## Model

| member | source | states |
|---|---|---|
| Text.Split | backend/app.py:24 | `str.split(sep)`: at least one part, at least two exactly when `sep` occurs, no part contains `sep`, and joining the parts with `sep` gives back the string |
| Text.SplitJoin | backend/app.py:44 | splitting a join of `sep`-free parts gives back the parts |
| Text.Lower | backend/test/test_racetrack_api.js:36 | `toLowerCase` keeps the length and lower-cases each character (ASCII letters only) |
| Text.LowerIdempotent | backend/test/test_racetrack_api.js:36 | lower-casing twice is lower-casing once |
| Http.Contains | backend/app.py:70-73 | `key in data`: key membership on an object, element equality on a list, substring on a string, and a TypeError (no answer) on null, booleans and numbers |
| DataUrl.ExtensionForMime | backend/app.py:45-53 | `extensions.get(mime, '.png')` is always one of the five extensions, and `.png` for a media type not in the table |
| DataUrl.ExtensionTable | backend/app.py:45-53 | `image/jpeg` and `image/jpg` give `.jpg`; png, gif, bmp and webp give their own extension; any other media type gives `.png` |
| DataUrl.MediaType | backend/app.py:44 | `split(';')[0].split(':')[1]` on a `data:image/` string is the text after `data:` up to the first `;` and then up to the first `:` |
| DataUrl.MediaTypeOf | backend/app.py:43-44 | for a media type without `;` or `:`, `data:<mime>;<rest>` passes the prefix test and reads back as `mime` |
| DataUrl.ExtensionFromDataUrl | backend/app.py:42-54 | `.png` for any string not starting with `data:image/`; otherwise the table entry for its media type; always one of five extensions |
| DataUrl.Base64Payload | backend/app.py:23-26 | with a comma, the decoded text runs from the first comma up to the second comma, or to the end when there is none; without one, it is the whole string; it never holds a comma |
| DataUrl.JoinPath | backend/app.py:32 | `os.path.join`: `dir/name` for a relative name, `dir + name` when `dir` is empty or ends in `/`; an absolute name replaces the directory |
| DataUrl.SaveBase64Image | backend/app.py:20-39 | returns a path exactly when decoding and writing the payload succeed, and then the path is `os.path.join('saved_images', filename)`, which is `saved_images/<filename>` for a relative name; otherwise `None` |
| RacetrackStore.CheckUpload | backend/app.py:64-73 | missing JSON gives 400, a missing `name` (checked first) gives 400, a missing `image` gives 400; an unparsable body gives 400; accepted exactly when the body is an object with both keys and a string `image`; a null, boolean or number body raises (500); a list or string body gets the 400s when `name` or `image` is not in it and raises (500) otherwise; a non-string `image` raises (500) |
| RacetrackStore.NewRecord | backend/app.py:76-90 | the record keeps `id`, `name`, `image` and the timestamp as given; its saved file is present exactly when the save succeeds, and is then `saved_images/<id><extension of the image>` |
| RacetrackStore.ListingLength | backend/app.py:106-113 | under the store invariant, the listing has exactly one row per stored racetrack |
| RacetrackStore.ListingAfterUpload | backend/app.py:84-113 | storing a record under a new id keeps the invariant and appends its summary to the listing, with earlier rows unchanged |
| RacetrackStore.Store.constructor | backend/app.py:12 | the store starts empty |
| RacetrackStore.Store.Upload | backend/app.py:63-100 | a rejected request returns its error and changes nothing; an accepted one stores the new record under the fresh id, replies 201 with its summary, adds exactly one key when the id is new, extends the listing by that summary, and `Get` then returns the request's `name` and `image` |
| RacetrackStore.Store.List | backend/app.py:104-119 | the loop returns one summary (no image) per key in insertion order, as many as there are racetracks, and changes nothing |
| RacetrackStore.Store.Get | backend/app.py:123-127 | 404 exactly when the id is not stored; otherwise the full record, image included, whose id is the one asked for |
| ItemStore.FindIndex | app.py:25 | the first position whose id matches, with no match before it, or the list's length when none matches |
| ItemStore.FindInNumbered | app.py:25-28 | in a numbered list, id `k` is found at position `k - 1` for `1 <= k <= n`, and not at all otherwise |
| ItemStore.NumberedIdsUnique | app.py:41-44 | ids in a numbered list are unique |
| ItemStore.SampleItemsNumbered | app.py:6-10 | the three starting items are numbered 1 to 3 |
| ItemStore.AppendKeepsNumbering | app.py:41-44 | appending an item with id `len(items) + 1` keeps the list numbered |
| ItemStore.CheckAddItem | app.py:33-38 | missing JSON gives 400, an unparsable body gives 400, a missing `name` gives 400; accepted exactly when the body is an object with `name`; a null, boolean or number body raises (500); a list or string body gets 400 when `name` is not in it and raises (500) otherwise |
| ItemStore.Catalog.constructor | app.py:6-10 | the list starts as the three sample items, numbered |
| ItemStore.Catalog.GetItems | app.py:19-20 | the whole list, unchanged and in order, with ids 1 to n |
| ItemStore.Catalog.GetItem | app.py:24-28 | the first item with the given id, or 404 exactly when no item has it; in a numbered list, item `k - 1` for `1 <= k <= n` |
| ItemStore.Catalog.AddItem | app.py:32-46 | a rejected request returns its error and leaves the list unchanged; an accepted one appends one item with id `len(items) + 1` and the given name, keeps the numbering, replies 201, and `GetItem` then finds the new item |
| MimeClient.BaseName | backend/test/test_racetrack_api.js:36 | the last path component: a `/`-free suffix of the path that is either the whole path or preceded by a `/` |
| MimeClient.ExtOfBase | backend/test/test_racetrack_api.js:36 | the extension of a base name is a suffix starting with its only `.`, and it is empty exactly when the base name has no `.`, has its last `.` at the start, or is `..` |
| MimeClient.ExtName | backend/test/test_racetrack_api.js:36 | `path.extname` is a suffix of the path that starts with its only `.` and holds no `/`, and it is empty exactly when the base name has no `.`, has its last `.` at the start, or is `..` |
| MimeClient.MimeForExtension | backend/test/test_racetrack_api.js:37-45 | the result is always one of five image types, and `image/png` for an extension not in the table |
| MimeClient.GetMimeType | backend/test/test_racetrack_api.js:35-46 | a known lower-cased extension gets its table type; an unknown or missing one gets `image/png`; always one of five image types |
| MimeClient.ImageToBase64 | backend/test/test_racetrack_api.js:17-32 | `null` exactly when the file cannot be read; otherwise `data:<mime>;base64,<payload>` |
| MimeClient.MimeTable | backend/test/test_racetrack_api.js:37-45 | `.png`, `.gif`, `.bmp` and `.webp` give their own type, `.jpg` and `.jpeg` give `image/jpeg`, and anything else gives `image/png` |
| MimeClient.ExtNameOfLower | backend/test/test_racetrack_api.js:36 | lower-casing a path lower-cases its extension and nothing else about it |
| MimeClient.GetMimeTypeIgnoresCase | backend/test/test_racetrack_api.js:36 | two paths equal up to case (`TRACK.PNG`, `track.png`) get the same MIME type |
| RoundTrip.ClientMimeTypesArePlain | backend/test/test_racetrack_api.js:37-45 | every client MIME type starts with `image/` and holds no `;`, `:` or `,` |
| RoundTrip.TablesAgree | backend/app.py:45-53 | the backend's table applied to the client's table gives `.jpg` for `.jpg` and `.jpeg`, the same extension for png, gif, bmp and webp, and `.png` otherwise |
| RoundTrip.ClientDataUrlExtension | backend/test/test_racetrack_api.js:27 | the backend reads a client's MIME type back out of the data URL |
| RoundTrip.ClientDataUrlPayload | backend/app.py:23-24 | the backend picks a comma-free payload back out of a client's data URL |
| RoundTrip.ExtensionRoundTrip | backend/test/test_racetrack_api.js:26-27 | for every path, the backend saves the client's upload under `ExpectedExtension` of the file's lower-cased extension: `.jpg` for `.jpg`/`.jpeg`, the same extension for png/gif/bmp/webp, `.png` for anything else |
| RoundTrip.PayloadRoundTrip | backend/test/test_racetrack_api.js:25-27 | for every base64 payload, the backend decodes exactly the payload the client sent |
| RoundTrip.SecondCommaCutsPayload | backend/app.py:23-24 | with a second comma, the decoded text stops at it |
| RoundTrip.ClientUploadAccepted | backend/test/test_racetrack_api.js:66-77 | the client's body `{name, username, image}` is accepted with its name and data URL, and `username` is dropped |
| RoundTrip.ScriptUploadRoundTrip | test_racetrack_api.js:11-35 | the smoke-test script's body `{name, image}` built by its own copy of the helpers is accepted, named by the file's extension, and decoded to exactly its base64 payload |
| RoundTrip.FallbackPayloadIsBase64 | test_racetrack_api.js:147 | the fallback image's payload is in the base64 alphabet |
| RoundTrip.FallbackTestImageExtension | test_racetrack_api.js:147 | the backend gives the fallback image the extension `.png` |
| RoundTrip.FallbackTestImagePayload | test_racetrack_api.js:147 | the fallback image has a single comma, so the backend decodes its whole payload |
| RoundTrip.FallbackTestImageStored | test_racetrack_api.js:146-157 | the body `{name: 'Test Circuit', image}` is accepted, and the record's saved file is `saved_images/<id>.png` when the write succeeds and absent otherwise |

## Left out

- Leaderboards, time submission, personal bests, start positions, racetrack update and
  per-racetrack locking: none of them has code in the backend. The Node client's `update`
  test sends a `PUT` that no route handles.
- Flask plumbing: routing, `request.is_json`, `get_json`, `jsonify`, the CORS headers of
  `get_racetracks`, `app.run` and the two welcome routes. Responses are values without their
  one-key JSON wrappers: `{"racetracks": ...}`, `{"items": ...}`, `{"item": ...}`,
  `{"racetrack": ...}` and `{"error": ...}` are not modelled.
- `uuid.uuid4()`, `datetime.now().isoformat()`, `base64.b64decode`, `os.makedirs` and the file
  write are foreign calls or I/O, so their results are parameters of `Upload`. The printed
  error message of `save_base64_image` is not modelled.
- The clients' `fs.existsSync`, `readFileSync` and `Buffer.toString('base64')` are I/O, so
  their result is the parameter `contents`. Network calls, `console` output and argument
  dispatch are left out.
- Concurrency: the Flask development server's threads sharing `racetracks` and `items` are not
  modelled. Each operation is one atomic step.
- `frontend/`, `backend/image_to_3d.py` and `backend/image_to_svg.py` are not part of this
  model: they are UI, floating-point image processing and a wrapper over a foreign library.
- Http.Contains: JSON numbers are integers; floating-point values are not modelled.
- A request body that does not parse as JSON gets the single error `Bad Request`, which
  stands for Flask's own 400 error page.
- Text.Lower: lower-cases ASCII letters only, because JavaScript's full Unicode case mapping
  is not modelled.
- MimeClient.ExtName: a path ending in `/` is not stripped first as Node's `path.extname`
  does, and Windows separators are not modelled.
- DataUrl.JoinPath: POSIX separators only.
- ItemStore.Catalog.GetItem: takes a `nat`, because the `<int:item_id>` route matches only
  non-negative integers; other paths are Flask's 404 and are not modelled.
- MimeClient.GetMimeType: the copy of `getMimeType` and `imageToBase64` in
  `test_racetrack_api.js` (lines 11-35) is identical to the one in
  `backend/test/test_racetrack_api.js` except that it has no `existsSync` check, so it is
  defined once.
