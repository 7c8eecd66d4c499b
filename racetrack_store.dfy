/** The backend's in-memory racetrack store: the module-level dictionary `racetracks` with
    its three handlers, upload, list and get. The fresh id (`uuid.uuid4()`), the clock
    (`datetime.now().isoformat()`) and the outcome of decoding and writing the image are
    parameters of the upload. */
module RacetrackStore {
  import opened Wrappers
  import opened Text
  import opened Http
  import opened DataUrl

  /** A stored racetrack, kept under its own id. No `username` is stored, even when the
      client sends one. */
  datatype Racetrack = Racetrack(
    id: string,
    name: Json,              // stored as sent: the backend does not check its type
    image: string,           // the data URL as sent
    savedFile: Option<string>,
    uploadedAt: string)

  /** What the listing and the upload reply show of a racetrack: all but the image. */
  datatype Summary = Summary(id: string, name: Json, savedFile: Option<string>, uploadedAt: string)

  /** The body of a successful upload. */
  datatype UploadReply = UploadReply(message: string, racetrack: Summary)

  const Uploaded := "Racetrack uploaded successfully"
  const MissingImage := "Missing 'image' in request"
  const TrackNotFound := "Racetrack not found"

  function Summarize(r: Racetrack): (s: Summary)
  {
    Summary(r.id, r.name, r.savedFile, r.uploadedAt)
  }

  /** The outcome of the checks `upload_racetrack` makes before it touches the store. */
  datatype Checked = Rejected(response: Response<UploadReply>) | Accepted(name: Json, image: string)

  /** The request checks of `upload_racetrack`, in the source's order: JSON content, then
      `name`, then `image`; an `image` that is not a string makes `startswith` raise. */
  function CheckUpload(req: Request): (c: Checked)
    ensures req.NotJson? ==> c == Rejected(Failure(BAD_REQUEST, MissingJson))
    ensures req.JsonBody? && req.data.JObject? && "name" !in req.data.fields ==>
              c == Rejected(Failure(BAD_REQUEST, MissingName))
    ensures req.JsonBody? && req.data.JObject? && "name" in req.data.fields && "image" !in req.data.fields ==>
              c == Rejected(Failure(BAD_REQUEST, MissingImage))
    ensures c.Accepted? <==>
              && req.JsonBody? && req.data.JObject?
              && "name" in req.data.fields && "image" in req.data.fields
              && req.data.fields["image"].JString?
    ensures c.Accepted? ==> c.name == req.data.fields["name"] && c.image == req.data.fields["image"].s
    ensures req.MalformedJson? ==> c == Rejected(Failure(BAD_REQUEST, UnparsableJson))
    ensures req.JsonBody? && Contains(req.data, "name").None? ==> c == Rejected(InternalError)
    ensures req.JsonBody? && Contains(req.data, "name") == Some(false) ==>
              c == Rejected(Failure(BAD_REQUEST, MissingName))
    ensures req.JsonBody? && Contains(req.data, "name") == Some(true) && Contains(req.data, "image") == Some(false) ==>
              c == Rejected(Failure(BAD_REQUEST, MissingImage))
    ensures req.JsonBody? && (req.data.JArray? || req.data.JString?) &&
            Contains(req.data, "name") == Some(true) && Contains(req.data, "image") == Some(true) ==>
              c == Rejected(InternalError)
    ensures req.JsonBody? && req.data.JObject? && "name" in req.data.fields && "image" in req.data.fields &&
            !req.data.fields["image"].JString? ==>
              c == Rejected(InternalError)
    ensures c.Rejected? ==> !c.response.Success?
  {
    match req
    case NotJson => Rejected(Failure(BAD_REQUEST, MissingJson))
    case MalformedJson => Rejected(Failure(BAD_REQUEST, UnparsableJson))
    case JsonBody(data) =>
      if Contains(data, "name").None? then Rejected(InternalError)
      else if !Contains(data, "name").value then Rejected(Failure(BAD_REQUEST, MissingName))
      else if !Contains(data, "image").value then Rejected(Failure(BAD_REQUEST, MissingImage))
      else if !data.JObject? then Rejected(InternalError)                   // `data['image']` on a list or a string
      else if !data.fields["image"].JString? then Rejected(InternalError)   // `startswith` on a non-string
      else Accepted(data.fields["name"], data.fields["image"].s)
  }

  /** The record `upload_racetrack` stores under `id`: the image is saved under the file name
      `id` + extension, and the outcome of that save is kept even when it is `None`. */
  function NewRecord(id: string, name: Json, image: string, now: string, stored: string -> bool): (r: Racetrack)
    ensures r.id == id && r.name == name && r.image == image && r.uploadedAt == now
    ensures r.savedFile.Some? <==> stored(Base64Payload(image))
    ensures r.savedFile.Some? && !StartsWith(id, "/") ==>
              r.savedFile.value == ImagesDir + "/" + id + ExtensionFromDataUrl(image)
  {
    var ext := ExtensionFromDataUrl(image);
    var filename := id + ext;
    KnownExtensionsAreDotted(ext);
    assert !StartsWith(id, "/") ==> !StartsWith(filename, "/") by {
      if !StartsWith(id, "/") {
        NoLeadingSlash(id, ext);
      }
    }
    Racetrack(id, name, image, SaveBase64Image(image, filename, stored), now)
  }

  /** A file name `id + ext` with a dotted extension is relative whenever `id` is. */
  lemma NoLeadingSlash(id: string, ext: string)
    requires |ext| > 0 && ext[0] == '.'
    requires !StartsWith(id, "/")
    ensures !StartsWith(id + ext, "/")
  {
    assert (id + ext)[0] == if id == [] then ext[0] else id[0];
  }

  /** The store's invariant: `order` lists every key once, in insertion order, and every
      record is kept under its own id. */
  ghost predicate WellFormed(racetracks: map<string, Racetrack>, order: seq<string>)
  {
    && (forall i :: 0 <= i < |order| ==> order[i] in racetracks)
    && (forall k :: k in racetracks ==> k in order)
    && (forall i, j :: 0 <= i < j < |order| ==> order[i] != order[j])
    && (forall k :: k in racetracks ==> racetracks[k].id == k)
  }

  /** What `get_racetracks` returns: one summary per key, in the order of `order`. */
  function Listing(racetracks: map<string, Racetrack>, order: seq<string>): (rows: seq<Summary>)
    requires forall i :: 0 <= i < |order| ==> order[i] in racetracks
  {
    seq(|order|, i requires 0 <= i < |order| => Summarize(racetracks[order[i]]))
  }

  /** The listing has exactly one row per stored racetrack. */
  lemma ListingLength(racetracks: map<string, Racetrack>, order: seq<string>)
    requires WellFormed(racetracks, order)
    ensures |Listing(racetracks, order)| == |racetracks|
  {
    DistinctCardinality(order);
    assert (set k | k in order) == racetracks.Keys;
  }

  lemma {:induction false} DistinctCardinality(order: seq<string>)
    requires forall i, j :: 0 <= i < j < |order| ==> order[i] != order[j]
    ensures |set k | k in order| == |order|
  {
    if order != [] {
      var last := order[|order| - 1];
      var init := order[..|order| - 1];
      DistinctCardinality(init);
      assert (set k | k in order) == (set k | k in init) + {last};
      assert last !in init;
    }
  }

  /** An upload under a fresh id appends the new record's summary to the listing and leaves
      the earlier rows as they were. */
  lemma ListingAfterUpload(racetracks: map<string, Racetrack>, order: seq<string>, id: string, r: Racetrack)
    requires WellFormed(racetracks, order)
    requires id !in racetracks && r.id == id
    ensures WellFormed(racetracks[id := r], order + [id])
    ensures Listing(racetracks[id := r], order + [id]) == Listing(racetracks, order) + [Summarize(r)]
  {
    assert id !in order;
  }

  /** The dictionary `racetracks` of the backend, with the insertion order a Python
      dictionary keeps. */
  class Store {
    var racetracks: map<string, Racetrack>
    var order: seq<string>

    ghost predicate Valid()
      reads this
    {
      WellFormed(racetracks, order)
    }

    constructor ()
      ensures Valid()
      ensures racetracks == map[] && order == []
    {
      racetracks := map[];
      order := [];
    }

    /** `upload_racetrack`. A rejected request leaves the store unchanged; an accepted one
        stores one record under `freshId` (overwriting, as a dictionary would, on the
        unlikely reuse of an id) and replies 201 with the record's summary. */
    method Upload(req: Request, freshId: string, now: string, stored: string -> bool)
      returns (resp: Response<UploadReply>)
      requires Valid()
      modifies this
      ensures Valid()
      ensures CheckUpload(req).Rejected? ==>
                && resp == CheckUpload(req).response
                && racetracks == old(racetracks) && order == old(order)
      ensures CheckUpload(req).Accepted? ==>
                var rec := NewRecord(freshId, CheckUpload(req).name, CheckUpload(req).image, now, stored);
                && racetracks == old(racetracks)[freshId := rec]
                && order == (if freshId in old(racetracks) then old(order) else old(order) + [freshId])
                && resp == Success(CREATED, UploadReply(Uploaded, Summarize(rec)))
      ensures resp.Success? && freshId !in old(racetracks) ==>
                && racetracks.Keys == old(racetracks).Keys + {freshId}
                && |racetracks| == |old(racetracks)| + 1
                && Listing(racetracks, order) == Listing(old(racetracks), old(order)) + [resp.body.racetrack]
      ensures resp.Success? ==>
                && resp.body.racetrack.id == freshId
                && Get(freshId) == Success(OK, racetracks[freshId])
                && Get(freshId).body.name == CheckUpload(req).name
                && Get(freshId).body.image == CheckUpload(req).image
                && Summarize(Get(freshId).body) == resp.body.racetrack
    {
      var check := CheckUpload(req);
      if check.Rejected? {
        resp := check.response;
        return;
      }
      var rec := NewRecord(freshId, check.name, check.image, now, stored);
      if freshId !in racetracks {
        ListingAfterUpload(racetracks, order, freshId, rec);
        order := order + [freshId];
      }
      racetracks := racetracks[freshId := rec];
      resp := Success(CREATED, UploadReply(Uploaded, Summarize(rec)));
    }

    /** `get_racetracks`: every stored racetrack's summary, in insertion order. */
    method List() returns (resp: Response<seq<Summary>>)
      requires Valid()
      ensures resp == Success(OK, Listing(racetracks, order))
      ensures |resp.body| == |racetracks|
    {
      var list: seq<Summary> := [];
      var i := 0;
      while i < |order|
        invariant 0 <= i <= |order|
        invariant |list| == i
        invariant forall j :: 0 <= j < i ==> list[j] == Summarize(racetracks[order[j]])
      {
        list := list + [Summarize(racetracks[order[i]])];
        i := i + 1;
      }
      ListingLength(racetracks, order);
      assert list == Listing(racetracks, order);
      resp := Success(OK, list);
    }

    /** `get_racetrack`: the full stored record, image included, or 404. */
    function Get(id: string): (r: Response<Racetrack>)
      reads this
      ensures id !in racetracks <==> r == Failure(NOT_FOUND, TrackNotFound)
      ensures id in racetracks ==> r == Success(OK, racetracks[id])
      ensures Valid() && r.Success? ==> r.body.id == id
    {
      if id !in racetracks then Failure(NOT_FOUND, TrackNotFound) else Success(OK, racetracks[id])
    }
  }
}
