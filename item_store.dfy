/** The sample API's item list: a module-level Python list whose ids are 1, 2, 3, ...,
    with a list handler, a lookup by id and an append. */
module ItemStore {
  import opened Wrappers
  import opened Http

  datatype Item = Item(id: int, name: Json)

  const ItemNotFound := "Item not found"

  /** The items the module starts with. */
  const SampleItems := [Item(1, JString("Item 1")), Item(2, JString("Item 2")), Item(3, JString("Item 3"))]

  /** The list's invariant: the item at position `i` has id `i + 1`. */
  ghost predicate NumberedFromOne(items: seq<Item>)
  {
    forall i :: 0 <= i < |items| ==> items[i].id == i + 1
  }

  /** The position of the first item whose id is `id`, or `|items|` when there is none:
      the search `next((item for item in items if item["id"] == item_id), None)`. */
  function FindIndex(items: seq<Item>, id: int): (k: nat)
    ensures k <= |items|
    ensures forall j :: 0 <= j < k ==> items[j].id != id
    ensures k < |items| ==> items[k].id == id
  {
    if items == [] then 0
    else if items[0].id == id then 0
    else 1 + FindIndex(items[1..], id)
  }

  /** In a numbered list the item with id `k` is the `k`-th one, and ids outside 1..n are
      not found. */
  lemma FindInNumbered(items: seq<Item>, id: int)
    requires NumberedFromOne(items)
    ensures FindIndex(items, id) == if 1 <= id <= |items| then id - 1 else |items|
  {
    var k := FindIndex(items, id);
    if k < |items| {
      assert items[k].id == k + 1;
    }
    if 1 <= id <= |items| {
      assert items[id - 1].id == id;
    }
  }

  /** Ids in a numbered list are unique. */
  lemma NumberedIdsUnique(items: seq<Item>, i: nat, j: nat)
    requires NumberedFromOne(items)
    requires i < |items| && j < |items| && items[i].id == items[j].id
    ensures i == j
  {
  }

  /** The starting list is numbered. */
  lemma SampleItemsNumbered()
    ensures NumberedFromOne(SampleItems) && |SampleItems| == 3
  {
  }

  /** Appending an item with id `len(items) + 1` keeps the list numbered. */
  lemma AppendKeepsNumbering(items: seq<Item>, name: Json)
    requires NumberedFromOne(items)
    ensures NumberedFromOne(items + [Item(|items| + 1, name)])
  {
  }

  /** The outcome of the checks `add_item` makes before it touches the list. */
  datatype Checked = Rejected(response: Response<Item>) | Accepted(name: Json)

  /** The request checks of `add_item`: JSON content, then `name`; `data['name']` raises on a
      body that is a list or a string. */
  function CheckAddItem(req: Request): (c: Checked)
    ensures req.NotJson? ==> c == Rejected(Failure(BAD_REQUEST, MissingJson))
    ensures req.JsonBody? && req.data.JObject? && "name" !in req.data.fields ==>
              c == Rejected(Failure(BAD_REQUEST, MissingName))
    ensures c.Accepted? <==> req.JsonBody? && req.data.JObject? && "name" in req.data.fields
    ensures c.Accepted? ==> c.name == req.data.fields["name"]
    ensures req.MalformedJson? ==> c == Rejected(Failure(BAD_REQUEST, UnparsableJson))
    ensures req.JsonBody? && Contains(req.data, "name").None? ==> c == Rejected(InternalError)
    ensures req.JsonBody? && Contains(req.data, "name") == Some(false) ==>
              c == Rejected(Failure(BAD_REQUEST, MissingName))
    ensures req.JsonBody? && (req.data.JArray? || req.data.JString?) && Contains(req.data, "name") == Some(true) ==>
              c == Rejected(InternalError)
    ensures c.Rejected? ==> !c.response.Success?
  {
    match req
    case NotJson => Rejected(Failure(BAD_REQUEST, MissingJson))
    case MalformedJson => Rejected(Failure(BAD_REQUEST, UnparsableJson))
    case JsonBody(data) =>
      if Contains(data, "name").None? then Rejected(InternalError)
      else if !Contains(data, "name").value then Rejected(Failure(BAD_REQUEST, MissingName))
      else if !data.JObject? then Rejected(InternalError)    // `data['name']` on a list or a string
      else Accepted(data.fields["name"])
  }

  /** The module-level list `items`. */
  class Catalog {
    var items: seq<Item>

    ghost predicate Valid()
      reads this
    {
      NumberedFromOne(items)
    }

    constructor ()
      ensures Valid()
      ensures items == SampleItems
    {
      items := SampleItems;
    }

    /** `get_items`: the whole list, unchanged and in order. */
    function GetItems(): (r: Response<seq<Item>>)
      reads this
      ensures r.Success? && r.status == OK && r.body == items
      ensures Valid() ==> forall i :: 0 <= i < |r.body| ==> r.body[i].id == i + 1
    {
      Success(OK, items)
    }

    /** `get_item`: the first item with the given id, or 404. The route only matches
        non-negative integers. */
    function GetItem(itemId: nat): (r: Response<Item>)
      reads this
      ensures r.Success? ==> r.status == OK && r.body in items && r.body.id == itemId
      ensures r.Success? ==> exists k :: 0 <= k < |items| && items[k] == r.body && forall j :: 0 <= j < k ==> items[j].id != itemId
      ensures !r.Success? <==> forall j :: 0 <= j < |items| ==> items[j].id != itemId
      ensures !r.Success? ==> r == Failure(NOT_FOUND, ItemNotFound)
      ensures Valid() ==>
                r == if 1 <= itemId <= |items| then Success(OK, items[itemId - 1]) else Failure(NOT_FOUND, ItemNotFound)
    {
      var k := FindIndex(items, itemId);
      assert Valid() ==> k == if 1 <= itemId <= |items| then itemId - 1 else |items| by {
        if Valid() {
          FindInNumbered(items, itemId);
        }
      }
      if k == |items| then Failure(NOT_FOUND, ItemNotFound) else Success(OK, items[k])
    }

    /** `add_item`. A rejected request leaves the list unchanged; an accepted one appends
        one item with id `len(items) + 1` and replies 201 with it. */
    method AddItem(req: Request) returns (resp: Response<Item>)
      requires Valid()
      modifies this
      ensures Valid()
      ensures CheckAddItem(req).Rejected? ==> resp == CheckAddItem(req).response && items == old(items)
      ensures CheckAddItem(req).Accepted? ==>
                var item := Item(|old(items)| + 1, CheckAddItem(req).name);
                items == old(items) + [item] && resp == Success(CREATED, item)
      ensures resp.Success? ==> GetItem(|old(items)| + 1) == Success(OK, resp.body)
    {
      var check := CheckAddItem(req);
      if check.Rejected? {
        resp := check.response;
        return;
      }
      var item := Item(|items| + 1, check.name);
      AppendKeepsNumbering(items, check.name);
      items := items + [item];
      resp := Success(CREATED, item);
    }
  }
}
