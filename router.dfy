/**
 * The bookmarks router: `GET /bookmarks`, `POST /bookmarks`, and
 * `GET`/`DELETE /bookmarks/:bookmark_id` behind the `.all` lookup, over
 * the table of stored rows. Responses are plain values: a status, a body
 * and the optional `Location` header.
 */
module Router {
  import opened Json
  import opened Wrappers
  import opened Validation
  import opened Store
  import opened Serialization
  import Decimal

  /** What a response carries. */
  datatype Payload =
    | Empty                           // `res.status(204).end()`
    | ErrorObject(message: string)    // `{ error: { message } }`
    | PlainText(text: string)         // a plain string sent with `res.send`
    | One(bookmark: Bookmark)
    | Many(bookmarks: seq<Bookmark>)

  datatype Response = Response(status: nat, payload: Payload, location: Option<string>)

  /** The 404 of both by-id routes. */
  const NotFound: Response := Response(404, ErrorObject("Bookmark Not Found"), None)

  /** The text of the missing-field error. */
  function RequiredMessage(f: Field): string {
    "'" + Name(f) + "' is required"
  }

  /** The 400 response for each failed check of the creation chain. */
  function Rejection(v: Verdict): (r: Response)
    requires v != Accept
    ensures r.status == 400 && r.location == None
    ensures r.payload.ErrorObject? <==> v.MissingField?
  {
    match v
    case MissingField(f) => Response(400, ErrorObject(RequiredMessage(f)), None)
    case BadRating => Response(400, PlainText("'rating' must be a number between 0 and 5"), None)
    case BadUrl => Response(400, PlainText("'url' must be a valid URL"), None)
  }

  /** Each failed check has its own response, so a client can tell which check failed. */
  lemma RejectionsDistinct(v: Verdict, w: Verdict)
    requires v != Accept && w != Accept
    requires Rejection(v) == Rejection(w)
    ensures v == w
  {
    if v.MissingField? && w.MissingField? {
      // the field names already differ in their first letter
      assert Name(v.field)[0] == RequiredMessage(v.field)[1] == RequiredMessage(w.field)[1] == Name(w.field)[0];
    }
  }

  /** The `Location` header of a created bookmark. */
  function Location(id: nat): (loc: string)
    ensures |loc| > 11 && loc[..11] == "/bookmarks/"
  {
    "/bookmarks/" + Decimal.Text(id)
  }

  /** The `Location` header names the created row: its id reads back from it, and no other id shares it. */
  lemma LocationNamesRow(id: nat, other: nat)
    ensures Decimal.Value(Location(id)[11..]) == id
    ensures Location(other) == Location(id) ==> other == id
  {
    assert Location(id)[11..] == Decimal.Text(id);
    assert Location(other)[11..] == Decimal.Text(other);
    Decimal.ValueOfText(id);
    Decimal.ValueOfText(other);
  }

  /** What the `.all` middleware does: answer 404, or hand the row to the next handler. */
  datatype Lookup = Halt(response: Response) | Next(bookmark: Row)

  class BookmarksRouter {
    /** The bookmarks table, in insertion order. */
    var rows: seq<Row>
    /** The id the store assigns to the next inserted row. */
    var nextId: nat

    /** The sanitizer applied to text on output. */
    const xss: Value -> string
    /** The URL check of the creation chain. */
    const isWebUri: Value -> bool
    /** `Number(...)` on strings, arrays and objects. */
    const parse: Value -> JsNumber

    /** Ids are unique and none is ever handed out again. */
    ghost predicate Valid()
      reads this
    {
      && UniqueIds(rows)
      && forall i :: 0 <= i < |rows| ==> rows[i].id < nextId
    }

    constructor (xss: Value -> string, isWebUri: Value -> bool, parse: Value -> JsNumber)
      ensures Valid()
      ensures rows == [] && nextId == 1
      ensures this.xss == xss && this.isWebUri == isWebUri && this.parse == parse
    {
      rows := [];
      nextId := 1;
      this.xss := xss;
      this.isWebUri := isWebUri;
      this.parse := parse;
    }

    /** `GET /bookmarks`: every stored row, serialized, in table order. */
    method List() returns (resp: Response)
      ensures resp.status == 200 && resp.location == None && resp.payload.Many?
      ensures |resp.payload.bookmarks| == |rows|
      ensures forall i :: 0 <= i < |rows| ==> resp.payload.bookmarks[i] == Serialize(rows[i], xss, parse)
    {
      resp := Response(200, Many(SerializeAll(rows, xss, parse)), None);
    }

    /** The `.all` middleware of `/bookmarks/:bookmark_id`. */
    method Load(id: nat) returns (next: Lookup)
      requires Valid()
      ensures next.Halt? <==> !HasId(rows, id)
      ensures next.Halt? ==> next.response == NotFound
      ensures forall i :: 0 <= i < |rows| && rows[i].id == id ==> next == Next(rows[i])
    {
      var found := Find(rows, id);
      if found.None? {
        next := Halt(NotFound);
      } else {
        next := Next(found.value);
        forall i | 0 <= i < |rows| && rows[i].id == id ensures next == Next(rows[i]) {
          FindUnique(rows, id, i);
        }
      }
    }

    /** `GET /bookmarks/:bookmark_id` */
    method Get(id: nat) returns (resp: Response)
      requires Valid()
      ensures !HasId(rows, id) ==> resp == NotFound
      ensures forall i :: 0 <= i < |rows| && rows[i].id == id ==>
        resp == Response(200, One(Serialize(rows[i], xss, parse)), None)
    {
      var next := Load(id);
      match next
      case Halt(r) => resp := r;
      case Next(row) => resp := Response(200, One(Serialize(row, xss, parse)), None);
    }

    /** `DELETE /bookmarks/:bookmark_id` */
    method Delete(id: nat) returns (resp: Response)
      requires Valid()
      modifies this
      ensures Valid() && nextId == old(nextId)
      ensures !HasId(old(rows), id) ==> resp == NotFound && rows == old(rows)
      ensures HasId(old(rows), id) ==> resp == Response(204, Empty, None) && rows == Without(old(rows), id)
      ensures forall i :: 0 <= i < |old(rows)| && old(rows)[i].id == id ==>
        rows == old(rows)[..i] + old(rows)[i + 1..]
    {
      var next := Load(id);
      match next
      case Halt(r) =>
        resp := r;
      case Next(_) =>
        WithoutUnique(rows, id);
        ghost var before := rows;
        rows := Without(rows, id);
        resp := Response(204, Empty, None);
        forall i | 0 <= i < |before| && before[i].id == id
          ensures rows == before[..i] + before[i + 1..]
        {
          RemovesExactlyOne(before, id, i);
        }
    }

    /** The store's insert: the row gets the next id. */
    method Insert(body: Body) returns (row: Row)
      requires Valid()
      modifies this
      ensures Valid()
      ensures row == Inserted(old(nextId), body) && !HasId(old(rows), row.id)
      ensures rows == old(rows) + [row] && nextId == old(nextId) + 1
    {
      row := Inserted(nextId, body);
      rows := rows + [row];
      nextId := nextId + 1;
    }

    /** `POST /bookmarks`: the validation chain, then the insert and the 201. */
    method Create(body: Body) returns (resp: Response)
      requires Valid()
      modifies this
      ensures Valid()
      ensures Validate(body, isWebUri) != Accept ==>
        && rows == old(rows) && nextId == old(nextId)
        && resp == Rejection(Validate(body, isWebUri))
      ensures Validate(body, isWebUri) == Accept ==>
        var row := Inserted(old(nextId), body);
        && !HasId(old(rows), row.id)
        && rows == old(rows) + [row] && nextId == old(nextId) + 1
        && resp == Response(201, One(Serialize(row, xss, parse)), Some(Location(row.id)))
    {
      var verdict := Validate(body, isWebUri);
      if verdict != Accept {
        resp := Rejection(verdict);
        return;
      }
      var row := Insert(body);
      resp := Response(201, One(Serialize(row, xss, parse)), Some(Location(row.id)));
    }
  }

  /** A bookmark fetched by the id of a 201 response is the bookmark that response carried. */
  method CreateThenGet(router: BookmarksRouter, body: Body) returns (created: Response, fetched: Response)
    requires router.Valid()
    requires Validate(body, router.isWebUri) == Accept
    modifies router
    ensures router.Valid()
    ensures created.status == 201 && created.payload.One?
    ensures created.location == Some(Location(created.payload.bookmark.id))
    ensures fetched == Response(200, created.payload, None)
  {
    created := router.Create(body);
    var id := created.payload.bookmark.id;
    assert router.rows[|router.rows| - 1].id == id;
    fetched := router.Get(id);
  }

  /** After a 204 the list is the previous list without that id, and the id is gone. */
  method DeleteThenList(router: BookmarksRouter, id: nat) returns (deleted: Response, listed: Response, again: Response)
    requires router.Valid()
    requires HasId(router.rows, id)
    modifies router
    ensures router.Valid()
    ensures deleted == Response(204, Empty, None)
    ensures listed.payload == Many(Filter(old(SerializeAll(router.rows, router.xss, router.parse)), (b: Bookmark) => b.id != id))
    ensures again == NotFound
  {
    ghost var before := router.rows;
    deleted := router.Delete(id);
    assert router.rows == Without(before, id);
    ListAfterDelete(before, id, router.xss, router.parse);
    listed := router.List();
    assert listed.payload.bookmarks == SerializeAll(router.rows, router.xss, router.parse);
    again := router.Get(id);
  }
}
