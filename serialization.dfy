/**
 * `serializeBookmark`: how a stored row is shown to a client. The sanitizer
 * (`xss`) is applied to title and description when a row is written out;
 * the stored row itself is never changed.
 */
module Serialization {
  import opened Json
  import opened Store
  import opened Validation

  /** A bookmark as the router sends it. */
  datatype Bookmark = Bookmark(id: nat, title: string, url: Value, description: string, rating: JsNumber)

  /**
   * id and url pass through unchanged, the sanitizer is applied to title and
   * description, and the rating is converted with `Number(...)`.
   */
  function Serialize(row: Row, xss: Value -> string, parse: Value -> JsNumber): Bookmark
  {
    Bookmark(row.id, xss(row.title), row.url, xss(row.description), ToNumber(row.rating, parse))
  }

  /** `rows.map(serializeBookmark)` */
  function SerializeAll(rows: seq<Row>, xss: Value -> string, parse: Value -> JsNumber): seq<Bookmark>
  {
    seq(|rows|, i requires 0 <= i < |rows| => Serialize(rows[i], xss, parse))
  }

  /** The row the store holds after inserting an accepted body under `id`. */
  function Inserted(id: nat, body: Body): Row
  {
    Row(id, body.title, body.url, body.description, body.rating)
  }

  /**
   * The sanitizer reaches only title and description: two sanitizers that
   * agree on those two values give the same bookmark, and the other fields
   * never depend on the sanitizer.
   */
  lemma SanitizerOnlyOnText(row: Row, xss: Value -> string, xss': Value -> string, parse: Value -> JsNumber)
    ensures var b, b' := Serialize(row, xss, parse), Serialize(row, xss', parse);
      b.id == b'.id && b.url == b'.url && b.rating == b'.rating
    ensures xss(row.title) == xss'(row.title) && xss(row.description) == xss'(row.description) ==>
      Serialize(row, xss, parse) == Serialize(row, xss', parse)
  {
  }

  /**
   * A bookmark created from an accepted body is written out with the
   * body's url and the body's integer rating as a number, whatever the
   * string-to-number conversion is.
   */
  lemma CreatedRatingIsNumber(id: nat, body: Body, isWebUri: Value -> bool, xss: Value -> string, parse: Value -> JsNumber)
    requires Validate(body, isWebUri) == Accept
    ensures var b := Serialize(Inserted(id, body), xss, parse);
      b.id == id && b.url == body.url && b.rating == Finite(body.rating.x) &&
      b.rating.x.Floor in {1, 2, 3, 4, 5} && b.rating.x == b.rating.x.Floor as real
  {
  }

  /**
   * The list after a deletion is the list before it with the bookmarks of
   * that id filtered out, in the same order.
   */
  lemma {:induction false} ListAfterDelete(rows: seq<Row>, id: nat, xss: Value -> string, parse: Value -> JsNumber)
    ensures SerializeAll(Without(rows, id), xss, parse) ==
      Filter(SerializeAll(rows, xss, parse), (b: Bookmark) => b.id != id)
  {
    var keepRow := (r: Row) => r.id != id;
    var keep := (b: Bookmark) => b.id != id;
    if rows != [] {
      var all := SerializeAll(rows, xss, parse);
      assert all == [Serialize(rows[0], xss, parse)] + SerializeAll(rows[1..], xss, parse);
      assert all[1..] == SerializeAll(rows[1..], xss, parse);
      ListAfterDelete(rows[1..], id, xss, parse);
      if rows[0].id != id {
        assert Without(rows, id) == [rows[0]] + Without(rows[1..], id);
        assert SerializeAll([rows[0]] + Without(rows[1..], id), xss, parse) ==
          [Serialize(rows[0], xss, parse)] + SerializeAll(Without(rows[1..], id), xss, parse);
      } else {
        assert Without(rows, id) == Without(rows[1..], id);
      }
    }
  }
}
