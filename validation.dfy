/**
 * The validation chain of `POST /bookmarks`: the required-field loop over
 * `title`, `url`, `rating`, then the rating range test, then the URL test.
 * Each step returns as soon as it fails, so the verdict names the first
 * check that failed and later checks are never consulted.
 */
module Validation {
  import opened Json

  /** The fields the handler requires. */
  datatype Field = Title | Url | Rating

  /** The property name of a field, as the handler reads it and reports it. */
  function Name(f: Field): string {
    match f
    case Title => "title"
    case Url => "url"
    case Rating => "rating"
  }

  /** The request body, reduced to the four properties the handler destructures. */
  datatype Body = Body(title: Value, url: Value, description: Value, rating: Value) {
    /** `req.body[field]` */
    function Get(f: Field): Value {
      match f
      case Title => title
      case Url => url
      case Rating => rating
    }
  }

  /** The required fields in the order the loop visits them. */
  const Required: seq<Field> := [Title, Url, Rating]

  /** Where the chain stops: the first failed check, or Accept when the insert is reached. */
  datatype Verdict = MissingField(field: Field) | BadRating | BadUrl | Accept

  /**
   * The `for (const field of fields)` loop with its early return: the
   * position of the first field whose value is falsy, or `|fields|` when
   * every value is truthy.
   */
  function FirstFalsy(body: Body, fields: seq<Field>): (k: nat)
    ensures k <= |fields|
    ensures forall i :: 0 <= i < k ==> Truthy(body.Get(fields[i]))
    ensures k < |fields| ==> !Truthy(body.Get(fields[k]))
  {
    if fields == [] then 0
    else if !Truthy(body.Get(fields[0])) then 0
    else 1 + FirstFalsy(body, fields[1..])
  }

  /** The rating passes `Number.isInteger(rating) && rating >= 0 && rating <= 5`. */
  predicate RatingInRange(v: Value) {
    IsInteger(v) && 0.0 <= v.x <= 5.0
  }

  /**
   * The whole chain. The insert is reached exactly when title and url are
   * truthy, the rating is an integer from 1 to 5 (0 already fails as
   * falsy) and `isWebUri` accepts the url.
   */
  function Validate(body: Body, isWebUri: Value -> bool): (v: Verdict)
    ensures v == Accept <==>
      && Truthy(body.title) && Truthy(body.url)
      && IsInteger(body.rating) && 1.0 <= body.rating.x <= 5.0
      && isWebUri(body.url)
  {
    var k := FirstFalsy(body, Required);
    assert k == |Required| ==>
      Truthy(body.Get(Required[0])) && Truthy(body.Get(Required[1])) && Truthy(body.Get(Required[2]));
    if k < |Required| then MissingField(Required[k])
    else if !RatingInRange(body.rating) then BadRating
    else if !isWebUri(body.url) then BadUrl
    else Accept
  }

  /**
   * The missing-field verdict names the first falsy field of title, url,
   * rating, whatever the rating and url would have said.
   */
  lemma MissingFieldIsFirstFalsy(body: Body, isWebUri: Value -> bool)
    ensures Validate(body, isWebUri) == MissingField(Title) <==> !Truthy(body.title)
    ensures Validate(body, isWebUri) == MissingField(Url) <==>
      Truthy(body.title) && !Truthy(body.url)
    ensures Validate(body, isWebUri) == MissingField(Rating) <==>
      Truthy(body.title) && Truthy(body.url) && !Truthy(body.rating)
  {
    var k := FirstFalsy(body, Required);
    assert Required[0] == Title && Required[1] == Url && Required[2] == Rating;
    if k == 1 {
      assert Truthy(body.Get(Required[0]));
    } else if k == 2 {
      assert Truthy(body.Get(Required[0])) && Truthy(body.Get(Required[1]));
    }
  }

  /**
   * Presence is falsiness: an empty title, an empty url and a zero rating
   * are all reported as missing, never as a range or URL error.
   */
  lemma FalsyValuesAreMissing(body: Body, isWebUri: Value -> bool)
    ensures body.title == Str("") ==> Validate(body, isWebUri) == MissingField(Title)
    ensures Truthy(body.title) && body.url == Str("") ==>
      Validate(body, isWebUri) == MissingField(Url)
    ensures Truthy(body.title) && Truthy(body.url) && body.rating == Num(0.0) ==>
      Validate(body, isWebUri) == MissingField(Rating)
  {
    MissingFieldIsFirstFalsy(body, isWebUri);
  }

  /**
   * Once all three fields are present, a rating that is not an integer in
   * [0,5] is rejected, and the url is not examined.
   */
  lemma BadRatingExactly(body: Body, isWebUri: Value -> bool)
    ensures Validate(body, isWebUri) == BadRating <==>
      Truthy(body.title) && Truthy(body.url) && Truthy(body.rating) && !RatingInRange(body.rating)
  {
    MissingFieldIsFirstFalsy(body, isWebUri);
  }

  /** A url is rejected only after the required fields and the rating passed. */
  lemma BadUrlExactly(body: Body, isWebUri: Value -> bool)
    ensures Validate(body, isWebUri) == BadUrl <==>
      && Truthy(body.title) && Truthy(body.url) && Truthy(body.rating)
      && RatingInRange(body.rating) && !isWebUri(body.url)
  {
    MissingFieldIsFirstFalsy(body, isWebUri);
  }

  /**
   * `isWebUri` is consulted last: every verdict other than BadUrl and Accept
   * is the same whatever URL check is used.
   */
  lemma UrlCheckedLast(body: Body, isWebUri: Value -> bool, other: Value -> bool)
    requires Validate(body, isWebUri) != BadUrl && Validate(body, isWebUri) != Accept
    ensures Validate(body, other) == Validate(body, isWebUri)
  {
  }

  /** An accepted rating is one of the numbers 1, 2, 3, 4, 5. */
  lemma AcceptedRating(body: Body, isWebUri: Value -> bool)
    requires Validate(body, isWebUri) == Accept
    ensures body.rating.Num? && body.rating.x.Floor in {1, 2, 3, 4, 5}
    ensures body.rating == Num(body.rating.x.Floor as real)
  {
  }
}
