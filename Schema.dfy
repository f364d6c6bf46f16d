/**
 The records of the Creator Swipes store (users, swipes, collections), the
 responses a route handler can give, and the schema's required-field rule.
 Identifiers and timestamps are opaque: the document store generates the
 identifiers and the host clock gives the timestamps.
 */
module Schema {

  type UserId = string
  type CollectionId = string
  type SwipeId = string
  type Timestamp = int

  datatype Option<T> = None | Some(value: T)

  /** Free-tier quota: collections one user may own (app.js:153). */
  const MAX_COLLECTIONS: nat := 5
  /** Free-tier quota: swipe ids one collection may hold (app.js:220). */
  const MAX_ITEMS: nat := 20

  /**
   What a handler does with the HTTP exchange: it writes a reply with a status
   code, or its promise rejects (a failed `save` outside any `try`) and no
   reply is written at all.
   */
  datatype Response = Reply(status: int) | Rejected

  /** A user as the login handler reads it; `password` is the stored hash. */
  datatype User = User(id: UserId, username: string, password: string)

  /** A saved link. `userId` is free text, not checked against any user. */
  datatype Swipe = Swipe(
    id: SwipeId,
    userId: string,
    url: string,
    platform: string,
    tags: seq<string>,
    notes: string,
    createdAt: Timestamp)

  /**
   A named, owned, ordered list of swipe id entries. An entry is None when the
   request that appended it sent no swipe id: the value is pushed unchecked and
   stored as null.
   */
  datatype Collection = Collection(
    id: CollectionId,
    name: string,
    description: string,
    createdBy: UserId,
    items: seq<Option<SwipeId>>,
    createdAt: Timestamp,
    updatedAt: Timestamp)

  /**
   The schema's `required: true` on a String path: the value was sent and is
   not the empty string (the document mapper refuses both).
   */
  predicate Present(v: Option<string>)
  {
    v.Some? && v.value != ""
  }

  /**
   The `tags` field of a request body. Unlike the String fields, an explicit
   JSON `null` and an absent field are told apart here: the schema's default
   `[]` replaces only an absent value, so a `null` reaches validation as is.
   */
  datatype TagsField = TagsAbsent | TagsNull | TagsSent(list: seq<string>)

  /**
   The body of a `/addSwipe` request; any field may be absent. For the String
   fields an absent value and a `null` are refused alike, so None stands for both.
   */
  datatype SwipeBody = SwipeBody(
    userId: Option<string>,
    url: Option<string>,
    platform: Option<string>,
    tags: TagsField,
    notes: Option<string>)

  /**
   The body passes the Swipe schema's required checks (app.js:41-45). The four
   String paths must be present. The `tags` array path defaults to `[]` when it
   is absent, and `required` on an array refuses only null or undefined, so an
   absent `tags` and any array pass, and an explicit `null` is refused.
   */
  predicate Complete(body: SwipeBody)
  {
    && Present(body.userId)
    && Present(body.url)
    && Present(body.platform)
    && !body.tags.TagsNull?
    && Present(body.notes)
  }

  /** The tags a new swipe stores: the body's, or the schema's default `[]`. */
  function TagsOf(body: SwipeBody): seq<string>
  {
    match body.tags
    case TagsSent(list) => list
    case _ => []
  }

  /**
   The document `new Swipe({...})` builds from a request body, if it passes
   validation; the creation time is the server's clock, not the body's.
   */
  function NewSwipe(body: SwipeBody, id: SwipeId, now: Timestamp): (r: Option<Swipe>)
    ensures r.Some? <==> Complete(body)
    ensures body.tags.TagsNull? ==> r.None?
    ensures r.Some? ==>
      && r.value.id == id
      && Some(r.value.userId) == body.userId
      && Some(r.value.url) == body.url
      && Some(r.value.platform) == body.platform
      && (body.tags.TagsSent? ==> r.value.tags == body.tags.list)
      && (body.tags.TagsAbsent? ==> r.value.tags == [])
      && Some(r.value.notes) == body.notes
      && r.value.createdAt == now
  {
    if Complete(body) then
      Some(Swipe(id, body.userId.value, body.url.value, body.platform.value,
                 TagsOf(body), body.notes.value, now))
    else
      None
  }
}
