/**
 Each route handler of the service as one state transition over the store's
 value: the collection table (keyed by document id) and the swipe table. A
 handler either rejects with the store unchanged or makes one precise change.
 The caller's identity is the one the authentication middleware decoded.
 */
module Handlers {
  import opened Schema

  datatype Db = Db(collections: map<CollectionId, Collection>, swipes: seq<Swipe>)

  /** What a handler answers and the store it leaves behind. */
  datatype Step = Step(reply: Response, db: Db)

  /** `Collection.find({ createdBy: user })`: the records `user` created, by id. */
  function Owned(table: map<CollectionId, Collection>, user: UserId): (r: map<CollectionId, Collection>)
    ensures forall id :: id in r <==> id in table && table[id].createdBy == user
    ensures forall id :: id in r ==> r[id] == table[id]
  {
    map id | id in table && table[id].createdBy == user :: table[id]
  }

  /** How many collections `user` owns. */
  function OwnedCount(table: map<CollectionId, Collection>, user: UserId): nat
  {
    |Owned(table, user).Keys|
  }

  /** `Collection.findOne({ _id: id, createdBy: user })` finds a record. */
  predicate OwnedBy(table: map<CollectionId, Collection>, id: CollectionId, user: UserId)
  {
    id in table && table[id].createdBy == user
  }

  /** POST /createCollection (app.js:147-166). */
  function CreateCollection(db: Db, caller: UserId, name: Option<string>, description: Option<string>,
                            freshId: CollectionId, now: Timestamp): (r: Step)
    requires freshId !in db.collections
    ensures r.reply == Reply(201) || r.reply == Reply(403) || r.reply == Rejected
    ensures r.reply == Reply(403) <==> OwnedCount(db.collections, caller) >= MAX_COLLECTIONS
    ensures r.reply == Rejected <==>
      OwnedCount(db.collections, caller) < MAX_COLLECTIONS && !(Present(name) && Present(description))
    ensures r.reply != Reply(201) ==> r.db == db
    ensures r.reply == Reply(201) ==>
      && r.db.swipes == db.swipes
      && r.db.collections.Keys == db.collections.Keys + {freshId}
      && (forall id :: id in db.collections ==> r.db.collections[id] == db.collections[id])
      && var c := r.db.collections[freshId];
         && c.id == freshId && c.createdBy == caller
         && Some(c.name) == name && Some(c.description) == description
         && c.items == [] && c.createdAt == now && c.updatedAt == now
  {
    if OwnedCount(db.collections, caller) >= MAX_COLLECTIONS then
      Step(Reply(403), db)
    else if !(Present(name) && Present(description)) then
      // `save` fails schema validation and nothing catches it
      Step(Rejected, db)
    else
      var c := Collection(freshId, name.value, description.value, caller, [], now, now);
      Step(Reply(201), db.(collections := db.collections[freshId := c]))
  }

  /** PUT /updateCollection/:id (app.js:176-192). */
  function UpdateCollection(db: Db, caller: UserId, id: CollectionId, name: Option<string>,
                            description: Option<string>, now: Timestamp): (r: Step)
    ensures r.reply == Reply(200) || r.reply == Reply(404) || r.reply == Rejected
    ensures r.reply == Reply(404) <==> !OwnedBy(db.collections, id, caller)
    ensures r.reply == Rejected <==>
      OwnedBy(db.collections, id, caller) && !(Present(name) && Present(description))
    ensures r.reply != Reply(200) ==> r.db == db
    ensures r.reply == Reply(200) ==>
      && r.db.swipes == db.swipes
      && r.db.collections.Keys == db.collections.Keys
      && (forall k :: k in db.collections && k != id ==> r.db.collections[k] == db.collections[k])
      && var was, now' := db.collections[id], r.db.collections[id];
         && Some(now'.name) == name && Some(now'.description) == description
         && now'.updatedAt == now
         && now'.id == was.id && now'.createdBy == was.createdBy
         && now'.items == was.items && now'.createdAt == was.createdAt
  {
    if !OwnedBy(db.collections, id, caller) then
      Step(Reply(404), db)
    else if !(Present(name) && Present(description)) then
      // the fields are set on the loaded document, but `save` fails validation
      Step(Rejected, db)
    else
      var c := db.collections[id].(name := name.value, description := description.value, updatedAt := now);
      Step(Reply(200), db.(collections := db.collections[id := c]))
  }

  /** DELETE /deleteCollection/:id (app.js:195-206). Swipes are never touched. */
  function DeleteCollection(db: Db, caller: UserId, id: CollectionId): (r: Step)
    ensures r.reply == Reply(200) || r.reply == Reply(404)
    ensures r.reply == Reply(404) <==> !OwnedBy(db.collections, id, caller)
    ensures r.reply == Reply(404) ==> r.db == db
    ensures r.reply == Reply(200) ==>
      && r.db.swipes == db.swipes
      && r.db.collections.Keys == db.collections.Keys - {id}
      && (forall k :: k in r.db.collections ==> r.db.collections[k] == db.collections[k])
  {
    if !OwnedBy(db.collections, id, caller) then
      Step(Reply(404), db)
    else
      // the second query deletes by id alone
      Step(Reply(200), db.(collections := db.collections - {id}))
  }

  /**
   POST /addToCollection/:id (app.js:209-228). The swipe id is appended without
   checking that it was sent, that such a swipe exists or whose it is; an absent
   `swipeId` (None) is appended as an entry of its own. `updatedAt` is not touched.
   */
  function AddToCollection(db: Db, caller: UserId, id: CollectionId, swipeId: Option<SwipeId>): (r: Step)
    ensures r.reply == Reply(200) || r.reply == Reply(403) || r.reply == Reply(404)
    ensures r.reply == Reply(404) <==> !OwnedBy(db.collections, id, caller)
    ensures r.reply == Reply(403) <==>
      OwnedBy(db.collections, id, caller) && |db.collections[id].items| >= MAX_ITEMS
    ensures r.reply != Reply(200) ==> r.db == db
    ensures r.reply == Reply(200) ==>
      && r.db.swipes == db.swipes
      && r.db.collections.Keys == db.collections.Keys
      && (forall k :: k in db.collections && k != id ==> r.db.collections[k] == db.collections[k])
      && var was, now := db.collections[id], r.db.collections[id];
         && now.items == was.items + [swipeId]
         && now.id == was.id && now.name == was.name && now.description == was.description
         && now.createdBy == was.createdBy
         && now.createdAt == was.createdAt && now.updatedAt == was.updatedAt
  {
    if !OwnedBy(db.collections, id, caller) then
      Step(Reply(404), db)
    else if |db.collections[id].items| >= MAX_ITEMS then
      Step(Reply(403), db)
    else
      var c := db.collections[id];
      Step(Reply(200), db.(collections := db.collections[id := c.(items := c.items + [swipeId])]))
  }

  /**
   POST /addSwipe (app.js:118-134): no authentication and no owner check.
   `storeAvailable` is false when the database call fails for any reason other
   than validation; both failures reach the same `catch`.
   */
  function AddSwipe(db: Db, body: SwipeBody, freshId: SwipeId, now: Timestamp,
                    storeAvailable: bool): (r: Step)
    ensures r.reply == Reply(201) || r.reply == Reply(500)
    ensures r.reply == Reply(201) <==> Complete(body) && storeAvailable
    ensures r.reply == Reply(500) ==> r.db == db
    ensures r.reply == Reply(201) ==>
      && r.db.collections == db.collections
      && |r.db.swipes| == |db.swipes| + 1
      && r.db.swipes[..|db.swipes|] == db.swipes
      && Some(r.db.swipes[|db.swipes|]) == NewSwipe(body, freshId, now)
  {
    match NewSwipe(body, freshId, now)
    case Some(s) =>
      if storeAvailable then Step(Reply(201), db.(swipes := db.swipes + [s]))
      else Step(Reply(500), db)
    case None => Step(Reply(500), db)
  }
}
