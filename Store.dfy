/**
 The server's shared store and its route handlers. A `Store` holds the
 collection table and the swipe table, which the handlers change in place, and
 the user table, which only the login handler reads. Each protected handler
 runs `Authenticate` first and, when that lets it through, acts as the decoded
 identity; every handler's effect is the corresponding `Handlers` transition.
 */
module Server {
  import opened Schema
  import opened Auth
  import opened Handlers
  import opened Invariants

  class Store {
    var collections: map<CollectionId, Collection>
    var swipes: seq<Swipe>
    /** Registered users; no route here creates or changes one. */
    const users: seq<User>

    function State(): Db
      reads this
    {
      Db(collections, swipes)
    }

    ghost predicate Valid()
      reads this
    {
      WellFormed(State())
    }

    constructor(users: seq<User>)
      ensures this.users == users
      ensures collections == map[] && swipes == []
      ensures Valid() && WithinQuota(State())
    {
      this.users := users;
      collections := map[];
      swipes := [];
      assert forall user :: Owned(map[], user) == map[];
    }

    /** POST /login (app.js:105-115); reads the user table, changes nothing. */
    method Login(username: string, password: string, check: HashCheck, sign: Signer)
      returns (r: LoginResult)
      ensures r == Auth.Login(users, username, password, check, sign)
    {
      r := Auth.Login(users, username, password, check, sign);
    }

    /** POST /addSwipe (app.js:118-134): open to anyone, no authentication. */
    method AddSwipe(body: SwipeBody, freshId: SwipeId, now: Timestamp, storeAvailable: bool)
      returns (resp: Response)
      requires Valid() && SwipeIdFresh(State(), freshId)
      modifies this`swipes
      ensures Valid()
      ensures old(WithinQuota(State())) ==> WithinQuota(State())
      ensures Step(resp, State()) == Handlers.AddSwipe(old(State()), body, freshId, now, storeAvailable)
    {
      AddSwipePreserves(State(), body, freshId, now, storeAvailable);
      var swipe := NewSwipe(body, freshId, now);
      if swipe.None? || !storeAvailable {
        return Reply(500);
      }
      swipes := swipes + [swipe.value];
      resp := Reply(201);
    }

    /** POST /createCollection (app.js:147-166). */
    method CreateCollection(token: Option<string>, verify: Verifier, name: Option<string>,
                            description: Option<string>, freshId: CollectionId, now: Timestamp)
      returns (resp: Response)
      requires Valid() && freshId !in collections
      modifies this`collections
      ensures Valid()
      ensures old(WithinQuota(State())) ==> WithinQuota(State())
      ensures match Authenticate(token, verify)
        case Deny(code) => resp == Reply(code) && collections == old(collections)
        case Proceed(user) =>
          Step(resp, State()) == Handlers.CreateCollection(old(State()), user, name, description, freshId, now)
    {
      var auth := Authenticate(token, verify);
      if auth.Deny? {
        return Reply(auth.status);
      }
      var userId := auth.user;
      ghost var before := State();
      CreatePreserves(before, userId, name, description, freshId, now);
      var userCollections := Owned(collections, userId);
      if |userCollections.Keys| >= MAX_COLLECTIONS {
        return Reply(403);
      }
      if !(Present(name) && Present(description)) {
        return Rejected;
      }
      collections := collections[freshId := Collection(freshId, name.value, description.value, userId, [], now, now)];
      resp := Reply(201);
    }

    /** GET /getCollections (app.js:169-173): the caller's records; changes nothing. */
    method GetCollections(token: Option<string>, verify: Verifier)
      returns (resp: Response, listing: map<CollectionId, Collection>)
      requires Valid()
      ensures match Authenticate(token, verify)
        case Deny(code) => resp == Reply(code) && listing == map[]
        case Proceed(user) => resp == Reply(200) && listing == Owned(collections, user)
      ensures forall id :: id in listing ==> listing[id].id == id
    {
      var auth := Authenticate(token, verify);
      if auth.Deny? {
        return Reply(auth.status), map[];
      }
      listing := Owned(collections, auth.user);
      resp := Reply(200);
    }

    /** PUT /updateCollection/:id (app.js:176-192). */
    method UpdateCollection(token: Option<string>, verify: Verifier, id: CollectionId,
                            name: Option<string>, description: Option<string>, now: Timestamp)
      returns (resp: Response)
      requires Valid()
      modifies this`collections
      ensures Valid()
      ensures old(WithinQuota(State())) ==> WithinQuota(State())
      ensures match Authenticate(token, verify)
        case Deny(code) => resp == Reply(code) && collections == old(collections)
        case Proceed(user) =>
          Step(resp, State()) == Handlers.UpdateCollection(old(State()), user, id, name, description, now)
    {
      var auth := Authenticate(token, verify);
      if auth.Deny? {
        return Reply(auth.status);
      }
      var userId := auth.user;
      UpdatePreserves(State(), userId, id, name, description, now);
      if !OwnedBy(collections, id, userId) {
        return Reply(404);
      }
      var collection := collections[id];
      if !(Present(name) && Present(description)) {
        return Rejected;
      }
      collection := collection.(name := name.value, description := description.value, updatedAt := now);
      collections := collections[id := collection];
      resp := Reply(200);
    }

    /** DELETE /deleteCollection/:id (app.js:195-206). */
    method DeleteCollection(token: Option<string>, verify: Verifier, id: CollectionId)
      returns (resp: Response)
      requires Valid()
      modifies this`collections
      ensures Valid()
      ensures old(WithinQuota(State())) ==> WithinQuota(State())
      ensures match Authenticate(token, verify)
        case Deny(code) => resp == Reply(code) && collections == old(collections)
        case Proceed(user) =>
          Step(resp, State()) == Handlers.DeleteCollection(old(State()), user, id)
    {
      var auth := Authenticate(token, verify);
      if auth.Deny? {
        return Reply(auth.status);
      }
      var userId := auth.user;
      DeletePreserves(State(), userId, id);
      if !OwnedBy(collections, id, userId) {
        return Reply(404);
      }
      collections := collections - {id};
      resp := Reply(200);
    }

    /** POST /addToCollection/:id (app.js:209-228). */
    method AddToCollection(token: Option<string>, verify: Verifier, id: CollectionId, swipeId: Option<SwipeId>)
      returns (resp: Response)
      requires Valid()
      modifies this`collections
      ensures Valid()
      ensures old(WithinQuota(State())) ==> WithinQuota(State())
      ensures match Authenticate(token, verify)
        case Deny(code) => resp == Reply(code) && collections == old(collections)
        case Proceed(user) =>
          Step(resp, State()) == Handlers.AddToCollection(old(State()), user, id, swipeId)
    {
      var auth := Authenticate(token, verify);
      if auth.Deny? {
        return Reply(auth.status);
      }
      var userId := auth.user;
      AddToPreserves(State(), userId, id, swipeId);
      if !OwnedBy(collections, id, userId) {
        return Reply(404);
      }
      var collection := collections[id];
      if |collection.items| >= MAX_ITEMS {
        return Reply(403);
      }
      collection := collection.(items := collection.items + [swipeId]);
      collections := collections[id := collection];
      resp := Reply(200);
    }
  }
}
