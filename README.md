# Creator Swipes store, modelled in Dafny

Creator Swipes is a small REST backend. Users log in and get a signed token. Anyone
may save bookmarked links ("swipes"). Logged-in users group swipe ids into named
collections, under two free-tier quotas: at most 5 collections per user, and at most
20 swipe ids per collection. This project models the route handlers of `app.js` as
sequential state transitions over the store, and proves what each one does.

Layout:

- `Schema.dfy`: the records (user, swipe, collection) and the quota constants.
  It also holds the responses a handler can give and the schema's required-field rule.
- `Auth.dfy`: the `authenticateJWT` middleware and the login decision. Token
  verification, token signing and bcrypt comparison are function parameters.
- `Handlers.dfy`: each route as a pure function from the store's value to a
  response and a new store value. Each function's contract says when it rejects,
  that a rejection leaves the store unchanged, and the one change a success makes.
- `Invariants.dfy`: every handler preserves the table's well-formedness and both
  quotas. A handler changes the caller's `/getCollections` listing as stated and
  leaves every other user's listing unchanged.
- `Store.dfy`: class `Server.Store`, with the collection table (a map from id to
  record) and the swipe table (a sequence) as fields. It has one method per route.
  A method updates the fields in place, and its `ensures` ties the response and new
  state to the `Handlers` function. Protected routes run `Authenticate` first and
  then act as the identity it decoded.

Fresh document ids and the clock reading "now" are method parameters. A fresh
collection id must not already be in the table, and a fresh swipe id must not be
used by a stored swipe. The document store generates such ids.

A handler may also fail to answer at all. `createCollection` and `updateCollection`
call `save` without a `try`. If `name` or `description` is absent or empty, the
schema's required check fails, the promise rejects and no reply is written. The
model calls this response `Rejected`, and it leaves the store unchanged.
`createCollection` answers 201 only when both fields are present; otherwise the
handler is `Rejected`.

`/addSwipe` catches every failure of `save` and answers 500. Validation failures
come from the required check. Every other database failure is modelled by the
parameter `storeAvailable`.

## Model

| member | source | states |
|---|---|---|
| Schema.NewSwipe | app.js:40-47 | a swipe document exists exactly when the four required String fields are present and non-empty (`tags` may be absent and then defaults to `[]`, but an explicit `null` is refused); it carries the body's fields, the given id and the server's time |
| Auth.Authenticate | app.js:88-97 | 401 exactly when the header is absent or empty; 403 exactly when it is present but does not verify; otherwise proceed with exactly the identity the token carries |
| Auth.FindUser | app.js:108 | returns the position of the first user whose username equals the given one, or None exactly when no user has that username |
| Auth.LoginResult.Status | app.js:111-113 | a login answer is 200 with a token or 401, and 401 exactly when no token is issued |
| Auth.LoginThenAuthenticate | app.js:88-115 | when verification accepts every signed token and no token is empty, a token login issues makes the middleware proceed as the first user with that username |
| Auth.Login | app.js:108-114 | a token is issued exactly when the first user with that username exists and the password check succeeds; the token is signed over that user's id; an unknown username gives the same Denied as a wrong password |
| Handlers.Owned | app.js:171 | the listing holds exactly the records whose `createdBy` is the caller, each unchanged |
| Handlers.CreateCollection | app.js:147-166 | 403 exactly when the caller already owns at least 5; Rejected exactly when under quota with name or description missing; both leave the store unchanged; 201 adds exactly one record under the fresh id, owned by the caller, with the given name and description, no items and both timestamps "now", all else unchanged |
| Handlers.UpdateCollection | app.js:176-192 | 404 exactly when no record has that id and the caller as owner; Rejected when found but a field is missing; both leave the store unchanged; 200 changes only that record's name, description and updatedAt, keeping id, owner, items and createdAt, all other records and swipes unchanged |
| Handlers.DeleteCollection | app.js:195-206 | 404 exactly when the caller does not own that id, store unchanged; 200 removes exactly that id, keeps every other record and every swipe |
| Handlers.AddToCollection | app.js:209-228 | 404 exactly when not owned; 403 exactly when owned and already holding 20 entries; both unchanged; 200 appends the body's `swipeId` at the end of that record's items as sent, an absent one as an empty (null) entry that counts toward the 20, with no existence check; every other field, record and swipe unchanged |
| Handlers.AddSwipe | app.js:118-134 | 201 exactly when the body is complete and the store is available, appending exactly the built swipe and leaving collections unchanged; otherwise 500 and nothing changes; no identity is involved |
| Invariants.OwnedAfterInsert | app.js:152-164 | inserting a record under a new id adds it to its owner's listing (count + 1) and to no other's |
| Invariants.OwnedAfterRemove | app.js:204 | deleting an id removes it from every listing and never raises a count |
| Invariants.OwnedAfterReplace | app.js:186-189 | replacing a record by one with the same owner changes only that entry of its owner's listing and no count |
| Invariants.CreatePreserves | app.js:152-155 | create keeps ids consistent, and if every owner had at most 5 collections and every collection at most 20 items, that still holds afterwards |
| Invariants.UpdatePreserves | app.js:181-189 | update keeps ids consistent and both quota bounds |
| Invariants.DeletePreserves | app.js:199-204 | delete keeps ids consistent and both quota bounds |
| Invariants.AddToPreserves | app.js:219-224 | append keeps ids consistent and both quota bounds (the 20-item check comes before the push) |
| Invariants.AddSwipePreserves | app.js:128-130 | adding a swipe with a fresh id keeps swipe ids distinct and both quota bounds |
| Invariants.CreateListing | app.js:157-165 | after a 201 the caller's listing is the old one plus the new record; every other user's listing is unchanged |
| Invariants.UpdateListing | app.js:181-189 | after a 200 the caller's listing differs only in the updated record; every other user's listing is unchanged |
| Invariants.DeleteListing | app.js:199-204 | after a 200 the id was in the caller's listing and no longer is; every other user's listing is unchanged |
| Invariants.AddToListing | app.js:214-225 | after a 200 the caller's listing differs only in the appended record; every other user's listing is unchanged |
| Server.Store.constructor | app.js:60-62 | a new store has no collections and no swipes, holds the given users, is well formed and within quota |
| Server.Store.Login | app.js:105-115 | answers exactly as `Auth.Login` over the stored users and changes nothing |
| Server.Store.AddSwipe | app.js:118-134 | the response and new store are those of `Handlers.AddSwipe`, with no authentication step; well-formedness and quotas preserved; only the swipe table may change |
| Server.Store.CreateCollection | app.js:147-166 | on a denied token, answers the middleware's 401/403 with the table unchanged; otherwise response and new table are `Handlers.CreateCollection` for the decoded identity; invariants preserved |
| Server.Store.GetCollections | app.js:169-173 | on a denied token, 401/403 and nothing listed; otherwise 200 and exactly the decoded identity's records, each carrying its own id; changes nothing |
| Server.Store.UpdateCollection | app.js:176-192 | 401/403 with the table unchanged, or `Handlers.UpdateCollection` for the decoded identity; invariants preserved |
| Server.Store.DeleteCollection | app.js:195-206 | 401/403 with the table unchanged, or `Handlers.DeleteCollection` for the decoded identity; the swipe table is never touched |
| Server.Store.AddToCollection | app.js:209-228 | 401/403 with the table unchanged, or `Handlers.AddToCollection` for the decoded identity; invariants preserved |

## Left out

- The database connection and the document mapper's internals (app.js:9-18, 59-62) are not modelled. The store is an in-memory map and sequence, and `find`, `findOne`, `save` and `deleteOne` are their direct effects on them. A failing `find`, `findOne`, `save` or `deleteOne` in `/login` and the five collection handlers is not modelled. In the source such a failure is an uncaught rejection, and no reply is written. Only `/addSwipe` models a database failure, with `storeAvailable`.
- Express wiring, JSON body parsing and the listening port (app.js:70, 82, 231-233) are not modelled. They are HTTP plumbing.
- The rate limiter (app.js:73-79) is not modelled. It is library code, driven by time windows and shared across concurrent requests.
- JWT signing and verification, bcrypt hashing and the 30-day token expiry are not modelled. They are cryptographic library calls and appear as the parameters `verify`, `sign` and `check`. The type of `verify` assumes that every token it accepts carries a string `_id`, which the handlers read as `req.user._id` (app.js:148, 170, 177, 196, 210). A verified payload without `_id` is not modelled; every token `/login` signs carries one (app.js:110).
- The 2FA import and the unused User fields (`email`, `googleToken`, `stripeCustomerId`, `twoFA`, `maxCollections`, `maxSwipesPerCollection`) are not modelled. No handler reads them, and the quotas are the literals 5 and 20.
- The `/` and `/secure` routes are not modelled. They answer fixed text; `/secure` adds nothing beyond `Authenticate`.
- Check-then-act races between concurrent requests are not modelled. The model is sequential only.
- `Rejected` assumes the framework leaves a rejected async handler uncaught, as Express 4 does, so no reply is written. Under Express 5 the default error handler would answer 500 instead. The effect of an unhandled rejection on the server process (since Node 15 it ends the process by default, so later requests go unanswered too) is not modelled.
- Real clock values are not modelled. `createCollection` reads the clock twice (`createdAt`, `updatedAt`), and the model uses a single "now" for both readings.
- Server.Store.Login: treats `username` and `password` as strings that were sent. What the store query and bcrypt do when either field is absent is library behaviour and is not modelled.
- Schema.NewSwipe: the model follows the Mongoose 5.x rule, the generation of the connect options at app.js:13-14. An array path defaults to `[]`, and `required` on an array refuses only null or undefined, so a body whose `tags` is absent or `[]` passes. An explicit `tags: null` keeps its value (the default replaces only an absent value), fails `required`, and gets 500 (app.js:131-132); the model has a separate case for it. Mongoose 4.x would refuse absent and `[]` tags alike. Casting non-string values to strings is not modelled.
- Collection ids that are not well-formed ObjectIds are not modelled. The mapper casts the id in the `findOne` query, and a malformed one fails there with a cast error. Ids here are opaque strings.
- Handlers.AddToCollection: a malformed `swipeId` is not modelled. It never enters a query; it is first cast at `collection.items.push(swipeId)` (app.js:224), after the 404 and 403 checks. For an owned collection with fewer than 20 items, such an id makes the source throw at the push, write no reply and leave the store unchanged. The model answers 200 and appends the id.
- Server.Store.GetCollections: returns the caller's records as a map keyed by id, not as an array in the store's natural order.
- test.js is not modelled. It only opens a connection and logs.
