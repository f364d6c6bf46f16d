/**
 What every handler keeps true of the store under sequential execution: the
 document ids agree with the table keys, swipe ids are distinct, no user owns
 more than MAX_COLLECTIONS collections and no collection holds more than
 MAX_ITEMS entries. And what each handler does to the listings that
 `/getCollections` returns: the caller's changes as stated, everyone else's
 not at all.
 */
module Invariants {
  import opened Schema
  import opened Handlers

  predicate WellFormed(db: Db)
  {
    && (forall id :: id in db.collections ==> db.collections[id].id == id)
    && (forall i, j :: 0 <= i < j < |db.swipes| ==> db.swipes[i].id != db.swipes[j].id)
  }

  /** The two free-tier quotas (app.js:153, app.js:220). */
  ghost predicate WithinQuota(db: Db)
  {
    && (forall user :: OwnedCount(db.collections, user) <= MAX_COLLECTIONS)
    && (forall id :: id in db.collections ==> |db.collections[id].items| <= MAX_ITEMS)
  }

  /** No stored swipe already has this id. */
  predicate SwipeIdFresh(db: Db, id: SwipeId)
  {
    forall i :: 0 <= i < |db.swipes| ==> db.swipes[i].id != id
  }

  // ---- the owner filter under the three kinds of table change ----

  lemma OwnedAfterInsert(table: map<CollectionId, Collection>, k: CollectionId, c: Collection, user: UserId)
    requires k !in table
    ensures Owned(table[k := c], user) ==
      if c.createdBy == user then Owned(table, user)[k := c] else Owned(table, user)
    ensures OwnedCount(table[k := c], user) ==
      OwnedCount(table, user) + if c.createdBy == user then 1 else 0
  {
    if c.createdBy == user {
      InsertOwn(table, k, c, user);
    } else {
      assert Owned(table[k := c], user) == Owned(table, user);
    }
  }

  lemma InsertOwn(table: map<CollectionId, Collection>, k: CollectionId, c: Collection, user: UserId)
    requires k !in table && c.createdBy == user
    ensures Owned(table[k := c], user) == Owned(table, user)[k := c]
    ensures |Owned(table[k := c], user).Keys| == |Owned(table, user).Keys| + 1
  {
    var before, after := Owned(table, user), Owned(table[k := c], user);
    assert after == before[k := c];
    assert k !in before.Keys;
  }

  lemma OwnedAfterRemove(table: map<CollectionId, Collection>, k: CollectionId, user: UserId)
    ensures Owned(table - {k}, user) == Owned(table, user) - {k}
    ensures OwnedCount(table - {k}, user) <= OwnedCount(table, user)
  {
    var before, after := Owned(table, user), Owned(table - {k}, user);
    assert after == before - {k};
    assert after.Keys <= before.Keys;
    SubsetCard(after.Keys, before.Keys);
  }

  lemma OwnedAfterReplace(table: map<CollectionId, Collection>, k: CollectionId, c: Collection, user: UserId)
    requires k in table && c.createdBy == table[k].createdBy
    ensures Owned(table[k := c], user) ==
      if c.createdBy == user then Owned(table, user)[k := c] else Owned(table, user)
    ensures OwnedCount(table[k := c], user) == OwnedCount(table, user)
  {
    var before, after := Owned(table, user), Owned(table[k := c], user);
    if c.createdBy == user {
      assert after == before[k := c];
      assert after.Keys == before.Keys;
    } else {
      assert after == before;
    }
  }

  lemma {:induction false} SubsetCard(a: set<CollectionId>, b: set<CollectionId>)
    requires a <= b
    ensures |a| <= |b|
  {
    if a != {} {
      var x :| x in a;
      SubsetCard(a - {x}, b - {x});
    }
  }

  // ---- each handler preserves both invariants ----

  lemma CreatePreserves(db: Db, caller: UserId, name: Option<string>, description: Option<string>,
                        freshId: CollectionId, now: Timestamp)
    requires freshId !in db.collections
    requires WellFormed(db)
    ensures var r := CreateCollection(db, caller, name, description, freshId, now);
      WellFormed(r.db) && (WithinQuota(db) ==> WithinQuota(r.db))
  {
    var r := CreateCollection(db, caller, name, description, freshId, now);
    if r.reply == Reply(201) {
      var c := r.db.collections[freshId];
      assert r.db.collections == db.collections[freshId := c];
      if WithinQuota(db) {
        forall user ensures OwnedCount(r.db.collections, user) <= MAX_COLLECTIONS {
          OwnedAfterInsert(db.collections, freshId, c, user);
        }
      }
    }
  }

  lemma UpdatePreserves(db: Db, caller: UserId, id: CollectionId, name: Option<string>,
                        description: Option<string>, now: Timestamp)
    requires WellFormed(db)
    ensures var r := UpdateCollection(db, caller, id, name, description, now);
      WellFormed(r.db) && (WithinQuota(db) ==> WithinQuota(r.db))
  {
    var r := UpdateCollection(db, caller, id, name, description, now);
    if r.reply == Reply(200) {
      var c := r.db.collections[id];
      assert r.db.collections == db.collections[id := c];
      if WithinQuota(db) {
        forall user ensures OwnedCount(r.db.collections, user) <= MAX_COLLECTIONS {
          OwnedAfterReplace(db.collections, id, c, user);
        }
      }
    }
  }

  lemma DeletePreserves(db: Db, caller: UserId, id: CollectionId)
    requires WellFormed(db)
    ensures var r := DeleteCollection(db, caller, id);
      WellFormed(r.db) && (WithinQuota(db) ==> WithinQuota(r.db))
  {
    var r := DeleteCollection(db, caller, id);
    if r.reply == Reply(200) {
      assert r.db.collections == db.collections - {id};
      if WithinQuota(db) {
        forall user ensures OwnedCount(r.db.collections, user) <= MAX_COLLECTIONS {
          OwnedAfterRemove(db.collections, id, user);
        }
      }
    }
  }

  lemma AddToPreserves(db: Db, caller: UserId, id: CollectionId, swipeId: Option<SwipeId>)
    requires WellFormed(db)
    ensures var r := AddToCollection(db, caller, id, swipeId);
      WellFormed(r.db) && (WithinQuota(db) ==> WithinQuota(r.db))
  {
    var r := AddToCollection(db, caller, id, swipeId);
    if r.reply == Reply(200) {
      var c := r.db.collections[id];
      assert r.db.collections == db.collections[id := c];
      if WithinQuota(db) {
        forall user ensures OwnedCount(r.db.collections, user) <= MAX_COLLECTIONS {
          OwnedAfterReplace(db.collections, id, c, user);
        }
      }
    }
  }

  lemma AddSwipePreserves(db: Db, body: SwipeBody, freshId: SwipeId, now: Timestamp, storeAvailable: bool)
    requires SwipeIdFresh(db, freshId)
    requires WellFormed(db)
    ensures var r := AddSwipe(db, body, freshId, now, storeAvailable);
      WellFormed(r.db) && (WithinQuota(db) ==> WithinQuota(r.db))
  {
    var r := AddSwipe(db, body, freshId, now, storeAvailable);
    if r.reply == Reply(201) {
      var n := |db.swipes|;
      forall i, j | 0 <= i < j < |r.db.swipes| ensures r.db.swipes[i].id != r.db.swipes[j].id {
        if j < n {
          assert r.db.swipes[i] == db.swipes[i] && r.db.swipes[j] == db.swipes[j];
        } else {
          assert r.db.swipes[i] == db.swipes[i] && r.db.swipes[j].id == freshId;
        }
      }
    }
  }

  // ---- what each handler does to the listings ----

  lemma CreateListing(db: Db, caller: UserId, name: Option<string>, description: Option<string>,
                      freshId: CollectionId, now: Timestamp, other: UserId)
    requires freshId !in db.collections
    requires other != caller
    ensures var r := CreateCollection(db, caller, name, description, freshId, now);
      && (r.reply == Reply(201) ==>
           Owned(r.db.collections, caller) == Owned(db.collections, caller)[freshId := r.db.collections[freshId]])
      && Owned(r.db.collections, other) == Owned(db.collections, other)
  {
    var r := CreateCollection(db, caller, name, description, freshId, now);
    if r.reply == Reply(201) {
      var c := r.db.collections[freshId];
      assert r.db.collections == db.collections[freshId := c];
      OwnedAfterInsert(db.collections, freshId, c, caller);
      OwnedAfterInsert(db.collections, freshId, c, other);
    }
  }

  lemma UpdateListing(db: Db, caller: UserId, id: CollectionId, name: Option<string>,
                      description: Option<string>, now: Timestamp, other: UserId)
    requires other != caller
    ensures var r := UpdateCollection(db, caller, id, name, description, now);
      && (r.reply == Reply(200) ==>
           Owned(r.db.collections, caller) == Owned(db.collections, caller)[id := r.db.collections[id]])
      && Owned(r.db.collections, other) == Owned(db.collections, other)
  {
    var r := UpdateCollection(db, caller, id, name, description, now);
    if r.reply == Reply(200) {
      var c := r.db.collections[id];
      assert r.db.collections == db.collections[id := c];
      OwnedAfterReplace(db.collections, id, c, caller);
      OwnedAfterReplace(db.collections, id, c, other);
    }
  }

  lemma DeleteListing(db: Db, caller: UserId, id: CollectionId, other: UserId)
    requires other != caller
    ensures var r := DeleteCollection(db, caller, id);
      && (r.reply == Reply(200) ==> Owned(r.db.collections, caller) == Owned(db.collections, caller) - {id})
      && (r.reply == Reply(200) ==> id in Owned(db.collections, caller) && id !in Owned(r.db.collections, caller))
      && Owned(r.db.collections, other) == Owned(db.collections, other)
  {
    var r := DeleteCollection(db, caller, id);
    if r.reply == Reply(200) {
      assert r.db.collections == db.collections - {id};
      OwnedAfterRemove(db.collections, id, caller);
      OwnedAfterRemove(db.collections, id, other);
      assert id !in Owned(db.collections, other);
    }
  }

  lemma AddToListing(db: Db, caller: UserId, id: CollectionId, swipeId: Option<SwipeId>, other: UserId)
    requires other != caller
    ensures var r := AddToCollection(db, caller, id, swipeId);
      && (r.reply == Reply(200) ==>
           Owned(r.db.collections, caller) == Owned(db.collections, caller)[id := r.db.collections[id]])
      && Owned(r.db.collections, other) == Owned(db.collections, other)
  {
    var r := AddToCollection(db, caller, id, swipeId);
    if r.reply == Reply(200) {
      var c := r.db.collections[id];
      assert r.db.collections == db.collections[id := c];
      OwnedAfterReplace(db.collections, id, c, caller);
      OwnedAfterReplace(db.collections, id, c, other);
    }
  }
}
