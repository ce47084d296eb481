/** What a client has seen that followed the tokens of a list to the end: every row of its account, or every
    matching event, once and in order, and nothing else. */
module Listings {
  import opened Core
  import opened Tables
  import opened KeysetPaging
  import opened Repositories
  import Safety = TransactionSafety
  import VersionChain
  import AccountStream
  import Events

  /** The rows of all pages from the first one to the one with the empty token. */
  function Walked(dir: Direction, keys: set<Key>, limit: nat): seq<Key>
    requires limit >= 1
  {
    Concat(Walk(dir, keys, None, limit))
  }

  lemma WalkedIsSorted(dir: Direction, keys: set<Key>, limit: nat)
    requires limit >= 1
    ensures forall k :: k in Walked(dir, keys, limit) <==> k in keys
    ensures InOrder(dir, Walked(dir, keys, limit))
  {
    hide Sorted, InOrder;
    WalkVisitsEveryRowOnce(dir, keys, None, limit);
    SortedIsInOrder(dir, keys);
  }

  /** Exactly the drafts of the account, each once, the latest change first. */
  lemma DraftsAreListedOnce(db: Db, account: Uuid, limit: nat)
    requires limit >= 1
    ensures var rows := Walked(Descending, DraftKeys(db, account), limit);
            && (forall id :: id in db.drafts && db.drafts[id].accountId == account <==> exists k :: k in rows && k.id == id)
            && (forall k :: k in rows ==> k.id in db.drafts && k.at == db.drafts[k.id].updatedAt)
            && (forall i, j :: 0 <= i < j < |rows| ==>
                  && rows[i].id != rows[j].id
                  && (rows[i].at > rows[j].at || (rows[i].at == rows[j].at && rows[i].id > rows[j].id)))
  {
    hide Walked;
    var keys := DraftKeys(db, account);
    var rows := Walked(Descending, keys, limit);
    WalkedIsSorted(Descending, keys, limit);
    forall id | id in db.drafts && db.drafts[id].accountId == account ensures exists k :: k in rows && k.id == id {
      assert Key(db.drafts[id].updatedAt, id) in keys;
    }
    assert forall i :: 0 <= i < |rows| ==> rows[i] in keys;
  }

  /** Exactly the articles of the account, tombstoned ones when they are asked for, each once, the newest first. */
  lemma ArticlesAreListedOnce(db: Db, account: Uuid, includeTombstoned: bool, limit: nat)
    requires limit >= 1
    ensures var rows := Walked(Descending, ListKeys(db, account, includeTombstoned), limit);
            && (forall id :: id in db.articles && db.articles[id].accountId == account
                             && (includeTombstoned || db.articles[id].state.Live?)
                  <==> exists k :: k in rows && k.id == id)
            && (forall k :: k in rows ==> k.id in db.articles && k.at == db.articles[k.id].createdAt)
            && (forall i, j :: 0 <= i < j < |rows| ==>
                  && rows[i].id != rows[j].id
                  && (rows[i].at > rows[j].at || (rows[i].at == rows[j].at && rows[i].id > rows[j].id)))
  {
    hide Walked;
    var keys := ListKeys(db, account, includeTombstoned);
    var rows := Walked(Descending, keys, limit);
    WalkedIsSorted(Descending, keys, limit);
    forall id | id in db.articles && db.articles[id].accountId == account
                && (includeTombstoned || db.articles[id].state.Live?)
      ensures exists k :: k in rows && k.id == id
    {
      assert Key(db.articles[id].createdAt, id) in keys;
    }
    assert forall i :: 0 <= i < |rows| ==> rows[i] in keys;
  }

  /** Left alone, exactly the articles of the account, each once, in the order of their last change: the update
      of a live one, the end of a tombstoned one. */
  lemma StreamIsListedOnce(db: Db, account: Uuid, limit: nat)
    requires limit >= 1 && AccountStream.ArticlesOk(db)
    ensures var rows := Walked(Ascending, AccountStream.StreamKeys(db, account), limit);
            && (forall id :: id in db.articles && db.articles[id].accountId == account
                  <==> exists k :: k in rows && k.id == id)
            && (forall k :: k in rows ==>
                  && k.id in db.articles
                  && if db.articles[k.id].state.Live? then k.id in db.live && k.at == db.live[k.id].updatedAt
                     else k.id in db.tombstones && k.at == db.tombstones[k.id].tombstonedAt)
            && (forall i, j :: 0 <= i < j < |rows| ==>
                  && rows[i].id != rows[j].id
                  && (rows[i].at < rows[j].at || (rows[i].at == rows[j].at && rows[i].id < rows[j].id)))
  {
    hide Walked, AccountStream.ArticlesOk;
    var keys := AccountStream.StreamKeys(db, account);
    var rows := Walked(Ascending, keys, limit);
    WalkedIsSorted(Ascending, keys, limit);
    forall id | id in db.articles && db.articles[id].accountId == account
      ensures exists k :: k in rows && k.id == id
    {
      AccountStream.ArticleHasEvent(db, id);
      assert AccountStream.StreamKey(db, id) in keys;
    }
    forall k | k in rows
      ensures k.id in db.articles && (k.id in db.live <==> db.articles[k.id].state.Live?)
              && (k.id in db.tombstones <==> db.articles[k.id].state.Tombstone?)
    {
      assert k in keys;
      RowsAgree(db, k.id);
    }
    assert forall i :: 0 <= i < |rows| ==> rows[i] in keys;
  }

  lemma RowsAgree(db: Db, id: Uuid)
    requires AccountStream.ArticlesOk(db) && id in db.articles
    ensures id in db.live <==> db.articles[id].state.Live?
    ensures id in db.tombstones <==> db.articles[id].state.Tombstone?
  {
    assert VersionChain.ChainOk(db, id);
    var top: nat :| Safety.ArticleOk(db, top, id);
  }

  /** Exactly the events that match, each once, in the order in which they were received. */
  lemma EventsAreListedOnce(events: map<Uuid, Events.Event>, f: Events.Filter, limit: nat)
    requires limit >= 1 && forall id :: id in events ==> events[id].id == id
    ensures var rows := Walked(Ascending, Events.FilteredKeys(events, f), limit);
            && (forall id :: id in events && Events.Matches(f, events[id]) <==> exists k :: k in rows && k.id == id)
            && (forall k :: k in rows ==> k.id in events && k.at == events[k.id].receivedAt)
            && (forall i, j :: 0 <= i < j < |rows| ==>
                  && rows[i].id != rows[j].id
                  && (rows[i].at < rows[j].at || (rows[i].at == rows[j].at && rows[i].id < rows[j].id)))
  {
    hide Walked, Events.Matches;
    var keys := Events.FilteredKeys(events, f);
    var rows := Walked(Ascending, keys, limit);
    WalkedIsSorted(Ascending, keys, limit);
    forall id | id in events && Events.Matches(f, events[id]) ensures exists k :: k in rows && k.id == id {
      assert Key(events[id].receivedAt, id) in keys;
    }
    assert forall i :: 0 <= i < |rows| ==> rows[i] in keys;
  }
}
