/** The account stream read while transactions interleave: exactly when a republisher's mirror keeps up. */
module StreamUnderCommits {
  import opened Core
  import opened Tables
  import opened TransactionProtocol
  import opened KeysetPaging
  import opened VersionChain
  import SerialTransactions
  import Safety = TransactionSafety
  import Interleavings
  import A = AccountStream

  /** The machine, the consumer, and every clock reading a transaction has begun with. */
  datatype World = World(sys: Sys, consumer: A.Consumer, times: set<Time>)

  datatype Event = Act(a: Action) | Read(limit: nat)

  const START := World(INITIAL, A.NEW_CONSUMER, {})

  /** Transactions begin at different times, in any order, and pages have room for a row. */
  predicate Timely(w: World, e: Event) {
    match e
    case Act(a) => a.Begin? ==> a.now !in w.times
    case Read(limit) => limit >= 1
  }

  /** Transactions interleave statement by statement; a read sees what is committed. */
  ghost function Next(w: World, account: Uuid, e: Event): World
    requires Timely(w, e)
  {
    match e
    case Act(a) => World(Step(w.sys, a), w.consumer, w.times + if a.Begin? then {a.now} else {})
    case Read(limit) => w.(consumer := A.ReadPage(w.sys.db, account, w.consumer, limit))
  }

  ghost predicate AllTimely(w: World, account: Uuid, events: seq<Event>)
    decreases |events|
  {
    events == [] || (Timely(w, events[0]) && AllTimely(Next(w, account, events[0]), account, events[1..]))
  }

  // ----- What a commit does to the stream --------------------------------------------------------

  /** The commit leaves the article's event and item as they are, or moves the event to its own time. */
  ghost predicate CommitMovesEvent(db: Db, tx: Tx, id: Uuid)
    requires id in Apply(db, tx).articles
  {
    var db' := Apply(db, tx);
    && A.EventAt(db', id).Some?
    && (id in db.articles ==>
          && A.EventAt(db, id).Some? && db'.articles[id].accountId == db.articles[id].accountId)
    && (A.EventAt(db', id) == Some(tx.now)
        || (id in db.articles && A.EventAt(db', id) == A.EventAt(db, id) && A.Item(db', id) == A.Item(db, id)))
  }

  lemma EditMoves(db: Db, top: nat, tx: Tx)
    requires Safety.FamilyOk(db, top, tx.op.id) && Safety.TxOk(db, top, tx) && Ready(tx) && tx.op.EditArticle?
    ensures tx.op.id in db.articles && tx.op.id in Apply(db, tx).articles && CommitMovesEvent(db, tx, tx.op.id)
  {
  }

  lemma RedactMoves(db: Db, top: nat, tx: Tx)
    requires Safety.FamilyOk(db, top, tx.op.id) && Safety.TxOk(db, top, tx) && Ready(tx) && tx.op.RedactVersion?
    ensures tx.op.id in db.articles && tx.op.id in Apply(db, tx).articles && CommitMovesEvent(db, tx, tx.op.id)
  {
  }

  lemma OtherKindMoves(db: Db, top: nat, tx: Tx)
    requires Safety.FamilyOk(db, top, tx.op.id) && Safety.TxOk(db, top, tx) && Ready(tx)
    requires !tx.op.EditArticle? && !tx.op.RedactVersion?
    ensures tx.op.id in db.articles ==> tx.op.id in Apply(db, tx).articles
    ensures tx.op.id in Apply(db, tx).articles ==> CommitMovesEvent(db, tx, tx.op.id)
  {
  }

  lemma OtherArticleStays(db: Db, top: nat, tx: Tx, id: Uuid)
    requires id != tx.op.id && Safety.FamilyOk(db, top, id)
    ensures id in db.articles <==> id in Apply(db, tx).articles
    ensures id in db.articles ==>
              && A.EventAt(db, id).Some? && Apply(db, tx).articles[id] == db.articles[id]
              && A.EventAt(Apply(db, tx), id) == A.EventAt(db, id) && A.Item(Apply(db, tx), id) == A.Item(db, id)
  {
  }

  lemma OwnArticleMoves(db: Db, top: nat, tx: Tx)
    requires Safety.FamilyOk(db, top, tx.op.id) && Safety.TxOk(db, top, tx) && Ready(tx)
    ensures tx.op.id in db.articles ==> tx.op.id in Apply(db, tx).articles
    ensures tx.op.id in Apply(db, tx).articles ==> CommitMovesEvent(db, tx, tx.op.id)
  {
    hide Safety.TxOk, Safety.FamilyOk, CommitMovesEvent;
    if tx.op.EditArticle? {
      EditMoves(db, top, tx);
    } else if tx.op.RedactVersion? {
      RedactMoves(db, top, tx);
    } else {
      OtherKindMoves(db, top, tx);
    }
  }

  /** The time an item itself shows. */
  function ItemTime(item: SerialTransactions.ArticleSummary): Option<Time> {
    item.updatedAt.Or(item.tombstonedAt)
  }

  lemma ItemShowsEvent(db: Db, top: nat, id: Uuid)
    requires Safety.FamilyOk(db, top, id) && id in db.articles
    ensures ItemTime(A.Item(db, id)) == A.EventAt(db, id) && A.EventAt(db, id).Some?
  {
  }

  // ----- The condition ---------------------------------------------------------------------------

  /** The commit of `t` is not missed by the consumer: it does not move an event of the account, or the event
      comes after the cursor. Both are known before the commit. */
  ghost predicate Ahead(w: World, account: Uuid, t: TxId)
    requires t in w.sys.open
  {
    var tx := w.sys.open[t];
    var id, db' := tx.op.id, Apply(w.sys.db, tx);
    id in db'.articles && db'.articles[id].accountId == account && A.EventAt(db', id) != A.EventAt(w.sys.db, id) ==>
      w.consumer.cursor.None? || Before(Ascending, w.consumer.cursor.value, Key(tx.now, id))
  }

  ghost predicate Commits(w: World, e: Event) {
    e.Act? && e.a.Commit? && e.a.t in w.sys.open && Ready(w.sys.open[e.a.t])
  }

  ghost predicate AllAhead(w: World, account: Uuid, events: seq<Event>)
    requires AllTimely(w, account, events)
    decreases |events|
  {
    events == [] ||
    ((Commits(w, events[0]) ==> Ahead(w, account, events[0].a.t))
     && AllAhead(Next(w, account, events[0]), account, events[1..]))
  }

  /** A consumer that drains the stream now holds the current item of every article of the account. */
  ghost predicate Converges(w: World, account: Uuid, limit: nat)
    requires limit >= 1
  {
    A.Drain(w.sys.db, account, w.consumer, limit).mirror == A.CurrentItems(w.sys.db, account)
  }

  ghost predicate AlwaysConverges(w: World, account: Uuid, events: seq<Event>, limit: nat)
    requires limit >= 1 && AllTimely(w, account, events)
    decreases |events|
  {
    Converges(w, account, limit)
    && (events == [] || AlwaysConverges(Next(w, account, events[0]), account, events[1..], limit))
  }

  // ----- The invariant ---------------------------------------------------------------------------

  /** A time that no open transaction will commit with. */
  ghost predicate Spent(w: World, time: Option<Time>) {
    time.Some? ==> time.value in w.times && forall t :: t in w.sys.open ==> w.sys.open[t].now != time.value
  }

  ghost predicate TimesOk(w: World) {
    && (forall t :: t in w.sys.open ==> w.sys.open[t].now in w.times)
    && (forall t, u :: t in w.sys.open && u in w.sys.open && t != u ==> w.sys.open[t].now != w.sys.open[u].now)
    && (forall id :: id in w.sys.db.articles ==> Spent(w, A.EventAt(w.sys.db, id)))
    && (forall id :: id in w.consumer.mirror ==> Spent(w, ItemTime(w.consumer.mirror[id])))
  }

  /** The machine's invariant and the bookkeeping of times; the mirror holds only articles of the account. */
  ghost predicate Sound(w: World, account: Uuid) {
    && Safety.Inv(w.sys) && TimesOk(w)
    && forall id :: id in w.consumer.mirror ==> id in A.StreamIds(w.sys.db, account)
  }

  lemma InvMeansArticlesOk(s: Sys)
    requires Safety.Inv(s)
    ensures A.ArticlesOk(s.db)
  {
    forall id: Uuid ensures ChainOk(s.db, id) {
      assert Safety.FamilyOk(s.db, Safety.Top(s.log, id), id);
    }
  }

  lemma OpenTx(s: Sys, t: TxId)
    requires Safety.Inv(s) && t in s.open
    ensures var tx := s.open[t]; var top := Safety.Top(s.log, tx.op.id);
            Safety.FamilyOk(s.db, top, tx.op.id) && Safety.TxOk(s.db, top, tx)
  {
  }

  /** Per article: where a commit leaves it. */
  lemma CommitOnArticle(w: World, t: TxId, id: Uuid)
    requires Safety.Inv(w.sys) && t in w.sys.open && Ready(w.sys.open[t])
    ensures var db, db', now := w.sys.db, Apply(w.sys.db, w.sys.open[t]), w.sys.open[t].now;
            && (id in db.articles ==> id in db'.articles && db'.articles[id].accountId == db.articles[id].accountId)
            && (id in db'.articles ==>
                  A.EventAt(db', id).Some?
                  && ((id == w.sys.open[t].op.id && A.EventAt(db', id) == Some(now))
                      || (id in db.articles && A.EventAt(db', id) == A.EventAt(db, id)
                          && A.Item(db', id) == A.Item(db, id))))
  {
    hide Safety.Inv, Safety.TxOk, Safety.FamilyOk, Apply, A.EventAt, A.Item;
    var tx := w.sys.open[t];
    if id == tx.op.id {
      OpenTx(w.sys, t);
      OwnArticleMoves(w.sys.db, Safety.Top(w.sys.log, id), tx);
    } else {
      InvHasFamily(w.sys, id);
      OtherArticleStays(w.sys.db, Safety.Top(w.sys.log, id), tx, id);
    }
  }

  lemma InvHasFamily(s: Sys, id: Uuid)
    requires Safety.Inv(s)
    ensures Safety.FamilyOk(s.db, Safety.Top(s.log, id), id)
  {
  }

  function Committed(w: World, t: TxId): World
    requires t in w.sys.open
  {
    w.(sys := CommitTx(w.sys, t))
  }

  lemma CommitKeepsTimes(w: World, t: TxId)
    requires Safety.Inv(w.sys) && TimesOk(w) && t in w.sys.open && Ready(w.sys.open[t])
    ensures TimesOk(Committed(w, t))
  {
    hide Safety.Inv, Apply, A.EventAt, A.Item, ItemTime;
    var w' := Committed(w, t);
    forall id | id in w'.sys.db.articles ensures Spent(w', A.EventAt(w'.sys.db, id)) {
      CommitOnArticle(w, t, id);
      if id in w.sys.db.articles {
        assert Spent(w, A.EventAt(w.sys.db, id));
      }
    }
    forall id | id in w'.consumer.mirror ensures Spent(w', ItemTime(w'.consumer.mirror[id])) {
      assert Spent(w, ItemTime(w.consumer.mirror[id]));
    }
  }

  lemma CommitKeepsSound(w: World, account: Uuid, t: TxId)
    requires Sound(w, account) && t in w.sys.open && Ready(w.sys.open[t])
    ensures Sound(Committed(w, t), account)
  {
    hide Safety.Inv, Apply, A.EventAt, A.Item, TimesOk;
    Safety.CommitKeepsInv(w.sys, t);
    CommitKeepsTimes(w, t);
    forall id | id in w.consumer.mirror ensures id in A.StreamIds(Apply(w.sys.db, w.sys.open[t]), account) {
      CommitOnArticle(w, t, id);
    }
  }

  /** One commit, from a mirror that keeps up: it still does if and only if the commit is not missed. */
  lemma CommitInSyncIff(w: World, account: Uuid, t: TxId)
    requires Sound(w, account) && t in w.sys.open && Ready(w.sys.open[t])
    requires A.InSync(w.sys.db, w.consumer, account)
    ensures A.InSync(Apply(w.sys.db, w.sys.open[t]), w.consumer, account) <==> Ahead(w, account, t)
  {
    hide Safety.Inv, Apply, A.EventAt, A.Item, Before, ItemTime;
    var tx, db, c := w.sys.open[t], w.sys.db, w.consumer;
    var id, db' := tx.op.id, Apply(db, tx);
    if Ahead(w, account, t) {
      forall k | k in A.StreamIds(db', account) && c.cursor.Some? && !Before(Ascending, c.cursor.value, A.StreamKey(db', k))
        ensures k in c.mirror && c.mirror[k] == A.Item(db', k)
      {
        CommitOnArticle(w, t, k);
        EventIsNotNow(w, t);
      }
      forall k | k in c.mirror ensures k in A.StreamIds(db', account) {
        CommitOnArticle(w, t, k);
      }
    } else {
      CommitOnArticle(w, t, id);
      MissedItemIsNotMirrored(w, account, t);
    }
  }

  /** The committing transaction's time is nobody's event yet. */
  lemma NowIsFresh(w: World, t: TxId)
    requires TimesOk(w) && t in w.sys.open
    ensures forall id :: id in w.sys.db.articles ==> A.EventAt(w.sys.db, id) != Some(w.sys.open[t].now)
    ensures forall id :: id in w.consumer.mirror ==> ItemTime(w.consumer.mirror[id]) != Some(w.sys.open[t].now)
  {
    hide A.EventAt, ItemTime;
    forall id | id in w.sys.db.articles ensures A.EventAt(w.sys.db, id) != Some(w.sys.open[t].now) {
      assert Spent(w, A.EventAt(w.sys.db, id));
    }
    forall id | id in w.consumer.mirror ensures ItemTime(w.consumer.mirror[id]) != Some(w.sys.open[t].now) {
      assert Spent(w, ItemTime(w.consumer.mirror[id]));
    }
  }

  lemma EventIsNotNow(w: World, t: TxId)
    requires Safety.Inv(w.sys) && TimesOk(w) && t in w.sys.open
    ensures A.EventAt(w.sys.db, w.sys.open[t].op.id) != Some(w.sys.open[t].now)
  {
    NowIsFresh(w, t);
    if w.sys.open[t].op.id !in w.sys.db.articles {
      NoArticleNoEvent(w.sys, w.sys.open[t].op.id);
    }
    hide Safety.Inv, TimesOk, A.EventAt;
  }

  lemma NoArticleNoEvent(s: Sys, id: Uuid)
    requires Safety.Inv(s) && id !in s.db.articles
    ensures A.EventAt(s.db, id).None?
  {
    InvHasFamily(s, id);
  }

  lemma MissedItemIsNotMirrored(w: World, account: Uuid, t: TxId)
    requires Sound(w, account) && t in w.sys.open && Ready(w.sys.open[t]) && !Ahead(w, account, t)
    ensures var tx := w.sys.open[t]; var id, db', c := tx.op.id, Apply(w.sys.db, tx), w.consumer;
            && id in A.StreamIds(db', account)
            && c.cursor.Some? && !Before(Ascending, c.cursor.value, A.StreamKey(db', id))
            && !(id in c.mirror && c.mirror[id] == A.Item(db', id))
  {
    hide Safety.Inv, Apply, A.EventAt, A.Item, Before, ItemTime, TimesOk;
    var id := w.sys.open[t].op.id;
    CommitOnArticle(w, t, id);
    NowIsFresh(w, t);
    Safety.CommitKeepsInv(w.sys, t);
    InvHasFamily(CommitTx(w.sys, t), id);
    ItemShowsEvent(Apply(w.sys.db, w.sys.open[t]), Safety.Top(CommitTx(w.sys, t).log, id), id);
  }

  // ----- Steps -----------------------------------------------------------------------------------

  lemma ReadKeepsSound(w: World, account: Uuid, limit: nat)
    requires Sound(w, account) && limit >= 1
    ensures Sound(Next(w, account, Read(limit)), account)
  {
    hide Safety.Inv, A.EventAt, A.Item, ItemTime, A.StreamPage;
    var db, page := w.sys.db, A.StreamPage(w.sys.db, account, w.consumer.cursor, limit);
    var w' := Next(w, account, Read(limit));
    A.PageItemsAreKeys(db, account, w.consumer.cursor, limit);
    forall id | id in w'.consumer.mirror
      ensures Spent(w', ItemTime(w'.consumer.mirror[id])) && id in A.StreamIds(db, account)
    {
      if exists k :: k in page.items && k.id == id {
        InvHasFamily(w.sys, id);
        ItemShowsEvent(db, Safety.Top(w.sys.log, id), id);
        assert Spent(w, A.EventAt(db, id));
      } else {
        assert Spent(w, ItemTime(w.consumer.mirror[id]));
      }
    }
  }

  /** A step that does not commit leaves the tables, and a beginning transaction brings a time of its own. */
  lemma QuietStepKeepsSound(w: World, account: Uuid, a: Action)
    requires Sound(w, account) && Timely(w, Act(a)) && !Commits(w, Act(a))
    ensures Sound(Next(w, account, Act(a)), account)
    ensures Next(w, account, Act(a)).sys.db == w.sys.db
  {
    hide Safety.Inv, A.EventAt, A.Item, ItemTime, Exec, MustWait, Ready, A.StreamIds;
    var w' := Next(w, account, Act(a));
    Safety.StepKeepsInv(w.sys, a);
    forall t | t in w'.sys.open
      ensures if a.Begin? && t !in w.sys.open then w'.sys.open[t].now == a.now
              else t in w.sys.open && w'.sys.open[t].now == w.sys.open[t].now
    {
      if a.Statement? && a.t in w.sys.open && !Ready(w.sys.open[a.t]) {
        Interleavings.ExecKeepsOp(w.sys.db, w.sys.open[a.t]);
      }
    }
    forall id | id in w'.sys.db.articles ensures Spent(w', A.EventAt(w'.sys.db, id)) {
      assert Spent(w, A.EventAt(w.sys.db, id));
    }
    forall id | id in w'.consumer.mirror ensures Spent(w', ItemTime(w'.consumer.mirror[id])) {
      assert Spent(w, ItemTime(w.consumer.mirror[id]));
    }
  }

  lemma NextKeepsSound(w: World, account: Uuid, e: Event)
    requires Sound(w, account) && Timely(w, e)
    ensures Sound(Next(w, account, e), account)
  {
    hide Sound;
    match e {
      case Act(a) =>
        if Commits(w, e) {
          CommitKeepsSound(w, account, a.t);
          assert Next(w, account, e) == Committed(w, a.t);
        } else {
          QuietStepKeepsSound(w, account, a);
        }
      case Read(limit) => ReadKeepsSound(w, account, limit);
    }
  }

  lemma NextInSyncIff(w: World, account: Uuid, e: Event)
    requires Sound(w, account) && Timely(w, e) && A.InSync(w.sys.db, w.consumer, account)
    ensures var w' := Next(w, account, e);
            A.InSync(w'.sys.db, w'.consumer, account) <==> (Commits(w, e) ==> Ahead(w, account, e.a.t))
  {
    hide Sound, A.InSync, Ahead;
    match e {
      case Act(a) =>
        if Commits(w, e) {
          CommitInSyncIff(w, account, a.t);
          assert Next(w, account, e) == Committed(w, a.t);
        } else {
          QuietStepKeepsSound(w, account, a);
        }
      case Read(limit) => A.ReadKeepsInSync(w.sys.db, w.consumer, account, limit);
    }
  }

  lemma ConvergesIffInSync(w: World, account: Uuid, limit: nat)
    requires Sound(w, account) && limit >= 1
    ensures Converges(w, account, limit) <==> A.InSync(w.sys.db, w.consumer, account)
  {
    hide Safety.Inv, TimesOk, A.InSync, A.StreamIds;
    InvMeansArticlesOk(w.sys);
    A.DrainConvergesIff(w.sys.db, w.consumer, account, limit);
  }

  lemma {:induction false} RunConvergesIff(w: World, account: Uuid, events: seq<Event>, limit: nat)
    requires Sound(w, account) && A.InSync(w.sys.db, w.consumer, account)
    requires limit >= 1 && AllTimely(w, account, events)
    ensures AlwaysConverges(w, account, events, limit) <==> AllAhead(w, account, events)
    decreases |events|
  {
    hide Sound, A.InSync, Converges, Commits, Ahead, Next, Timely;
    ConvergesIffInSync(w, account, limit);
    if events != [] {
      var w' := Next(w, account, events[0]);
      NextKeepsSound(w, account, events[0]);
      NextInSyncIff(w, account, events[0]);
      ConvergesIffInSync(w', account, limit);
      if A.InSync(w'.sys.db, w'.consumer, account) {
        RunConvergesIff(w', account, events[1..], limit);
      } else {
        NotConvergedNow(w', account, events[1..], limit);
      }
    }
  }

  lemma NotConvergedNow(w: World, account: Uuid, events: seq<Event>, limit: nat)
    requires limit >= 1 && AllTimely(w, account, events) && !Converges(w, account, limit)
    ensures !AlwaysConverges(w, account, events, limit)
  {
  }

  lemma StartIsSound(account: Uuid)
    ensures Sound(START, account) && A.InSync(START.sys.db, START.consumer, account)
  {
    forall id: Uuid ensures Safety.FamilyOk(EMPTY_DB, Safety.Top([], id), id) {
    }
  }

  /**
   Convergence of the stream under concurrent commits. From the empty tables and a new consumer, let any
   number of transactions that begin at different times interleave statement by statement with page reads.
   The consumer, drained at whatever moment, holds the current items at every moment of the run if and only
   if no commit moved an event of the account to or behind the cursor the consumer had then.
   */
  lemma StreamConvergesIff(account: Uuid, events: seq<Event>, limit: nat)
    requires limit >= 1 && AllTimely(START, account, events)
    ensures AlwaysConverges(START, account, events, limit) <==> AllAhead(START, account, events)
  {
    StartIsSound(account);
    RunConvergesIff(START, account, events, limit);
  }
}
