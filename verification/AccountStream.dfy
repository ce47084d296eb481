/** The per-account article stream and why a republisher's mirror converges on it. */
module AccountStream {
  import opened Core
  import opened Tables
  import opened TransactionProtocol
  import opened SerialTransactions
  import opened KeysetPaging
  import opened VersionChain
  import Safety = TransactionSafety

  // ----- The query -----------------------------------------------------------------------------

  /** One row of the four-way LEFT JOIN: columns of a missing side are NULL. */
  datatype StreamRow = StreamRow(
    id: Uuid,
    accountId: Uuid,
    state: ArticleState,
    createdAt: Time,
    live: Option<LiveRow>,
    tombstone: Option<TombstoneRow>,
    version: Option<VersionRow>)

  function JoinRow(db: Db, id: Uuid): StreamRow
    requires id in db.articles
  {
    var a := db.articles[id];
    var l := if id in db.live then Some(db.live[id]) else None;
    StreamRow(id, a.accountId, a.state, a.createdAt, l,
              if id in db.tombstones then Some(db.tombstones[id]) else None,
              if l.Some? && (id, l.value.currentVersion) in db.versions
              then Some(db.versions[(id, l.value.currentVersion)]) else None)
  }

  function RowToItem(r: StreamRow): ArticleSummary {
    match r.state
    case Live =>
      ArticleSummary(
        r.id, r.accountId, Live, r.createdAt,
        if r.live.Some? then Some(r.live.value.currentVersion) else None,
        if r.version.Some? then Some(r.version.value.title) else None,
        Some(if r.version.Some? then r.version.value.authorName.GetOr("") else ""),
        Some(if r.version.Some? then r.version.value.authorUrl.GetOr("") else ""),
        r.version.None? || r.version.value.content.None?,
        if r.live.Some? then Some(r.live.value.publishedAt) else None,
        if r.live.Some? then Some(r.live.value.updatedAt) else None,
        None, None)
    case Tombstone =>
      ArticleSummary(
        r.id, r.accountId, Tombstone, r.createdAt, None, None, None, None, false, None, None,
        if r.tombstone.Some? then r.tombstone.value.reason else None,
        if r.tombstone.Some? then Some(r.tombstone.value.tombstonedAt) else None)
  }

  function Item(db: Db, id: Uuid): ArticleSummary
    requires id in db.articles
  {
    RowToItem(JoinRow(db, id))
  }

  lemma ItemNames(db: Db, id: Uuid)
    requires id in db.articles
    ensures Item(db, id).id == id && Item(db, id).accountId == db.articles[id].accountId
  {
  }

  /** While the rows of an article agree, its stream item is the very summary that `get` and the list give. */
  lemma ItemIsSummary(db: Db, top: nat, id: Uuid)
    requires Safety.ArticleOk(db, top, id) && id in db.articles
    ensures GetView(db, id).Ok? && Item(db, id) == GetView(db, id).value.summary
  {
    if db.articles[id].state.Live? {
      assert (id, db.live[id].currentVersion) in db.versions;
      assert Safety.RowOk(db.versions[(id, db.live[id].currentVersion)]);
    }
  }

  /** COALESCE(articles_live.updated_at, articles_tombstone.tombstoned_at), when not NULL. */
  function EventAt(db: Db, id: Uuid): Option<Time> {
    if id in db.live then Some(db.live[id].updatedAt)
    else if id in db.tombstones then Some(db.tombstones[id].tombstonedAt)
    else None
  }

  /** The articles of one account that have an event time; the invariant makes that all of them. */
  function StreamIds(db: Db, account: Uuid): set<Uuid> {
    set id | id in db.articles && db.articles[id].accountId == account && EventAt(db, id).Some?
  }

  function StreamKey(db: Db, id: Uuid): Key
    requires EventAt(db, id).Some?
  {
    Key(EventAt(db, id).value, id)
  }

  function StreamKeys(db: Db, account: Uuid): set<Key> {
    set id | id in StreamIds(db, account) :: StreamKey(db, id)
  }

  function StreamPage(db: Db, account: Uuid, cursor: Option<Key>, limit: nat): Page
    requires limit >= 1
  {
    GetPage(Ascending, StreamKeys(db, account), cursor, limit)
  }

  // ----- A consumer ----------------------------------------------------------------------------

  /** A republisher: the last non-empty token it received, and its copy of every article seen. */
  datatype Consumer = Consumer(cursor: Option<Key>, mirror: map<Uuid, ArticleSummary>)

  const NEW_CONSUMER := Consumer(None, map[])

  function Mirrored(db: Db, mirror: map<Uuid, ArticleSummary>, page: seq<Key>): map<Uuid, ArticleSummary> {
    mirror + map k | k in page && k.id in db.articles :: k.id := Item(db, k.id)
  }

  function ReadPage(db: Db, account: Uuid, c: Consumer, limit: nat): Consumer
    requires limit >= 1
  {
    var page := StreamPage(db, account, c.cursor, limit);
    Consumer(if page.next.Some? then page.next else c.cursor, Mirrored(db, c.mirror, page.items))
  }

  /** The current stream item of every article of the account. */
  function CurrentItems(db: Db, account: Uuid): map<Uuid, ArticleSummary> {
    map id | id in db.articles && db.articles[id].accountId == account :: Item(db, id)
  }

  datatype Event = Mutate(op: Op, now: Time) | Read(limit: nat)

  datatype World = World(db: Db, consumer: Consumer, clock: Time)

  /** Serial mutations come at strictly increasing times; reads come at any moment. */
  predicate Timely(w: World, e: Event) {
    match e
    case Mutate(_, now) => now > w.clock
    case Read(limit) => limit >= 1
  }

  function Next(w: World, account: Uuid, e: Event): World
    requires Timely(w, e)
  {
    match e
    case Mutate(op, now) => World(After(w.db, op, now), w.consumer, now)
    case Read(limit) => World(w.db, ReadPage(w.db, account, w.consumer, limit), w.clock)
  }

  predicate AllTimely(w: World, account: Uuid, events: seq<Event>)
    decreases |events|
  {
    events == [] || (Timely(w, events[0]) && AllTimely(Next(w, account, events[0]), account, events[1..]))
  }

  function RunWorld(w: World, account: Uuid, events: seq<Event>): World
    requires AllTimely(w, account, events)
    decreases |events|
  {
    if events == [] then w else RunWorld(Next(w, account, events[0]), account, events[1..])
  }

  // ----- The invariant -------------------------------------------------------------------------

  ghost predicate ArticlesOk(db: Db) {
    forall id: Uuid :: ChainOk(db, id)
  }

  /** No event, and no cursor, is later than the clock. */
  ghost predicate EventsPast(w: World) {
    && (forall id :: id in w.db.articles && EventAt(w.db, id).Some? ==> EventAt(w.db, id).value <= w.clock)
    && (w.consumer.cursor.Some? ==> w.consumer.cursor.value.at <= w.clock)
  }

  /** What lies at or before the cursor is mirrored as it is now; nothing foreign is mirrored. */
  ghost predicate InSync(db: Db, c: Consumer, account: Uuid) {
    && (forall id :: id in StreamIds(db, account) && c.cursor.Some?
                     && !Before(Ascending, c.cursor.value, StreamKey(db, id)) ==>
          id in c.mirror && c.mirror[id] == Item(db, id))
    && (forall id :: id in c.mirror ==> id in StreamIds(db, account))
  }

  ghost predicate Good(w: World, account: Uuid) {
    ArticlesOk(w.db) && EventsPast(w) && InSync(w.db, w.consumer, account)
  }

  /** The article stays, and either its event moves to now or its event and item are as before. */
  ghost predicate MovesEvent(db: Db, op: Op, now: Time, id: Uuid)
    requires id in db.articles
  {
    var db' := After(db, op, now);
    && id in db'.articles && db'.articles[id].accountId == db.articles[id].accountId
    && EventAt(db, id).Some? && EventAt(db', id).Some?
    && (EventAt(db', id) == Some(now) || (EventAt(db', id) == EventAt(db, id) && Item(db', id) == Item(db, id)))
  }

  /** The key fact: a transaction that changes an article's stream item moves its event to now. */
  lemma ItemChangeMovesEvent(db: Db, op: Op, now: Time, id: Uuid)
    requires ArticlesOk(db) && id in db.articles
    ensures MovesEvent(db, op, now, id)
  {
    assert ChainOk(db, id);
    var top: nat :| Safety.ArticleOk(db, top, id);
    hide MovesEvent;
    if op.id == id && op.EditArticle? {
      EditMovesEvent(db, top, op, now, id);
    } else if op.id == id && op.RedactVersion? {
      RedactMovesEvent(db, top, op, now, id);
    } else if op.id == id {
      OwnMovesEvent(db, top, op, now, id);
    } else {
      OtherMovesEvent(db, top, op, now, id);
    }
  }

  lemma EditMovesEvent(db: Db, top: nat, op: Op, now: Time, id: Uuid)
    requires Safety.ArticleOk(db, top, id) && id in db.articles && op.EditArticle? && op.id == id
    ensures MovesEvent(db, op, now, id)
  {
  }

  lemma RedactMovesEvent(db: Db, top: nat, op: Op, now: Time, id: Uuid)
    requires Safety.ArticleOk(db, top, id) && id in db.articles && op.RedactVersion? && op.id == id
    ensures MovesEvent(db, op, now, id)
  {
  }

  lemma OwnMovesEvent(db: Db, top: nat, op: Op, now: Time, id: Uuid)
    requires Safety.ArticleOk(db, top, id) && id in db.articles
    requires op.id == id && !op.EditArticle? && !op.RedactVersion?
    ensures MovesEvent(db, op, now, id)
  {
  }

  lemma OtherMovesEvent(db: Db, top: nat, op: Op, now: Time, id: Uuid)
    requires Safety.ArticleOk(db, top, id) && id in db.articles && op.id != id
    ensures MovesEvent(db, op, now, id)
  {
    hide FirstVersion, NextVersion, Redacted, UpdatedDraft, NewDraftRow, DraftVersion;
  }

  lemma NewArticleIsNow(db: Db, op: Op, now: Time, id: Uuid)
    requires ArticlesOk(db) && id !in db.articles && id in After(db, op, now).articles
    ensures EventAt(After(db, op, now), id) == Some(now)
  {
    assert ChainOk(db, id);
    var top: nat :| Safety.ArticleOk(db, top, id);
  }

  lemma MutateKeepsArticles(db: Db, op: Op, now: Time)
    requires ArticlesOk(db)
    ensures ArticlesOk(After(db, op, now))
  {
    hide ChainOk, Serial;
    forall id: Uuid ensures ChainOk(After(db, op, now), id) {
      SerialKeepsArticle(db, op, now, id);
    }
  }

  lemma MutateKeepsGood(w: World, account: Uuid, op: Op, now: Time)
    requires Good(w, account) && now > w.clock
    ensures Good(Next(w, account, Mutate(op, now)), account)
  {
    hide ArticlesOk, Serial, Item, EventAt;
    var w' := Next(w, account, Mutate(op, now));
    MutateKeepsArticles(w.db, op, now);
    forall id | id in w'.db.articles
      ensures id !in w.db.articles ==> EventAt(w'.db, id) == Some(now)
      ensures id in w.db.articles ==>
                && EventAt(w.db, id).Some? && EventAt(w'.db, id).Some?
                && w'.db.articles[id].accountId == w.db.articles[id].accountId
                && (EventAt(w'.db, id) == Some(now)
                    || (EventAt(w'.db, id) == EventAt(w.db, id) && Item(w'.db, id) == Item(w.db, id)))
    {
      if id in w.db.articles {
        ItemChangeMovesEvent(w.db, op, now, id);
      } else {
        NewArticleIsNow(w.db, op, now, id);
      }
    }
    forall id | id in w.consumer.mirror ensures id in StreamIds(w'.db, account) {
      ItemChangeMovesEvent(w.db, op, now, id);
    }
  }

  lemma PageItemsAreKeys(db: Db, account: Uuid, cursor: Option<Key>, limit: nat)
    requires limit >= 1
    ensures forall k :: k in StreamPage(db, account, cursor, limit).items ==> k in StreamKeys(db, account)
    ensures StreamPage(db, account, cursor, limit).next.Some? ==>
              StreamPage(db, account, cursor, limit).next.value in StreamKeys(db, account)
  {
    hide StreamKeys, Sorted;
    var rest := RowsAfter(Ascending, StreamKeys(db, account), cursor);
    SortedIsInOrder(Ascending, rest);
    PageSplitsRows(Ascending, StreamKeys(db, account), cursor, limit);
    var page, rows := StreamPage(db, account, cursor, limit), Sorted(Ascending, rest);
    assert forall k :: k in page.items ==> k in rows;
    assert page.next.Some? ==> page.next.value == page.items[limit - 1];
  }

  lemma MirrorAfterRead(db: Db, c: Consumer, account: Uuid, limit: nat, id: Uuid)
    requires InSync(db, c, account) && limit >= 1 && id in StreamIds(db, account)
    ensures var page := StreamPage(db, account, c.cursor, limit);
            var c' := ReadPage(db, account, c, limit);
            page.next.None? || !Before(Ascending, page.next.value, StreamKey(db, id)) ==>
              id in c'.mirror && c'.mirror[id] == Item(db, id)
  {
    hide Item, Sorted, GetPage;
    var k := StreamKey(db, id);
    assert k in StreamKeys(db, account);
    if c.cursor.None? || Before(Ascending, c.cursor.value, k) {
      PageCovers(Ascending, StreamKeys(db, account), c.cursor, limit, k);
    }
  }

  lemma ReadKeepsInSync(db: Db, c: Consumer, account: Uuid, limit: nat)
    requires InSync(db, c, account) && limit >= 1
    ensures InSync(db, ReadPage(db, account, c, limit), account)
  {
    hide Item, GetPage, Sorted;
    var c' := ReadPage(db, account, c, limit);
    PageItemsAreKeys(db, account, c.cursor, limit);
    forall id | id in StreamIds(db, account) && c'.cursor.Some? && !Before(Ascending, c'.cursor.value, StreamKey(db, id))
      ensures id in c'.mirror && c'.mirror[id] == Item(db, id)
    {
      MirrorAfterRead(db, c, account, limit, id);
    }
  }

  lemma ReadKeepsGood(w: World, account: Uuid, limit: nat)
    requires Good(w, account) && limit >= 1
    ensures Good(Next(w, account, Read(limit)), account)
  {
    hide ArticlesOk, Item, GetPage, Sorted, InSync;
    PageItemsAreKeys(w.db, account, w.consumer.cursor, limit);
    ReadKeepsInSync(w.db, w.consumer, account, limit);
  }

  lemma {:induction false} RunKeepsGood(w: World, account: Uuid, events: seq<Event>)
    requires Good(w, account) && AllTimely(w, account, events)
    ensures Good(RunWorld(w, account, events), account)
    decreases |events|
  {
    hide Good;
    if events != [] {
      match events[0] {
        case Mutate(op, now) => MutateKeepsGood(w, account, op, now);
        case Read(limit) => ReadKeepsGood(w, account, limit);
      }
      RunKeepsGood(Next(w, account, events[0]), account, events[1..]);
    }
  }

  lemma ArticleHasEvent(db: Db, id: Uuid)
    requires ArticlesOk(db) && id in db.articles
    ensures EventAt(db, id).Some?
  {
    assert ChainOk(db, id);
    var top: nat :| Safety.ArticleOk(db, top, id);
  }

  /** Reading the page that ends the stream leaves a mirror equal to the account's current items. */
  lemma LastPageCompletesMirror(db: Db, c: Consumer, account: Uuid, limit: nat)
    requires ArticlesOk(db) && InSync(db, c, account) && limit >= 1
    requires StreamPage(db, account, c.cursor, limit).next.None?
    ensures ReadPage(db, account, c, limit).mirror == CurrentItems(db, account)
  {
    hide ArticlesOk, Item, GetPage, EventAt, RowToItem, Mirrored, StreamKeys;
    var c' := ReadPage(db, account, c, limit);
    ReadKeepsInSync(db, c, account, limit);
    forall id | id in db.articles && db.articles[id].accountId == account
      ensures id in c'.mirror && c'.mirror[id] == Item(db, id)
    {
      ArticleHasEvent(db, id);
      MirrorAfterRead(db, c, account, limit, id);
    }
  }

  /**
   Stream convergence. Start from the empty database and a new consumer; interleave serial
   mutations at strictly increasing times with page reads of any sizes, each from the last
   non-empty token. Whenever a read then returns the empty token, the consumer's mirror is exactly
   the current stream item of every article of the account.
   */
  lemma MirrorConverges(account: Uuid, start: Time, events: seq<Event>, limit: nat)
    requires limit >= 1 && AllTimely(World(EMPTY_DB, NEW_CONSUMER, start), account, events)
    ensures var w := RunWorld(World(EMPTY_DB, NEW_CONSUMER, start), account, events);
            StreamPage(w.db, account, w.consumer.cursor, limit).next.None? ==>
              ReadPage(w.db, account, w.consumer, limit).mirror == CurrentItems(w.db, account)
  {
    var w0 := World(EMPTY_DB, NEW_CONSUMER, start);
    forall id: Uuid ensures ChainOk(w0.db, id) {
      assert Safety.ArticleOk(w0.db, 0, id);
    }
    RunKeepsGood(w0, account, events);
    var w := RunWorld(w0, account, events);
    if StreamPage(w.db, account, w.consumer.cursor, limit).next.None? {
      LastPageCompletesMirror(w.db, w.consumer, account, limit);
    }
  }

  /** Left alone, a consumer drains the stream: each read with a token leaves fewer rows to come. */
  function Drain(db: Db, account: Uuid, c: Consumer, limit: nat): Consumer
    requires limit >= 1
    decreases |RowsAfter(Ascending, StreamKeys(db, account), c.cursor)|
  {
    var page := StreamPage(db, account, c.cursor, limit);
    PageSplitsRows(Ascending, StreamKeys(db, account), c.cursor, limit);
    var c' := ReadPage(db, account, c, limit);
    if page.next.None? then c' else Drain(db, account, c', limit)
  }

  lemma {:induction false} DrainCompletesMirror(db: Db, c: Consumer, account: Uuid, limit: nat)
    requires ArticlesOk(db) && InSync(db, c, account) && limit >= 1
    ensures Drain(db, account, c, limit).mirror == CurrentItems(db, account)
    decreases |RowsAfter(Ascending, StreamKeys(db, account), c.cursor)|
  {
    hide ArticlesOk, InSync, StreamKeys, CurrentItems, Mirrored;
    var page := StreamPage(db, account, c.cursor, limit);
    PageSplitsRows(Ascending, StreamKeys(db, account), c.cursor, limit);
    if page.next.None? {
      LastPageCompletesMirror(db, c, account, limit);
    } else {
      ReadKeepsInSync(db, c, account, limit);
      DrainCompletesMirror(db, ReadPage(db, account, c, limit), account, limit);
    }
  }

  // ----- A consumer that has fallen behind -----------------------------------------------------

  lemma PageItemsAreAfter(db: Db, account: Uuid, cursor: Key, limit: nat)
    requires limit >= 1
    ensures var page := StreamPage(db, account, Some(cursor), limit);
            && (forall k :: k in page.items ==> Before(Ascending, cursor, k))
            && (page.next.Some? ==> Before(Ascending, cursor, page.next.value))
  {
    hide StreamKeys, Sorted;
    var rest := RowsAfter(Ascending, StreamKeys(db, account), Some(cursor));
    SortedIsInOrder(Ascending, rest);
    PageSplitsRows(Ascending, StreamKeys(db, account), Some(cursor), limit);
    var page, rows := StreamPage(db, account, Some(cursor), limit), Sorted(Ascending, rest);
    assert forall k :: k in page.items ==> k in rows;
    assert page.next.Some? ==> page.next.value == page.items[limit - 1];
  }

  /** What lies at or before the cursor is never read again. */
  lemma {:induction false} DrainLeavesBehind(db: Db, c: Consumer, account: Uuid, limit: nat, id: Uuid)
    requires limit >= 1 && id in StreamIds(db, account)
    requires c.cursor.Some? && !Before(Ascending, c.cursor.value, StreamKey(db, id))
    ensures var mirror := Drain(db, account, c, limit).mirror;
            (id in mirror <==> id in c.mirror) && (id in mirror ==> mirror[id] == c.mirror[id])
    decreases |RowsAfter(Ascending, StreamKeys(db, account), c.cursor)|
  {
    hide Item, GetPage, Sorted;
    var page := StreamPage(db, account, c.cursor, limit);
    PageSplitsRows(Ascending, StreamKeys(db, account), c.cursor, limit);
    PageItemsAreAfter(db, account, c.cursor.value, limit);
    PageItemsAreKeys(db, account, c.cursor, limit);
    forall k | k in page.items ensures k.id != id {
      assert k in StreamKeys(db, account);
    }
    if page.next.Some? {
      DrainLeavesBehind(db, ReadPage(db, account, c, limit), account, limit, id);
    }
  }

  /** Draining gives the current items if and only if nothing at or before the cursor is out of date. */
  lemma DrainConvergesIff(db: Db, c: Consumer, account: Uuid, limit: nat)
    requires ArticlesOk(db) && limit >= 1 && forall id :: id in c.mirror ==> id in StreamIds(db, account)
    ensures Drain(db, account, c, limit).mirror == CurrentItems(db, account) <==> InSync(db, c, account)
  {
    hide ArticlesOk, Item, Drain, EventAt;
    if InSync(db, c, account) {
      DrainCompletesMirror(db, c, account, limit);
    } else {
      var id :| id in StreamIds(db, account) && c.cursor.Some?
                && !Before(Ascending, c.cursor.value, StreamKey(db, id))
                && !(id in c.mirror && c.mirror[id] == Item(db, id));
      DrainLeavesBehind(db, c, account, limit, id);
      assert id in CurrentItems(db, account) && CurrentItems(db, account)[id] == Item(db, id);
    }
  }
}
