/** The repositories as objects over one mutable database: each method runs its statements in order,
    rolls back on an error, and is proved against the serial transaction. */
module Repositories {
  import opened Core
  import opened Tables
  import opened TransactionProtocol
  import opened SerialTransactions
  import opened KeysetPaging
  import AccountStream

  class Database {
    var articles: map<Uuid, ArticleRow>
    var live: map<Uuid, LiveRow>
    var tombstones: map<Uuid, TombstoneRow>
    var versions: map<(Uuid, int), VersionRow>
    var drafts: map<Uuid, DraftRow>

    constructor ()
      ensures Tables() == EMPTY_DB
    {
      articles, live, tombstones, versions, drafts := map[], map[], map[], map[], map[];
    }

    function Tables(): Db
      reads this
    {
      Db(articles, live, tombstones, versions, drafts)
    }

    method Rollback(saved: Db)
      modifies this
      ensures Tables() == saved
    {
      articles, live, tombstones, versions, drafts :=
        saved.articles, saved.live, saved.tombstones, saved.versions, saved.drafts;
    }
  }

  /** What a transaction closure reports: `Ok` commits, `Err` rolls back. */
  type Closure = Result<(), RepoError>

  datatype ListPage<T> = ListPage(items: seq<T>, next: Option<Key>)

  // ----- Specifications of the list endpoints --------------------------------------------------

  const DEFAULT_PAGE_SIZE := 50
  const MAX_PAGE_SIZE := 200
  const DEFAULT_DRAFT_PAGE_SIZE := 20
  const MAX_DRAFT_PAGE_SIZE := 100

  /** The articles the list query selects, keyed on (created_at, id). */
  function ListKeys(db: Db, account: Uuid, includeTombstoned: bool): set<Key> {
    set id | id in db.articles && db.articles[id].accountId == account
             && (includeTombstoned || db.articles[id].state.Live?)
      :: Key(db.articles[id].createdAt, id)
  }

  /** The summaries of one page of keys; a row whose child rows are missing is an error. */
  function Hydrate(db: Db, rows: seq<Key>): Result<seq<ArticleSummary>, RepoError> {
    if rows == [] then Ok([])
    else
      var last := GetView(db, rows[|rows| - 1].id);
      var front := Hydrate(db, rows[..|rows| - 1]);
      if front.Err? then front
      else if last.Err? then Err(last.error)
      else Ok(front.value + [last.value.summary])
  }

  function DraftKeys(db: Db, account: Uuid): set<Key> {
    set id | id in db.drafts && db.drafts[id].accountId == account :: Key(db.drafts[id].updatedAt, id)
  }

  datatype DraftSummary = DraftSummary(id: Uuid, accountId: Uuid, title: string, createdAt: Time, updatedAt: Time)

  function SummaryOfDraft(id: Uuid, d: DraftRow): DraftSummary {
    DraftSummary(id, d.accountId, d.title, d.createdAt, d.updatedAt)
  }

  /** `has_more`, `truncate` and the next token, shared by every list endpoint. */
  method Truncate(rows: seq<Key>, limit: nat) returns (page: seq<Key>, next: Option<Key>)
    requires limit >= 1
    ensures Page(page, next) == PageOf(rows, limit)
  {
    var hasMore := |rows| > limit;
    page := rows;
    if hasMore {
      page := page[..limit];
    }
    next := if hasMore then Some(page[|page| - 1]) else None;
  }

  // ----- Articles ------------------------------------------------------------------------------

  class PgArticleRepo {
    const db: Database

    constructor (db: Database)
      ensures this.db == db
    {
      this.db := db;
    }

    method PublishTx(id: Uuid, entry: NewEntry, now: Time) returns (r: Closure)
      modifies db
      ensures var s := Serial(old(db.Tables()), PublishArticle(id, entry), now);
              if r.Ok? then s == Ok(db.Tables()) else s == Err(r.error)
    {
      if id in db.articles { return Err(Internal); }
      db.articles := db.articles[id := ArticleRow(entry.accountId, Live, now)];
      if id in db.live { return Err(Internal); }
      db.live := db.live[id := LiveRow(1, now, now)];
      if (id, 1) in db.versions { return Err(Internal); }
      var authorName := if entry.authorName == "" then None else Some(entry.authorName);
      var authorUrl := if entry.authorUrl == "" then None else Some(entry.authorUrl);
      db.versions := db.versions[(id, 1) :=
        VersionRow(entry.title, authorName, authorUrl, Some(entry.content), None, None, now)];
      return Ok(());
    }

    method Publish(id: Uuid, entry: NewEntry, now: Time) returns (r: Result<Article, RepoError>)
      modifies db
      ensures db.Tables() == After(old(db.Tables()), PublishArticle(id, entry), now)
      ensures r == match Serial(old(db.Tables()), PublishArticle(id, entry), now)
                   case Ok(t) => GetView(t, id) case Err(e) => Err(e)
    {
      var saved := db.Tables();
      var tx := PublishTx(id, entry, now);
      if tx.Err? {
        db.Rollback(saved);
        return Err(tx.error);
      }
      r := Get(id);
    }

    method Get(id: Uuid) returns (r: Result<Article, RepoError>)
      ensures r == GetView(db.Tables(), id)
    {
      if id !in db.articles { return Err(ArticleNotFound); }
      var article := db.articles[id];
      match article.state
      case Live =>
        if id !in db.live { return Err(Internal); }
        var liveRow := db.live[id];
        if (id, liveRow.currentVersion) !in db.versions { return Err(Internal); }
        var version := db.versions[(id, liveRow.currentVersion)];
        r := Ok(Article(LiveSummary(id, article, liveRow, version), version.content));
      case Tombstone =>
        if id !in db.tombstones { return Err(Internal); }
        r := Ok(Article(TombstoneSummary(id, article, db.tombstones[id]), None));
    }

    method EditTx(id: Uuid, edit: Edit, now: Time) returns (r: Closure)
      modifies db
      ensures var s := Serial(old(db.Tables()), EditArticle(id, edit), now);
              if r.Ok? then s == Ok(db.Tables()) else s == Err(r.error)
    {
      if id !in db.articles { return Err(ArticleNotFound); }
      if db.articles[id].state == ArticleState.Tombstone { return Err(ArticleTombstoned); }
      if id !in db.live { return Err(Internal); }
      var liveRow := db.live[id];
      if (id, liveRow.currentVersion) !in db.versions { return Err(Internal); }
      var current := db.versions[(id, liveRow.currentVersion)];
      var title := edit.title.GetOr(current.title);
      var authorName := edit.authorName.Or(current.authorName).GetOr("");
      var authorUrl := edit.authorUrl.Or(current.authorUrl).GetOr("");
      var content := edit.content.Or(current.content).GetOr(Array([]));
      if liveRow.currentVersion >= MAX_VERSION { return Err(Internal); }
      var next := liveRow.currentVersion + 1;
      if (id, next) in db.versions { return Err(Internal); }
      db.versions := db.versions[(id, next) :=
        VersionRow(title, if authorName == "" then None else Some(authorName),
                   if authorUrl == "" then None else Some(authorUrl), Some(content), None, None, now)];
      db.live := db.live[id := liveRow.(currentVersion := next, updatedAt := now)];
      return Ok(());
    }

    method Edit(id: Uuid, edit: Edit, now: Time) returns (r: Result<Article, RepoError>)
      modifies db
      ensures db.Tables() == After(old(db.Tables()), EditArticle(id, edit), now)
      ensures r == match Serial(old(db.Tables()), EditArticle(id, edit), now)
                   case Ok(t) => GetView(t, id) case Err(e) => Err(e)
    {
      var saved := db.Tables();
      var tx := EditTx(id, edit, now);
      if tx.Err? {
        db.Rollback(saved);
        return Err(tx.error);
      }
      r := Get(id);
    }

    method TombstoneTx(id: Uuid, reason: Option<string>, now: Time) returns (r: Closure)
      modifies db
      ensures var s := Serial(old(db.Tables()), TombstoneArticle(id, reason), now);
              if r.Ok? then s == Ok(db.Tables()) else s == Err(r.error)
    {
      if id !in db.articles { return Err(ArticleNotFound); }
      if db.articles[id].state == ArticleState.Tombstone { return Err(ArticleTombstoned); }
      db.articles := db.articles[id := db.articles[id].(state := ArticleState.Tombstone)];
      if id in db.tombstones { return Err(Internal); }
      db.tombstones := db.tombstones[id := TombstoneRow(reason, now)];
      db.live := db.live - {id};
      return Ok(());
    }

    method Tombstone(id: Uuid, reason: Option<string>, now: Time) returns (r: Result<Article, RepoError>)
      modifies db
      ensures db.Tables() == After(old(db.Tables()), TombstoneArticle(id, reason), now)
      ensures r == match Serial(old(db.Tables()), TombstoneArticle(id, reason), now)
                   case Ok(t) => GetView(t, id) case Err(e) => Err(e)
    {
      var saved := db.Tables();
      var tx := TombstoneTx(id, reason, now);
      if tx.Err? {
        db.Rollback(saved);
        return Err(tx.error);
      }
      r := Get(id);
    }

    method RedactTx(id: Uuid, number: int, why: string, now: Time) returns (r: Closure)
      modifies db
      ensures var s := Serial(old(db.Tables()), RedactVersion(id, number, why), now);
              if r.Ok? then s == Ok(db.Tables()) else s == Err(r.error)
    {
      if id !in db.articles { return Err(ArticleNotFound); }
      var article := db.articles[id];
      if (id, number) !in db.versions { return Err(VersionNotFound); }
      var row := db.versions[(id, number)];
      if row.redactedAt.Some? { return Err(VersionAlreadyRedacted); }
      db.versions := db.versions[(id, number) :=
        row.(content := None, redactedAt := Some(now), redactionReason := Some(why))];
      if article.state == Live {
        if id !in db.live { return Err(Internal); }
        var liveRow := db.live[id];
        if liveRow.currentVersion == number {
          db.live := db.live[id := liveRow.(updatedAt := now)];
        }
      }
      return Ok(());
    }

    method Redact(id: Uuid, number: int, why: string, now: Time) returns (r: Closure)
      modifies db
      ensures db.Tables() == After(old(db.Tables()), RedactVersion(id, number, why), now)
      ensures var s := Serial(old(db.Tables()), RedactVersion(id, number, why), now);
              if r.Ok? then s.Ok? else s == Err(r.error)
    {
      var saved := db.Tables();
      r := RedactTx(id, number, why, now);
      if r.Err? {
        db.Rollback(saved);
      }
    }

    /** A page holds articles of the account only, tombstoned ones when they are asked for, the newest first, each
        read as its own summary, and not more than the clamped size. */
    method ListByAccount(account: Uuid, includeTombstoned: bool, pageSize: int, token: Option<Key>)
      returns (r: Result<ListPage<ArticleSummary>, RepoError>)
      ensures var limit := ClampPageSize(pageSize, DEFAULT_PAGE_SIZE, MAX_PAGE_SIZE);
              var page := GetPage(Descending, ListKeys(db.Tables(), account, includeTombstoned), token, limit);
              r == match Hydrate(db.Tables(), page.items)
                   case Ok(items) => Ok(ListPage(items, page.next)) case Err(e) => Err(e)
      ensures r.Ok? ==> var size := if pageSize <= 0 then 50 else if pageSize <= 200 then pageSize else 200;
                        |r.value.items| <= size && (r.value.next.Some? ==> |r.value.items| == size)
      ensures r.Ok? ==> forall item :: item in r.value.items ==>
                && item.accountId == account && (includeTombstoned || item.state.Live?)
                && GetView(db.Tables(), item.id).Ok? && item == GetView(db.Tables(), item.id).value.summary
      ensures r.Ok? ==> forall i, j :: 0 <= i < j < |r.value.items| ==>
                var a, b := r.value.items[i], r.value.items[j];
                a.createdAt > b.createdAt || (a.createdAt == b.createdAt && a.id > b.id)
    {
      hide GetView, Fetch, ListKeys;
      var limit := ClampPageSize(pageSize, DEFAULT_PAGE_SIZE, MAX_PAGE_SIZE);
      var fetched := Fetch(Descending, ListKeys(db.Tables(), account, includeTombstoned), token, limit);
      var rows, next := Truncate(fetched, limit);
      ListedRows(db.Tables(), account, includeTombstoned, token, limit);
      var items: seq<ArticleSummary> := [];
      var i := 0;
      while i < |rows|
        invariant 0 <= i <= |rows|
        invariant Hydrate(db.Tables(), rows[..i]) == Ok(items)
      {
        assert rows[..i + 1][..i] == rows[..i];
        var view := Get(rows[i].id);
        if view.Err? {
          HydrateStopsAtError(db.Tables(), rows, i + 1);
          return Err(view.error);
        }
        items := items + [view.value.summary];
        i := i + 1;
      }
      assert rows[..i] == rows;
      r := Ok(ListPage(items, next));
    }
  }

  /** The first row that cannot be read decides the result. */
  lemma {:induction false} HydrateStopsAtError(db: Db, rows: seq<Key>, i: nat)
    requires i <= |rows| && Hydrate(db, rows[..i]).Err?
    ensures Hydrate(db, rows) == Hydrate(db, rows[..i])
    decreases |rows| - i
  {
    if i == |rows| {
      assert rows[..i] == rows;
    } else {
      assert rows[..i + 1][..i] == rows[..i];
      HydrateStopsAtError(db, rows, i + 1);
    }
  }

  /** Reading a list of rows fails if and only if one of them cannot be read. */
  lemma {:induction false} HydrateFailsIff(db: Db, rows: seq<Key>)
    ensures Hydrate(db, rows).Err? <==> exists k :: k in rows && GetView(db, k.id).Err?
  {
    hide GetView;
    if rows != [] {
      var init, last := rows[..|rows| - 1], rows[|rows| - 1];
      HydrateFailsIff(db, init);
      assert rows == init + [last];
      assert last in rows;
    }
  }

  lemma {:induction false} HydrateReadsRows(db: Db, rows: seq<Key>)
    requires Hydrate(db, rows).Ok?
    ensures |Hydrate(db, rows).value| == |rows|
    ensures forall i :: 0 <= i < |rows| ==>
              GetView(db, rows[i].id).Ok? && Hydrate(db, rows).value[i] == GetView(db, rows[i].id).value.summary
  {
    hide GetView;
    if rows != [] {
      HydrateReadsRows(db, rows[..|rows| - 1]);
    }
  }

  lemma ViewOf(db: Db, id: Uuid)
    requires GetView(db, id).Ok?
    ensures var item := GetView(db, id).value.summary;
            && id in db.articles && item.id == id && item.accountId == db.articles[id].accountId
            && item.createdAt == db.articles[id].createdAt && item.state == db.articles[id].state
  {
  }

  /** What the rows of one page of the article list read back as. */
  lemma ListedRows(db: Db, account: Uuid, includeTombstoned: bool, token: Option<Key>, limit: nat)
    requires limit >= 1
    ensures var page := GetPage(Descending, ListKeys(db, account, includeTombstoned), token, limit);
            Hydrate(db, page.items).Ok? ==>
              var items := Hydrate(db, page.items).value;
              && |items| == |page.items| <= limit && (page.next.Some? ==> |items| == limit)
              && (forall item :: item in items ==>
                    && item.accountId == account && (includeTombstoned || item.state.Live?)
                    && GetView(db, item.id).Ok? && item == GetView(db, item.id).value.summary)
              && (forall i, j :: 0 <= i < j < |items| ==>
                    || items[i].createdAt > items[j].createdAt
                    || (items[i].createdAt == items[j].createdAt && items[i].id > items[j].id))
  {
    hide GetView, Hydrate, Fetch;
    var keys := ListKeys(db, account, includeTombstoned);
    var page := GetPage(Descending, keys, token, limit);
    PageIsInOrder(Descending, keys, token, limit);
    FetchedRowsAreKeys(Descending, keys, token, limit);
    if Hydrate(db, page.items).Ok? {
      var items := Hydrate(db, page.items).value;
      HydrateReadsRows(db, page.items);
      forall i | 0 <= i < |items|
        ensures items[i].id == page.items[i].id && items[i].createdAt == page.items[i].at
        ensures items[i].accountId == account && (includeTombstoned || items[i].state.Live?)
      {
        assert page.items[i] in keys;
        ViewOf(db, page.items[i].id);
      }
    }
  }

  // ----- Drafts --------------------------------------------------------------------------------

  class PgDraftRepo {
    const db: Database

    constructor (db: Database)
      ensures this.db == db
    {
      this.db := db;
    }

    method Create(id: Uuid, entry: NewEntry, now: Time) returns (r: Result<DraftRow, RepoError>)
      modifies db
      ensures db.Tables() == After(old(db.Tables()), CreateDraft(id, entry), now)
      ensures r == match Serial(old(db.Tables()), CreateDraft(id, entry), now)
                   case Ok(t) => Ok(NewDraftRow(entry, now)) case Err(e) => Err(e)
    {
      var authorName := if entry.authorName == "" then None else Some(entry.authorName);
      var authorUrl := if entry.authorUrl == "" then None else Some(entry.authorUrl);
      if id in db.drafts { return Err(Internal); }
      var row := DraftRow(entry.accountId, entry.title, authorName, authorUrl, entry.content, now, now);
      db.drafts := db.drafts[id := row];
      r := Ok(row);
    }

    method Update(id: Uuid, update: Edit, now: Time) returns (r: Result<DraftRow, RepoError>)
      modifies db
      ensures db.Tables() == After(old(db.Tables()), UpdateDraft(id, update), now)
      ensures r == match Serial(old(db.Tables()), UpdateDraft(id, update), now)
                   case Ok(t) => Ok(UpdatedDraft(old(db.drafts)[id], update, now)) case Err(e) => Err(e)
    {
      if id !in db.drafts { return Err(DraftNotFound); }
      ghost var start := db.Tables();
      ghost var before := start.drafts[id];
      assert start.drafts[id := before] == start.drafts;
      if update.title.Some? {
        WriteDraft(id, db.drafts[id].(title := update.title.value), start);
      }
      assert db.drafts[id] == before.(title := update.title.GetOr(before.title));
      if update.authorName.Some? {
        var v := if update.authorName.value == "" then None else Some(update.authorName.value);
        WriteDraft(id, db.drafts[id].(authorName := v), start);
      }
      if update.authorUrl.Some? {
        var v := if update.authorUrl.value == "" then None else Some(update.authorUrl.value);
        WriteDraft(id, db.drafts[id].(authorUrl := v), start);
      }
      if update.content.Some? {
        WriteDraft(id, db.drafts[id].(content := update.content.value), start);
      }
      WriteDraft(id, db.drafts[id].(updatedAt := now), start);
      hide After;
      assert db.drafts[id] == UpdatedDraft(before, update, now);
      r := Ok(db.drafts[id]);
    }

    /** One UPDATE of a draft row in a transaction that began at `start` and wrote no other row. */
    method WriteDraft(id: Uuid, row: DraftRow, ghost start: Db)
      requires id in db.drafts && db.Tables() == start.(drafts := start.drafts[id := db.drafts[id]])
      modifies db
      ensures db.drafts == old(db.drafts)[id := row]
      ensures db.Tables() == start.(drafts := start.drafts[id := row])
    {
      db.drafts := db.drafts[id := row];
    }

    method Delete(id: Uuid, now: Time) returns (r: Closure)
      modifies db
      ensures db.Tables() == After(old(db.Tables()), DeleteDraft(id), now)
      ensures r == if id in old(db.drafts) then Ok(()) else Err(DraftNotFound)
    {
      var n := if id in db.drafts then 1 else 0;
      db.drafts := db.drafts - {id};
      if n == 0 {
        assert db.drafts == old(db.drafts);
        return Err(DraftNotFound);
      }
      return Ok(());
    }

    method PublishTx(id: Uuid, now: Time) returns (r: Result<DraftRow, RepoError>)
      modifies db
      ensures var s := Serial(old(db.Tables()), PublishDraft(id), now);
              if r.Ok? then id in old(db.drafts) && r.value == old(db.drafts)[id] && s == Ok(db.Tables())
              else s == Err(r.error)
    {
      if id !in db.drafts { return Err(DraftNotFound); }
      var row := db.drafts[id];
      if id in db.articles { return Err(Internal); }
      db.articles := db.articles[id := ArticleRow(row.accountId, Live, now)];
      if id in db.live { return Err(Internal); }
      db.live := db.live[id := LiveRow(1, now, now)];
      if (id, 1) in db.versions { return Err(Internal); }
      db.versions := db.versions[(id, 1) :=
        VersionRow(row.title, row.authorName, row.authorUrl, Some(row.content), None, None, now)];
      db.drafts := db.drafts - {id};
      return Ok(row);
    }

    /** The returned article is assembled without reading it back, and is what reading it back gives: the
        fields of the draft that was there, at version 1. */
    method Publish(id: Uuid, now: Time) returns (r: Result<Article, RepoError>)
      modifies db
      ensures db.Tables() == After(old(db.Tables()), PublishDraft(id), now)
      ensures r == match Serial(old(db.Tables()), PublishDraft(id), now)
                   case Ok(t) => GetView(t, id) case Err(e) => Err(e)
      ensures r.Ok? ==>
                && id in old(db.drafts) && id !in db.drafts
                && var d, a := old(db.drafts)[id], r.value.summary;
                   && a.id == id && a.accountId == d.accountId && a.state == Live && a.currentVersion == Some(1)
                   && a.title == Some(d.title) && a.authorName == Some(d.authorName.GetOr(""))
                   && a.authorUrl == Some(d.authorUrl.GetOr("")) && !a.redacted
                   && a.createdAt == now && a.publishedAt == Some(now) && a.updatedAt == Some(now)
                   && r.value.content == Some(d.content)
    {
      var saved := db.Tables();
      var tx := PublishTx(id, now);
      if tx.Err? {
        db.Rollback(saved);
        return Err(tx.error);
      }
      var row := tx.value;
      r := Ok(Article(
        ArticleSummary(id, row.accountId, Live, now, Some(1), Some(row.title), Some(row.authorName.GetOr("")),
                       Some(row.authorUrl.GetOr("")), false, Some(now), Some(now), None, None),
        Some(row.content)));
    }

    /** A page holds drafts of the account only, the latest change first, and not more than the clamped size. */
    method ListByAccount(account: Uuid, pageSize: int, token: Option<Key>) returns (r: ListPage<DraftSummary>)
      ensures var limit := ClampPageSize(pageSize, DEFAULT_DRAFT_PAGE_SIZE, MAX_DRAFT_PAGE_SIZE);
              var page := GetPage(Descending, DraftKeys(db.Tables(), account), token, limit);
              && r.next == page.next && |r.items| == |page.items|
              && (forall i :: 0 <= i < |page.items| ==> page.items[i] == Key(r.items[i].updatedAt, r.items[i].id))
      ensures var size := if pageSize <= 0 then 20 else if pageSize <= 100 then pageSize else 100;
              |r.items| <= size && (r.next.Some? ==> |r.items| == size)
      ensures forall item :: item in r.items ==>
                && item.id in db.drafts && item.accountId == account
                && var d := db.drafts[item.id];
                   item == DraftSummary(item.id, d.accountId, d.title, d.createdAt, d.updatedAt)
      ensures forall i, j :: 0 <= i < j < |r.items| ==>
                || r.items[i].updatedAt > r.items[j].updatedAt
                || (r.items[i].updatedAt == r.items[j].updatedAt && r.items[i].id > r.items[j].id)
    {
      hide Fetch;
      var limit := if pageSize <= 0 then DEFAULT_DRAFT_PAGE_SIZE
                   else if pageSize < MAX_DRAFT_PAGE_SIZE then pageSize else MAX_DRAFT_PAGE_SIZE;
      var keys := DraftKeys(db.Tables(), account);
      var fetched := Fetch(Descending, keys, token, limit);
      FetchedRowsAreKeys(Descending, keys, token, limit);
      PageIsInOrder(Descending, keys, token, limit);
      var rows, next := Truncate(fetched, limit);
      assert forall k :: k in rows ==> k in keys;
      var items: seq<DraftSummary> := [];
      var i := 0;
      while i < |rows|
        invariant 0 <= i <= |rows| && |items| == i
        invariant forall j :: 0 <= j < i ==>
                    rows[j].id in db.drafts && items[j] == SummaryOfDraft(rows[j].id, db.drafts[rows[j].id])
                    && items[j].accountId == account && rows[j] == Key(items[j].updatedAt, items[j].id)
      {
        assert rows[i] in keys;
        items := items + [SummaryOfDraft(rows[i].id, db.drafts[rows[i].id])];
        i := i + 1;
      }
      r := ListPage(items, next);
    }
  }

  // ----- The account stream --------------------------------------------------------------------

  class PgAccountStreamRepo {
    const db: Database

    constructor (db: Database)
      ensures this.db == db
    {
      this.db := db;
    }

    /** A page holds articles of the account only, the one whose last change is oldest first. */
    method Stream(account: Uuid, pageSize: int, token: Option<Key>) returns (r: ListPage<ArticleSummary>)
      ensures var limit := ClampPageSize(pageSize, DEFAULT_PAGE_SIZE, MAX_PAGE_SIZE);
              var page := AccountStream.StreamPage(db.Tables(), account, token, limit);
              && r.next == page.next && |r.items| == |page.items|
              && (forall i :: 0 <= i < |page.items| ==>
                    page.items[i].id in db.articles
                    && r.items[i] == AccountStream.Item(db.Tables(), page.items[i].id))
      ensures var size := if pageSize <= 0 then 50 else if pageSize <= 200 then pageSize else 200;
              |r.items| <= size && (r.next.Some? ==> |r.items| == size)
      ensures forall item :: item in r.items ==> item.id in db.articles && item.accountId == account
    {
      hide Fetch, AccountStream.RowToItem;
      var limit := ClampPageSize(pageSize, DEFAULT_PAGE_SIZE, MAX_PAGE_SIZE);
      var keys := AccountStream.StreamKeys(db.Tables(), account);
      var fetched := Fetch(Ascending, keys, token, limit);
      FetchedRowsAreKeys(Ascending, keys, token, limit);
      var rows, next := Truncate(fetched, limit);
      assert forall k :: k in rows ==> k in keys;
      var items: seq<ArticleSummary> := [];
      var i := 0;
      while i < |rows|
        invariant 0 <= i <= |rows| && |items| == i
        invariant forall j :: 0 <= j < i ==>
                    rows[j].id in db.articles && items[j] == AccountStream.Item(db.Tables(), rows[j].id)
        invariant forall item :: item in items ==> item.id in db.articles && item.accountId == account
      {
        assert rows[i] in keys;
        AccountStream.ItemNames(db.Tables(), rows[i].id);
        items := items + [AccountStream.RowToItem(AccountStream.JoinRow(db.Tables(), rows[i].id))];
        i := i + 1;
      }
      r := ListPage(items, next);
    }
  }
}
