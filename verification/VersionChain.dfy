/** The version chain seen as one mutable record per article, under serial transactions. */
module VersionChain {
  import opened Core
  import opened Tables
  import opened TransactionProtocol
  import opened SerialTransactions
  import Safety = TransactionSafety
  import History = TransactionHistory

  /** What a reader sees of an article's text; an absent author is the empty string. */
  datatype Document = Document(title: string, authorName: string, authorUrl: string, content: Option<Json>)

  /** An article as a record that edits overwrite in place; `tombstone` says why and when it ended. */
  datatype Record = Record(
    accountId: Uuid, createdAt: Time, document: Document, version: int, publishedAt: Time, updatedAt: Time,
    tombstone: Option<TombstoneRow>)
  {
    predicate Live() {
      tombstone.None?
    }
  }

  function DocumentOf(v: VersionRow): Document {
    Document(v.title, v.authorName.GetOr(""), v.authorUrl.GetOr(""), v.content)
  }

  /** A masked edit overwrites the masked fields; without a content to keep, the document is empty. */
  function Overwrite(d: Document, e: Edit): Document {
    Document(e.title.GetOr(d.title), e.authorName.GetOr(d.authorName), e.authorUrl.GetOr(d.authorUrl),
             Some(if e.content.Some? then e.content.value else d.content.GetOr(Array([]))))
  }

  /** Redacting a version that is not current, or redacting twice, changes nothing a reader sees. */
  function RecordStep(r: Record, op: Op, now: Time): Record {
    if !r.Live() then r
    else
      match op
      case EditArticle(_, e) =>
        if r.version >= MAX_VERSION then r
        else r.(document := Overwrite(r.document, e), version := r.version + 1, updatedAt := now)
      case RedactVersion(_, n, _) =>
        if n == r.version && r.document.content.Some?
        then r.(document := r.document.(content := None), updatedAt := now) else r
      case TombstoneArticle(_, reason) => r.(tombstone := Some(TombstoneRow(reason, now)))
      case _ => r
  }

  datatype Call = Call(op: Op, now: Time)

  /** Serial calls: each is one transaction run to its end before the next begins. */
  function RunCalls(db: Db, calls: seq<Call>): Db
    decreases |calls|
  {
    if calls == [] then db else RunCalls(After(db, calls[0].op, calls[0].now), calls[1..])
  }

  function RecordRun(r: Record, calls: seq<Call>, id: Uuid): Record
    decreases |calls|
  {
    if calls == [] then r
    else RecordRun(if calls[0].op.id == id then RecordStep(r, calls[0].op, calls[0].now) else r, calls[1..], id)
  }

  /** The article rows of `id` agree with each other, for some number of versions. */
  ghost predicate ChainOk(db: Db, id: Uuid) {
    exists top: nat :: Safety.ArticleOk(db, top, id)
  }

  /** The tables hold article `id` as the record `r`. */
  ghost predicate Represents(db: Db, id: Uuid, r: Record) {
    && ChainOk(db, id)
    && id in db.articles
    && db.articles[id] == ArticleRow(r.accountId, if r.Live() then Live else Tombstone, r.createdAt)
    && (r.Live() ==>
          && db.live[id] == LiveRow(r.version, r.publishedAt, r.updatedAt)
          && DocumentOf(db.versions[(id, r.version)]) == r.document)
    && (!r.Live() ==> db.tombstones[id] == r.tombstone.value)
  }

  lemma SerialLeavesOthers(db: Db, top: nat, op: Op, now: Time, id: Uuid)
    requires Safety.ArticleOk(db, top, id) && op.id != id
    ensures Safety.ArticleOk(After(db, op, now), top, id)
  {
    assert forall n :: (id, n) in After(db, op, now).versions <==> (id, n) in db.versions;
  }

  lemma SerialKeepsNumbering(db: Db, top: nat, op: Op, now: Time)
    requires Safety.ArticleOk(db, top, op.id) && !Safety.AddsVersion(op)
    ensures Safety.ArticleOk(After(db, op, now), top, op.id)
  {
  }

  lemma SerialAddsVersion(db: Db, top: nat, op: Op, now: Time)
    requires Safety.ArticleOk(db, top, op.id) && Safety.AddsVersion(op) && Serial(db, op, now).Ok?
    ensures Safety.ArticleOk(After(db, op, now), top + 1, op.id)
  {
  }

  /** A serial transaction keeps the rows of every article in step. */
  lemma SerialKeepsArticle(db: Db, op: Op, now: Time, id: Uuid)
    requires ChainOk(db, id)
    ensures ChainOk(After(db, op, now), id)
  {
    var top: nat :| Safety.ArticleOk(db, top, id);
    hide Safety.ArticleOk, Serial;
    if op.id != id {
      SerialLeavesOthers(db, top, op, now, id);
    } else if Serial(db, op, now).Err? {
      assert After(db, op, now) == db;
    } else if Safety.AddsVersion(op) {
      SerialAddsVersion(db, top, op, now);
    } else {
      SerialKeepsNumbering(db, top, op, now);
    }
  }

  lemma StepRefines(db: Db, call: Call, id: Uuid, r: Record)
    requires Represents(db, id, r)
    ensures Represents(After(db, call.op, call.now), id, if call.op.id == id then RecordStep(r, call.op, call.now) else r)
  {
    var top: nat :| Safety.ArticleOk(db, top, id);
    SerialKeepsArticle(db, call.op, call.now, id);
  }

  /**
   The version chain refines a mutable record: after any serial calls, what `get` reads is what the
   same calls leave in a record that edits overwrite in place.
   */
  lemma {:induction false} ChainRefinesRecord(db: Db, calls: seq<Call>, id: Uuid, r: Record)
    requires Represents(db, id, r)
    ensures Represents(RunCalls(db, calls), id, RecordRun(r, calls, id))
    decreases |calls|
  {
    hide Represents;
    if calls != [] {
      var next := if calls[0].op.id == id then RecordStep(r, calls[0].op, calls[0].now) else r;
      StepRefines(db, calls[0], id, r);
      ChainRefinesRecord(After(db, calls[0].op, calls[0].now), calls[1..], id, next);
    }
  }

  /** The article a reader sees: the fields while live, only the tombstone afterwards. */
  function ArticleOf(id: Uuid, r: Record): Article {
    if r.Live() then
      Article(
        ArticleSummary(id, r.accountId, Live, r.createdAt, Some(r.version), Some(r.document.title),
                       Some(r.document.authorName), Some(r.document.authorUrl), r.document.content.None?,
                       Some(r.publishedAt), Some(r.updatedAt), None, None),
        r.document.content)
    else
      Article(
        ArticleSummary(id, r.accountId, Tombstone, r.createdAt, None, None, None, None, false, None, None,
                       r.tombstone.value.reason, Some(r.tombstone.value.tombstonedAt)),
        None)
  }

  /** `get` returns exactly what the record says, every field of it. */
  lemma GetReadsRecord(db: Db, id: Uuid, r: Record)
    requires Represents(db, id, r)
    ensures GetView(db, id) == Ok(ArticleOf(id, r))
  {
    var top: nat :| Safety.ArticleOk(db, top, id);
    if r.Live() {
      assert (id, r.version) in db.versions;
      assert Safety.RowOk(db.versions[(id, r.version)]);
    }
  }

  /** A new article starts its record with the submitted fields at version 1. */
  lemma PublishStartsRecord(db: Db, id: Uuid, entry: NewEntry, now: Time)
    requires Safety.ArticleOk(db, 0, id)
    ensures Represents(After(db, PublishArticle(id, entry), now), id,
                       Record(entry.accountId, now,
                              Document(entry.title, entry.authorName, entry.authorUrl, Some(entry.content)),
                              1, now, now, None))
  {
    assert Safety.ArticleOk(After(db, PublishArticle(id, entry), now), 1, id);
  }

  /** Run serially, an edit right after a redaction of the current version carries no redacted
      content: it stores the edit's own content, or the empty document. */
  lemma EditAfterRedactionDropsContent(db: Db, id: Uuid, r: Record, e: Edit, why: string, t1: Time, t2: Time)
    requires Represents(db, id, r) && r.Live() && r.version < MAX_VERSION
    ensures var calls := [Call(RedactVersion(id, r.version, why), t1), Call(EditArticle(id, e), t2)];
            var after := RunCalls(db, calls);
            && (id, r.version + 1) in after.versions
            && after.versions[(id, r.version + 1)].content == Some(e.content.GetOr(Array([])))
            && (id, r.version) in after.versions && after.versions[(id, r.version)].content.None?
  {
    var calls := [Call(RedactVersion(id, r.version, why), t1), Call(EditArticle(id, e), t2)];
    var mid := After(db, calls[0].op, t1);
    assert calls[1..] == [calls[1]] && calls[1..][1..] == [];
    assert RunCalls(db, calls) == RunCalls(mid, calls[1..]) == After(mid, calls[1].op, t2);
    StepRefines(db, calls[0], id, r);
    var top: nat :| Safety.ArticleOk(db, top, id);
    assert Safety.RowOk(db.versions[(id, r.version)]);
  }

  /** In a serial call, version rows change only by redaction of exactly the named version, which takes the
      content, records when and why, and leaves everything else of the row. */
  lemma SerialRedactsOnly(db: Db, op: Op, now: Time, key: (Uuid, int))
    requires key in db.versions
    ensures key in After(db, op, now).versions
    ensures After(db, op, now).versions[key] != db.versions[key] ==>
              var v := db.versions[key];
              && op.RedactVersion? && key == (op.id, op.number)
              && After(db, op, now).versions[key]
                 == VersionRow(v.title, v.authorName, v.authorUrl, None, Some(now), Some(op.redaction), v.createdAt)
  {
  }

  /** A version row is added with content, unredacted and stamped with the time of its transaction, under the
      number after the current one; an absent author is NULL, never the empty string. */
  lemma AddedVersionIsFresh(db: Db, op: Op, now: Time, key: (Uuid, int))
    requires key !in db.versions && key in After(db, op, now).versions
    ensures key.0 == op.id && key.1 == if op.EditArticle? then db.live[op.id].currentVersion + 1 else 1
    ensures var v := After(db, op, now).versions[key];
            && v.content.Some? && v.redactedAt.None? && v.redactionReason.None? && v.createdAt == now
            && (v.authorName == Some("") || v.authorUrl == Some("") ==>
                  op.PublishDraft? && op.id in db.drafts
                  && v.authorName == db.drafts[op.id].authorName && v.authorUrl == db.drafts[op.id].authorUrl)
  {
    hide UpdatedDraft, NewDraftRow;
  }
}
