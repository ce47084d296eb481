/** One id from draft to article: a draft is a record that updates overwrite in place, and publishing
    hands exactly its last fields to version 1 of the article. */
module DraftRecords {
  import opened Core
  import opened Tables
  import opened TransactionProtocol
  import opened SerialTransactions
  import opened VersionChain
  import Safety = TransactionSafety

  /** A draft as its author sees it; an absent author is the empty string. */
  datatype Draft = Draft(
    accountId: Uuid, title: string, authorName: string, authorUrl: string, content: Json,
    createdAt: Time, updatedAt: Time)

  datatype Life = Absent | Drafting(draft: Draft) | Published(record: Record)

  /** Rewrites the masked fields and stamps the time. */
  function Rewrite(d: Draft, e: Edit, now: Time): Draft {
    d.(title := e.title.GetOr(d.title), authorName := e.authorName.GetOr(d.authorName),
       authorUrl := e.authorUrl.GetOr(d.authorUrl), content := e.content.GetOr(d.content), updatedAt := now)
  }

  function NewDraft(n: NewEntry, now: Time): Draft {
    Draft(n.accountId, n.title, n.authorName, n.authorUrl, n.content, now, now)
  }

  /** Version 1 holds the fields the article was published with. */
  function NewRecord(accountId: Uuid, document: Document, now: Time): Record {
    Record(accountId, now, document, 1, now, now, None)
  }

  function LifeStep(life: Life, op: Op, now: Time): Life {
    match life
    case Absent => (
      match op
      case CreateDraft(_, n) => Drafting(NewDraft(n, now))
      case PublishArticle(_, n) =>
        Published(NewRecord(n.accountId, Document(n.title, n.authorName, n.authorUrl, Some(n.content)), now))
      case _ => Absent
    )
    case Drafting(d) => (
      match op
      case UpdateDraft(_, e) => Drafting(Rewrite(d, e, now))
      case DeleteDraft(_) => Absent
      case PublishDraft(_) =>
        Published(NewRecord(d.accountId, Document(d.title, d.authorName, d.authorUrl, Some(d.content)), now))
      case _ => life
    )
    case Published(r) => Published(RecordStep(r, op, now))
  }

  /** A new draft or article gets an id that nothing has. */
  predicate Minted(life: Life, op: Op) {
    MintsId(op) ==> life.Absent?
  }

  /** The tables hold `id` as `life`. */
  ghost predicate Holds(db: Db, id: Uuid, life: Life) {
    match life
    case Absent => id !in db.drafts && Safety.ArticleOk(db, 0, id)
    case Drafting(d) =>
      && id in db.drafts && Safety.ArticleOk(db, 0, id)
      && db.drafts[id] == DraftRow(d.accountId, d.title, if d.authorName == "" then None else Some(d.authorName),
                                   if d.authorUrl == "" then None else Some(d.authorUrl), d.content,
                                   d.createdAt, d.updatedAt)
    case Published(r) => id !in db.drafts && Represents(db, id, r)
  }

  lemma OthersKeepLife(db: Db, call: Call, id: Uuid, life: Life)
    requires Holds(db, id, life) && call.op.id != id
    ensures Holds(After(db, call.op, call.now), id, life)
  {
    var db' := After(db, call.op, call.now);
    assert id in db'.drafts <==> id in db.drafts;
    assert id in db.drafts ==> db'.drafts[id] == db.drafts[id];
    if life.Published? {
      StepRefines(db, call, id, life.record);
    } else {
      VersionChain.SerialLeavesOthers(db, 0, call.op, call.now, id);
    }
  }

  lemma AbsentStep(db: Db, call: Call, id: Uuid)
    requires Holds(db, id, Absent) && call.op.id == id
    ensures Holds(After(db, call.op, call.now), id, LifeStep(Absent, call.op, call.now))
  {
    if call.op.PublishArticle? {
      PublishStartsRecord(db, id, call.op.entry, call.now);
    }
  }

  /** Publishing a stored draft leaves an article with exactly the draft's fields at version 1, and no draft. */
  lemma PublishDraftStartsRecord(db: Db, id: Uuid, now: Time)
    requires id in db.drafts && Safety.ArticleOk(db, 0, id)
    ensures var d := db.drafts[id];
            Represents(After(db, PublishDraft(id), now), id,
                       Record(d.accountId, now,
                              Document(d.title, d.authorName.GetOr(""), d.authorUrl.GetOr(""), Some(d.content)),
                              1, now, now, None))
    ensures id !in After(db, PublishDraft(id), now).drafts
  {
    assert Safety.ArticleOk(After(db, PublishDraft(id), now), 1, id);
  }

  lemma DraftStep(db: Db, call: Call, id: Uuid, d: Draft)
    requires Holds(db, id, Drafting(d)) && call.op.id == id && !MintsId(call.op)
    ensures Holds(After(db, call.op, call.now), id, LifeStep(Drafting(d), call.op, call.now))
  {
    if call.op.PublishDraft? {
      PublishDraftStartsRecord(db, id, call.now);
    }
  }

  lemma PublishedStep(db: Db, call: Call, id: Uuid, r: Record)
    requires Holds(db, id, Published(r)) && call.op.id == id && !MintsId(call.op)
    ensures Holds(After(db, call.op, call.now), id, Published(RecordStep(r, call.op, call.now)))
  {
    StepRefines(db, call, id, r);
  }

  lemma LifeStepRefines(db: Db, call: Call, id: Uuid, life: Life)
    requires Holds(db, id, life) && (call.op.id == id ==> Minted(life, call.op))
    ensures Holds(After(db, call.op, call.now), id, if call.op.id == id then LifeStep(life, call.op, call.now) else life)
  {
    hide Holds, After, LifeStep;
    if call.op.id != id {
      OthersKeepLife(db, call, id, life);
    } else {
      match life {
        case Absent => AbsentStep(db, call, id);
        case Drafting(d) => DraftStep(db, call, id, d);
        case Published(r) => PublishedStep(db, call, id, r);
      }
      assert life.Published? ==> LifeStep(life, call.op, call.now) == Published(RecordStep(life.record, call.op, call.now))
        by { StepOfPublished(life, call.op, call.now); }
    }
  }

  lemma StepOfPublished(life: Life, op: Op, now: Time)
    ensures life.Published? ==> LifeStep(life, op, now) == Published(RecordStep(life.record, op, now))
  {
  }

  function LifeRun(life: Life, calls: seq<Call>, id: Uuid): Life
    decreases |calls|
  {
    if calls == [] then life
    else LifeRun(if calls[0].op.id == id then LifeStep(life, calls[0].op, calls[0].now) else life, calls[1..], id)
  }

  predicate AllMinted(life: Life, calls: seq<Call>, id: Uuid)
    decreases |calls|
  {
    calls == [] ||
    var op, now := calls[0].op, calls[0].now;
    && (op.id == id ==> Minted(life, op))
    && AllMinted(if op.id == id then LifeStep(life, op, now) else life, calls[1..], id)
  }

  lemma {:induction false} RunRefinesLife(db: Db, calls: seq<Call>, id: Uuid, life: Life)
    requires Holds(db, id, life) && AllMinted(life, calls, id)
    ensures Holds(RunCalls(db, calls), id, LifeRun(life, calls, id))
    decreases |calls|
  {
    hide Holds, After, LifeStep, Minted;
    if calls != [] {
      var next := if calls[0].op.id == id then LifeStep(life, calls[0].op, calls[0].now) else life;
      LifeStepRefines(db, calls[0], id, life);
      RunRefinesLife(After(db, calls[0].op, calls[0].now), calls[1..], id, next);
    }
  }

  /**
   From the empty tables, whatever calls run one after another: for every id, what the tables hold is what
   the same calls leave in one record that is absent, then a draft, then an article. Creating keeps every
   submitted field, an update overwrites the masked ones, publishing hands all of them over, and `get` reads
   the article off that record.
   */
  lemma TablesRefineLives(calls: seq<Call>, id: Uuid)
    requires AllMinted(Absent, calls, id)
    ensures var db, life := RunCalls(EMPTY_DB, calls), LifeRun(Absent, calls, id);
            && Holds(db, id, life)
            && GetView(db, id) == if life.Published? then Ok(ArticleOf(id, life.record)) else Err(ArticleNotFound)
  {
    assert Holds(EMPTY_DB, id, Absent);
    RunRefinesLife(EMPTY_DB, calls, id, Absent);
    var life := LifeRun(Absent, calls, id);
    if life.Published? {
      GetReadsRecord(RunCalls(EMPTY_DB, calls), id, life.record);
    }
  }

  /** Every call fails exactly as the record says: what is not there is not found, what has ended is tombstoned, an
      id that is taken or a number that does not fit is internal; otherwise it succeeds. */
  lemma FailsAsRecordSays(db: Db, op: Op, now: Time, life: Life)
    requires Holds(db, op.id, life)
    ensures var s := Serial(db, op, now);
            match op
            case PublishArticle(_, _) => if life.Published? then s == Err(Internal) else s.Ok?
            case EditArticle(_, _) =>
              if !life.Published? then s == Err(ArticleNotFound)
              else if life.record.tombstone.Some? then s == Err(ArticleTombstoned)
              else if life.record.version >= 0x7FFF_FFFF then s == Err(Internal) else s.Ok?
            case TombstoneArticle(_, _) =>
              if !life.Published? then s == Err(ArticleNotFound)
              else if life.record.tombstone.Some? then s == Err(ArticleTombstoned) else s.Ok?
            case RedactVersion(id, n, _) =>
              if !life.Published? then s == Err(ArticleNotFound)
              else if (id, n) !in db.versions then s == Err(VersionNotFound)
              else if db.versions[(id, n)].content.None? then s == Err(VersionAlreadyRedacted) else s.Ok?
            case CreateDraft(_, _) => if life.Drafting? then s == Err(Internal) else s.Ok?
            case _ => if life.Drafting? then s.Ok? else s == Err(DraftNotFound)
  {
    var id := op.id;
    if life.Published? {
      var top: nat :| Safety.ArticleOk(db, top, id);
      if op.RedactVersion? && (id, op.number) in db.versions {
        assert Safety.RowOk(db.versions[(id, op.number)]);
      }
      if life.record.Live() {
        assert (id, life.record.version) in db.versions;
      }
    }
    hide FirstVersion, NextVersion, Redacted, UpdatedDraft, NewDraftRow, DraftVersion;
  }

  /** The stored columns of a draft that was created or updated, each on its own: an empty author is NULL, a column
      outside the mask is as it was, and only the time of the last change moves. */
  lemma DraftColumns(db: Db, id: Uuid, n: NewEntry, e: Edit, now: Time)
    ensures id !in db.drafts ==>
              After(db, CreateDraft(id, n), now).drafts
              == db.drafts[id := DraftRow(n.accountId, n.title, if n.authorName == "" then None else Some(n.authorName),
                                          if n.authorUrl == "" then None else Some(n.authorUrl), n.content, now, now)]
    ensures id in db.drafts ==>
              var d, after := db.drafts[id], After(db, UpdateDraft(id, e), now).drafts;
              && id in after && after == db.drafts[id := after[id]]
              && after[id].title == (if e.title.Some? then e.title.value else d.title)
              && after[id].authorName == (if e.authorName.None? then d.authorName
                                          else if e.authorName.value == "" then None else e.authorName)
              && after[id].authorUrl == (if e.authorUrl.None? then d.authorUrl
                                         else if e.authorUrl.value == "" then None else e.authorUrl)
              && after[id].content == (if e.content.Some? then e.content.value else d.content)
              && after[id].accountId == d.accountId && after[id].createdAt == d.createdAt && after[id].updatedAt == now
  {
  }

  /** The columns of a version that an edit adds, each on its own. */
  lemma VersionColumns(db: Db, id: Uuid, e: Edit, now: Time)
    requires Serial(db, EditArticle(id, e), now).Ok?
    ensures var n, after := db.live[id].currentVersion, After(db, EditArticle(id, e), now);
            && after.live[id] == LiveRow(n + 1, db.live[id].publishedAt, now)
            && (id, n + 1) in after.versions
            && var base, v := db.versions[(id, n)], after.versions[(id, n + 1)];
               && v.title == (if e.title.Some? then e.title.value else base.title)
               && v.authorName.GetOr("") == (if e.authorName.Some? then e.authorName.value else base.authorName.GetOr(""))
               && v.authorUrl.GetOr("") == (if e.authorUrl.Some? then e.authorUrl.value else base.authorUrl.GetOr(""))
               && v.content == (if e.content.Some? then e.content else if base.content.Some? then base.content else Some(Array([])))
  {
  }
}
