/** What each article and draft transaction does when no other one runs beside it, and how an
    article reads back. */
module SerialTransactions {
  import opened Core
  import opened Tables
  import opened TransactionProtocol

  // ----- Transactions --------------------------------------------------------------------------

  function PublishSerial(db: Db, id: Uuid, account: Uuid, first: VersionRow, now: Time): Result<Db, RepoError> {
    if id in db.articles || id in db.live || (id, 1) in db.versions then Err(Internal)
    else Ok(db.(articles := db.articles[id := ArticleRow(account, Live, now)],
                live := db.live[id := LiveRow(1, now, now)],
                versions := db.versions[(id, 1) := first]))
  }

  function EditSerial(db: Db, id: Uuid, edit: Edit, now: Time): Result<Db, RepoError> {
    if id !in db.articles then Err(ArticleNotFound)
    else if db.articles[id].state.Tombstone? then Err(ArticleTombstoned)
    else if id !in db.live then Err(Internal)
    else
      var current := db.live[id].currentVersion;
      if (id, current) !in db.versions || current >= MAX_VERSION || (id, current + 1) in db.versions
      then Err(Internal)
      else Ok(db.(versions := db.versions[(id, current + 1) := NextVersion(db.versions[(id, current)], edit, now)],
                  live := db.live[id := db.live[id].(currentVersion := current + 1, updatedAt := now)]))
  }

  function TombstoneSerial(db: Db, id: Uuid, reason: Option<string>, now: Time): Result<Db, RepoError> {
    if id !in db.articles then Err(ArticleNotFound)
    else if db.articles[id].state.Tombstone? then Err(ArticleTombstoned)
    else if id in db.tombstones then Err(Internal)
    else Ok(db.(articles := db.articles[id := db.articles[id].(state := Tombstone)],
                tombstones := db.tombstones[id := TombstoneRow(reason, now)],
                live := db.live - {id}))
  }

  function RedactSerial(db: Db, id: Uuid, number: int, why: string, now: Time): Result<Db, RepoError> {
    if id !in db.articles then Err(ArticleNotFound)
    else if (id, number) !in db.versions then Err(VersionNotFound)
    else if db.versions[(id, number)].redactedAt.Some? then Err(VersionAlreadyRedacted)
    else
      var redacted := db.(versions := db.versions[(id, number) := Redacted(db.versions[(id, number)], why, now)]);
      if db.articles[id].state.Tombstone? then Ok(redacted)
      else if id !in db.live then Err(Internal)
      else if db.live[id].currentVersion != number then Ok(redacted)
      else Ok(redacted.(live := db.live[id := db.live[id].(updatedAt := now)]))
  }

  function UpdatedDraft(d: DraftRow, e: Edit, now: Time): DraftRow {
    DraftRow(
      d.accountId,
      e.title.GetOr(d.title),
      if e.authorName.Some? then NonEmpty(e.authorName.value) else d.authorName,
      if e.authorUrl.Some? then NonEmpty(e.authorUrl.value) else d.authorUrl,
      e.content.GetOr(d.content),
      d.createdAt,
      now)
  }

  function PublishDraftSerial(db: Db, id: Uuid, now: Time): Result<Db, RepoError> {
    if id !in db.drafts then Err(DraftNotFound)
    else
      var published := PublishSerial(db, id, db.drafts[id].accountId, DraftVersion(db.drafts[id], now), now);
      if published.Err? then published else Ok(published.value.(drafts := db.drafts - {id}))
  }

  /** The committed effect of one transaction run alone, or its error, which leaves no effect. */
  function Serial(db: Db, op: Op, now: Time): Result<Db, RepoError> {
    match op
    case PublishArticle(id, entry) => PublishSerial(db, id, entry.accountId, FirstVersion(entry, now), now)
    case EditArticle(id, edit) => EditSerial(db, id, edit, now)
    case TombstoneArticle(id, reason) => TombstoneSerial(db, id, reason, now)
    case RedactVersion(id, number, why) => RedactSerial(db, id, number, why, now)
    case CreateDraft(id, entry) =>
      if id in db.drafts then Err(Internal) else Ok(db.(drafts := db.drafts[id := NewDraftRow(entry, now)]))
    case UpdateDraft(id, edit) =>
      if id !in db.drafts then Err(DraftNotFound)
      else Ok(db.(drafts := db.drafts[id := UpdatedDraft(db.drafts[id], edit, now)]))
    case DeleteDraft(id) =>
      if id !in db.drafts then Err(DraftNotFound) else Ok(db.(drafts := db.drafts - {id}))
    case PublishDraft(id) => PublishDraftSerial(db, id, now)
  }

  function After(db: Db, op: Op, now: Time): Db {
    match Serial(db, op, now)
    case Ok(t) => t
    case Err(_) => db
  }

  // ----- Reading back --------------------------------------------------------------------------

  datatype ArticleSummary = ArticleSummary(
    id: Uuid,
    accountId: Uuid,
    state: ArticleState,
    createdAt: Time,
    currentVersion: Option<int>,
    title: Option<string>,
    authorName: Option<string>,
    authorUrl: Option<string>,
    redacted: bool,
    publishedAt: Option<Time>,
    updatedAt: Option<Time>,
    tombstoneReason: Option<string>,
    tombstonedAt: Option<Time>)

  datatype Article = Article(summary: ArticleSummary, content: Option<Json>)

  function LiveSummary(id: Uuid, a: ArticleRow, l: LiveRow, v: VersionRow): ArticleSummary {
    ArticleSummary(id, a.accountId, Live, a.createdAt, Some(l.currentVersion), Some(v.title),
                   Some(v.authorName.GetOr("")), Some(v.authorUrl.GetOr("")), v.redactedAt.Some?,
                   Some(l.publishedAt), Some(l.updatedAt), None, None)
  }

  function TombstoneSummary(id: Uuid, a: ArticleRow, t: TombstoneRow): ArticleSummary {
    ArticleSummary(id, a.accountId, Tombstone, a.createdAt, None, None, None, None, false, None, None,
                   t.reason, Some(t.tombstonedAt))
  }

  function GetView(db: Db, id: Uuid): Result<Article, RepoError> {
    if id !in db.articles then Err(ArticleNotFound)
    else if db.articles[id].state.Live? then
      if id !in db.live || (id, db.live[id].currentVersion) !in db.versions then Err(Internal)
      else
        var v := db.versions[(id, db.live[id].currentVersion)];
        Ok(Article(LiveSummary(id, db.articles[id], db.live[id], v), v.content))
    else if id !in db.tombstones then Err(Internal)
    else Ok(Article(TombstoneSummary(id, db.articles[id], db.tombstones[id]), None))
  }

  // ----- The statement machine run alone -------------------------------------------------------

  /** One more statement on unchanged tables; a ready transaction stays where it is. */
  function Then(db: Db, o: Outcome): Outcome {
    if o.Failed? || Ready(o.tx) then o else Exec(db, o.tx)
  }

  function Repeat(db: Db, o: Outcome, k: nat): Outcome
    decreases k
  {
    if k == 0 then o else Repeat(db, Then(db, o), k - 1)
  }

  /** No transaction has more statements. */
  const LONGEST: nat := 7

  function RunAlone(db: Db, op: Op, now: Time): Result<Db, RepoError> {
    match Repeat(db, Moved(Start(op, now)), LONGEST)
    case Moved(tx) => Ok(Apply(db, tx))
    case Failed(e) => Err(e)
  }

  lemma {:induction false} SevenStatements(db: Db, o: Outcome)
    ensures Repeat(db, o, 7) ==
            Then(db, Then(db, Then(db, Then(db, Then(db, Then(db, Then(db, o)))))))
  {
    var o4 := Then(db, Then(db, Then(db, Then(db, o))));
    assert Repeat(db, o, 7) == Repeat(db, Then(db, o), 6) == Repeat(db, Then(db, Then(db, o)), 5);
    assert Repeat(db, Then(db, Then(db, o)), 5) == Repeat(db, Then(db, Then(db, Then(db, o))), 4) == Repeat(db, o4, 3);
    assert Repeat(db, o4, 3) == Repeat(db, Then(db, o4), 2) == Repeat(db, Then(db, Then(db, o4)), 1);
  }

  lemma AlonePublish(db: Db, op: Op, now: Time)
    requires op.PublishArticle? || op.PublishDraft?
    ensures RunAlone(db, op, now) == Serial(db, op, now)
  {
    SevenStatements(db, Moved(Start(op, now)));
  }

  lemma AloneEdit(db: Db, op: Op, now: Time)
    requires op.EditArticle?
    ensures RunAlone(db, op, now) == Serial(db, op, now)
  {
    SevenStatements(db, Moved(Start(op, now)));
  }

  lemma AloneTombstone(db: Db, op: Op, now: Time)
    requires op.TombstoneArticle?
    ensures RunAlone(db, op, now) == Serial(db, op, now)
  {
    SevenStatements(db, Moved(Start(op, now)));
    if op.id !in db.live {
      assert db.live - {op.id} == db.live;
    }
  }

  lemma AloneRedact(db: Db, op: Op, now: Time)
    requires op.RedactVersion?
    ensures RunAlone(db, op, now) == Serial(db, op, now)
  {
    SevenStatements(db, Moved(Start(op, now)));
  }

  /** `tx` is a draft update about to run statement `pc`, and sees `d`. */
  predicate SeesDraft(db: Db, op: Op, now: Time, o: Outcome, pc: nat, d: DraftRow) {
    && o.Moved? && o.tx.op == op && o.tx.now == now && o.tx.pc == pc
    && o.tx.writes == NO_WRITES.(draft := o.tx.writes.draft)
    && VisibleDraft(db, o.tx) == Some(d)
    && (pc >= 6 ==> o.tx.writes.draft == Some(Put(d)))
  }

  lemma DraftColumnStep(db: Db, op: Op, now: Time, o: Outcome, pc: nat, d: DraftRow)
    requires op.UpdateDraft? && 1 <= pc <= 5 && SeesDraft(db, op, now, o, pc, d)
    ensures SeesDraft(db, op, now, Then(db, o), pc + 1,
                      if SetsColumn(op.edit, pc) then WithColumn(d, op.edit, pc, now) else d)
  {
  }

  lemma DraftLastStep(db: Db, op: Op, now: Time, o: Outcome, d: DraftRow)
    requires op.UpdateDraft? && SeesDraft(db, op, now, o, 6, d)
    ensures Then(db, o).Moved? && Apply(db, Then(db, o).tx) == db.(drafts := db.drafts[op.id := d])
  {
  }

  lemma MissingDraftStops(db: Db, op: Op, now: Time)
    requires op.UpdateDraft? && op.id !in db.drafts
    ensures RunAlone(db, op, now) == Err(DraftNotFound)
  {
    SevenStatements(db, Moved(Start(op, now)));
  }

  lemma DraftFirstStep(db: Db, op: Op, now: Time)
    requires op.UpdateDraft? && op.id in db.drafts
    ensures SeesDraft(db, op, now, Then(db, Moved(Start(op, now))), 1, db.drafts[op.id])
  {
  }

  lemma AloneUpdateDraft(db: Db, op: Op, now: Time)
    requires op.UpdateDraft?
    ensures RunAlone(db, op, now) == Serial(db, op, now)
  {
    var o0 := Moved(Start(op, now));
    SevenStatements(db, o0);
    if op.id !in db.drafts {
      MissingDraftStops(db, op, now);
    } else {
      hide Exec, SeesDraft, Repeat, VisibleDraft;
      var d := db.drafts[op.id];
      var o1 := Then(db, o0);
      DraftFirstStep(db, op, now);
      DraftColumnStep(db, op, now, o1, 1, d);
      var o2, d2 := Then(db, o1), if SetsColumn(op.edit, 1) then WithColumn(d, op.edit, 1, now) else d;
      DraftColumnStep(db, op, now, o2, 2, d2);
      var o3, d3 := Then(db, o2), if SetsColumn(op.edit, 2) then WithColumn(d2, op.edit, 2, now) else d2;
      DraftColumnStep(db, op, now, o3, 3, d3);
      var o4, d4 := Then(db, o3), if SetsColumn(op.edit, 3) then WithColumn(d3, op.edit, 3, now) else d3;
      DraftColumnStep(db, op, now, o4, 4, d4);
      var o5, d5 := Then(db, o4), if SetsColumn(op.edit, 4) then WithColumn(d4, op.edit, 4, now) else d4;
      DraftColumnStep(db, op, now, o5, 5, d5);
      DraftLastStep(db, op, now, Then(db, o5), WithColumn(d5, op.edit, 5, now));
    }
  }

  lemma AloneDraft(db: Db, op: Op, now: Time)
    requires op.CreateDraft? || op.DeleteDraft?
    ensures RunAlone(db, op, now) == Serial(db, op, now)
  {
    SevenStatements(db, Moved(Start(op, now)));
  }

  /** The statement machine, with nothing interleaved, computes the serial transaction. */
  lemma AloneIsSerial(db: Db, op: Op, now: Time)
    ensures RunAlone(db, op, now) == Serial(db, op, now)
  {
    match op
    case PublishArticle(_, _) => AlonePublish(db, op, now);
    case PublishDraft(_) => AlonePublish(db, op, now);
    case EditArticle(_, _) => AloneEdit(db, op, now);
    case TombstoneArticle(_, _) => AloneTombstone(db, op, now);
    case RedactVersion(_, _, _) => AloneRedact(db, op, now);
    case UpdateDraft(_, _) => AloneUpdateDraft(db, op, now);
    case _ => AloneDraft(db, op, now);
  }
}
