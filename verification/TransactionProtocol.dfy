/**
 The article and draft transactions as a state machine over their SQL statements, under Read
 Committed. Any number of transactions interleave, one statement at a time. A statement reads the
 committed tables overlaid with its own transaction's writes. An INSERT waits while another open
 transaction has written the same key, then fails on a committed duplicate. An UPDATE, DELETE or
 SELECT FOR UPDATE of a committed row waits while another open transaction holds that row, then
 runs on the row's latest committed version, or on no row when it is gone. A waiting statement is
 one that is not enabled. A transaction may roll back at any point (error, deadlock, lost
 connection); a commit is atomic.
 */
module TransactionProtocol {
  import opened Core
  import opened Tables

  datatype Op =
    | PublishArticle(id: Uuid, entry: NewEntry)
    | EditArticle(id: Uuid, edit: Edit)
    | TombstoneArticle(id: Uuid, reason: Option<string>)
    | RedactVersion(id: Uuid, number: int, redaction: string)
    | CreateDraft(id: Uuid, entry: NewEntry)
    | UpdateDraft(id: Uuid, edit: Edit)
    | DeleteDraft(id: Uuid)
    | PublishDraft(id: Uuid)

  /** The service layer mints a new UUID for these two. */
  predicate MintsId(op: Op) {
    op.PublishArticle? || op.CreateDraft?
  }

  /** A row of one table, for the one id every transaction works on. */
  datatype RowRef = ArticleRef | LiveRef | TombstoneRef | VersionRef(number: int) | DraftRef

  datatype Change<T> = Put(row: T) | Remove

  datatype NumberedVersion = NumberedVersion(number: int, row: VersionRow)

  /** The uncommitted writes of one transaction. */
  datatype Writes = Writes(
    article: Option<ArticleRow>,
    live: Option<Change<LiveRow>>,
    tombstone: Option<TombstoneRow>,
    version: Option<NumberedVersion>,
    draft: Option<Change<DraftRow>>)

  const NO_WRITES := Writes(None, None, None, None, None)

  /** An open transaction: the statement to run next, the rows read so far, the pending writes,
      and whether it holds the draft row by SELECT FOR UPDATE. */
  datatype Tx = Tx(
    op: Op,
    now: Time,
    pc: nat,
    article: Option<ArticleRow>,
    live: Option<LiveRow>,
    version: Option<VersionRow>,
    draft: Option<DraftRow>,
    locksDraft: bool,
    writes: Writes)

  function Start(op: Op, now: Time): Tx {
    Tx(op, now, 0, None, None, None, None, false, NO_WRITES)
  }

  /** The number of statements; a transaction with `pc` there can commit. */
  function Length(op: Op): nat {
    match op
    case PublishArticle(_, _) => 3
    case EditArticle(_, _) => 5
    case TombstoneArticle(_, _) => 4
    case RedactVersion(_, _, _) => 5
    case CreateDraft(_, _) => 1
    case UpdateDraft(_, _) => 7
    case DeleteDraft(_) => 1
    case PublishDraft(_) => 5
  }

  predicate Ready(tx: Tx) {
    tx.pc >= Length(tx.op)
  }

  predicate HasWritten(tx: Tx, ref: RowRef) {
    match ref
    case ArticleRef => tx.writes.article.Some?
    case LiveRef => tx.writes.live.Some?
    case TombstoneRef => tx.writes.tombstone.Some?
    case VersionRef(n) => tx.writes.version.Some? && tx.writes.version.value.number == n
    case DraftRef => tx.writes.draft.Some?
  }

  predicate Holds(tx: Tx, ref: RowRef) {
    HasWritten(tx, ref) || (ref.DraftRef? && tx.locksDraft)
  }

  predicate Committed(db: Db, id: Uuid, ref: RowRef) {
    match ref
    case ArticleRef => id in db.articles
    case LiveRef => id in db.live
    case TombstoneRef => id in db.tombstones
    case VersionRef(n) => (id, n) in db.versions
    case DraftRef => id in db.drafts
  }

  /** What the next statement needs: nothing (a plain SELECT), a new key, or an existing row. */
  datatype Demand = Nothing | Insert(ref: RowRef) | Modify(ref: RowRef)

  /** Whether statement `pc` of a draft update runs: one UPDATE per masked column, then `updated_at`. */
  predicate SetsColumn(e: Edit, pc: nat) {
    (pc == 1 && e.title.Some?) || (pc == 2 && e.authorName.Some?) ||
    (pc == 3 && e.authorUrl.Some?) || (pc == 4 && e.content.Some?) || pc == 5
  }

  function NextDemand(tx: Tx): Demand {
    match tx.op
    case PublishArticle(_, _) =>
      if tx.pc == 0 then Insert(ArticleRef) else if tx.pc == 1 then Insert(LiveRef) else Insert(VersionRef(1))
    case EditArticle(_, _) =>
      if tx.pc == 3 && tx.live.Some? then Insert(VersionRef(tx.live.value.currentVersion + 1))
      else if tx.pc == 4 then Modify(LiveRef) else Nothing
    case TombstoneArticle(_, _) =>
      if tx.pc == 1 then Modify(ArticleRef)
      else if tx.pc == 2 then Insert(TombstoneRef)
      else if tx.pc == 3 then Modify(LiveRef) else Nothing
    case RedactVersion(_, n, _) =>
      if tx.pc == 2 then Modify(VersionRef(n))
      else if tx.pc == 4 && tx.live.Some? && tx.live.value.currentVersion == n then Modify(LiveRef)
      else Nothing
    case CreateDraft(_, _) => Insert(DraftRef)
    case UpdateDraft(_, e) =>
      if SetsColumn(e, tx.pc) then Modify(DraftRef) else Nothing
    case DeleteDraft(_) => Modify(DraftRef)
    case PublishDraft(_) =>
      if tx.pc == 0 then Modify(DraftRef)
      else if tx.pc == 1 then Insert(ArticleRef)
      else if tx.pc == 2 then Insert(LiveRef)
      else if tx.pc == 3 then Insert(VersionRef(1))
      else Modify(DraftRef)
  }

  datatype Outcome = Moved(tx: Tx) | Failed(error: RepoError)

  /** The draft row a statement of `tx` sees: its own write first, then the committed table. */
  function VisibleDraft(db: Db, tx: Tx): Option<DraftRow> {
    match tx.writes.draft
    case Some(Put(row)) => Some(row)
    case Some(Remove) => None
    case None => if tx.op.id in db.drafts then Some(db.drafts[tx.op.id]) else None
  }

  function WithColumn(d: DraftRow, e: Edit, pc: nat, now: Time): DraftRow
    requires SetsColumn(e, pc)
  {
    match pc
    case 1 => d.(title := e.title.value)
    case 2 => d.(authorName := NonEmpty(e.authorName.value))
    case 3 => d.(authorUrl := NonEmpty(e.authorUrl.value))
    case 4 => d.(content := e.content.value)
    case _ => d.(updatedAt := now)
  }

  /** An UPDATE that finds no row does nothing, and the count is not looked at. */
  function UpdateDraftStatement(db: Db, tx: Tx): Outcome
    requires tx.op.UpdateDraft?
  {
    var seen := VisibleDraft(db, tx);
    var next := tx.(pc := tx.pc + 1);
    if tx.pc == 0 then
      if seen.None? then Failed(DraftNotFound) else Moved(next)
    else if tx.pc <= 5 then
      if SetsColumn(tx.op.edit, tx.pc) && seen.Some?
      then Moved(next.(writes := next.writes.(draft := Some(Put(WithColumn(seen.value, tx.op.edit, tx.pc, tx.now))))))
      else Moved(next)
    else
      if seen.None? then Failed(Internal) else Moved(next.(draft := seen))
  }

  /** `UPDATE articles_live SET current_version, updated_at`: touches the committed row if there is one. */
  function SetLive(db: Db, tx: Tx, version: Option<int>): Tx {
    var id := tx.op.id;
    var next := tx.(pc := tx.pc + 1);
    if id !in db.live then next
    else
      var row := db.live[id];
      next.(writes := next.writes.(
        live := Some(Put(row.(currentVersion := version.GetOr(row.currentVersion), updatedAt := tx.now)))))
  }

  /** The three inserts a publication makes, numbered from `at`. */
  function PublishStatement(db: Db, tx: Tx, at: nat, account: Uuid, first: VersionRow): Outcome
    requires at <= tx.pc
  {
    var id := tx.op.id;
    var next := tx.(pc := tx.pc + 1);
    if tx.pc == at then
      if id in db.articles then Failed(Internal)
      else Moved(next.(writes := next.writes.(article := Some(ArticleRow(account, Live, tx.now)))))
    else if tx.pc == at + 1 then
      if id in db.live then Failed(Internal)
      else Moved(next.(writes := next.writes.(live := Some(Put(LiveRow(1, tx.now, tx.now))))))
    else
      if (id, 1) in db.versions then Failed(Internal)
      else Moved(next.(writes := next.writes.(version := Some(NumberedVersion(1, first)))))
  }

  /** Runs the next statement of `tx`, which is not waiting, on the committed tables `db`. */
  function Exec(db: Db, tx: Tx): Outcome
    requires !Ready(tx)
  {
    var id := tx.op.id;
    var next := tx.(pc := tx.pc + 1);
    match tx.op
    case PublishArticle(_, entry) =>
      PublishStatement(db, tx, 0, entry.accountId, FirstVersion(entry, tx.now))
    case EditArticle(_, e) => (
      match tx.pc
      case 0 =>
        if id !in db.articles then Failed(ArticleNotFound)
        else if db.articles[id].state.Tombstone? then Failed(ArticleTombstoned)
        else Moved(next.(article := Some(db.articles[id])))
      case 1 =>
        if id !in db.live then Failed(Internal) else Moved(next.(live := Some(db.live[id])))
      case 2 =>
        if tx.live.None? || (id, tx.live.value.currentVersion) !in db.versions then Failed(Internal)
        else Moved(next.(version := Some(db.versions[(id, tx.live.value.currentVersion)])))
      case 3 =>
        if tx.live.None? || tx.version.None? || tx.live.value.currentVersion >= MAX_VERSION then Failed(Internal)
        else
          var n := tx.live.value.currentVersion + 1;
          if (id, n) in db.versions then Failed(Internal)
          else Moved(next.(writes := next.writes.(
                       version := Some(NumberedVersion(n, NextVersion(tx.version.value, e, tx.now))))))
      case _ =>
        if tx.live.None? then Failed(Internal)
        else
          var n := tx.live.value.currentVersion + 1;
          Moved(SetLive(db, tx, Some(n)))
    )
    case TombstoneArticle(_, reason) => (
      match tx.pc
      case 0 =>
        if id !in db.articles then Failed(ArticleNotFound)
        else if db.articles[id].state.Tombstone? then Failed(ArticleTombstoned)
        else Moved(next.(article := Some(db.articles[id])))
      case 1 =>
        if id !in db.articles then Moved(next)
        else Moved(next.(writes := next.writes.(article := Some(db.articles[id].(state := Tombstone)))))
      case 2 =>
        if id in db.tombstones then Failed(Internal)
        else Moved(next.(writes := next.writes.(tombstone := Some(TombstoneRow(reason, tx.now)))))
      case _ =>
        if id !in db.live then Moved(next) else Moved(next.(writes := next.writes.(live := Some(Remove))))
    )
    case RedactVersion(_, n, why) => (
      match tx.pc
      case 0 =>
        if id !in db.articles then Failed(ArticleNotFound) else Moved(next.(article := Some(db.articles[id])))
      case 1 =>
        if (id, n) !in db.versions then Failed(VersionNotFound)
        else if db.versions[(id, n)].redactedAt.Some? then Failed(VersionAlreadyRedacted)
        else Moved(next.(version := Some(db.versions[(id, n)])))
      case 2 =>
        if (id, n) !in db.versions then Moved(next)
        else Moved(next.(writes := next.writes.(
                     version := Some(NumberedVersion(n, Redacted(db.versions[(id, n)], why, tx.now))))))
      case 3 =>
        if tx.article.Some? && tx.article.value.state.Live? then
          if id !in db.live then Failed(Internal) else Moved(next.(live := Some(db.live[id])))
        else Moved(next)
      case _ =>
        if tx.live.Some? && tx.live.value.currentVersion == n
        then Moved(SetLive(db, tx, None))
        else Moved(next)
    )
    case CreateDraft(_, entry) =>
      if id in db.drafts then Failed(Internal)
      else Moved(next.(writes := next.writes.(draft := Some(Put(NewDraftRow(entry, tx.now))))))
    case UpdateDraft(_, _) => UpdateDraftStatement(db, tx)
    case DeleteDraft(_) =>
      if id !in db.drafts then Failed(DraftNotFound)
      else Moved(next.(writes := next.writes.(draft := Some(Remove))))
    case PublishDraft(_) =>
      if tx.pc == 0 then
        if id !in db.drafts then Failed(DraftNotFound)
        else Moved(next.(draft := Some(db.drafts[id]), locksDraft := true))
      else if tx.pc == 4 then
        if id !in db.drafts then Moved(next) else Moved(next.(writes := next.writes.(draft := Some(Remove))))
      else if tx.draft.None? then Failed(Internal)
      else PublishStatement(db, tx, 1, tx.draft.value.accountId, DraftVersion(tx.draft.value, tx.now))
  }

  function Overlay<T>(table: map<Uuid, T>, id: Uuid, change: Option<Change<T>>): map<Uuid, T> {
    match change
    case None => table
    case Some(Put(row)) => table[id := row]
    case Some(Remove) => table - {id}
  }

  /** The tables after `tx` commits. */
  function Apply(db: Db, tx: Tx): Db {
    var id := tx.op.id;
    var w := tx.writes;
    Db(if w.article.Some? then db.articles[id := w.article.value] else db.articles,
       Overlay(db.live, id, w.live),
       if w.tombstone.Some? then db.tombstones[id := w.tombstone.value] else db.tombstones,
       if w.version.Some? then db.versions[(id, w.version.value.number) := w.version.value.row] else db.versions,
       Overlay(db.drafts, id, w.draft))
  }

  type TxId = nat

  datatype CommitRecord = CommitRecord(op: Op, now: Time, version: Option<NumberedVersion>)

  /** The whole system. `used` holds every id minted so far, `log` the commits in order, and
      `published` the last committed row of every draft that became an article. */
  datatype Sys = Sys(
    db: Db,
    open: map<TxId, Tx>,
    used: set<Uuid>,
    log: seq<CommitRecord>,
    published: map<Uuid, DraftRow>)

  const INITIAL := Sys(EMPTY_DB, map[], {}, [], map[])

  datatype Action =
    | Begin(t: TxId, op: Op, now: Time)
    | Statement(t: TxId)
    | Commit(t: TxId)
    | Rollback(t: TxId)

  ghost predicate OtherHolds(s: Sys, t: TxId, id: Uuid, ref: RowRef) {
    exists u :: u in s.open && u != t && s.open[u].op.id == id && Holds(s.open[u], ref)
  }

  ghost predicate OtherHasWritten(s: Sys, t: TxId, id: Uuid, ref: RowRef) {
    exists u :: u in s.open && u != t && s.open[u].op.id == id && HasWritten(s.open[u], ref)
  }

  ghost predicate MustWait(s: Sys, t: TxId)
    requires t in s.open
  {
    var id := s.open[t].op.id;
    match NextDemand(s.open[t])
    case Nothing => false
    case Insert(ref) => OtherHasWritten(s, t, id, ref)
    case Modify(ref) => Committed(s.db, id, ref) && OtherHolds(s, t, id, ref)
  }

  function Closed(s: Sys, t: TxId): Sys {
    s.(open := s.open - {t})
  }

  function CommitTx(s: Sys, t: TxId): Sys
    requires t in s.open
  {
    var tx := s.open[t];
    var id := tx.op.id;
    Sys(Apply(s.db, tx), s.open - {t}, s.used, s.log + [CommitRecord(tx.op, tx.now, tx.writes.version)],
        if tx.op.PublishDraft? && id in s.db.drafts then s.published[id := s.db.drafts[id]] else s.published)
  }

  /** One step of the system; an action that is not enabled changes nothing. */
  ghost function Step(s: Sys, a: Action): Sys {
    match a
    case Begin(t, op, now) =>
      if t in s.open || (MintsId(op) && op.id in s.used) then s
      else s.(open := s.open[t := Start(op, now)], used := if MintsId(op) then s.used + {op.id} else s.used)
    case Statement(t) =>
      if t !in s.open || Ready(s.open[t]) || MustWait(s, t) then s
      else (
        match Exec(s.db, s.open[t])
        case Moved(tx) => s.(open := s.open[t := tx])
        case Failed(_) => Closed(s, t)
      )
    case Commit(t) =>
      if t !in s.open || !Ready(s.open[t]) then s else CommitTx(s, t)
    case Rollback(t) => Closed(s, t)
  }

  /** An interleaving is any list of actions. */
  ghost function Run(s: Sys, actions: seq<Action>): Sys
    decreases |actions|
  {
    if actions == [] then s else Run(Step(s, actions[0]), actions[1..])
  }
}
