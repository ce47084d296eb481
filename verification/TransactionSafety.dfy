/** What every interleaving of the article and draft transactions keeps. */
module TransactionSafety {
  import opened Core
  import opened Tables
  import opened TransactionProtocol

  // ----- The invariant -------------------------------------------------------------------------

  /** Transactions that add one row to `article_versions`. */
  predicate AddsVersion(op: Op) {
    op.PublishArticle? || op.PublishDraft? || op.EditArticle?
  }

  /** How many committed transactions added a version to `id`. */
  function Top(log: seq<CommitRecord>, id: Uuid): nat {
    if log == [] then 0
    else
      var last := log[|log| - 1];
      Top(log[..|log| - 1], id) + if last.op.id == id && AddsVersion(last.op) then 1 else 0
  }

  /** `redacted_at` is set exactly when the content is gone. */
  predicate RowOk(row: VersionRow) {
    row.content.None? <==> row.redactedAt.Some?
  }

  /** The article rows of one id agree with each other and with the number `top` of committed versions. */
  ghost predicate ArticleOk(db: Db, top: nat, id: Uuid) {
    && (forall n :: (id, n) in db.versions <==> 1 <= n <= top)
    && (forall n :: (id, n) in db.versions ==> RowOk(db.versions[(id, n)]))
    && (id in db.articles <==> top >= 1)
    && (id in db.live <==> id in db.articles && db.articles[id].state.Live?)
    && (id in db.tombstones <==> id in db.articles && db.articles[id].state.Tombstone?)
    && (id in db.live ==> db.live[id].currentVersion == top)
  }

  ghost predicate FamilyOk(db: Db, top: nat, id: Uuid) {
    ArticleOk(db, top, id) && (id in db.articles ==> id !in db.drafts)
  }

  /** `row` is `first`, or what is left of it after redactions. */
  predicate SameUnlessRedacted(first: VersionRow, row: VersionRow) {
    && row.title == first.title && row.authorName == first.authorName && row.authorUrl == first.authorUrl
    && row.createdAt == first.createdAt
    && (row == first || (row.content.None? && row.redactedAt.Some? && row.redactionReason.Some?))
  }

  /** The pending writes of a publication that has run `done` of its three inserts. */
  predicate Publishing(tx: Tx, done: int, account: Uuid, first: VersionRow) {
    && (tx.writes.article == if done >= 1 then Some(ArticleRow(account, Live, tx.now)) else None)
    && (tx.writes.live == if done >= 2 then Some(Put(LiveRow(1, tx.now, tx.now))) else None)
    && tx.writes.tombstone.None?
    && (tx.writes.version == if done >= 3 then Some(NumberedVersion(1, first)) else None)
  }

  /** The draft row once the UPDATEs before statement `pc` have run. */
  function PartlyUpdated(d: DraftRow, e: Edit, pc: nat, now: Time): DraftRow {
    DraftRow(
      d.accountId,
      if pc > 1 then e.title.GetOr(d.title) else d.title,
      if pc > 2 && e.authorName.Some? then NonEmpty(e.authorName.value) else d.authorName,
      if pc > 3 && e.authorUrl.Some? then NonEmpty(e.authorUrl.value) else d.authorUrl,
      if pc > 4 then e.content.GetOr(d.content) else d.content,
      d.createdAt,
      if pc > 5 then now else d.updatedAt)
  }

  predicate NoColumnBefore(e: Edit, pc: nat) {
    && (pc > 1 ==> e.title.None?) && (pc > 2 ==> e.authorName.None?)
    && (pc > 3 ==> e.authorUrl.None?) && (pc > 4 ==> e.content.None?) && pc <= 5
  }

  ghost predicate EditOk(db: Db, top: nat, tx: Tx)
    requires tx.op.EditArticle?
  {
    var id, w := tx.op.id, tx.writes;
    && w.article.None? && w.tombstone.None? && w.draft.None?
    && (tx.pc >= 1 ==> top >= 1)
    && (tx.pc >= 2 ==> tx.live.Some? && 1 <= tx.live.value.currentVersion <= top)
    && (tx.pc >= 3 ==> && tx.version.Some? && RowOk(tx.version.value)
                       && (id, tx.live.value.currentVersion) in db.versions
                       && SameUnlessRedacted(tx.version.value, db.versions[(id, tx.live.value.currentVersion)]))
    && (tx.pc >= 4 ==> top == tx.live.value.currentVersion < MAX_VERSION)
    && (w.version == if tx.pc >= 4 then Some(NumberedVersion(top + 1, NextVersion(tx.version.value, tx.op.edit, tx.now)))
                     else None)
    && (w.live == if tx.pc >= 5 && id in db.live
                  then Some(Put(db.live[id].(currentVersion := top + 1, updatedAt := tx.now))) else None)
  }

  ghost predicate TombstoneOk(db: Db, top: nat, tx: Tx)
    requires tx.op.TombstoneArticle?
  {
    var id, w := tx.op.id, tx.writes;
    && w.version.None? && w.draft.None?
    && (tx.pc >= 1 ==> top >= 1)
    && (w.article.Some? <==> tx.pc >= 2)
    && (tx.pc >= 2 ==> id in db.articles && w.article.value == db.articles[id].(state := Tombstone))
    && (w.tombstone == if tx.pc >= 3 then Some(TombstoneRow(tx.op.reason, tx.now)) else None)
    && (tx.pc >= 3 ==> id !in db.tombstones)
    && (w.live == if tx.pc >= 4 then Some(Remove) else None)
  }

  ghost predicate RedactOk(db: Db, top: nat, tx: Tx)
    requires tx.op.RedactVersion?
  {
    var id, w, n := tx.op.id, tx.writes, tx.op.number;
    && w.article.None? && w.tombstone.None? && w.draft.None?
    && (tx.pc >= 1 ==> top >= 1 && tx.article.Some? && (tx.article.value.state.Tombstone? ==> id !in db.live))
    && (tx.pc >= 2 ==> 1 <= n <= top)
    && (w.version.Some? <==> tx.pc >= 3)
    && (tx.pc >= 3 ==> && (id, n) in db.versions
                       && w.version.value == NumberedVersion(n, Redacted(db.versions[(id, n)], tx.op.redaction, tx.now)))
    && (tx.pc <= 3 ==> tx.live.None?)
    && (tx.pc >= 4 ==> if tx.live.Some? then n <= tx.live.value.currentVersion <= top else id !in db.live)
    && (w.live == if tx.pc >= 5 && tx.live.Some? && tx.live.value.currentVersion == n && id in db.live
                  then Some(Put(db.live[id].(updatedAt := tx.now))) else None)
  }

  ghost predicate UpdateDraftOk(db: Db, tx: Tx)
    requires tx.op.UpdateDraft?
  {
    var id, w, e := tx.op.id, tx.writes, tx.op.edit;
    && w == NO_WRITES.(draft := w.draft)
    && (w.draft.Some? ==> tx.pc >= 2 && id in db.drafts && w.draft.value == Put(PartlyUpdated(db.drafts[id], e, tx.pc, tx.now)))
    && (w.draft.None? && id in db.drafts ==> NoColumnBefore(e, tx.pc))
    && (tx.pc == 7 ==> w.draft.Some?)
  }

  ghost predicate PublishDraftOk(db: Db, tx: Tx)
    requires tx.op.PublishDraft?
  {
    var id, w := tx.op.id, tx.writes;
    && (tx.locksDraft <==> tx.pc >= 1)
    && (w.draft == if tx.pc == 5 then Some(Remove) else None)
    && (tx.pc == 0 ==> w == NO_WRITES)
    && (tx.pc >= 1 ==> && id in db.drafts && tx.draft == Some(db.drafts[id])
                       && Publishing(tx, tx.pc - 1, tx.draft.value.accountId, DraftVersion(tx.draft.value, tx.now)))
  }

  /** What an open transaction knows about the committed tables, and what it has written. */
  ghost predicate TxOk(db: Db, top: nat, tx: Tx) {
    var id := tx.op.id;
    && tx.pc <= Length(tx.op)
    && (tx.locksDraft ==> tx.op.PublishDraft?)
    && match tx.op
       case PublishArticle(_, entry) =>
         && top == 0 && id !in db.drafts && tx.writes.draft.None?
         && Publishing(tx, tx.pc, entry.accountId, FirstVersion(entry, tx.now))
       case EditArticle(_, _) => EditOk(db, top, tx)
       case TombstoneArticle(_, _) => TombstoneOk(db, top, tx)
       case RedactVersion(_, _, _) => RedactOk(db, top, tx)
       case CreateDraft(_, entry) =>
         && top == 0 && id !in db.drafts
         && tx.writes == NO_WRITES.(draft := if tx.pc == 1 then Some(Put(NewDraftRow(entry, tx.now))) else None)
       case UpdateDraft(_, _) => UpdateDraftOk(db, tx)
       case DeleteDraft(_) =>
         && tx.writes == NO_WRITES.(draft := if tx.pc == 1 then Some(Remove) else None)
         && (tx.pc == 1 ==> id in db.drafts)
       case PublishDraft(_) => PublishDraftOk(db, tx)
  }

  /** Two open transactions on one id never hold the same row. */
  ghost predicate Compatible(a: Tx, b: Tx) {
    forall ref :: !(Holds(a, ref) && Holds(b, ref))
  }

  ghost predicate FamiliesOk(s: Sys) {
    forall id: Uuid :: FamilyOk(s.db, Top(s.log, id), id)
  }

  ghost predicate OpenOk(s: Sys) {
    && (forall t :: t in s.open ==> TxOk(s.db, Top(s.log, s.open[t].op.id), s.open[t]))
    && (forall t, u :: t in s.open && u in s.open && t != u && s.open[t].op.id == s.open[u].op.id
                       ==> Compatible(s.open[t], s.open[u]))
  }

  /** Every id in use is recorded, and while a transaction mints an id no other one has seen it. */
  ghost predicate IdsOk(s: Sys) {
    && (forall id :: id in s.db.articles || id in s.db.drafts ==> id in s.used)
    && (forall t :: t in s.open && (MintsId(s.open[t].op) || s.open[t].pc > 0) ==> s.open[t].op.id in s.used)
    && (forall t, u :: t in s.open && u in s.open && t != u && s.open[t].op.id == s.open[u].op.id && MintsId(s.open[t].op)
                       ==> Unaware(s.open[u]))
  }

  predicate Unaware(tx: Tx) {
    tx.pc == 0 && !MintsId(tx.op)
  }

  ghost predicate Inv(s: Sys) {
    FamiliesOk(s) && OpenOk(s) && IdsOk(s)
  }

  // ----- Statements ----------------------------------------------------------------------------

  lemma StatementKeepsTx(db: Db, top: nat, tx: Tx)
    requires FamilyOk(db, top, tx.op.id) && TxOk(db, top, tx) && !Ready(tx)
    ensures Exec(db, tx).Moved? ==> Exec(db, tx).tx.op == tx.op && TxOk(db, top, Exec(db, tx).tx)
  {
  }

  /** The only row a statement may take is the one it waited for: a new key, or a committed row. */
  lemma StatementTakesDemand(db: Db, top: nat, tx: Tx, ref: RowRef)
    requires FamilyOk(db, top, tx.op.id) && TxOk(db, top, tx) && !Ready(tx)
    requires Exec(db, tx).Moved? && Holds(Exec(db, tx).tx, ref) && !Holds(tx, ref)
    ensures (NextDemand(tx) == Insert(ref) && !Committed(db, tx.op.id, ref))
            || (NextDemand(tx) == Modify(ref) && Committed(db, tx.op.id, ref))
  {
  }

  lemma HeldDraftIsCommitted(db: Db, top: nat, tx: Tx)
    requires TxOk(db, top, tx) && tx.locksDraft
    ensures Committed(db, tx.op.id, DraftRef)
  {
  }

  /** A statement that did not have to wait takes no row another transaction holds. */
  lemma StatementKeepsCompatible(s: Sys, t: TxId, u: TxId, ref: RowRef)
    requires Inv(s) && t in s.open && u in s.open && t != u && s.open[t].op.id == s.open[u].op.id
    requires !Ready(s.open[t]) && !MustWait(s, t)
    requires Exec(s.db, s.open[t]).Moved?
    ensures !(Holds(Exec(s.db, s.open[t]).tx, ref) && Holds(s.open[u], ref))
  {
    hide Exec, TxOk, FamilyOk;
    var a, b := s.open[t], s.open[u];
    var top := Top(s.log, a.op.id);
    assert Compatible(a, b) && TxOk(s.db, top, a) && TxOk(s.db, top, b) && FamilyOk(s.db, top, a.op.id);
    if Holds(Exec(s.db, a).tx, ref) && !Holds(a, ref) {
      StatementTakesDemand(s.db, top, a, ref);
      if b.locksDraft {
        HeldDraftIsCommitted(s.db, top, b);
      }
    }
  }

  lemma ReplaceKeepsInv(s: Sys, t: TxId, tx: Tx)
    requires Inv(s) && t in s.open && tx.op == s.open[t].op
    requires TxOk(s.db, Top(s.log, tx.op.id), tx)
    requires tx.op.id in s.used
    requires forall u :: u in s.open && u != t && s.open[u].op.id == tx.op.id ==>
                           Compatible(tx, s.open[u]) && (MintsId(s.open[u].op) ==> Unaware(tx))
    ensures Inv(s.(open := s.open[t := tx]))
  {
    hide TxOk, FamilyOk, Holds;
    var s' := s.(open := s.open[t := tx]);
    assert OpenOk(s');
    assert IdsOk(s');
  }

  /** A first statement only succeeds on an id that is in use, or that its transaction mints. */
  lemma FirstStatementFindsId(db: Db, tx: Tx)
    requires tx.pc == 0 && !MintsId(tx.op) && tx.writes == NO_WRITES && Exec(db, tx).Moved?
    ensures tx.op.id in db.articles || tx.op.id in db.drafts
  {
  }

  lemma MintedIdIsUnused(db: Db, top: nat, tx: Tx)
    requires MintsId(tx.op) && TxOk(db, top, tx) && FamilyOk(db, top, tx.op.id)
    ensures tx.op.id !in db.articles && tx.op.id !in db.drafts
  {
  }

  lemma NoWritesAtStart(db: Db, top: nat, tx: Tx)
    requires tx.pc == 0 && TxOk(db, top, tx)
    ensures tx.writes == NO_WRITES
  {
  }

  lemma StatementKeepsInv(s: Sys, t: TxId)
    requires Inv(s) && t in s.open && !Ready(s.open[t]) && !MustWait(s, t)
    requires Exec(s.db, s.open[t]).Moved?
    ensures Inv(s.(open := s.open[t := Exec(s.db, s.open[t]).tx]))
  {
    hide TxOk, FamilyOk, Holds, Exec;
    var before, tx := s.open[t], Exec(s.db, s.open[t]).tx;
    var top := Top(s.log, before.op.id);
    assert FamilyOk(s.db, top, before.op.id);
    StatementKeepsTx(s.db, top, before);
    if before.pc == 0 && !MintsId(before.op) {
      NoWritesAtStart(s.db, top, before);
      FirstStatementFindsId(s.db, before);
    }
    forall u | u in s.open && u != t && s.open[u].op.id == tx.op.id
      ensures Compatible(tx, s.open[u]) && (MintsId(s.open[u].op) ==> Unaware(tx))
    {
      forall ref ensures !(Holds(tx, ref) && Holds(s.open[u], ref)) {
        StatementKeepsCompatible(s, t, u, ref);
      }
      if MintsId(s.open[u].op) {
        MintedIdIsUnused(s.db, top, s.open[u]);
      }
    }
    ReplaceKeepsInv(s, t, tx);
  }

  // ----- Commits -------------------------------------------------------------------------------

  function TopAfter(top: nat, op: Op): nat {
    top + if AddsVersion(op) then 1 else 0
  }

  lemma CommitKeepsFamily(db: Db, top: nat, tx: Tx)
    requires FamilyOk(db, top, tx.op.id) && TxOk(db, top, tx) && Ready(tx)
    ensures FamilyOk(Apply(db, tx), TopAfter(top, tx.op), tx.op.id)
  {
  }

  lemma CommitKeepsOtherFamily(db: Db, top: nat, tx: Tx, id: Uuid)
    requires FamilyOk(db, top, id) && id != tx.op.id
    ensures FamilyOk(Apply(db, tx), top, id)
  {
    forall n ensures (id, n) in Apply(db, tx).versions <==> 1 <= n <= top {
      assert (id, n) in db.versions <==> 1 <= n <= top;
    }
  }

  /** What an open transaction knows survives the commit of a compatible one on the same id. */
  lemma CommitKeepsTx(db: Db, top: nat, tx: Tx, other: Tx)
    requires tx.op.id == other.op.id && FamilyOk(db, top, tx.op.id)
    requires TxOk(db, top, tx) && Ready(tx) && TxOk(db, top, other) && Compatible(tx, other)
    requires MintsId(tx.op) ==> Unaware(other)
    ensures TxOk(Apply(db, tx), TopAfter(top, tx.op), other)
  {
    assert !(Holds(tx, ArticleRef) && Holds(other, ArticleRef));
    assert !(Holds(tx, LiveRef) && Holds(other, LiveRef));
    assert !(Holds(tx, TombstoneRef) && Holds(other, TombstoneRef));
    assert !(Holds(tx, DraftRef) && Holds(other, DraftRef));
    if tx.writes.version.Some? {
      var ref := VersionRef(tx.writes.version.value.number);
      assert !(Holds(tx, ref) && Holds(other, ref));
    }
  }

  lemma CommitKeepsOtherTx(db: Db, top: nat, tx: Tx, other: Tx)
    requires tx.op.id != other.op.id && TxOk(db, top, other)
    ensures TxOk(Apply(db, tx), top, other)
  {
  }

  lemma CommitOnlyOnUsedIds(s: Sys, t: TxId)
    requires Inv(s) && t in s.open && Ready(s.open[t])
    ensures forall id :: id in CommitTx(s, t).db.articles || id in CommitTx(s, t).db.drafts ==> id in s.used
  {
    var tx := s.open[t];
    assert TxOk(s.db, Top(s.log, tx.op.id), tx) && FamilyOk(s.db, Top(s.log, tx.op.id), tx.op.id);
  }

  lemma CommitKeepsInv(s: Sys, t: TxId)
    requires Inv(s) && t in s.open && Ready(s.open[t])
    ensures Inv(CommitTx(s, t))
  {
    hide TxOk, FamilyOk, Holds;
    var tx := s.open[t];
    var s' := CommitTx(s, t);
    assert s'.log[..|s'.log| - 1] == s.log;
    forall id: Uuid ensures Top(s'.log, id) == if id == tx.op.id then TopAfter(Top(s.log, id), tx.op) else Top(s.log, id)
    {
    }
    forall id: Uuid ensures FamilyOk(s'.db, Top(s'.log, id), id) {
      if id == tx.op.id {
        CommitKeepsFamily(s.db, Top(s.log, id), tx);
      } else {
        CommitKeepsOtherFamily(s.db, Top(s.log, id), tx, id);
      }
    }
    forall u | u in s'.open ensures TxOk(s'.db, Top(s'.log, s'.open[u].op.id), s'.open[u]) {
      var other := s.open[u];
      if other.op.id == tx.op.id {
        assert Compatible(tx, other);
        CommitKeepsTx(s.db, Top(s.log, tx.op.id), tx, other);
      } else {
        CommitKeepsOtherTx(s.db, Top(s.log, other.op.id), tx, other);
      }
    }
    CommitOnlyOnUsedIds(s, t);
  }

  // ----- Whole runs ----------------------------------------------------------------------------

  lemma StartIsOk(db: Db, top: nat, op: Op, now: Time)
    requires FamilyOk(db, top, op.id)
    requires MintsId(op) ==> op.id !in db.articles && op.id !in db.drafts
    ensures TxOk(db, top, Start(op, now))
    ensures forall ref :: !Holds(Start(op, now), ref)
  {
  }

  lemma BeginKeepsOpen(s: Sys, t: TxId, op: Op, now: Time, s': Sys)
    requires Inv(s) && t !in s.open && (MintsId(op) ==> op.id !in s.used)
    requires s'.db == s.db && s'.log == s.log && s'.open == s.open[t := Start(op, now)]
    ensures OpenOk(s')
  {
    assert FamilyOk(s.db, Top(s.log, op.id), op.id);
    StartIsOk(s.db, Top(s.log, op.id), op, now);
    hide TxOk, FamilyOk, Holds, Top;
  }

  lemma BeginKeepsIds(s: Sys, t: TxId, op: Op, now: Time, s': Sys)
    requires IdsOk(s) && t !in s.open && (MintsId(op) ==> op.id !in s.used)
    requires s'.db == s.db && s'.open == s.open[t := Start(op, now)]
    requires s'.used == if MintsId(op) then s.used + {op.id} else s.used
    ensures IdsOk(s')
  {
  }

  lemma BeginKeepsInv(s: Sys, t: TxId, op: Op, now: Time)
    requires Inv(s) && t !in s.open && (MintsId(op) ==> op.id !in s.used)
    ensures Inv(Step(s, Begin(t, op, now)))
  {
    hide OpenOk, IdsOk, FamilyOk;
    BeginKeepsOpen(s, t, op, now, Step(s, Begin(t, op, now)));
    BeginKeepsIds(s, t, op, now, Step(s, Begin(t, op, now)));
  }

  lemma StepKeepsInv(s: Sys, a: Action)
    requires Inv(s)
    ensures Inv(Step(s, a))
  {
    hide TxOk, FamilyOk, Holds;
    match a
    case Begin(t, op, now) =>
      if t !in s.open && (MintsId(op) ==> op.id !in s.used) {
        BeginKeepsInv(s, t, op, now);
      }
    case Statement(t) =>
      if t in s.open && !Ready(s.open[t]) && !MustWait(s, t) && Exec(s.db, s.open[t]).Moved? {
        StatementKeepsInv(s, t);
      }
    case Commit(t) =>
      if t in s.open && Ready(s.open[t]) {
        CommitKeepsInv(s, t);
      }
    case Rollback(t) =>
  }

  lemma {:induction false} RunKeepsInv(s: Sys, actions: seq<Action>)
    requires Inv(s)
    ensures Inv(Run(s, actions))
    decreases |actions|
  {
    hide TxOk, FamilyOk, Holds;
    if actions != [] {
      StepKeepsInv(s, actions[0]);
      RunKeepsInv(Step(s, actions[0]), actions[1..]);
    }
  }
}
