/** What every run of the article and draft transactions leaves behind, read off its commit log. */
module TransactionHistory {
  import opened Core
  import opened Tables
  import opened TransactionProtocol
  import opened TransactionSafety

  // ----- Version numbers -----------------------------------------------------------------------

  /** The `i`-th commit, when it adds a version, adds the one right above all earlier ones. */
  ghost predicate NumberedInOrder(log: seq<CommitRecord>, i: nat)
    requires i < |log|
  {
    AddsVersion(log[i].op) ==>
      log[i].version.Some? && log[i].version.value.number == Top(log[..i], log[i].op.id) + 1
  }

  predicate Publishes(op: Op, id: Uuid) {
    op.id == id && (op.PublishArticle? || op.PublishDraft?)
  }

  /** How many committed transactions published `id`. */
  function Publications(log: seq<CommitRecord>, id: Uuid): nat {
    if log == [] then 0
    else Publications(log[..|log| - 1], id) + if Publishes(log[|log| - 1].op, id) then 1 else 0
  }

  ghost predicate HistoryOk(s: Sys) {
    && (forall i: nat :: i < |s.log| ==> NumberedInOrder(s.log, i))
    && (forall id: Uuid :: Publications(s.log, id) == if id in s.db.articles then 1 else 0)
    && (forall id :: id in s.published ==>
          (id, 1) in s.db.versions &&
          SameUnlessRedacted(DraftVersion(s.published[id], s.db.versions[(id, 1)].createdAt), s.db.versions[(id, 1)]))
  }

  /** Version rows change only by redaction, and none is ever removed. */
  ghost predicate VersionsOnlyRedacted(before: Db, after: Db) {
    forall k :: k in before.versions ==>
      k in after.versions && SameUnlessRedacted(before.versions[k], after.versions[k])
  }

  /** A tombstoned article keeps its article row, its tombstone row and its absence from `articles_live`. */
  ghost predicate TombstonesKept(before: Db, after: Db) {
    forall id :: id in before.articles && before.articles[id].state.Tombstone? ==>
      && id in after.articles && after.articles[id] == before.articles[id]
      && (id in before.tombstones ==> id in after.tombstones && after.tombstones[id] == before.tombstones[id])
      && (id !in before.live ==> id !in after.live)
  }

  // ----- One commit ----------------------------------------------------------------------------

  lemma CommitRedactsOnly(db: Db, top: nat, tx: Tx)
    requires FamilyOk(db, top, tx.op.id) && TxOk(db, top, tx) && Ready(tx)
    ensures VersionsOnlyRedacted(db, Apply(db, tx))
  {
    var id := tx.op.id;
    forall k | k in db.versions
      ensures k in Apply(db, tx).versions && SameUnlessRedacted(db.versions[k], Apply(db, tx).versions[k])
    {
      if tx.writes.version.Some? && k == (id, tx.writes.version.value.number) {
        assert tx.op.RedactVersion?;
      }
    }
  }

  lemma CommitKeepsTombstones(db: Db, top: nat, tx: Tx)
    requires FamilyOk(db, top, tx.op.id) && TxOk(db, top, tx) && Ready(tx)
    ensures TombstonesKept(db, Apply(db, tx))
  {
  }

  /** What a ready transaction contributes to the log. */
  lemma ReadyContribution(db: Db, top: nat, tx: Tx)
    requires FamilyOk(db, top, tx.op.id) && TxOk(db, top, tx) && Ready(tx)
    ensures AddsVersion(tx.op) ==> tx.writes.version.Some? && tx.writes.version.value.number == top + 1
    ensures Publishes(tx.op, tx.op.id) ==> tx.op.id !in db.articles && tx.op.id in Apply(db, tx).articles
    ensures !Publishes(tx.op, tx.op.id) ==> (tx.op.id in Apply(db, tx).articles <==> tx.op.id in db.articles)
    ensures tx.op.PublishDraft? ==>
              && tx.op.id in db.drafts
              && tx.writes.version == Some(NumberedVersion(1, DraftVersion(db.drafts[tx.op.id], tx.now)))
  {
  }

  lemma CommitKeepsPublications(s: Sys, t: TxId)
    requires Inv(s) && HistoryOk(s) && t in s.open && Ready(s.open[t])
    ensures forall id: Uuid :: Publications(CommitTx(s, t).log, id) == if id in CommitTx(s, t).db.articles then 1 else 0
  {
    hide TxOk, FamilyOk, Holds, SameUnlessRedacted, NumberedInOrder;
    var tx := s.open[t];
    var s' := CommitTx(s, t);
    assert FamilyOk(s.db, Top(s.log, tx.op.id), tx.op.id) && TxOk(s.db, Top(s.log, tx.op.id), tx);
    ReadyContribution(s.db, Top(s.log, tx.op.id), tx);
    assert s'.log[..|s.log|] == s.log;
    forall id: Uuid ensures Publications(s'.log, id) == if id in s'.db.articles then 1 else 0 {
      assert Publications(s.log, id) == if id in s.db.articles then 1 else 0;
    }
  }

  lemma CommitKeepsRows(s: Sys, t: TxId)
    requires Inv(s) && t in s.open && Ready(s.open[t])
    ensures VersionsOnlyRedacted(s.db, CommitTx(s, t).db) && TombstonesKept(s.db, CommitTx(s, t).db)
  {
    hide TxOk, FamilyOk, Holds, Apply, VersionsOnlyRedacted, TombstonesKept;
    var tx := s.open[t];
    var top := Top(s.log, tx.op.id);
    assert FamilyOk(s.db, top, tx.op.id) && TxOk(s.db, top, tx);
    CommitRedactsOnly(s.db, top, tx);
    CommitKeepsTombstones(s.db, top, tx);
  }

  lemma CommitKeepsDraftVersions(s: Sys, t: TxId)
    requires Inv(s) && HistoryOk(s) && t in s.open && Ready(s.open[t])
    ensures var s' := CommitTx(s, t);
            forall id :: id in s'.published ==>
              (id, 1) in s'.db.versions &&
              SameUnlessRedacted(DraftVersion(s'.published[id], s'.db.versions[(id, 1)].createdAt), s'.db.versions[(id, 1)])
  {
    hide TxOk, FamilyOk, Holds, NumberedInOrder, Publications;
    var tx := s.open[t];
    var top := Top(s.log, tx.op.id);
    assert FamilyOk(s.db, top, tx.op.id) && TxOk(s.db, top, tx);
    ReadyContribution(s.db, top, tx);
    CommitKeepsRows(s, t);
  }

  lemma CommitKeepsHistory(s: Sys, t: TxId)
    requires Inv(s) && HistoryOk(s) && t in s.open && Ready(s.open[t])
    ensures HistoryOk(CommitTx(s, t))
    ensures VersionsOnlyRedacted(s.db, CommitTx(s, t).db) && TombstonesKept(s.db, CommitTx(s, t).db)
  {
    CommitKeepsRows(s, t);
    CommitKeepsNumbering(s, t);
    CommitKeepsPublications(s, t);
    CommitKeepsDraftVersions(s, t);
    hide Inv, CommitTx, NumberedInOrder, Publications, SameUnlessRedacted, VersionsOnlyRedacted, TombstonesKept;
  }

  lemma CommitKeepsNumbering(s: Sys, t: TxId)
    requires Inv(s) && HistoryOk(s) && t in s.open && Ready(s.open[t])
    ensures forall i: nat :: i < |CommitTx(s, t).log| ==> NumberedInOrder(CommitTx(s, t).log, i)
  {
    hide TxOk, FamilyOk, Holds;
    var tx := s.open[t];
    var s' := CommitTx(s, t);
    var top := Top(s.log, tx.op.id);
    assert FamilyOk(s.db, top, tx.op.id) && TxOk(s.db, top, tx);
    ReadyContribution(s.db, top, tx);
    assert s'.log[..|s.log|] == s.log;
    forall i: nat | i < |s'.log| ensures NumberedInOrder(s'.log, i) {
      if i < |s.log| {
        assert NumberedInOrder(s.log, i);
        assert s'.log[..i] == s.log[..i];
      }
    }
  }

  // ----- Whole runs ----------------------------------------------------------------------------

  lemma StepKeepsHistory(s: Sys, a: Action)
    requires Inv(s) && HistoryOk(s)
    ensures HistoryOk(Step(s, a))
    ensures VersionsOnlyRedacted(s.db, Step(s, a).db) && TombstonesKept(s.db, Step(s, a).db)
  {
    hide TxOk, FamilyOk, Holds;
    if a.Commit? && a.t in s.open && Ready(s.open[a.t]) {
      CommitKeepsHistory(s, a.t);
    } else {
      var s' := Step(s, a);
      assert s'.db == s.db && s'.log == s.log && s'.published == s.published;
    }
  }

  lemma {:induction false} RunKeepsHistory(s: Sys, actions: seq<Action>)
    requires Inv(s) && HistoryOk(s)
    ensures Inv(Run(s, actions)) && HistoryOk(Run(s, actions))
    decreases |actions|
  {
    hide Inv, HistoryOk;
    if actions != [] {
      StepKeepsInv(s, actions[0]);
      StepKeepsHistory(s, actions[0]);
      RunKeepsHistory(Step(s, actions[0]), actions[1..]);
    }
  }

  /**
   Safety of every interleaving, from the empty database. Whatever the statements of however many
   transactions interleave: an article is live exactly when it has its one `articles_live` row and
   no `articles_tombstone` row, and tombstoned in the opposite case; its versions are numbered
   1..n with n the number of committed publications and edits, and `current_version` is n; no id
   is both a draft and an article; a version's content is missing exactly when `redacted_at` is set.
   */
  lemma EveryInterleavingIsSafe(actions: seq<Action>, id: Uuid)
    ensures FamilyOk(Run(INITIAL, actions).db, Top(Run(INITIAL, actions).log, id), id)
  {
    RunKeepsInv(INITIAL, actions);
  }

  /** No two committed edits of an article share a version number, and they are numbered in commit order. */
  lemma CommittedVersionsAreDistinct(actions: seq<Action>, i: nat, j: nat)
    requires i < j < |Run(INITIAL, actions).log|
    requires AddsVersion(Run(INITIAL, actions).log[i].op) && AddsVersion(Run(INITIAL, actions).log[j].op)
    requires Run(INITIAL, actions).log[i].op.id == Run(INITIAL, actions).log[j].op.id
    ensures var log := Run(INITIAL, actions).log;
            log[i].version.Some? && log[j].version.Some? &&
            log[i].version.value.number < log[j].version.value.number
  {
    var log := Run(INITIAL, actions).log;
    RunKeepsHistory(INITIAL, actions);
    assert NumberedInOrder(log, i) && NumberedInOrder(log, j);
    assert log[..i + 1][..i] == log[..i];
    TopGrows(log, log[i].op.id, i + 1, j);
  }

  lemma {:induction false} TopGrows(log: seq<CommitRecord>, id: Uuid, i: nat, j: nat)
    requires i <= j <= |log|
    ensures Top(log[..i], id) <= Top(log[..j], id)
    decreases j
  {
    if i < j {
      assert log[..j][..j - 1] == log[..j - 1];
      TopGrows(log, id, i, j - 1);
    }
  }

  /** A draft is published at most once, and is gone then; version 1 has the title and the authors of the draft's
      last committed row, and its content unless the version was redacted since. */
  lemma DraftIsPublishedOnceAsCommitted(actions: seq<Action>, id: Uuid)
    ensures var s := Run(INITIAL, actions);
            && Publications(s.log, id) <= 1
            && (id in s.published ==>
                  && id !in s.db.drafts
                  && (id, 1) in s.db.versions
                  && var d, v := s.published[id], s.db.versions[(id, 1)];
                     && v.title == d.title && v.authorName == d.authorName && v.authorUrl == d.authorUrl
                     && (if v.redactedAt.None? then v.content == Some(d.content) && v.redactionReason.None?
                         else v.content.None? && v.redactionReason.Some?))
  {
    RunKeepsHistory(INITIAL, actions);
    var s := Run(INITIAL, actions);
    assert FamilyOk(s.db, Top(s.log, id), id);
  }

  /** Once tombstoned, always tombstoned; and versions are only ever added or redacted. */
  lemma {:induction false} RunKeepsTombstonesAndVersions(s: Sys, actions: seq<Action>, id: Uuid, n: int)
    requires Inv(s) && HistoryOk(s)
    ensures id in s.db.articles && s.db.articles[id].state.Tombstone? ==>
              && id in Run(s, actions).db.articles && Run(s, actions).db.articles[id] == s.db.articles[id]
              && id in s.db.tombstones && id in Run(s, actions).db.tombstones
              && Run(s, actions).db.tombstones[id] == s.db.tombstones[id]
              && id !in Run(s, actions).db.live
    ensures (id, n) in s.db.versions ==>
              (id, n) in Run(s, actions).db.versions &&
              SameUnlessRedacted(s.db.versions[(id, n)], Run(s, actions).db.versions[(id, n)])
    decreases |actions|
  {
    assert FamilyOk(s.db, Top(s.log, id), id);
    hide HistoryOk, FamilyOk, Inv;
    if actions != [] {
      StepKeepsInv(s, actions[0]);
      StepKeepsHistory(s, actions[0]);
      RunKeepsTombstonesAndVersions(Step(s, actions[0]), actions[1..], id, n);
    }
  }
}
