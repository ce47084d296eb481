/** When interleaved transactions have the effect of running them one after another, in commit order. */
module Serializability {
  import opened Core
  import opened Tables
  import opened TransactionProtocol
  import opened TransactionSafety
  import opened SerialTransactions
  import opened VersionChain

  /**
   What a ready transaction must find in the committed tables for its commit to be serial. Only
   edits and redactions can miss it. An edit must still find the article live, and either set the
   content itself or find the content it read. A redaction must not find the version redacted by
   someone else, nor bump `updated_at` for a version that an edit has meanwhile superseded.
   */
  ghost predicate Undisturbed(db: Db, top: nat, tx: Tx)
    requires TxOk(db, top, tx) && Ready(tx)
  {
    var id := tx.op.id;
    match tx.op
    case EditArticle(_, e) =>
      && id in db.live
      && (e.content.Some? ||
          tx.version.value.content.GetOr(Array([])) ==
          db.versions[(id, tx.live.value.currentVersion)].content.GetOr(Array([])))
    case RedactVersion(_, n, _) =>
      && db.versions[(id, n)].redactedAt.None?
      && (tx.writes.live.Some? ==> db.live[id].currentVersion == n || db.live[id].updatedAt == tx.now)
    case _ => true
  }

  ghost predicate CommitsSerially(db: Db, tx: Tx) {
    Serial(db, tx.op, tx.now) == Ok(Apply(db, tx))
  }

  lemma EditCommit(db: Db, top: nat, tx: Tx)
    requires tx.op.EditArticle? && FamilyOk(db, top, tx.op.id) && TxOk(db, top, tx) && Ready(tx)
    ensures CommitsSerially(db, tx) <==> Undisturbed(db, top, tx)
  {
    var id, cur := tx.op.id, tx.live.value.currentVersion;
    var mine := NextVersion(tx.version.value, tx.op.edit, tx.now);
    var serial := NextVersion(db.versions[(id, cur)], tx.op.edit, tx.now);
    assert Apply(db, tx).versions[(id, cur + 1)] == mine;
    if id in db.live {
      assert Serial(db, tx.op, tx.now).Ok?;
      assert Serial(db, tx.op, tx.now).value.versions[(id, cur + 1)] == serial;
      assert mine == serial <==> Undisturbed(db, top, tx);
    }
  }

  lemma RedactCommit(db: Db, top: nat, tx: Tx)
    requires tx.op.RedactVersion? && FamilyOk(db, top, tx.op.id) && TxOk(db, top, tx) && Ready(tx)
    ensures CommitsSerially(db, tx) <==> Undisturbed(db, top, tx)
  {
    var id, n := tx.op.id, tx.op.number;
    if Undisturbed(db, top, tx) {
      if id in db.live && tx.writes.live.Some? && db.live[id].currentVersion != n {
        assert db.live[id := db.live[id].(updatedAt := tx.now)] == db.live;
      }
      assert Apply(db, tx) == Serial(db, tx.op, tx.now).value;
    } else if db.versions[(id, n)].redactedAt.None? {
      assert Apply(db, tx).live[id].updatedAt == tx.now;
      assert Serial(db, tx.op, tx.now).value.live == db.live;
    }
  }

  lemma OtherCommit(db: Db, top: nat, tx: Tx)
    requires !tx.op.EditArticle? && !tx.op.RedactVersion?
    requires FamilyOk(db, top, tx.op.id) && TxOk(db, top, tx) && Ready(tx)
    ensures CommitsSerially(db, tx)
  {
  }

  /** A commit has exactly the effect of the serial transaction on the tables it commits to, if and
      only if no other transaction disturbed it. */
  lemma CommitIsSerialIff(db: Db, top: nat, tx: Tx)
    requires FamilyOk(db, top, tx.op.id) && TxOk(db, top, tx) && Ready(tx)
    ensures CommitsSerially(db, tx) <==> Undisturbed(db, top, tx)
  {
    if tx.op.EditArticle? {
      EditCommit(db, top, tx);
    } else if tx.op.RedactVersion? {
      RedactCommit(db, top, tx);
    } else {
      OtherCommit(db, top, tx);
    }
  }

  // ----- Whole runs ----------------------------------------------------------------------------

  /** Every commit of the run is undisturbed at its moment. */
  ghost predicate RunUndisturbed(s: Sys, actions: seq<Action>)
    requires Inv(s)
    decreases |actions|
  {
    actions == [] ||
    (StepKeepsInv(s, actions[0]);
     && (actions[0].Commit? && actions[0].t in s.open && Ready(s.open[actions[0].t]) ==>
           Undisturbed(s.db, Top(s.log, s.open[actions[0].t].op.id), s.open[actions[0].t]))
     && RunUndisturbed(Step(s, actions[0]), actions[1..]))
  }

  /** The committed transactions as serial calls, in commit order. */
  function CallsOf(log: seq<CommitRecord>): seq<Call> {
    if log == [] then [] else [Call(log[0].op, log[0].now)] + CallsOf(log[1..])
  }

  lemma {:induction false} CallsOfAppend(log: seq<CommitRecord>, r: CommitRecord)
    ensures CallsOf(log + [r]) == CallsOf(log) + [Call(r.op, r.now)]
  {
    if log != [] {
      assert (log + [r])[1..] == log[1..] + [r];
      CallsOfAppend(log[1..], r);
    }
  }

  lemma {:induction false} RunCallsAppend(db: Db, calls: seq<Call>, c: Call)
    ensures RunCalls(db, calls + [c]) == After(RunCalls(db, calls), c.op, c.now)
    decreases |calls|
  {
    if calls == [] {
      assert ([c])[1..] == [];
    } else {
      assert (calls + [c])[1..] == calls[1..] + [c];
      RunCallsAppend(After(db, calls[0].op, calls[0].now), calls[1..], c);
    }
  }

  ghost predicate IsSerialSoFar(s: Sys) {
    s.db == RunCalls(EMPTY_DB, CallsOf(s.log))
  }

  lemma StepStaysSerial(s: Sys, a: Action)
    requires Inv(s) && IsSerialSoFar(s) && RunUndisturbed(s, [a])
    ensures IsSerialSoFar(Step(s, a))
  {
    hide TxOk, FamilyOk, Inv, Undisturbed, Serial, Exec;
    var s' := Step(s, a);
    if a.Commit? && a.t in s.open && Ready(s.open[a.t]) {
      var tx := s.open[a.t];
      assert FamilyOk(s.db, Top(s.log, tx.op.id), tx.op.id) && TxOk(s.db, Top(s.log, tx.op.id), tx) by {
        OpenTxIsOk(s, a.t);
      }
      CommitIsSerialIff(s.db, Top(s.log, tx.op.id), tx);
      var r := CommitRecord(tx.op, tx.now, tx.writes.version);
      CallsOfAppend(s.log, r);
      RunCallsAppend(EMPTY_DB, CallsOf(s.log), Call(tx.op, tx.now));
    } else {
      assert s'.db == s.db && s'.log == s.log;
    }
  }

  lemma OpenTxIsOk(s: Sys, t: TxId)
    requires Inv(s) && t in s.open
    ensures FamilyOk(s.db, Top(s.log, s.open[t].op.id), s.open[t].op.id)
    ensures TxOk(s.db, Top(s.log, s.open[t].op.id), s.open[t])
  {
  }

  /**
   Serializability: however the statements interleave, if no edit or redaction was disturbed at its
   commit, the tables are the ones the committed transactions leave when run one after another in
   commit order.
   */
  lemma {:induction false} UndisturbedRunIsSerial(s: Sys, actions: seq<Action>)
    requires Inv(s) && IsSerialSoFar(s) && RunUndisturbed(s, actions)
    ensures IsSerialSoFar(Run(s, actions))
    decreases |actions|
  {
    hide Inv, IsSerialSoFar, Undisturbed;
    if actions != [] {
      assert RunUndisturbed(s, [actions[0]]) by {
        assert [actions[0]][1..] == [];
        StepKeepsInv(s, actions[0]);
      }
      StepKeepsInv(s, actions[0]);
      StepStaysSerial(s, actions[0]);
      UndisturbedRunIsSerial(Step(s, actions[0]), actions[1..]);
    }
  }

  /** The same from the empty database. */
  lemma EveryUndisturbedRunIsSerial(actions: seq<Action>)
    requires RunUndisturbed(INITIAL, actions)
    ensures Run(INITIAL, actions).db == RunCalls(EMPTY_DB, CallsOf(Run(INITIAL, actions).log))
  {
    UndisturbedRunIsSerial(INITIAL, actions);
  }
}
