/** Runs of the transaction machine in phases, and the three interleavings whose commits are not serial. */
module Interleavings {
  import opened Core
  import opened Tables
  import opened TransactionProtocol
  import opened SerialTransactions

  // ----- Phases --------------------------------------------------------------------------------

  function Statements(t: TxId, k: nat): seq<Action> {
    if k == 0 then [] else [Statement(t)] + Statements(t, k - 1)
  }

  lemma {:induction false} RunConcat(s: Sys, a: seq<Action>, b: seq<Action>)
    ensures Run(s, a + b) == Run(Run(s, a), b)
    decreases |a|
  {
    if a == [] {
      assert a + b == b;
    } else {
      assert (a + b)[0] == a[0] && (a + b)[1..] == a[1..] + b;
      RunConcat(Step(s, a[0]), a[1..], b);
    }
  }

  /** No other open transaction on the id of `t` holds any row. */
  ghost predicate Unhindered(s: Sys, t: TxId)
    requires t in s.open
  {
    forall u, ref :: u in s.open && u != t && s.open[u].op.id == s.open[t].op.id ==> !Holds(s.open[u], ref)
  }

  lemma UnhinderedNeverWaits(s: Sys, t: TxId)
    requires t in s.open && Unhindered(s, t)
    ensures !MustWait(s, t)
  {
    forall u, ref | u in s.open && u != t && s.open[u].op.id == s.open[t].op.id
      ensures !HasWritten(s.open[u], ref) && !Holds(s.open[u], ref)
    {
      assert !Holds(s.open[u], ref);
    }
  }

  function WithOutcome(s: Sys, t: TxId, o: Outcome): Sys {
    match o
    case Moved(tx) => s.(open := s.open[t := tx])
    case Failed(_) => s.(open := s.open - {t})
  }

  lemma ExecKeepsOp(db: Db, tx: Tx)
    requires !Ready(tx)
    ensures Exec(db, tx).Moved? ==> Exec(db, tx).tx.op == tx.op && Exec(db, tx).tx.now == tx.now
  {
  }

  lemma {:induction false} RepeatFailed(db: Db, e: RepoError, k: nat)
    ensures Repeat(db, Failed(e), k) == Failed(e)
  {
    if k > 0 {
      RepeatFailed(db, e, k - 1);
    }
  }

  lemma {:induction false} RunClosed(s: Sys, t: TxId, k: nat)
    requires t !in s.open
    ensures Run(s, Statements(t, k)) == s
  {
    if k > 0 {
      assert Statements(t, k)[1..] == Statements(t, k - 1);
      RunClosed(s, t, k - 1);
    }
  }

  /** Unhindered statements of one transaction run as if the transaction were alone. */
  lemma {:induction false} RunStatements(s: Sys, t: TxId, k: nat)
    requires t in s.open && Unhindered(s, t)
    ensures Run(s, Statements(t, k)) == WithOutcome(s, t, Repeat(s.db, Moved(s.open[t]), k))
    decreases k
  {
    hide Exec, Holds, Ready;
    if k == 0 {
      assert s.open[t := s.open[t]] == s.open;
    } else {
      var o := Then(s.db, Moved(s.open[t]));
      var s' := WithOutcome(s, t, o);
      assert s' == Step(s, Statement(t)) by {
        assert s.open[t := s.open[t]] == s.open;
        UnhinderedNeverWaits(s, t);
      }
      assert Statements(t, k)[1..] == Statements(t, k - 1);
      if o.Moved? {
        if !Ready(s.open[t]) {
          ExecKeepsOp(s.db, s.open[t]);
        }
        RunStatements(s', t, k - 1);
        var last := Repeat(s.db, o, k - 1);
        if last.Moved? {
          assert s'.open[t := last.tx] == s.open[t := last.tx];
        } else {
          assert s'.open - {t} == s.open - {t};
        }
      } else {
        RepeatFailed(s.db, o.error, k - 1);
        RunClosed(s', t, k - 1);
      }
    }
  }

  function Alone(t: TxId, op: Op, now: Time): seq<Action> {
    [Begin(t, op, now)] + (Statements(t, LONGEST) + [Commit(t)])
  }

  /** A transaction that meets no other one on its id has the serial effect, on success and on failure. */
  lemma AloneRunsSerially(s: Sys, t: TxId, op: Op, now: Time)
    requires t !in s.open && (MintsId(op) ==> op.id !in s.used)
    requires forall u, ref :: u in s.open && s.open[u].op.id == op.id ==> !Holds(s.open[u], ref)
    ensures Run(s, Alone(t, op, now)).db == After(s.db, op, now)
    ensures Run(s, Alone(t, op, now)).open == s.open
  {
    hide Exec, Apply, Serial, Repeat, Holds, MustWait;
    var s1 := Step(s, Begin(t, op, now));
    var o := Repeat(s.db, Moved(Start(op, now)), LONGEST);
    assert s1.open[t] == Start(op, now) && s1.db == s.db && Unhindered(s1, t);
    RunConcat(s, [Begin(t, op, now)], Statements(t, LONGEST) + [Commit(t)]);
    RunOne(s, Begin(t, op, now));
    RunConcat(s1, Statements(t, LONGEST), [Commit(t)]);
    RunStatements(s1, t, LONGEST);
    var s2 := WithOutcome(s1, t, o);
    RunOne(s2, Commit(t));
    AloneIsSerial(s.db, op, now);
    AloneEndsReady(s.db, op, now);
    assert s1.open - {t} == s.open;
    if o.Moved? {
      assert s2.open - {t} == s.open;
    }
  }

  lemma RunOne(s: Sys, a: Action)
    ensures Run(s, [a]) == Step(s, a)
  {
    assert [a][1..] == [];
  }

  lemma ThenAdvances(db: Db, o: Outcome)
    ensures o.Moved? && Then(db, o).Moved? ==>
              Then(db, o).tx.op == o.tx.op && (Ready(o.tx) || Then(db, o).tx.pc == o.tx.pc + 1)
    ensures o.Failed? ==> Then(db, o) == o
  {
  }

  lemma {:induction false} RepeatAdvances(db: Db, o: Outcome, k: nat)
    requires o.Moved?
    ensures Repeat(db, o, k).Moved? ==>
              Repeat(db, o, k).tx.op == o.tx.op && (Ready(Repeat(db, o, k).tx) || Repeat(db, o, k).tx.pc >= o.tx.pc + k)
    decreases k
  {
    hide Then;
    if k > 0 {
      ThenAdvances(db, o);
      var next := Then(db, o);
      if next.Moved? {
        RepeatAdvances(db, next, k - 1);
        if Ready(o.tx) {
          RepeatReady(db, o, k);
        }
      } else {
        RepeatFailed(db, next.error, k - 1);
      }
    }
  }

  lemma {:induction false} RepeatReady(db: Db, o: Outcome, k: nat)
    requires o.Moved? && Ready(o.tx)
    ensures Repeat(db, o, k) == o
    decreases k
  {
    if k > 0 {
      RepeatReady(db, o, k - 1);
    }
  }

  lemma AloneEndsReady(db: Db, op: Op, now: Time)
    ensures var o := Repeat(db, Moved(Start(op, now)), LONGEST);
            o.Moved? ==> o.tx.op == op && Ready(o.tx)
  {
    RepeatAdvances(db, Moved(Start(op, now)), LONGEST);
  }

  // ----- Commits that are not serial -----------------------------------------------------------

  /** A published, unredacted article that no open transaction is working on. */
  ghost predicate Editable(s: Sys, id: Uuid) {
    && s.open == map[]
    && id in s.db.articles && s.db.articles[id].state.Live? && id in s.db.live && id !in s.db.tombstones
    && var n := s.db.live[id].currentVersion;
       && n < MAX_VERSION && (id, n) in s.db.versions && (id, n + 1) !in s.db.versions
       && s.db.versions[(id, n)].redactedAt.None?
  }

  /** `op` runs `k1` statements, then `mid` runs from start to commit, then `op` runs `k2` more and commits. */
  function Around(op: Op, t1: Time, k1: nat, mid: Op, t2: Time, k2: nat): seq<Action> {
    [Begin(0, op, t1)] + (Statements(0, k1) + (Alone(1, mid, t2) + (Statements(0, k2) + [Commit(0)])))
  }

  lemma AroundCommits(s: Sys, op: Op, t1: Time, k1: nat, mid: Op, t2: Time, k2: nat, tx: Tx, last: Tx)
    requires s.open == map[] && !MintsId(op) && !MintsId(mid)
    requires Repeat(s.db, Moved(Start(op, t1)), k1) == Moved(tx)
    requires forall ref :: !Holds(tx, ref)
    requires Repeat(After(s.db, mid, t2), Moved(tx), k2) == Moved(last) && Ready(last)
    ensures Run(s, Around(op, t1, k1, mid, t2, k2)).db == Apply(After(s.db, mid, t2), last)
  {
    hide Exec, Apply, Serial, Repeat, Holds, MustWait, Ready;
    var rest3 := Statements(0, k2) + [Commit(0)];
    var s1 := Step(s, Begin(0, op, t1));
    RunConcat(s, [Begin(0, op, t1)], Statements(0, k1) + (Alone(1, mid, t2) + rest3));
    RunOne(s, Begin(0, op, t1));
    RunConcat(s1, Statements(0, k1), Alone(1, mid, t2) + rest3);
    RunStatements(s1, 0, k1);
    var s2 := WithOutcome(s1, 0, Moved(tx));
    assert s2.open == map[0 := tx];
    RunConcat(s2, Alone(1, mid, t2), rest3);
    AloneRunsSerially(s2, 1, mid, t2);
    var s3 := Run(s2, Alone(1, mid, t2));
    RunConcat(s3, Statements(0, k2), [Commit(0)]);
    RunStatements(s3, 0, k2);
    RunOne(WithOutcome(s3, 0, Moved(last)), Commit(0));
  }

  function EditAround(id: Uuid, e: Edit, t1: Time, mid: Op, t2: Time): seq<Action> {
    Around(EditArticle(id, e), t1, 3, mid, t2, 2)
  }

  lemma EditReads(db: Db, id: Uuid, e: Edit, now: Time)
    requires id in db.articles && db.articles[id].state.Live? && id in db.live
    requires (id, db.live[id].currentVersion) in db.versions
    ensures Repeat(db, Moved(Start(EditArticle(id, e), now)), 3) ==
            Moved(Start(EditArticle(id, e), now).(pc := 3, article := Some(db.articles[id]), live := Some(db.live[id]),
                  version := Some(db.versions[(id, db.live[id].currentVersion)])))
  {
    var o := Moved(Start(EditArticle(id, e), now));
    assert Repeat(db, o, 3) == Repeat(db, Then(db, o), 2) == Repeat(db, Then(db, Then(db, o)), 1);
  }

  /** The tables after the edit's last two statements and its commit, on whatever is committed by then. */
  lemma EditWrites(db: Db, tx: Tx)
    requires tx.op.EditArticle? && tx.pc == 3 && tx.live.Some? && tx.version.Some? && tx.writes == NO_WRITES
    requires var n := tx.live.value.currentVersion; n < MAX_VERSION && (tx.op.id, n + 1) !in db.versions
    ensures var o := Repeat(db, Moved(tx), 2);
            var id, n := tx.op.id, tx.live.value.currentVersion;
            && o.Moved? && Ready(o.tx) && o.tx.op == tx.op
            && Apply(db, o.tx) ==
               db.(versions := db.versions[(id, n + 1) := NextVersion(tx.version.value, tx.op.edit, tx.now)],
                   live := if id in db.live
                           then db.live[id := db.live[id].(currentVersion := n + 1, updatedAt := tx.now)] else db.live)
  {
    assert Repeat(db, Moved(tx), 2) == Repeat(db, Then(db, Moved(tx)), 1);
  }

  lemma EditAroundCommits(s: Sys, id: Uuid, e: Edit, t1: Time, mid: Op, t2: Time)
    requires Editable(s, id) && mid.id == id && (mid.RedactVersion? || mid.TombstoneArticle?)
    ensures var db := After(s.db, mid, t2);
            var n := s.db.live[id].currentVersion;
            Run(s, EditAround(id, e, t1, mid, t2)).db ==
            db.(versions := db.versions[(id, n + 1) := NextVersion(s.db.versions[(id, n)], e, t1)],
                live := if id in db.live
                        then db.live[id := db.live[id].(currentVersion := n + 1, updatedAt := t1)] else db.live)
  {
    var op, db := EditArticle(id, e), After(s.db, mid, t2);
    EditReads(s.db, id, e, t1);
    var tx := Repeat(s.db, Moved(Start(op, t1)), 3).tx;
    assert (id, s.db.live[id].currentVersion + 1) !in db.versions;
    EditWrites(db, tx);
    AroundCommits(s, op, t1, 3, mid, t2, 2, tx, Repeat(db, Moved(tx), 2).tx);
  }

  /** An edit that has read the content can commit it again after the version it came from was redacted. */
  lemma EditCanRepeatRedactedContent(s: Sys, id: Uuid, e: Edit, t1: Time, why: string, t2: Time)
    requires Editable(s, id) && e.content.None?
    requires s.db.versions[(id, s.db.live[id].currentVersion)].content.Some?
    ensures var n := s.db.live[id].currentVersion;
            var db := Run(s, EditAround(id, e, t1, RedactVersion(id, n, why), t2)).db;
            && (id, n) in db.versions && db.versions[(id, n)].content.None?
            && (id, n + 1) in db.versions && db.versions[(id, n + 1)].content == s.db.versions[(id, n)].content
  {
    EditAroundCommits(s, id, e, t1, RedactVersion(id, s.db.live[id].currentVersion, why), t2);
  }

  /** An edit can commit a further version of an article that is already tombstoned. */
  lemma EditCanCommitAfterTombstone(s: Sys, id: Uuid, e: Edit, t1: Time, reason: Option<string>, t2: Time)
    requires Editable(s, id)
    ensures var n := s.db.live[id].currentVersion;
            var db := Run(s, EditAround(id, e, t1, TombstoneArticle(id, reason), t2)).db;
            && id in db.articles && db.articles[id].state.Tombstone? && id !in db.live
            && (id, n + 1) in db.versions
  {
    EditAroundCommits(s, id, e, t1, TombstoneArticle(id, reason), t2);
  }

  /** Such a state is reached from the empty database by publishing any article. */
  lemma PublishedIsEditable(id: Uuid, entry: NewEntry, now: Time)
    ensures Editable(Run(INITIAL, Alone(0, PublishArticle(id, entry), now)), id)
    ensures var s := Run(INITIAL, Alone(0, PublishArticle(id, entry), now));
            s.db.versions[(id, s.db.live[id].currentVersion)].content == Some(entry.content)
  {
    AloneRunsSerially(INITIAL, 0, PublishArticle(id, entry), now);
  }

  /** Two redactions of one version can both commit; the second replaces the first one's reason and time. */
  function RedactTwice(id: Uuid, n: int, why1: string, t1: Time, why2: string, t2: Time): seq<Action> {
    Around(RedactVersion(id, n, why1), t1, 2, RedactVersion(id, n, why2), t2, 3)
  }

  lemma RedactReads(db: Db, id: Uuid, n: int, why: string, now: Time)
    requires id in db.articles && (id, n) in db.versions && db.versions[(id, n)].redactedAt.None?
    ensures Repeat(db, Moved(Start(RedactVersion(id, n, why), now)), 2) ==
            Moved(Start(RedactVersion(id, n, why), now).(pc := 2, article := Some(db.articles[id]),
                  version := Some(db.versions[(id, n)])))
  {
    var o := Moved(Start(RedactVersion(id, n, why), now));
    assert Repeat(db, o, 2) == Repeat(db, Then(db, o), 1);
  }

  lemma RedactWrites(db: Db, tx: Tx)
    requires tx.op.RedactVersion? && tx.pc == 2 && tx.writes == NO_WRITES && (tx.op.id, tx.op.number) in db.versions
    requires tx.op.id in db.live && tx.live.None?
    ensures var o := Repeat(db, Moved(tx), 3);
            && o.Moved? && Ready(o.tx) && o.tx.op == tx.op
            && Apply(db, o.tx).versions == db.versions[(tx.op.id, tx.op.number) :=
                 Redacted(db.versions[(tx.op.id, tx.op.number)], tx.op.redaction, tx.now)]
  {
    hide Redacted, FirstVersion, NextVersion, DraftVersion, NewDraftRow, UpdateDraftStatement, PublishStatement;
    assert Repeat(db, Moved(tx), 3) == Repeat(db, Then(db, Moved(tx)), 2)
           == Repeat(db, Then(db, Then(db, Moved(tx))), 1);
  }

  lemma VersionCanBeRedactedTwice(s: Sys, id: Uuid, why1: string, t1: Time, why2: string, t2: Time)
    requires Editable(s, id)
    ensures var n := s.db.live[id].currentVersion;
            var db := Run(s, RedactTwice(id, n, why1, t1, why2, t2)).db;
            && After(s.db, RedactVersion(id, n, why2), t2).versions[(id, n)]
               == Redacted(s.db.versions[(id, n)], why2, t2)
            && (id, n) in db.versions && db.versions[(id, n)] == Redacted(s.db.versions[(id, n)], why1, t1)
  {
    var n := s.db.live[id].currentVersion;
    var op, mid := RedactVersion(id, n, why1), RedactVersion(id, n, why2);
    var db := After(s.db, mid, t2);
    RedactReads(s.db, id, n, why1, t1);
    var tx := Repeat(s.db, Moved(Start(op, t1)), 2).tx;
    RedactWrites(db, tx);
    AroundCommits(s, op, t1, 2, mid, t2, 3, tx, Repeat(db, Moved(tx), 3).tx);
  }
}
