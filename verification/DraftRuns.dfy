/** Valid drafts under concurrency: the checks of publishing hold in every committed state. */
module DraftRuns {
  import opened Core
  import opened Tables
  import opened TransactionProtocol
  import Safety = TransactionSafety
  import SerialTransactions
  import Serializability
  import Interleavings
  import opened DraftService

  /** Open transactions carry only values the handlers let through. */
  ghost predicate OpenOpsOk(lim: Limits, s: Sys) {
    forall t :: t in s.open ==> OpOk(lim, s.open[t].op)
  }

  /** A commit writes drafts only as the serial transaction would. */
  lemma CommitKeepsDraftsValid(lim: Limits, s: Sys, t: TxId)
    requires Safety.Inv(s) && t in s.open && Ready(s.open[t])
    requires DraftsValid(lim, s.db) && OpOk(lim, s.open[t].op)
    ensures DraftsValid(lim, CommitTx(s, t).db)
  {
    hide Safety.Inv, Safety.FamilyOk, SerialTransactions.Serial, OpOk, Revalidates;
    var tx := s.open[t];
    var top := Safety.Top(s.log, tx.op.id);
    Serializability.OpenTxIsOk(s, t);
    if tx.op.EditArticle? || tx.op.RedactVersion? {
      assert tx.writes.draft.None?;
    } else {
      hide Safety.TxOk;
      Serializability.OtherCommit(s.db, top, tx);
      OperationKeepsDraftsValid(lim, s.db, tx.op, tx.now);
    }
  }

  lemma StepKeepsDraftsValid(lim: Limits, s: Sys, a: Action)
    requires Safety.Inv(s) && DraftsValid(lim, s.db) && OpenOpsOk(lim, s)
    requires a.Begin? ==> OpOk(lim, a.op)
    ensures DraftsValid(lim, Step(s, a).db) && OpenOpsOk(lim, Step(s, a))
  {
    hide Safety.Inv, DraftsValid, OpOk, Exec;
    if a.Commit? && a.t in s.open && Ready(s.open[a.t]) {
      CommitKeepsDraftsValid(lim, s, a.t);
    } else if a.Statement? && a.t in s.open && !Ready(s.open[a.t]) {
      Interleavings.ExecKeepsOp(s.db, s.open[a.t]);
    }
  }

  lemma {:induction false} RunKeepsDraftsValid(lim: Limits, s: Sys, actions: seq<Action>)
    requires Safety.Inv(s) && DraftsValid(lim, s.db) && OpenOpsOk(lim, s)
    requires forall a :: a in actions && a.Begin? ==> OpOk(lim, a.op)
    ensures DraftsValid(lim, Run(s, actions).db)
    decreases |actions|
  {
    hide Safety.Inv, DraftsValid, OpOk, OpenOpsOk, Step;
    if actions != [] {
      assert actions[0] in actions;
      StepKeepsDraftsValid(lim, s, actions[0]);
      Safety.StepKeepsInv(s, actions[0]);
      RunKeepsDraftsValid(lim, Step(s, actions[0]), actions[1..]);
    }
  }

  /** From the empty tables, whatever transactions interleave: every committed draft passes the checks of
      publishing under an unchanged cap. */
  lemma EveryInterleavingRevalidates(lim: Limits, actions: seq<Action>, id: Uuid)
    requires forall a :: a in actions && a.Begin? ==> OpOk(lim, a.op)
    ensures id in Run(INITIAL, actions).db.drafts ==> Revalidates(lim, Run(INITIAL, actions).db.drafts[id])
  {
    hide Revalidates, OpOk, Run;
    RunKeepsDraftsValid(lim, INITIAL, actions);
  }

  /** And under another cap exactly when its content fits. */
  lemma EveryInterleavingUnderCapIff(lim: Limits, actions: seq<Action>, id: Uuid, cap: nat)
    requires forall a :: a in actions && a.Begin? ==> OpOk(lim, a.op)
    requires id in Run(INITIAL, actions).db.drafts
    ensures var d := Run(INITIAL, actions).db.drafts[id];
            Revalidates(lim.(contentMaxBytes := cap), d) <==> lim.serializedLen(d.content) <= cap
  {
    hide Revalidates, OpOk, Run;
    RunKeepsDraftsValid(lim, INITIAL, actions);
    ValidUnderCapIff(lim, Run(INITIAL, actions).db, id, cap);
  }
}
