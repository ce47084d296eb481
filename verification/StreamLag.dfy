/** A run in which a consumer's cursor passes a transaction that took its time earlier and commits later. */
module StreamLag {
  import opened Core
  import opened Tables
  import opened TransactionProtocol
  import opened SerialTransactions
  import opened KeysetPaging
  import opened Interleavings
  import opened StreamUnderCommits
  import A = AccountStream

  // ----- Machine actions inside a run with a consumer ----------------------------------------------

  function Acts(actions: seq<Action>): seq<Event> {
    if actions == [] then [] else [Act(actions[0])] + Acts(actions[1..])
  }

  function Begun(actions: seq<Action>): set<Time> {
    set i | 0 <= i < |actions| && actions[i].Begin? :: actions[i].now
  }

  /** No two transactions of the run begin at one time, and none at one in `times`. */
  ghost predicate FreshTimes(actions: seq<Action>, times: set<Time>) {
    && (forall i :: 0 <= i < |actions| && actions[i].Begin? ==> actions[i].now !in times)
    && (forall i, j :: 0 <= i < j < |actions| && actions[i].Begin? && actions[j].Begin? ==> actions[i].now != actions[j].now)
  }

  ghost function AfterActs(w: World, actions: seq<Action>): World {
    World(Run(w.sys, actions), w.consumer, w.times + Begun(actions))
  }

  lemma {:induction false} RunActs(w: World, account: Uuid, actions: seq<Action>, more: seq<Event>)
    requires FreshTimes(actions, w.times) && AllTimely(AfterActs(w, actions), account, more)
    ensures AllTimely(w, account, Acts(actions) + more)
    ensures AllAhead(w, account, Acts(actions) + more) ==> AllAhead(AfterActs(w, actions), account, more)
    decreases |actions|
  {
    hide Step, Ahead, Commits;
    if actions == [] {
      assert Acts(actions) + more == more;
      assert AfterActs(w, actions) == w;
    } else {
      var w' := Next(w, account, Act(actions[0]));
      assert (Acts(actions) + more)[1..] == Acts(actions[1..]) + more;
      BegunSplits(actions);
      assert AfterActs(w', actions[1..]) == AfterActs(w, actions);
      RunActs(w', account, actions[1..], more);
    }
  }

  lemma BegunSplits(actions: seq<Action>)
    requires actions != []
    ensures Begun(actions) == (if actions[0].Begin? then {actions[0].now} else {}) + Begun(actions[1..])
  {
    var first := if actions[0].Begin? then {actions[0].now} else {};
    forall time ensures time in Begun(actions) <==> time in first + Begun(actions[1..]) {
      if time in Begun(actions) {
        var i :| 0 <= i < |actions| && actions[i].Begin? && actions[i].now == time;
        if i > 0 {
          assert actions[1..][i - 1] == actions[i];
        }
      }
      if time in Begun(actions[1..]) {
        var i :| 0 <= i < |actions[1..]| && actions[1..][i].Begin? && actions[1..][i].now == time;
        assert actions[i + 1] == actions[1..][i];
      }
    }
  }

  lemma {:induction false} RunUses(s: Sys, actions: seq<Action>, id: Uuid)
    requires id !in s.used
    requires forall i :: 0 <= i < |actions| && actions[i].Begin? ==> actions[i].op.id != id
    ensures id !in Run(s, actions).used
    decreases |actions|
  {
    hide Exec, MustWait, Ready, Apply;
    if actions != [] {
      RunUses(Step(s, actions[0]), actions[1..], id);
    }
  }

  // ----- The run -----------------------------------------------------------------------------------

  /** Three articles of one account, published at times 1, 2 and 3. */
  datatype Articles = Articles(first: Uuid, second: Uuid, third: Uuid, entry: NewEntry)

  predicate Distinct(x: Articles) {
    x.first != x.second && x.second != x.third && x.first != x.third
  }

  /** The first publication runs all its statements; then the other two run and commit. */
  function Publishing(x: Articles): seq<Action> {
    [Begin(0, PublishArticle(x.first, x.entry), 1)] + Statements(0, LONGEST)
    + Alone(1, PublishArticle(x.second, x.entry), 2) + Alone(2, PublishArticle(x.third, x.entry), 3)
  }

  /** Then one page of one row is read, and then the first publication commits. */
  function LateCommit(x: Articles): seq<Event> {
    Acts(Publishing(x)) + [Read(1), Act(Commit(0))]
  }

  function Published(db: Db, id: Uuid, entry: NewEntry, now: Time): Db {
    After(db, PublishArticle(id, entry), now)
  }

  /** After the machine's part: two articles are committed, the first one waits for its commit. */
  lemma PublishingRuns(x: Articles)
    requires Distinct(x)
    ensures var s := Run(INITIAL, Publishing(x));
            && s.db == Published(Published(EMPTY_DB, x.second, x.entry, 2), x.third, x.entry, 3)
            && 0 in s.open && Ready(s.open[0])
            && s.open[0].op == PublishArticle(x.first, x.entry) && s.open[0].now == 1
            && Apply(EMPTY_DB, s.open[0]) == Published(EMPTY_DB, x.first, x.entry, 1)
  {
    var op1, op2, op3 := PublishArticle(x.first, x.entry), PublishArticle(x.second, x.entry), PublishArticle(x.third, x.entry);
    var a, b, c, d := [Begin(0, op1, 1)], Statements(0, LONGEST), Alone(1, op2, 2), Alone(2, op3, 3);
    FirstReady(x);
    hide Exec, Apply, Serial, Repeat, Holds, MustWait, Ready, Statements, Alone;
    RunConcat(INITIAL, a + b + c, d);
    RunConcat(INITIAL, a + b, c);
    var s2 := Run(INITIAL, a + b);
    AloneRunsSerially(s2, 1, op2, 2);
    var s3 := Run(s2, c);
    AloneBegins(1, op2, 2, x.third);
    RunUses(s2, c, x.third);
    AloneRunsSerially(s3, 2, op3, 3);
  }

  lemma AloneBegins(t: TxId, op: Op, now: Time, id: Uuid)
    requires op.id != id
    ensures forall i :: 0 <= i < |Alone(t, op, now)| && Alone(t, op, now)[i].Begin? ==> Alone(t, op, now)[i].op.id != id
  {
    StatementsOnly(t, LONGEST);
  }

  lemma {:induction false} StatementsOnly(t: TxId, k: nat)
    ensures forall i :: 0 <= i < |Statements(t, k)| ==> Statements(t, k)[i].Statement?
  {
    if k > 0 {
      StatementsOnly(t, k - 1);
    }
  }

  lemma FirstReady(x: Articles)
    requires Distinct(x)
    ensures var s := Run(INITIAL, [Begin(0, PublishArticle(x.first, x.entry), 1)] + Statements(0, LONGEST));
            && s.db == EMPTY_DB && s.used == {x.first} && s.open.Keys == {0} && Ready(s.open[0])
            && s.open[0].op == PublishArticle(x.first, x.entry) && s.open[0].now == 1
            && Apply(EMPTY_DB, s.open[0]) == Published(EMPTY_DB, x.first, x.entry, 1)
  {
    hide Exec, Apply, Holds, MustWait;
    var op := PublishArticle(x.first, x.entry);
    var s1 := Step(INITIAL, Begin(0, op, 1));
    RunConcat(INITIAL, [Begin(0, op, 1)], Statements(0, LONGEST));
    RunOne(INITIAL, Begin(0, op, 1));
    RunStatements(s1, 0, LONGEST);
    AloneIsSerial(EMPTY_DB, op, 1);
    AloneEndsReady(EMPTY_DB, op, 1);
    RepeatKeepsNow(EMPTY_DB, Moved(Start(op, 1)), LONGEST);
  }

  lemma {:induction false} RepeatKeepsNow(db: Db, o: Outcome, k: nat)
    ensures var last := Repeat(db, o, k);
            o.Moved? && last.Moved? ==> last.tx.now == o.tx.now
    decreases k
  {
    hide Exec, Ready;
    if k > 0 {
      if o.Moved? && !Ready(o.tx) {
        ExecKeepsOp(db, o.tx);
      }
      var next := Then(db, o);
      RepeatKeepsNow(db, next, k - 1);
      if next.Failed? {
        RepeatFailed(db, next.error, k - 1);
      }
    }
  }

  /** The page of one row ends at the second article. */
  lemma PageEndsAtSecond(x: Articles)
    requires Distinct(x)
    ensures var db := Published(Published(EMPTY_DB, x.second, x.entry, 2), x.third, x.entry, 3);
            A.StreamPage(db, x.entry.accountId, None, 1).next == Some(Key(2, x.second))
  {
    var db := Published(Published(EMPTY_DB, x.second, x.entry, 2), x.third, x.entry, 3);
    var keys := A.StreamKeys(db, x.entry.accountId);
    var k2, k3 := Key(2, x.second), Key(3, x.third);
    assert x.second in A.StreamIds(db, x.entry.accountId) && x.third in A.StreamIds(db, x.entry.accountId);
    assert keys == {k2, k3} by {
      assert A.StreamKey(db, x.second) == k2 && A.StreamKey(db, x.third) == k3;
    }
    hide Published, A.StreamKeys;
    SortedIsInOrder(Ascending, keys);
    assert InOrder(Ascending, [k2, k3]);
    OrderedIsUnique(Ascending, Sorted(Ascending, keys), [k2, k3]);
    assert RowsAfter(Ascending, keys, None) == keys;
  }

  /** The consumer's cursor has passed the first article's time when it commits: this run is timely, and it does
      not converge. */
  lemma CursorPassesUncommittedRow(x: Articles, limit: nat)
    requires Distinct(x) && limit >= 1
    ensures AllTimely(START, x.entry.accountId, LateCommit(x))
    ensures !AlwaysConverges(START, x.entry.accountId, LateCommit(x), limit)
  {
    var account := x.entry.accountId;
    var more := [Read(1), Act(Commit(0))];
    var w := AfterActs(START, Publishing(x));
    PublishingTimes(x);
    PublishingRuns(x);
    PageEndsAtSecond(x);
    LateCommitIsMissed(x, w, account);
    hide Published, Publishing, Ahead, Commits, Apply, A.StreamPage, AlwaysConverges, AllAhead, FreshTimes, Step, Run;
    TailIsNotAhead(w, account);
    RunActs(START, account, Publishing(x), more);
    StreamConvergesIff(account, LateCommit(x), limit);
  }

  lemma TailIsNotAhead(w: World, account: Uuid)
    requires var w' := Next(w, account, Read(1)); Commits(w', Act(Commit(0))) && !Ahead(w', account, 0)
    ensures var more := [Read(1), Act(Commit(0))];
            AllTimely(w, account, more) && !AllAhead(w, account, more)
  {
    hide Ahead, Commits, A.StreamPage, Step;
    var more := [Read(1), Act(Commit(0))];
    assert more[1..] == [Act(Commit(0))] && more[1..][1..] == [];
    var w' := Next(w, account, Read(1));
    assert AllTimely(w', account, more[1..]);
  }

  ghost predicate TimesUpTo(actions: seq<Action>, last: Time) {
    FreshTimes(actions, {}) && forall i :: 0 <= i < |actions| && actions[i].Begin? ==> actions[i].now <= last
  }

  predicate OneBegin(actions: seq<Action>, now: Time) {
    actions != [] && actions[0].Begin? && actions[0].now == now
    && forall i :: 0 < i < |actions| ==> !actions[i].Begin?
  }

  lemma TimesGoOn(a: seq<Action>, b: seq<Action>, now: Time, last: Time)
    requires TimesUpTo(a, last) && last < now && OneBegin(b, now)
    ensures TimesUpTo(a + b, now)
  {
  }

  lemma PublishingTimes(x: Articles)
    ensures FreshTimes(Publishing(x), {})
  {
    var a := [Begin(0, PublishArticle(x.first, x.entry), 1)] + Statements(0, LONGEST);
    var b, c := Alone(1, PublishArticle(x.second, x.entry), 2), Alone(2, PublishArticle(x.third, x.entry), 3);
    hide Statements, Alone, FreshTimes, OneBegin;
    BeginsOnce(0, PublishArticle(x.first, x.entry), 1);
    BeginsOnce(1, PublishArticle(x.second, x.entry), 2);
    BeginsOnce(2, PublishArticle(x.third, x.entry), 3);
    assert TimesUpTo([], 0) by { NoTimes(); }
    TimesGoOn([], a, 1, 0);
    assert [] + a == a;
    TimesGoOn(a, b, 2, 1);
    TimesGoOn(a + b, c, 3, 2);
  }

  lemma BeginsOnce(t: TxId, op: Op, now: Time)
    ensures OneBegin([Begin(t, op, now)] + Statements(t, LONGEST), now) && OneBegin(Alone(t, op, now), now)
  {
    StatementsOnly(t, LONGEST);
    hide Statements;
  }

  lemma NoTimes()
    ensures TimesUpTo([], 0)
  {
  }

  lemma LateCommitIsMissed(x: Articles, w: World, account: Uuid)
    requires Distinct(x) && account == x.entry.accountId
    requires w.sys.db == Published(Published(EMPTY_DB, x.second, x.entry, 2), x.third, x.entry, 3)
    requires 0 in w.sys.open && Ready(w.sys.open[0])
    requires w.sys.open[0].op == PublishArticle(x.first, x.entry) && w.sys.open[0].now == 1
    requires Apply(EMPTY_DB, w.sys.open[0]) == Published(EMPTY_DB, x.first, x.entry, 1)
    requires w.consumer.cursor.None?
    requires A.StreamPage(w.sys.db, account, None, 1).next == Some(Key(2, x.second))
    ensures var w' := Next(w, account, Read(1));
            Commits(w', Act(Commit(0))) && !Ahead(w', account, 0)
  {
    hide A.StreamPage;
    var tx := w.sys.open[0];
    assert Apply(EMPTY_DB, tx).articles == map[x.first := ArticleRow(account, Live, 1)];
    assert Apply(EMPTY_DB, tx).live == map[x.first := LiveRow(1, 1, 1)];
    var db' := Apply(w.sys.db, tx);
    assert x.first in Apply(EMPTY_DB, tx).articles && x.first in Apply(EMPTY_DB, tx).live;
    assert x.first in db'.articles && x.first in db'.live;
  }
}
