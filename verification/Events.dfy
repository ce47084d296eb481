/** The event log: batches that are recorded whole or not at all, and the filtered list whose SQL is put
    together from numbered parameters. */
module Events {
  import opened Core
  import opened KeysetPaging
  import opened Tables
  import Repositories

  datatype EventRecord = EventRecord(
    userId: Uuid, articleId: Option<Uuid>, kind: string, occurredAt: Time, surface: string, properties: Json)

  datatype Event = Event(id: Uuid, record: EventRecord, receivedAt: Time)

  datatype Filter = Filter(
    userId: Option<Uuid>, articleId: Option<Uuid>, types: seq<string>,
    receivedAfter: Option<Time>, receivedBefore: Option<Time>)

  const DEFAULT_PAGE_SIZE: int := 50
  const MAX_PAGE_SIZE: int := 200

  /** The filter: absent parts and an empty list of types do not restrict; the interval is half open. */
  predicate Matches(f: Filter, e: Event) {
    && (f.userId.Some? ==> e.record.userId == f.userId.value)
    && (f.articleId.Some? ==> e.record.articleId == f.articleId)
    && (f.types != [] ==> e.record.kind in f.types)
    && (f.receivedAfter.Some? ==> e.receivedAt >= f.receivedAfter.value)
    && (f.receivedBefore.Some? ==> e.receivedAt < f.receivedBefore.value)
  }

  function KeyOf(e: Event): Key {
    Key(e.receivedAt, e.id)
  }

  // ----- SQL with numbered parameters ------------------------------------------------------------

  /** One clause of the WHERE; the numbers are those of `$1`, `$2`, ... */
  datatype Clause =
    | Always
    | UserIs(n: nat)
    | ArticleIs(n: nat)
    | TypeAny(n: nat)
    | ReceivedFrom(n: nat)
    | ReceivedUntil(n: nat)
    | KeyAfter(at: nat, id: nat)

  datatype Param = UuidParam(uuid: Uuid) | TextsParam(texts: seq<string>) | TimeParam(time: Time) | BigIntParam(number: int)

  function Bound(binds: seq<Param>, n: nat): Option<Param> {
    if 1 <= n <= |binds| then Some(binds[n - 1]) else None
  }

  /** Every parameter of the clause is bound to a value of its column's type. */
  predicate Typed(c: Clause, binds: seq<Param>) {
    match c
    case Always => true
    case UserIs(n) => Bound(binds, n).Some? && Bound(binds, n).value.UuidParam?
    case ArticleIs(n) => Bound(binds, n).Some? && Bound(binds, n).value.UuidParam?
    case TypeAny(n) => Bound(binds, n).Some? && Bound(binds, n).value.TextsParam?
    case ReceivedFrom(n) => Bound(binds, n).Some? && Bound(binds, n).value.TimeParam?
    case ReceivedUntil(n) => Bound(binds, n).Some? && Bound(binds, n).value.TimeParam?
    case KeyAfter(at, id) =>
      && Bound(binds, at).Some? && Bound(binds, at).value.TimeParam?
      && Bound(binds, id).Some? && Bound(binds, id).value.UuidParam?
  }

  predicate Selects(c: Clause, binds: seq<Param>, e: Event)
    requires Typed(c, binds)
  {
    match c
    case Always => true
    case UserIs(n) => e.record.userId == Bound(binds, n).value.uuid
    case ArticleIs(n) => e.record.articleId == Some(Bound(binds, n).value.uuid)
    case TypeAny(n) => e.record.kind in Bound(binds, n).value.texts
    case ReceivedFrom(n) => e.receivedAt >= Bound(binds, n).value.time
    case ReceivedUntil(n) => e.receivedAt < Bound(binds, n).value.time
    case KeyAfter(at, id) =>
      Before(Ascending, Key(Bound(binds, at).value.time, Bound(binds, id).value.uuid), KeyOf(e))
  }

  datatype Query = Query(clauses: seq<Clause>, binds: seq<Param>, limitParam: nat)

  /** The statement is well formed: each parameter is bound at its type, the limit to a number. */
  ghost predicate WellBound(q: Query) {
    && (forall c :: c in q.clauses ==> Typed(c, q.binds))
    && Bound(q.binds, q.limitParam).Some? && Bound(q.binds, q.limitParam).value.BigIntParam?
  }

  ghost predicate Where(q: Query, e: Event)
    requires WellBound(q)
  {
    forall c :: c in q.clauses ==> Selects(c, q.binds, e)
  }

  /** The numbers given to the parts of the filter. */
  datatype Numbers = Numbers(
    user: nat, article: nat, types: nat, after: nat, before: nat, cursorAt: nat, cursorId: nat, limit: nat)

  /** A part takes the next number when it is present; the cursor takes two. */
  function NumbersOf(f: Filter, cursor: Option<Key>): Numbers {
    var article := if f.userId.Some? then 2 else 1;
    var types := if f.articleId.Some? then article + 1 else article;
    var after := if f.types != [] then types + 1 else types;
    var before := if f.receivedAfter.Some? then after + 1 else after;
    var cursorAt := if f.receivedBefore.Some? then before + 1 else before;
    Numbers(1, article, types, after, before, cursorAt, cursorAt + 1,
            if cursor.Some? then cursorAt + 2 else cursorAt)
  }

  ghost predicate HasClauses(clauses: seq<Clause>, f: Filter, cursor: Option<Key>, at: Numbers) {
    forall c :: c in clauses <==>
      || c == Always
      || (f.userId.Some? && c == UserIs(at.user)) || (f.articleId.Some? && c == ArticleIs(at.article))
      || (f.types != [] && c == TypeAny(at.types)) || (f.receivedAfter.Some? && c == ReceivedFrom(at.after))
      || (f.receivedBefore.Some? && c == ReceivedUntil(at.before))
      || (cursor.Some? && c == KeyAfter(at.cursorAt, at.cursorId))
  }

  ghost predicate HasBinds(binds: seq<Param>, f: Filter, cursor: Option<Key>, at: Numbers) {
    && (f.userId.Some? ==> Bound(binds, at.user) == Some(UuidParam(f.userId.value)))
    && (f.articleId.Some? ==> Bound(binds, at.article) == Some(UuidParam(f.articleId.value)))
    && (f.types != [] ==> Bound(binds, at.types) == Some(TextsParam(f.types)))
    && (f.receivedAfter.Some? ==> Bound(binds, at.after) == Some(TimeParam(f.receivedAfter.value)))
    && (f.receivedBefore.Some? ==> Bound(binds, at.before) == Some(TimeParam(f.receivedBefore.value)))
    && (cursor.Some? ==> Bound(binds, at.cursorAt) == Some(TimeParam(cursor.value.at))
                         && Bound(binds, at.cursorId) == Some(UuidParam(cursor.value.id)))
  }

  lemma WhereMatches(q: Query, f: Filter, cursor: Option<Key>, at: Numbers, e: Event)
    requires WellBound(q) && HasClauses(q.clauses, f, cursor, at) && HasBinds(q.binds, f, cursor, at)
    ensures Where(q, e) <==> Matches(f, e) && (cursor.Some? ==> Before(Ascending, cursor.value, KeyOf(e)))
  {
    hide Before, Bound;
    if Where(q, e) {
      assert f.userId.Some? ==> UserIs(at.user) in q.clauses;
      assert f.articleId.Some? ==> ArticleIs(at.article) in q.clauses;
      assert f.types != [] ==> TypeAny(at.types) in q.clauses;
      assert f.receivedAfter.Some? ==> ReceivedFrom(at.after) in q.clauses;
      assert f.receivedBefore.Some? ==> ReceivedUntil(at.before) in q.clauses;
      assert cursor.Some? ==> KeyAfter(at.cursorAt, at.cursorId) in q.clauses;
    }
  }

  method NumberSubjects(f: Filter) returns (clauses: seq<Clause>, nextParam: nat)
    ensures nextParam == NumbersOf(f, None).after
    ensures var at := NumbersOf(f, None);
            forall c :: c in clauses <==>
              || c == Always || (f.userId.Some? && c == UserIs(at.user))
              || (f.articleId.Some? && c == ArticleIs(at.article)) || (f.types != [] && c == TypeAny(at.types))
  {
    clauses := [Always];
    nextParam := 1;
    if f.userId.Some? {
      clauses := clauses + [UserIs(nextParam)];
      nextParam := nextParam + 1;
    }
    if f.articleId.Some? {
      clauses := clauses + [ArticleIs(nextParam)];
      nextParam := nextParam + 1;
    }
    if f.types != [] {
      clauses := clauses + [TypeAny(nextParam)];
      nextParam := nextParam + 1;
    }
  }

  method NumberClauses(f: Filter, cursor: Option<Key>) returns (clauses: seq<Clause>, limitParam: nat)
    ensures HasClauses(clauses, f, cursor, NumbersOf(f, cursor))
    ensures limitParam == NumbersOf(f, cursor).limit
  {
    var nextParam;
    clauses, nextParam := NumberSubjects(f);
    if f.receivedAfter.Some? {
      clauses := clauses + [ReceivedFrom(nextParam)];
      nextParam := nextParam + 1;
    }
    if f.receivedBefore.Some? {
      clauses := clauses + [ReceivedUntil(nextParam)];
      nextParam := nextParam + 1;
    }
    if cursor.Some? {
      clauses := clauses + [KeyAfter(nextParam, nextParam + 1)];
      nextParam := nextParam + 2;
    }
    limitParam := nextParam;
  }

  lemma BoundStays(binds: seq<Param>, longer: seq<Param>)
    requires binds <= longer
    ensures forall n :: Bound(binds, n).Some? ==> Bound(longer, n) == Bound(binds, n)
  {
  }

  method BindSubjects(f: Filter) returns (binds: seq<Param>)
    ensures |binds| == NumbersOf(f, None).after - 1
    ensures f.userId.Some? ==> Bound(binds, NumbersOf(f, None).user) == Some(UuidParam(f.userId.value))
    ensures f.articleId.Some? ==> Bound(binds, NumbersOf(f, None).article) == Some(UuidParam(f.articleId.value))
    ensures f.types != [] ==> Bound(binds, NumbersOf(f, None).types) == Some(TextsParam(f.types))
  {
    binds := [];
    if f.userId.Some? { binds := binds + [UuidParam(f.userId.value)]; }
    if f.articleId.Some? { binds := binds + [UuidParam(f.articleId.value)]; }
    if f.types != [] { binds := binds + [TextsParam(f.types)]; }
  }

  method BindRange(f: Filter, cursor: Option<Key>, limit: nat, subjects: seq<Param>) returns (binds: seq<Param>)
    requires |subjects| == NumbersOf(f, cursor).after - 1
    ensures subjects <= binds
    ensures f.receivedAfter.Some? ==> Bound(binds, NumbersOf(f, cursor).after) == Some(TimeParam(f.receivedAfter.value))
    ensures f.receivedBefore.Some? ==> Bound(binds, NumbersOf(f, cursor).before) == Some(TimeParam(f.receivedBefore.value))
    ensures cursor.Some? ==> Bound(binds, NumbersOf(f, cursor).cursorAt) == Some(TimeParam(cursor.value.at))
                             && Bound(binds, NumbersOf(f, cursor).cursorId) == Some(UuidParam(cursor.value.id))
    ensures Bound(binds, NumbersOf(f, cursor).limit) == Some(BigIntParam(limit + 1))
  {
    binds := subjects;
    if f.receivedAfter.Some? { binds := binds + [TimeParam(f.receivedAfter.value)]; }
    if f.receivedBefore.Some? { binds := binds + [TimeParam(f.receivedBefore.value)]; }
    if cursor.Some? { binds := binds + [TimeParam(cursor.value.at), UuidParam(cursor.value.id)]; }
    binds := binds + [BigIntParam(limit + 1)];
  }

  method BindValues(f: Filter, cursor: Option<Key>, limit: nat) returns (binds: seq<Param>)
    ensures HasBinds(binds, f, cursor, NumbersOf(f, cursor))
    ensures Bound(binds, NumbersOf(f, cursor).limit) == Some(BigIntParam(limit + 1))
  {
    hide Bound;
    var subjects := BindSubjects(f);
    binds := BindRange(f, cursor, limit, subjects);
    BoundStays(subjects, binds);
  }

  /** Clauses are numbered in one pass and the values bound in another; whatever parts are present, each
      number meets its own value and the statement selects exactly the matching rows after the cursor. */
  method BuildQuery(f: Filter, cursor: Option<Key>, limit: nat) returns (q: Query)
    ensures WellBound(q)
    ensures Bound(q.binds, q.limitParam) == Some(BigIntParam(limit + 1))
    ensures forall e :: Where(q, e) <==>
                        Matches(f, e) && (cursor.Some? ==> Before(Ascending, cursor.value, KeyOf(e)))
  {
    hide Before, Bound, NumbersOf, Matches, Where;
    var clauses, limitParam := NumberClauses(f, cursor);
    var binds := BindValues(f, cursor, limit);
    q := Query(clauses, binds, limitParam);
    forall e ensures Where(q, e) <==> Matches(f, e) && (cursor.Some? ==> Before(Ascending, cursor.value, KeyOf(e))) {
      WhereMatches(q, f, cursor, NumbersOf(f, cursor), e);
    }
  }

  // ----- The repository --------------------------------------------------------------------------

  function FilteredKeys(events: map<Uuid, Event>, f: Filter): set<Key> {
    set id | id in events && Matches(f, events[id]) :: KeyOf(events[id])
  }

  class PgEventRepo {
    /** The table by primary key. */
    var events: map<Uuid, Event>

    ghost predicate Valid()
      reads this
    {
      forall id :: id in events ==> events[id].id == id
    }

    constructor ()
      ensures Valid() && events == map[]
    {
      events := map[];
    }

    /** One multi-row INSERT: every record is stored under its own id at the one receive time, or none is.
        `ids` are the UUIDs minted for the batch. */
    method RecordBatch(records: seq<EventRecord>, ids: seq<Uuid>, now: Time) returns (r: Result<seq<Event>, RepoError>)
      requires Valid() && |ids| == |records|
      modifies this
      ensures Valid()
      ensures r.Ok? <==> (forall i, j :: 0 <= i < j < |ids| ==> ids[i] != ids[j])
                         && forall i :: 0 <= i < |ids| ==> ids[i] !in old(events)
      ensures r.Ok? ==> && |r.value| == |records|
                        && (forall i :: 0 <= i < |records| ==> r.value[i] == Event(ids[i], records[i], now))
                        && (forall i :: 0 <= i < |ids| ==> ids[i] in events && events[ids[i]] == r.value[i])
                        && (forall id :: id in old(events) ==> id in events && events[id] == old(events)[id])
                        && (forall id :: id in events ==> id in old(events) || id in ids)
      ensures r.Err? ==> events == old(events)
    {
      if records == [] {
        return Ok([]);
      }
      var rows := Rows(records, ids, now);
      var table := InsertAll(events, rows);
      if table.None? {
        return Err(RepoError.Internal);
      }
      assert forall i :: 0 <= i < |ids| ==> rows[i].id == ids[i];
      events := table.value;
      return Ok(rows);
    }

    /** The records zipped with their ids. */
    static method Rows(records: seq<EventRecord>, ids: seq<Uuid>, now: Time) returns (rows: seq<Event>)
      requires |ids| == |records|
      ensures |rows| == |records|
      ensures forall i :: 0 <= i < |rows| ==> rows[i] == Event(ids[i], records[i], now)
    {
      rows := [];
      for i := 0 to |records|
        invariant |rows| == i && forall j :: 0 <= j < i ==> rows[j] == Event(ids[j], records[j], now)
      {
        rows := rows + [Event(ids[i], records[i], now)];
      }
    }

    /** The statement: a primary key that is taken, in the table or in the batch, refuses it as a whole. */
    static method InsertAll(before: map<Uuid, Event>, rows: seq<Event>) returns (r: Option<map<Uuid, Event>>)
      ensures r.Some? <==> (forall i, j :: 0 <= i < j < |rows| ==> rows[i].id != rows[j].id)
                           && forall i :: 0 <= i < |rows| ==> rows[i].id !in before
      ensures r.Some? ==>
                && (forall i :: 0 <= i < |rows| ==> rows[i].id in r.value && r.value[rows[i].id] == rows[i])
                && (forall id :: id in before ==> id in r.value && r.value[id] == before[id])
                && (forall id :: id in r.value ==> id in before || exists i :: 0 <= i < |rows| && rows[i].id == id)
    {
      var table := before;
      for i := 0 to |rows|
        invariant forall j :: 0 <= j < i ==> rows[j].id in table && table[rows[j].id] == rows[j]
        invariant forall id :: id in before ==> id in table && table[id] == before[id]
        invariant forall id :: id in table ==> id in before || exists j :: 0 <= j < i && rows[j].id == id
        invariant forall j, k :: 0 <= j < k < i ==> rows[j].id != rows[k].id
        invariant forall j :: 0 <= j < i ==> rows[j].id !in before
      {
        if rows[i].id in table {
          return None;
        }
        table := table[rows[i].id := rows[i]];
      }
      return Some(table);
    }

    /** A page of the filtered events in order of arrival. */
    method List(f: Filter, pageSize: int, token: Option<Key>) returns (r: Repositories.ListPage<Event>)
      requires Valid()
      ensures var limit := ClampPageSize(pageSize, DEFAULT_PAGE_SIZE, MAX_PAGE_SIZE);
              var page := GetPage(Ascending, FilteredKeys(events, f), token, limit);
              && r.next == page.next && |r.items| == |page.items|
              && (forall i :: 0 <= i < |page.items| ==>
                    page.items[i].id in events && r.items[i] == events[page.items[i].id]
                    && KeyOf(r.items[i]) == page.items[i] && Matches(f, r.items[i]))
      ensures var size := if pageSize <= 0 then 50 else if pageSize <= 200 then pageSize else 200;
              |r.items| <= size && (r.next.Some? ==> |r.items| == size)
      ensures forall i, j :: 0 <= i < j < |r.items| ==>
                || r.items[i].receivedAt < r.items[j].receivedAt
                || (r.items[i].receivedAt == r.items[j].receivedAt && r.items[i].id < r.items[j].id)
    {
      hide Fetch, Matches;
      var limit := if pageSize <= 0 then DEFAULT_PAGE_SIZE
                   else if pageSize < MAX_PAGE_SIZE then pageSize else MAX_PAGE_SIZE;
      var keys := FilteredKeys(events, f);
      var fetched := Fetch(Ascending, keys, token, limit);
      FetchedRowsAreKeys(Ascending, keys, token, limit);
      PageIsInOrder(Ascending, keys, token, limit);
      var rows, next := Repositories.Truncate(fetched, limit);
      assert forall k :: k in rows ==> k in keys;
      var items: seq<Event> := [];
      for i := 0 to |rows|
        invariant |items| == i
        invariant forall j :: 0 <= j < i ==>
                    rows[j].id in events && items[j] == events[rows[j].id]
                    && KeyOf(items[j]) == rows[j] && Matches(f, items[j])
      {
        assert rows[i] in keys;
        items := items + [events[rows[i].id]];
      }
      r := Repositories.ListPage(items, next);
    }
  }

  /** The rows that `BuildQuery`'s statement returns are those the page is made from. */
  lemma StatementSelectsPageRows(events: map<Uuid, Event>, q: Query, f: Filter, cursor: Option<Key>)
    requires WellBound(q)
    requires forall e :: Where(q, e) <==>
                         Matches(f, e) && (cursor.Some? ==> Before(Ascending, cursor.value, KeyOf(e)))
    ensures (set id | id in events && Where(q, events[id]) :: KeyOf(events[id]))
         == RowsAfter(Ascending, FilteredKeys(events, f), cursor)
  {
    hide Matches, Before;
    var selected := set id | id in events && Where(q, events[id]) :: KeyOf(events[id]);
    forall k ensures k in selected <==> k in RowsAfter(Ascending, FilteredKeys(events, f), cursor) {
      if k in selected {
        var id :| id in events && Where(q, events[id]) && KeyOf(events[id]) == k;
        assert k in FilteredKeys(events, f);
      }
      if k in RowsAfter(Ascending, FilteredKeys(events, f), cursor) {
        var id :| id in events && Matches(f, events[id]) && KeyOf(events[id]) == k;
        assert Where(q, events[id]);
      }
    }
  }
}
