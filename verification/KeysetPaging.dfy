/**
 Keyset paging: the query every list endpoint runs. Rows are ordered by (timestamp, id), a page is
 the first `limit` rows strictly after the cursor, and one row more is fetched to learn whether a
 next page exists. The cursor text is modelled as the key it encodes.
 */
module KeysetPaging {
  import opened Core

  datatype Key = Key(at: Time, id: Uuid)

  datatype Direction = Ascending | Descending

  /** `a` comes strictly before `b` in the query's ORDER BY. */
  predicate Before(dir: Direction, a: Key, b: Key) {
    match dir
    case Ascending => a.at < b.at || (a.at == b.at && a.id < b.id)
    case Descending => b.at < a.at || (a.at == b.at && b.id < a.id)
  }

  predicate IsFirst(dir: Direction, k: Key, keys: set<Key>) {
    k in keys && forall j :: j in keys && j != k ==> Before(dir, k, j)
  }

  lemma {:induction false} FirstExists(dir: Direction, keys: set<Key>)
    requires keys != {}
    ensures exists k :: IsFirst(dir, k, keys)
    decreases |keys|
  {
    var k :| k in keys;
    var rest := keys - {k};
    if rest == {} {
      assert keys == {k};
      assert IsFirst(dir, k, keys);
    } else {
      FirstExists(dir, rest);
      var f :| IsFirst(dir, f, rest);
      var first := if Before(dir, k, f) then k else f;
      forall j | j in keys && j != first ensures Before(dir, first, j) {
        assert j == k || j in rest;
      }
      assert IsFirst(dir, first, keys);
    }
  }

  function First(dir: Direction, keys: set<Key>): (k: Key)
    requires keys != {}
    ensures IsFirst(dir, k, keys)
  {
    FirstExists(dir, keys);
    var k :| IsFirst(dir, k, keys);
    k
  }

  /** ORDER BY: the rows in order, each once. */
  function Sorted(dir: Direction, keys: set<Key>): seq<Key>
    decreases |keys|
  {
    if keys == {} then [] else [First(dir, keys)] + Sorted(dir, keys - {First(dir, keys)})
  }

  ghost predicate InOrder(dir: Direction, q: seq<Key>) {
    forall i, j :: 0 <= i < j < |q| ==> Before(dir, q[i], q[j])
  }

  lemma {:induction false} SortedIsInOrder(dir: Direction, keys: set<Key>)
    ensures InOrder(dir, Sorted(dir, keys))
    ensures forall k :: k in Sorted(dir, keys) <==> k in keys
    ensures |Sorted(dir, keys)| == |keys|
    decreases |keys|
  {
    hide Before, First;
    if keys != {} {
      var k := First(dir, keys);
      SortedIsInOrder(dir, keys - {k});
      var rest := Sorted(dir, keys - {k});
      forall i, j | 0 <= i < j < |rest| + 1 ensures Before(dir, ([k] + rest)[i], ([k] + rest)[j]) {
        assert rest[j - 1] in rest;
      }
    }
  }

  /** An ordered sequence is determined by its elements. */
  lemma {:induction false} OrderedIsUnique(dir: Direction, p: seq<Key>, q: seq<Key>)
    requires InOrder(dir, p) && InOrder(dir, q)
    requires forall k :: k in p <==> k in q
    ensures p == q
  {
    if p == [] {
      assert forall i :: 0 <= i < |q| ==> q[i] in p;
    } else {
      assert p[0] in q && (q != [] ==> q[0] in p);
      assert p[0] == q[0];
      forall k ensures k in p[1..] <==> k in q[1..] {
        assert k in p[1..] ==> k in p && k != p[0];
        assert k in q[1..] ==> k in q && k != q[0];
      }
      OrderedIsUnique(dir, p[1..], q[1..]);
    }
  }

  function RowsAfter(dir: Direction, keys: set<Key>, cursor: Option<Key>): set<Key> {
    if cursor.None? then keys else set k | k in keys && Before(dir, cursor.value, k)
  }

  /** `items` of one page, and the token to the next: `None` is the empty token. */
  datatype Page = Page(items: seq<Key>, next: Option<Key>)

  function PageOf(rows: seq<Key>, limit: nat): Page
    requires limit >= 1
  {
    if |rows| > limit then Page(rows[..limit], Some(rows[limit - 1])) else Page(rows, None)
  }

  /** LIMIT `limit + 1`. */
  function Fetch(dir: Direction, keys: set<Key>, cursor: Option<Key>, limit: nat): seq<Key> {
    var rows := Sorted(dir, RowsAfter(dir, keys, cursor));
    if |rows| > limit + 1 then rows[..limit + 1] else rows
  }

  function GetPage(dir: Direction, keys: set<Key>, cursor: Option<Key>, limit: nat): Page
    requires limit >= 1
  {
    PageOf(Fetch(dir, keys, cursor, limit), limit)
  }

  lemma FetchedRowsAreKeys(dir: Direction, keys: set<Key>, cursor: Option<Key>, limit: nat)
    ensures forall k :: k in Fetch(dir, keys, cursor, limit) ==> k in keys
  {
    hide Sorted;
    SortedIsInOrder(dir, RowsAfter(dir, keys, cursor));
    assert forall k :: k in Fetch(dir, keys, cursor, limit) ==> k in Sorted(dir, RowsAfter(dir, keys, cursor));
  }

  /** A page is in order, within the limit, after its cursor, and its token is the key of its last row. */
  lemma PageIsInOrder(dir: Direction, keys: set<Key>, cursor: Option<Key>, limit: nat)
    requires limit >= 1
    ensures var page := GetPage(dir, keys, cursor, limit);
            && |page.items| <= limit
            && (forall i, j :: 0 <= i < j < |page.items| ==> Before(dir, page.items[i], page.items[j]))
            && (cursor.Some? ==> forall k :: k in page.items ==> Before(dir, cursor.value, k))
            && (page.next.Some? ==> |page.items| == limit && page.next.value == page.items[limit - 1])
  {
    hide Sorted, Before;
    var rest := RowsAfter(dir, keys, cursor);
    var rows := Sorted(dir, rest);
    SortedIsInOrder(dir, rest);
    var page := GetPage(dir, keys, cursor, limit);
    assert page.items <= rows;
    forall k | k in page.items ensures k in rest {
      assert k in rows;
    }
  }

  /** `<= 0` means the default; otherwise the size is cut at the maximum. */
  function ClampPageSize(raw: int, default: int, max: int): int {
    if raw <= 0 then default else if raw > max then max else raw
  }

  /** The rows after the `i`-th row of the query are the ones its cursor selects next. */
  lemma AfterRow(dir: Direction, keys: set<Key>, cursor: Option<Key>, i: nat)
    requires i < |Sorted(dir, RowsAfter(dir, keys, cursor))|
    ensures var rows := Sorted(dir, RowsAfter(dir, keys, cursor));
            Sorted(dir, RowsAfter(dir, keys, Some(rows[i]))) == rows[i + 1..]
  {
    hide Sorted;
    var rest := RowsAfter(dir, keys, cursor);
    var rows := Sorted(dir, rest);
    var tail := RowsAfter(dir, keys, Some(rows[i]));
    SortedIsInOrder(dir, rest);
    SortedIsInOrder(dir, tail);
    assert rows[i] in rest;
    forall k ensures k in rows[i + 1..] <==> k in tail {
      if k in rows[i + 1..] {
        assert k in rest;
        var j :| i < j < |rows| && rows[j] == k;
      }
      if k in tail {
        assert k in rest;
        var j :| 0 <= j < |rows| && rows[j] == k;
        assert j > i;
        assert rows[i + 1..][j - i - 1] == k;
      }
    }
    OrderedIsUnique(dir, rows[i + 1..], Sorted(dir, tail));
  }

  /** A page lists the first rows after its cursor and, with a token, ends at the key of that token. */
  lemma PageSplitsRows(dir: Direction, keys: set<Key>, cursor: Option<Key>, limit: nat)
    requires limit >= 1
    ensures var page := GetPage(dir, keys, cursor, limit);
            var rows := Sorted(dir, RowsAfter(dir, keys, cursor));
            if |rows| <= limit then page == Page(rows, None)
            else && page.next.Some? && page.items == rows[..limit]
                 && Sorted(dir, RowsAfter(dir, keys, page.next)) == rows[limit..]
                 && |RowsAfter(dir, keys, page.next)| == |RowsAfter(dir, keys, cursor)| - limit
    ensures |Sorted(dir, RowsAfter(dir, keys, cursor))| == |RowsAfter(dir, keys, cursor)|
  {
    hide Sorted, InOrder;
    var rows := Sorted(dir, RowsAfter(dir, keys, cursor));
    SortedIsInOrder(dir, RowsAfter(dir, keys, cursor));
    if |rows| > limit {
      AfterRow(dir, keys, cursor, limit - 1);
      SortedIsInOrder(dir, RowsAfter(dir, keys, Some(rows[limit - 1])));
    }
  }

  /** Every row after the cursor is on the page, or after the token of the page. */
  lemma PageCovers(dir: Direction, keys: set<Key>, cursor: Option<Key>, limit: nat, k: Key)
    requires limit >= 1 && k in keys && (cursor.None? || Before(dir, cursor.value, k))
    ensures var page := GetPage(dir, keys, cursor, limit);
            k in page.items || (page.next.Some? && Before(dir, page.next.value, k))
  {
    hide Sorted, GetPage;
    PageSplitsRows(dir, keys, cursor, limit);
    var rows := Sorted(dir, RowsAfter(dir, keys, cursor));
    SortedIsInOrder(dir, RowsAfter(dir, keys, cursor));
    assert k in rows;
    var page := GetPage(dir, keys, cursor, limit);
    if page.next.Some? {
      assert rows == rows[..limit] + rows[limit..];
      SortedIsInOrder(dir, RowsAfter(dir, keys, page.next));
    }
  }

  /** The pages a client sees that follows tokens from `cursor` until the empty one. */
  function Walk(dir: Direction, keys: set<Key>, cursor: Option<Key>, limit: nat): seq<seq<Key>>
    requires limit >= 1
    decreases |RowsAfter(dir, keys, cursor)|
  {
    PageSplitsRows(dir, keys, cursor, limit);
    var page := GetPage(dir, keys, cursor, limit);
    [page.items] + if page.next.None? then [] else Walk(dir, keys, page.next, limit)
  }

  function Concat(pages: seq<seq<Key>>): seq<Key> {
    if pages == [] then [] else pages[0] + Concat(pages[1..])
  }

  /** How many pages `n` rows make: at least one. */
  function PageCount(n: nat, limit: nat): nat
    requires limit >= 1
  {
    if n <= limit then 1 else 1 + PageCount(n - limit, limit)
  }

  /** The page count is the ceiling of n / limit. */
  lemma {:induction false} PageCountIsCeiling(n: nat, limit: nat)
    requires limit >= 1 && n >= 1
    ensures (PageCount(n, limit) - 1) * limit < n <= PageCount(n, limit) * limit
    decreases n
  {
    if n > limit {
      PageCountIsCeiling(n - limit, limit);
      var c := PageCount(n - limit, limit);
      assert (c + 1) * limit == c * limit + limit && c * limit == (c - 1) * limit + limit;
    }
  }

  /**
   Following tokens over a fixed table, in either direction, visits exactly the rows of the query
   in order, each once; all pages but the last have exactly `limit` rows; and the walk ends after
   max(1, ceil(n / limit)) pages.
   */
  lemma {:induction false} WalkVisitsEveryRowOnce(dir: Direction, keys: set<Key>, cursor: Option<Key>, limit: nat)
    requires limit >= 1
    ensures Concat(Walk(dir, keys, cursor, limit)) == Sorted(dir, RowsAfter(dir, keys, cursor))
    ensures |Walk(dir, keys, cursor, limit)| == PageCount(|RowsAfter(dir, keys, cursor)|, limit)
    ensures forall i :: 0 <= i < |Walk(dir, keys, cursor, limit)| - 1 ==> |Walk(dir, keys, cursor, limit)[i]| == limit
    decreases |RowsAfter(dir, keys, cursor)|
  {
    hide Sorted, RowsAfter, GetPage;
    PageSplitsRows(dir, keys, cursor, limit);
    var page := GetPage(dir, keys, cursor, limit);
    if page.next.None? {
      assert Walk(dir, keys, cursor, limit) == [page.items];
      assert Concat([page.items]) == page.items;
    } else {
      var rest := Walk(dir, keys, page.next, limit);
      assert Walk(dir, keys, cursor, limit) == [page.items] + rest;
      assert ([page.items] + rest)[1..] == rest;
      WalkVisitsEveryRowOnce(dir, keys, page.next, limit);
    }
  }
}
