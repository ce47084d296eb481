/** The canonical form of a query string: a normal form for "the same values in the same order for each key". */
module QueryCanon {
  import opened Core
  import opened Text

  datatype QueryPair = QueryPair(k: string, v: string)

  // ----- Order of keys -------------------------------------------------------------------------------

  /** Lexicographic by code point, which is also the order of UTF-8 bytes. */
  predicate KeyLe(a: string, b: string) {
    a == "" || (b != "" && (a[0] < b[0] || (a[0] == b[0] && KeyLe(a[1..], b[1..]))))
  }

  lemma {:induction false} KeyLeTotal(a: string, b: string)
    ensures KeyLe(a, b) || KeyLe(b, a)
    ensures KeyLe(a, b) && KeyLe(b, a) ==> a == b
  {
    if a != "" && b != "" && a[0] == b[0] {
      KeyLeTotal(a[1..], b[1..]);
      assert a == [a[0]] + a[1..] && b == [b[0]] + b[1..];
    }
  }

  lemma {:induction false} KeyLeTransitive(a: string, b: string, c: string)
    requires KeyLe(a, b) && KeyLe(b, c)
    ensures KeyLe(a, c)
  {
    if a != "" && a[0] == b[0] == c[0] {
      KeyLeTransitive(a[1..], b[1..], c[1..]);
    }
  }

  // ----- Reading -------------------------------------------------------------------------------------

  /** A piece without `=` is a key with an empty value. */
  function ToPair(piece: string): QueryPair {
    match SplitOnce(piece, '=')
    case Some((k, v)) => QueryPair(k, v)
    case None => QueryPair(piece, "")
  }

  /** Empty pieces are skipped. */
  function ToPairs(pieces: seq<string>): seq<QueryPair> {
    if pieces == [] then []
    else (if pieces[0] == "" then [] else [ToPair(pieces[0])]) + ToPairs(pieces[1..])
  }

  function Pairs(raw: string): seq<QueryPair> {
    ToPairs(SplitOn(raw, '&'))
  }

  lemma {:induction false} ToPairsAppends(pieces: seq<string>, piece: string)
    ensures ToPairs(pieces + [piece]) == ToPairs(pieces) + if piece == "" then [] else [ToPair(piece)]
  {
    hide ToPair;
    var last := if piece == "" then [] else [ToPair(piece)];
    if pieces == [] {
      assert [] + [piece] == [piece] && [piece][1..] == [];
      assert ToPairs([piece]) == last + ToPairs([]);
    } else {
      ToPairsAppends(pieces[1..], piece);
      assert (pieces + [piece])[1..] == pieces[1..] + [piece];
      var first := if pieces[0] == "" then [] else [ToPair(pieces[0])];
      assert first + (ToPairs(pieces[1..]) + last) == first + ToPairs(pieces[1..]) + last;
    }
  }

  // ----- Sorting -------------------------------------------------------------------------------------

  /** Before the first pair whose key is not smaller. */
  function Insert(p: QueryPair, sorted: seq<QueryPair>): seq<QueryPair> {
    if sorted == [] || KeyLe(p.k, sorted[0].k) then [p] + sorted else [sorted[0]] + Insert(p, sorted[1..])
  }

  /** The stable sort by key. */
  function StableSort(pairs: seq<QueryPair>): seq<QueryPair> {
    if pairs == [] then [] else Insert(pairs[0], StableSort(pairs[1..]))
  }

  predicate SortedByKey(pairs: seq<QueryPair>) {
    |pairs| >= 2 ==> KeyLe(pairs[0].k, pairs[1].k) && SortedByKey(pairs[1..])
  }

  /** The values given for `k`, in order. */
  function Values(pairs: seq<QueryPair>, k: string): seq<string> {
    if pairs == [] then []
    else (if pairs[0].k == k then [pairs[0].v] else []) + Values(pairs[1..], k)
  }

  lemma ValuesOfTail(pairs: seq<QueryPair>, k: string)
    requires pairs != []
    ensures Values(pairs, k) == (if pairs[0].k == k then [pairs[0].v] else []) + Values(pairs[1..], k)
    ensures Values(pairs[1..], k) == if pairs[0].k == k then Values(pairs, k)[1..] else Values(pairs, k)
  {
  }

  /** Every key has the same values in the same order. */
  ghost predicate SameValues(a: seq<QueryPair>, b: seq<QueryPair>) {
    forall k :: Values(a, k) == Values(b, k)
  }

  lemma {:induction false} InsertKeepsValues(p: QueryPair, sorted: seq<QueryPair>, k: string)
    ensures Values(Insert(p, sorted), k) == (if p.k == k then [p.v] else []) + Values(sorted, k)
    decreases |sorted|
  {
    var r := Insert(p, sorted);
    if sorted == [] || KeyLe(p.k, sorted[0].k) {
      assert r[1..] == sorted;
    } else {
      InsertKeepsValues(p, sorted[1..], k);
      KeyLeTotal(p.k, p.k);
      assert r[1..] == Insert(p, sorted[1..]);
    }
  }

  lemma {:induction false} InsertKeepsPairs(p: QueryPair, sorted: seq<QueryPair>)
    ensures multiset(Insert(p, sorted)) == multiset(sorted) + multiset{p}
  {
    if sorted != [] && !KeyLe(p.k, sorted[0].k) {
      InsertKeepsPairs(p, sorted[1..]);
      assert sorted == [sorted[0]] + sorted[1..];
    }
  }

  lemma {:induction false} InsertSorts(p: QueryPair, sorted: seq<QueryPair>)
    requires SortedByKey(sorted)
    ensures SortedByKey(Insert(p, sorted))
  {
    var r := Insert(p, sorted);
    if sorted == [] || KeyLe(p.k, sorted[0].k) {
      assert r[1..] == sorted;
    } else {
      KeyLeTotal(p.k, sorted[0].k);
      InsertSorts(p, sorted[1..]);
      assert r[1..] == Insert(p, sorted[1..]);
    }
  }

  /** Sorting orders the keys, keeps every pair, and keeps the order of the values of each key. */
  lemma {:induction false} SortSorts(pairs: seq<QueryPair>)
    ensures SortedByKey(StableSort(pairs))
    ensures multiset(StableSort(pairs)) == multiset(pairs)
    ensures SameValues(StableSort(pairs), pairs)
  {
    hide KeyLe, SortedByKey, Insert;
    if pairs == [] {
      assert SortedByKey([]) by { EmptyIsSorted(); }
    } else {
      var rest := StableSort(pairs[1..]);
      SortSorts(pairs[1..]);
      InsertSorts(pairs[0], rest);
      InsertKeepsPairs(pairs[0], rest);
      assert pairs == [pairs[0]] + pairs[1..];
      SortKeepsValues(pairs, rest);
    }
  }

  lemma EmptyIsSorted()
    ensures SortedByKey([])
  {
  }

  lemma SortKeepsValues(pairs: seq<QueryPair>, rest: seq<QueryPair>)
    requires pairs != [] && SameValues(rest, pairs[1..])
    ensures SameValues(Insert(pairs[0], rest), pairs)
  {
    hide Insert, Values;
    forall k ensures Values(Insert(pairs[0], rest), k) == Values(pairs, k) {
      InsertKeepsValues(pairs[0], rest, k);
      ValuesOfTail(pairs, k);
    }
  }

  lemma {:induction false} FirstKeyIsLeast(pairs: seq<QueryPair>, k: string)
    requires SortedByKey(pairs) && Values(pairs, k) != []
    ensures KeyLe(pairs[0].k, k)
  {
    if pairs[0].k == k {
      KeyLeTotal(k, k);
    } else {
      FirstKeyIsLeast(pairs[1..], k);
      KeyLeTransitive(pairs[0].k, pairs[1].k, k);
    }
  }

  lemma SameFirst(a: seq<QueryPair>, b: seq<QueryPair>)
    requires SortedByKey(a) && SortedByKey(b) && SameValues(a, b) && a != [] && b != []
    ensures a[0] == b[0]
  {
    hide Values, SortedByKey, KeyLe;
    ValuesOfTail(a, a[0].k);
    ValuesOfTail(b, b[0].k);
    assert Values(b, a[0].k) == Values(a, a[0].k) && Values(b, b[0].k) == Values(a, b[0].k);
    FirstKeyIsLeast(a, b[0].k);
    FirstKeyIsLeast(b, a[0].k);
    KeyLeTotal(a[0].k, b[0].k);
    assert Values(a, a[0].k)[0] == a[0].v && Values(b, b[0].k)[0] == b[0].v;
  }

  lemma SameTails(a: seq<QueryPair>, b: seq<QueryPair>)
    requires SameValues(a, b) && a != [] && b != [] && a[0] == b[0]
    ensures SameValues(a[1..], b[1..])
  {
    hide Values;
    forall k ensures Values(a[1..], k) == Values(b[1..], k) {
      ValuesOfTail(a, k);
      ValuesOfTail(b, k);
      assert Values(a, k) == Values(b, k);
    }
  }

  lemma NonEmptyDiffers(a: seq<QueryPair>)
    ensures SameValues(a, []) ==> a == []
    ensures SameValues([], a) ==> a == []
  {
    if a != [] {
      assert Values(a, a[0].k) != [] && Values([], a[0].k) == [];
    }
  }

  /** Only one sorted list has given values for each key. */
  lemma {:induction false} SortedIsUnique(a: seq<QueryPair>, b: seq<QueryPair>)
    requires SortedByKey(a) && SortedByKey(b) && SameValues(a, b)
    ensures a == b
  {
    if a == [] || b == [] {
      NonEmptyDiffers(a);
      NonEmptyDiffers(b);
    } else {
      SameFirst(a, b);
      SameTails(a, b);
      hide SameValues;
      SortedIsUnique(a[1..], b[1..]);
      assert a == [a[0]] + a[1..] && b == [b[0]] + b[1..];
    }
  }

  // ----- Printing ------------------------------------------------------------------------------------

  function PairText(p: QueryPair): string {
    p.k + "=" + p.v
  }

  function Render(pairs: seq<QueryPair>): string {
    if pairs == [] then "" else if |pairs| == 1 then PairText(pairs[0])
    else PairText(pairs[0]) + "&" + Render(pairs[1..])
  }

  lemma {:induction false} RenderAppends(pairs: seq<QueryPair>, p: QueryPair)
    ensures Render(pairs + [p]) == if pairs == [] then PairText(p) else Render(pairs) + "&" + PairText(p)
    decreases |pairs|
  {
    hide PairText;
    if pairs != [] {
      RenderAppends(pairs[1..], p);
      assert (pairs + [p])[1..] == pairs[1..] + [p];
    }
  }

  /** The pair came out of the reader: no `&` in either part and no `=` in the key. */
  predicate Readable(p: QueryPair) {
    '=' !in p.k && '&' !in p.k && '&' !in p.v
  }

  ghost predicate AllReadable(pairs: seq<QueryPair>) {
    forall p :: p in pairs ==> Readable(p)
  }

  lemma {:induction false} ReadPairsAreReadable(pieces: seq<string>)
    requires NoneHas(pieces, '&')
    ensures AllReadable(ToPairs(pieces))
  {
    if pieces != [] {
      ReadPairsAreReadable(pieces[1..]);
      SplitOnceParts(pieces[0], '=');
      assert pieces[0] in pieces;
    }
  }

  /** Reading inverts printing. */
  lemma {:induction false} PairsOfRender(pairs: seq<QueryPair>)
    requires AllReadable(pairs)
    ensures Pairs(Render(pairs)) == pairs
  {
    if pairs == [] {
      assert SplitOn("", '&') == [""];
      assert ToPairs([""]) == [];
    } else {
      assert pairs[0] in pairs;
      var first := PairText(pairs[0]);
      SplitOnceAt(pairs[0].k, pairs[0].v, '=');
      assert ToPair(first) == pairs[0] && first != "";
      if |pairs| == 1 {
        SplitOfPrefix(first, "", '&');
        assert SplitOn(first, '&') == [first] && [first][1..] == [];
        assert ToPairs([first]) == [pairs[0]] + ToPairs([]);
        assert pairs == [pairs[0]];
      } else {
        PairsOfRender(pairs[1..]);
        SplitOfPrefix(first, Render(pairs[1..]), '&');
        assert SplitOn(Render(pairs), '&')[1..] == SplitOn(Render(pairs[1..]), '&');
        assert pairs == [pairs[0]] + pairs[1..];
      }
    }
  }

  // ----- The canonical form --------------------------------------------------------------------------

  function Canon(raw: string): string {
    Render(StableSort(Pairs(raw)))
  }

  method SplitPairs(raw: string) returns (pairs: seq<QueryPair>)
    ensures pairs == Pairs(raw)
  {
    var pieces := SplitOn(raw, '&');
    pairs := [];
    for i := 0 to |pieces|
      invariant pairs == ToPairs(pieces[..i])
    {
      ToPairsAppends(pieces[..i], pieces[i]);
      assert pieces[..i + 1] == pieces[..i] + [pieces[i]];
      if pieces[i] == "" {
        continue;
      }
      match SplitOnce(pieces[i], '=') {
        case Some((k, v)) => pairs := pairs + [QueryPair(k, v)];
        case None => pairs := pairs + [QueryPair(pieces[i], "")];
      }
    }
    assert pieces[..|pieces|] == pieces;
  }

  method CanonicalizeQuery(raw: string) returns (out: string)
    ensures out == Canon(raw)
  {
    hide StableSort, Pairs, Render;
    if raw == "" {
      EmptyCanon();
      return "";
    }
    var pairs := SplitPairs(raw);
    pairs := StableSort(pairs);
    out := "";
    NothingRenders();
    for i := 0 to |pairs|
      invariant out == Render(pairs[..i])
    {
      RenderAppends(pairs[..i], pairs[i]);
      assert pairs[..i + 1] == pairs[..i] + [pairs[i]];
      if i > 0 {
        out := out + "&";
      }
      ghost var lead := out;
      out := out + pairs[i].k;
      out := out + "=";
      out := out + pairs[i].v;
      assert out == lead + PairText(pairs[i]);
      assert i == 0 ==> lead + PairText(pairs[i]) == PairText(pairs[i]);
    }
    assert pairs[..|pairs|] == pairs;
  }

  lemma NothingRenders()
    ensures Render([]) == ""
  {
  }

  lemma EmptyCanon()
    ensures Canon("") == ""
  {
    PairsOfRender([]);
  }

  lemma CanonHoldsSortedPairs(raw: string)
    ensures Pairs(Canon(raw)) == StableSort(Pairs(raw))
  {
    var pairs := Pairs(raw);
    JoinOfSplit(raw, '&');
    ReadPairsAreReadable(SplitOn(raw, '&'));
    SortSorts(pairs);
    forall p | p in StableSort(pairs) ensures Readable(p) {
      assert p in multiset(StableSort(pairs));
      assert p in multiset(pairs);
    }
    PairsOfRender(StableSort(pairs));
  }

  /** Read back, the canonical text has sorted keys, the same pairs, and for each key the same values in
      the same order. */
  lemma CanonKeepsPairs(raw: string)
    ensures SortedByKey(Pairs(Canon(raw)))
    ensures multiset(Pairs(Canon(raw))) == multiset(Pairs(raw))
    ensures SameValues(Pairs(Canon(raw)), Pairs(raw))
  {
    CanonHoldsSortedPairs(raw);
    SortSorts(Pairs(raw));
  }

  lemma SameValuesSymmetric(a: seq<QueryPair>, b: seq<QueryPair>)
    requires SameValues(a, b)
    ensures SameValues(b, a)
  {
    hide Values;
  }

  lemma SameValuesTransitive(a: seq<QueryPair>, b: seq<QueryPair>, c: seq<QueryPair>)
    requires SameValues(a, b) && SameValues(b, c)
    ensures SameValues(a, c)
  {
    hide Values;
    forall k ensures Values(a, k) == Values(c, k) {
      assert Values(a, k) == Values(b, k) && Values(b, k) == Values(c, k);
    }
  }

  /** Two query strings have the same canonical form if and only if they give each key the same values in
      the same order. */
  lemma CanonEqualIff(a: string, b: string)
    ensures Canon(a) == Canon(b) <==> SameValues(Pairs(a), Pairs(b))
  {
    hide SameValues, SortedByKey, StableSort, Pairs;
    var ca, cb := Pairs(Canon(a)), Pairs(Canon(b));
    CanonKeepsPairs(a);
    CanonKeepsPairs(b);
    CanonHoldsSortedPairs(a);
    CanonHoldsSortedPairs(b);
    SameValuesSymmetric(ca, Pairs(a));
    SameValuesSymmetric(cb, Pairs(b));
    if SameValues(Pairs(a), Pairs(b)) {
      SameValuesTransitive(ca, Pairs(a), Pairs(b));
      SameValuesTransitive(ca, Pairs(b), cb);
      SortedIsUnique(ca, cb);
    }
    if Canon(a) == Canon(b) {
      SameValuesTransitive(Pairs(a), ca, Pairs(b));
    }
  }

  predicate Lacks(p: QueryPair, c: char) {
    c !in p.k && c !in p.v
  }

  lemma {:induction false} ReadPairsLack(pieces: seq<string>, c: char)
    requires NoneHas(pieces, c)
    ensures forall p :: p in ToPairs(pieces) ==> Lacks(p, c)
  {
    if pieces != [] {
      ReadPairsLack(pieces[1..], c);
      SplitOnceParts(pieces[0], '=');
      assert pieces[0] in pieces;
    }
  }

  lemma {:induction false} RenderLacks(pairs: seq<QueryPair>, c: char)
    requires (forall p :: p in pairs ==> Lacks(p, c)) && c != '&' && c != '='
    ensures c !in Render(pairs)
  {
    if pairs != [] {
      assert pairs[0] in pairs;
      RenderLacks(pairs[1..], c);
    }
  }

  /** The canonical text adds only separators. */
  lemma CanonAddsSeparatorsOnly(raw: string, c: char)
    requires c !in raw && c != '&' && c != '='
    ensures c !in Canon(raw)
  {
    hide StableSort, Lacks;
    SplitKeepsOut(raw, '&', c);
    ReadPairsLack(SplitOn(raw, '&'), c);
    SortSorts(Pairs(raw));
    forall p | p in StableSort(Pairs(raw)) ensures Lacks(p, c) {
      assert p in multiset(StableSort(Pairs(raw)));
      assert p in multiset(Pairs(raw));
    }
    RenderLacks(StableSort(Pairs(raw)), c);
  }

  // ----- What the reading and the order mean -----------------------------------------------------------

  /** A query without `&` is nothing, a key with an empty value, or a key and the value after its first `=`. */
  lemma OnePairReads(k: string, v: string)
    requires '&' !in k && '&' !in v && '=' !in k
    ensures Pairs("") == []
    ensures k != "" ==> Pairs(k) == [QueryPair(k, "")]
    ensures Pairs(k + "=" + v) == [QueryPair(k, v)]
  {
    SplitOfPrefix(k, "", '&');
    SplitOfPrefix(k + "=" + v, "", '&');
    SplitOnceParts(k, '=');
    SplitOnceAt(k, v, '=');
    assert [k][1..] == [] && [k + "=" + v][1..] == [];
    assert ToPairs([""]) == [] + ToPairs([""][1..]);
  }

  lemma {:induction false} ToPairsConcat(a: seq<string>, b: seq<string>)
    ensures ToPairs(a + b) == ToPairs(a) + ToPairs(b)
    decreases |a|
  {
    hide ToPair;
    if a == [] {
      assert a + b == b;
    } else {
      ToPairsConcat(a[1..], b);
      assert (a + b)[1..] == a[1..] + b;
    }
  }

  /** The parts around any `&` are read on their own. */
  lemma PairsConcat(a: string, b: string)
    ensures Pairs(a + "&" + b) == Pairs(a) + Pairs(b)
  {
    hide ToPairs, SplitOn;
    SplitConcat(a, b, '&');
    assert a + "&" + b == a + (['&'] + b);
    ToPairsConcat(SplitOn(a, '&'), SplitOn(b, '&'));
  }

  /** One key comes no later than another if and only if it is a prefix of it, or has the smaller character where
      they first differ. */
  lemma {:induction false} KeyLeIff(a: string, b: string)
    ensures KeyLe(a, b) <==>
            a <= b || exists i :: 0 <= i < |a| && i < |b| && a[..i] == b[..i] && a[i] < b[i]
  {
    if a != "" && b != "" && a[0] == b[0] {
      KeyLeIff(a[1..], b[1..]);
      if i :| 0 <= i < |a| && i < |b| && a[..i] == b[..i] && a[i] < b[i] {
        assert i > 0 && a[1..][..i - 1] == a[..i][1..] && b[1..][..i - 1] == b[..i][1..];
      }
      if i :| 0 <= i < |a[1..]| && i < |b[1..]| && a[1..][..i] == b[1..][..i] && a[1..][i] < b[1..][i] {
        assert a[..i + 1] == [a[0]] + a[1..][..i] && b[..i + 1] == [b[0]] + b[1..][..i];
        assert a[i + 1] < b[i + 1];
      }
      assert a[1..] <= b[1..] <==> a <= b;
    } else if a != "" && b != "" && a[0] < b[0] {
      assert a[..0] == b[..0];
    }
  }

  /** Of two neighbouring keys of the canonical text the first is a prefix of the second, or has the smaller
      character where they first differ. */
  lemma CanonKeysAscend(raw: string, n: nat)
    requires n + 1 < |Pairs(Canon(raw))|
    ensures var a, b := Pairs(Canon(raw))[n].k, Pairs(Canon(raw))[n + 1].k;
            a <= b || exists i :: 0 <= i < |a| && i < |b| && a[..i] == b[..i] && a[i] < b[i]
  {
    hide KeyLe, Pairs, Canon;
    CanonKeepsPairs(raw);
    SortedAt(Pairs(Canon(raw)), n);
    KeyLeIff(Pairs(Canon(raw))[n].k, Pairs(Canon(raw))[n + 1].k);
  }

  lemma {:induction false} SortedAt(pairs: seq<QueryPair>, n: nat)
    requires SortedByKey(pairs) && n + 1 < |pairs|
    ensures KeyLe(pairs[n].k, pairs[n + 1].k)
  {
    if n > 0 {
      SortedAt(pairs[1..], n - 1);
    }
  }

  /** The canonical form is its own canonical form. */
  lemma CanonIsIdempotent(raw: string)
    ensures Canon(Canon(raw)) == Canon(raw)
  {
    hide SameValues;
    CanonKeepsPairs(raw);
    CanonEqualIff(Canon(raw), raw);
  }
}
