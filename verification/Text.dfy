/** Splitting and joining text at a separator character. */
module Text {
  import opened Core

  /** `str::split`: the pieces between separators, at least one. */
  function SplitOn(s: string, sep: char): (pieces: seq<string>)
    ensures |pieces| >= 1
  {
    if s == "" then [""]
    else
      var rest := SplitOn(s[1..], sep);
      if s[0] == sep then [""] + rest else [[s[0]] + rest[0]] + rest[1..]
  }

  function JoinWith(pieces: seq<string>, sep: char): string
    requires |pieces| >= 1
  {
    if |pieces| == 1 then pieces[0] else pieces[0] + [sep] + JoinWith(pieces[1..], sep)
  }

  ghost predicate NoneHas(pieces: seq<string>, sep: char) {
    forall piece :: piece in pieces ==> sep !in piece
  }

  /** Splitting takes away every separator and joining puts the text back. */
  lemma {:induction false} JoinOfSplit(s: string, sep: char)
    ensures JoinWith(SplitOn(s, sep), sep) == s
    ensures NoneHas(SplitOn(s, sep), sep)
  {
    if s != "" {
      JoinOfSplit(s[1..], sep);
      var rest := SplitOn(s[1..], sep);
      var pieces := SplitOn(s, sep);
      assert rest[0] in rest;
      if s[0] == sep {
        assert pieces[1..] == rest;
      } else {
        assert pieces[1..] == rest[1..];
      }
    }
  }

  lemma {:induction false} SplitOfPrefix(head: string, tail: string, sep: char)
    requires sep !in head
    ensures SplitOn(head, sep) == [head]
    ensures SplitOn(head + [sep] + tail, sep) == [head] + SplitOn(tail, sep)
  {
    var whole := head + [sep] + tail;
    if head == "" {
      assert whole[1..] == tail;
    } else {
      SplitOfPrefix(head[1..], tail, sep);
      assert whole[1..] == head[1..] + [sep] + tail;
      assert [head[0]] + head[1..] == head;
    }
  }

  /** The texts around any separator are split on their own. */
  lemma {:induction false} SplitConcat(a: string, b: string, sep: char)
    ensures SplitOn(a + ([sep] + b), sep) == SplitOn(a, sep) + SplitOn(b, sep)
    decreases |a|
  {
    hide SplitOn;
    SplitFirst([sep] + b, sep);
    assert ([sep] + b)[1..] == b;
    if a == "" {
      assert a + ([sep] + b) == [sep] + b;
      SplitNothing(sep);
    } else {
      var rest := a[1..] + ([sep] + b);
      SplitConcat(a[1..], b, sep);
      assert (a + ([sep] + b))[1..] == rest;
      SplitFirst(a, sep);
      SplitFirst(a + ([sep] + b), sep);
      var pieces, more := SplitOn(a[1..], sep), SplitOn(b, sep);
      assert (pieces + more)[1..] == pieces[1..] + more;
    }
  }

  lemma SplitNothing(sep: char)
    ensures SplitOn("", sep) == [""]
  {
  }

  lemma SplitFirst(s: string, sep: char)
    requires s != ""
    ensures var rest := SplitOn(s[1..], sep);
            SplitOn(s, sep) == if s[0] == sep then [""] + rest else [[s[0]] + rest[0]] + rest[1..]
  {
  }

  /** Splitting adds no character. */
  lemma {:induction false} SplitKeepsOut(s: string, sep: char, c: char)
    requires c !in s
    ensures NoneHas(SplitOn(s, sep), c)
  {
    if s != "" {
      SplitKeepsOut(s[1..], sep, c);
      var rest := SplitOn(s[1..], sep);
      assert rest[0] in rest;
    }
  }

  /** Pieces that hold no separator come back from their joined text. */
  lemma {:induction false} SplitOfJoin(pieces: seq<string>, sep: char)
    requires |pieces| >= 1 && NoneHas(pieces, sep)
    ensures SplitOn(JoinWith(pieces, sep), sep) == pieces
  {
    assert pieces[0] in pieces;
    if |pieces| == 1 {
      SplitOfPrefix(pieces[0], "", sep);
    } else {
      SplitOfJoin(pieces[1..], sep);
      SplitOfPrefix(pieces[0], JoinWith(pieces[1..], sep), sep);
      assert pieces == [pieces[0]] + pieces[1..];
    }
  }

  /** `str::split_once`: the text before and after the first separator. */
  function SplitOnce(s: string, sep: char): Option<(string, string)> {
    if s == "" then None
    else if s[0] == sep then Some(("", s[1..]))
    else
      match SplitOnce(s[1..], sep)
      case None => None
      case Some(halves) => Some(([s[0]] + halves.0, halves.1))
  }

  lemma {:induction false} SplitOnceParts(s: string, sep: char)
    ensures SplitOnce(s, sep).None? <==> sep !in s
    ensures SplitOnce(s, sep).Some? ==>
              var (k, v) := SplitOnce(s, sep).value;
              sep !in k && s == k + [sep] + v
  {
    if s != "" && s[0] != sep {
      SplitOnceParts(s[1..], sep);
    }
  }

  lemma {:induction false} SplitOnceAt(k: string, v: string, sep: char)
    requires sep !in k
    ensures SplitOnce(k + [sep] + v, sep) == Some((k, v))
  {
    var s := k + [sep] + v;
    if k == "" {
      assert s[1..] == v;
    } else {
      SplitOnceAt(k[1..], v, sep);
      assert s[1..] == k[1..] + [sep] + v;
      assert [k[0]] + k[1..] == k;
    }
  }

  lemma SeparatorInTail(x: string, y: string, a: string, b: string, sep: char)
    requires x + [sep] + a == y + [sep] + b && |x| < |y|
    ensures sep in a
  {
    assert (y + [sep] + b)[|y|] == sep;
    assert (x + [sep] + a)[|y|] == a[|y| - |x| - 1];
  }

  /** Two texts cut at their last separator agree only piece by piece. */
  lemma CutBack(x: string, y: string, a: string, b: string, sep: char)
    requires sep !in a && sep !in b && x + [sep] + a == y + [sep] + b
    ensures x == y && a == b
  {
    if |x| < |y| {
      SeparatorInTail(x, y, a, b, sep);
    } else if |y| < |x| {
      SeparatorInTail(y, x, b, a, sep);
    } else {
      var s := x + [sep] + a;
      assert x == s[..|x|] && y == s[..|y|];
      assert a == s[|x| + 1..] && b == s[|y| + 1..];
    }
  }

  // ----- Trimming ----------------------------------------------------------------------------------

  /** The Unicode White_Space property. */
  predicate IsSpace(c: char) {
    var n := c as int;
    || 0x9 <= n <= 0xD || n == 0x20 || n == 0x85 || n == 0xA0 || n == 0x1680 || 0x2000 <= n <= 0x200A
    || n == 0x2028 || n == 0x2029 || n == 0x202F || n == 0x205F || n == 0x3000
  }

  function TrimStart(s: string): string {
    if s != "" && IsSpace(s[0]) then TrimStart(s[1..]) else s
  }

  function TrimEnd(s: string): string {
    if s != "" && IsSpace(s[|s| - 1]) then TrimEnd(s[..|s| - 1]) else s
  }

  function Trim(s: string): string {
    TrimEnd(TrimStart(s))
  }

  /** No space at either end. */
  predicate Trimmed(s: string) {
    s != "" ==> !IsSpace(s[0]) && !IsSpace(s[|s| - 1])
  }

  lemma {:induction false} TrimEndCuts(s: string)
    ensures TrimEnd(s) <= s
    ensures TrimEnd(s) != "" ==> !IsSpace(TrimEnd(s)[|TrimEnd(s)| - 1])
  {
    if s != "" && IsSpace(s[|s| - 1]) {
      TrimEndCuts(s[..|s| - 1]);
    }
  }

  lemma {:induction false} TrimStartCuts(s: string)
    ensures TrimStart(s) != "" ==> !IsSpace(TrimStart(s)[0])
    ensures forall c :: c in TrimStart(s) ==> c in s
    ensures |TrimStart(s)| <= |s|
  {
    if s != "" && IsSpace(s[0]) {
      TrimStartCuts(s[1..]);
    }
  }

  /** Trimming leaves no space at the ends, adds no character, and keeps exactly the trimmed texts. */
  lemma TrimTrims(s: string)
    ensures Trimmed(Trim(s))
    ensures forall c :: c in Trim(s) ==> c in s
    ensures Trim(s) == s <==> Trimmed(s)
  {
    TrimStartCuts(s);
    TrimEndCuts(TrimStart(s));
    forall c | c in Trim(s) ensures c in s {
      assert c in TrimStart(s);
    }
  }

  predicate AllSpace(s: string) {
    forall c :: c in s ==> IsSpace(c)
  }

  lemma {:induction false} TrimStartSplits(s: string) returns (lead: string)
    ensures s == lead + TrimStart(s) && AllSpace(lead)
  {
    if s != "" && IsSpace(s[0]) {
      var more := TrimStartSplits(s[1..]);
      lead := [s[0]] + more;
    } else {
      lead := "";
    }
  }

  lemma {:induction false} TrimEndSplits(s: string) returns (trail: string)
    ensures s == TrimEnd(s) + trail && AllSpace(trail)
  {
    if s != "" && IsSpace(s[|s| - 1]) {
      var more := TrimEndSplits(s[..|s| - 1]);
      trail := more + [s[|s| - 1]];
    } else {
      trail := "";
    }
  }

  /** Trimming takes away white space at the two ends and nothing else. */
  lemma TrimCutsSpace(s: string)
    ensures exists lead, trail :: s == lead + Trim(s) + trail && AllSpace(lead) && AllSpace(trail)
  {
    hide TrimStart, TrimEnd;
    var lead := TrimStartSplits(s);
    var trail := TrimEndSplits(TrimStart(s));
    assert s == lead + Trim(s) + trail;
  }

  /** The 25 characters of the property, one by one. */
  lemma SpacesAre(c: char)
    ensures IsSpace(c) <==> c as int in {
              0x9, 0xA, 0xB, 0xC, 0xD, 0x20, 0x85, 0xA0, 0x1680, 0x2000, 0x2001, 0x2002, 0x2003, 0x2004, 0x2005,
              0x2006, 0x2007, 0x2008, 0x2009, 0x200A, 0x2028, 0x2029, 0x202F, 0x205F, 0x3000}
  {
  }
}
