/** The scanner that keeps `<iframe>` and `<video>` out of raw HTML, with their `src` only. */
module HtmlFragment {
  import opened Core
  import opened Text
  import N = NodeJson

  function LowerAscii(c: char): char {
    if 'A' <= c <= 'Z' then (c as int + 32) as char else c
  }

  /** `s` starts with `prefix`, letters compared in lower case. */
  predicate StartsWith(s: string, prefix: string) {
    |s| >= |prefix| && forall i :: 0 <= i < |prefix| ==> LowerAscii(s[i]) == prefix[i]
  }

  function NameStop(c: char): bool { c == '=' || IsSpace(c) || c == '>' }

  function ValueStop(c: char): bool { IsSpace(c) || c == '>' }

  /** How many characters come before the first one that stops. */
  function Span(s: string, stop: char -> bool): (n: nat)
    ensures n <= |s|
  {
    if s == "" || stop(s[0]) then 0 else 1 + Span(s[1..], stop)
  }

  function Until(quote: char): char -> bool {
    c => c == quote
  }

  /** A value and the text after it: up to the same quote, or up to a space or `>`. */
  function ReadValue(s: string): (r: (string, string))
    ensures |r.1| <= |s|
  {
    if s != "" && (s[0] == '"' || s[0] == '\'') then
      var quote := s[0];
      var n := Span(s[1..], Until(quote));
      (s[1..1 + n], if 1 + n < |s| then s[2 + n..] else "")
    else
      var n := Span(s, ValueStop);
      (s[..n], s[n..])
  }

  /** The last `src` value in the attributes at the front of `s`, or `src` when there is none. */
  function ScanSrc(s: string, src: Option<string>): Option<string>
    decreases |s|
  {
    if s == "" || s[0] == '>' || s[0] == '/' then src
    else if IsSpace(s[0]) then ScanSrc(s[1..], src)
    else
      var n := Span(s, NameStop);
      if n < |s| && s[n] == '=' then
        var (value, rest) := ReadValue(s[n + 1..]);
        ScanSrc(rest, if s[..n] == "src" then Some(value) else src)
      else ScanSrc(s[n..], src)
  }

  function SrcAttrs(src: Option<string>): map<string, string> {
    match src case Some(url) => map["src" := url] case None => map[]
  }

  function IframeOrVideo(html: string): Option<N.Node> {
    var trimmed := Trim(html);
    if StartsWith(trimmed, "<iframe") then Some(N.Element("iframe", SrcAttrs(ScanSrc(trimmed[7..], None)), []))
    else if StartsWith(trimmed, "<video") then Some(N.Element("video", SrcAttrs(ScanSrc(trimmed[6..], None)), []))
    else None
  }

  lemma {:induction false} SpanGrows(s: string, stop: char -> bool, i: nat)
    requires i <= Span(s, stop) && i < |s|
    ensures stop(s[i]) ==> Span(s, stop) == i
    ensures !stop(s[i]) ==> Span(s, stop) >= i + 1
  {
    if i > 0 {
      SpanGrows(s[1..], stop, i - 1);
    }
  }

  /** The peeking loop: characters are moved to the result until one stops it. */
  method Collect(s: string, start: nat, stop: char -> bool) returns (text: string, i: nat)
    requires start <= |s|
    ensures i == start + Span(s[start..], stop) && i <= |s| && text == s[start..i]
  {
    i := start;
    text := "";
    while i < |s| && !stop(s[i])
      invariant start <= i <= start + Span(s[start..], stop) <= |s| && text == s[start..i]
      decreases |s| - i
    {
      SpanGrows(s[start..], stop, i - start);
      text := text + [s[i]];
      i := i + 1;
    }
    if i < |s| {
      SpanGrows(s[start..], stop, i - start);
    }
  }

  lemma QuotedAt(s: string, start: nat, i: nat)
    requires start < |s| && (s[start] == '"' || s[start] == '\'')
    requires i == start + 1 + Span(s[start + 1..], Until(s[start]))
    ensures i <= |s| && ReadValue(s[start..]) == (s[start + 1..i], if i < |s| then s[i + 1..] else "")
  {
    hide Span, Until;
    var here := s[start..];
    var n := i - start - 1;
    assert here[1..] == s[start + 1..];
    assert here[1..1 + n] == s[start + 1..i];
    if i < |s| {
      assert here[2 + n..] == s[i + 1..];
    }
  }

  lemma UnquotedAt(s: string, start: nat, i: nat)
    requires start <= |s| && !(start < |s| && (s[start] == '"' || s[start] == '\''))
    requires i == start + Span(s[start..], ValueStop)
    ensures i <= |s| && ReadValue(s[start..]) == (s[start..i], s[i..])
  {
    hide Span;
    var here := s[start..];
    assert here[..i - start] == s[start..i] && here[i - start..] == s[i..];
  }

  method ReadValueAt(s: string, start: nat) returns (value: string, i: nat)
    requires start <= |s|
    ensures start <= i <= |s| && (value, s[i..]) == ReadValue(s[start..])
  {
    hide ReadValue, Span, Until;
    if start < |s| && (s[start] == '"' || s[start] == '\'') {
      value, i := Collect(s, start + 1, Until(s[start]));
      QuotedAt(s, start, i);
      if i < |s| {
        i := i + 1;
      } else {
        assert s[i..] == "";
      }
    } else {
      value, i := Collect(s, start, ValueStop);
      UnquotedAt(s, start, i);
    }
  }

  lemma ScanSpaceAt(s: string, i: nat, src: Option<string>)
    requires i < |s| && IsSpace(s[i])
    ensures ScanSrc(s[i..], src) == ScanSrc(s[i + 1..], src)
  {
    assert s[i..][1..] == s[i + 1..];
    assert s[i] != '>' && s[i] != '/';
  }

  lemma ScanNameAt(s: string, i: nat, j: nat, src: Option<string>)
    requires i < |s| && !IsSpace(s[i]) && s[i] != '>' && s[i] != '/' && j == i + Span(s[i..], NameStop)
    ensures i <= j <= |s| && (j == i ==> s[i] == '=')
    ensures ScanSrc(s[i..], src)
         == if j < |s| && s[j] == '=' then
              ScanSrc(ReadValue(s[j + 1..]).1, if s[i..j] == "src" then Some(ReadValue(s[j + 1..]).0) else src)
            else ScanSrc(s[j..], src)
  {
    hide ReadValue, IsSpace;
    var here := s[i..];
    assert here[..j - i] == s[i..j] && here[j - i..] == s[j..];
    if j < |s| {
      assert here[j - i + 1..] == s[j + 1..];
    }
    NameGrows(here);
  }

  method ScanAttrs(s: string, start: nat) returns (attrs: map<string, string>)
    requires start <= |s|
    ensures attrs == SrcAttrs(ScanSrc(s[start..], None))
  {
    hide ReadValue, NameStop, ScanSrc, IsSpace, Span;
    var i := start;
    attrs := map[];
    ghost var src: Option<string> := None;
    while i < |s| && s[i] != '>' && s[i] != '/'
      invariant i <= |s| && attrs == SrcAttrs(src)
      invariant ScanSrc(s[i..], src) == ScanSrc(s[start..], None)
      decreases |s| - i
    {
      if IsSpace(s[i]) {
        ScanSpaceAt(s, i, src);
        i := i + 1;
        continue;
      }
      ghost var begin := i;
      var name: string;
      name, i := Collect(s, i, NameStop);
      ScanNameAt(s, begin, i, src);
      if i < |s| && s[i] == '=' {
        var value: string;
        value, i := ReadValueAt(s, i + 1);
        if name == "src" {
          attrs := attrs[name := value];
          src := Some(value);
        }
      }
    }
    ScanStops(s[i..], src);
  }

  lemma NameGrows(s: string)
    requires s != "" && s[0] != '>' && !IsSpace(s[0])
    ensures Span(s, NameStop) == 0 ==> s[0] == '='
  {
  }

  method ParseIframeOrVideo(html: string) returns (r: Option<N.Node>)
    ensures r == IframeOrVideo(html)
  {
    hide ScanSrc, Trim;
    var trimmed := Trim(html);
    if StartsWith(trimmed, "<iframe") {
      var attrs := ScanAttrs(trimmed, 7);
      r := Some(N.Element("iframe", attrs, []));
    } else if StartsWith(trimmed, "<video") {
      var attrs := ScanAttrs(trimmed, 6);
      r := Some(N.Element("video", attrs, []));
    } else {
      r := None;
    }
  }

  // ----- What is kept ----------------------------------------------------------------------------

  /** The ways to write an attribute: in single or double quotes, without quotes, or without a value. */
  datatype Attr = Quoted(name: string, quote: char, value: string) | Bare(name: string, value: string) | Flag(name: string)

  /** An attribute and the white space before it. */
  datatype Written = Written(gap: string, attr: Attr)

  function AttrThen(a: Attr, rest: string): string {
    match a
    case Quoted(name, quote, value) => name + ("=" + ([quote] + (value + ([quote] + rest))))
    case Bare(name, value) => name + ("=" + (value + rest))
    case Flag(name) => name + rest
  }

  function AttrsText(attrs: seq<Written>, tail: string): string {
    if attrs == [] then tail else attrs[0].gap + AttrThen(attrs[0].attr, AttrsText(attrs[1..], tail))
  }

  predicate NoneOf(s: string, stop: char -> bool) {
    forall i :: 0 <= i < |s| ==> !stop(s[i])
  }

  predicate AttrOk(a: Attr) {
    && NoneOf(a.name, NameStop) && (a.name != "" ==> a.name[0] != '/')
    && match a
       case Quoted(_, quote, value) => (quote == '"' || quote == '\'') && NoneOf(value, Until(quote))
       case Bare(_, value) => NoneOf(value, ValueStop) && (value != "" ==> value[0] != '"' && value[0] != '\'')
       case Flag(name) => name != ""
  }

  predicate WrittenOk(w: Written) {
    w.gap != "" && (forall i :: 0 <= i < |w.gap| ==> IsSpace(w.gap[i])) && AttrOk(w.attr)
  }

  /** Text that ends an unquoted value or a name. */
  predicate Follows(rest: string) {
    rest == "" || IsSpace(rest[0]) || rest[0] == '>'
  }

  /** The tag is closed here, white space aside, or the text is over. */
  predicate Closes(rest: string) {
    rest == "" || rest[0] == '>' || rest[0] == '/' || (IsSpace(rest[0]) && Closes(rest[1..]))
  }

  function SrcOf(a: Attr): Option<string> {
    if a.name != "src" || a.Flag? then None else Some(a.value)
  }

  /** The value of the last `src` that has one. */
  function LastSrc(attrs: seq<Written>): Option<string> {
    if attrs == [] then None else LastSrc(attrs[1..]).Or(SrcOf(attrs[0].attr))
  }

  lemma {:induction false} SpanTo(a: string, b: string, stop: char -> bool)
    requires forall i :: 0 <= i < |a| ==> !stop(a[i])
    requires b == "" || stop(b[0])
    ensures Span(a + b, stop) == |a|
  {
    if a == "" {
      assert a + b == b;
    } else {
      SpanTo(a[1..], b, stop);
      assert (a + b)[1..] == a[1..] + b;
    }
  }

  lemma ReadQuoted(quote: char, value: string, rest: string)
    requires (quote == '"' || quote == '\'') && NoneOf(value, Until(quote))
    ensures ReadValue([quote] + (value + ([quote] + rest))) == (value, rest)
  {
    var s := [quote] + (value + ([quote] + rest));
    assert s[1..] == value + ([quote] + rest);
    SpanTo(value, [quote] + rest, Until(quote));
    assert s[0..] == s;
    QuotedAt(s, 0, 1 + |value|);
    assert s[1..1 + |value|] == value;
    assert s[2 + |value|..] == rest;
  }

  lemma ReadBare(value: string, rest: string)
    requires NoneOf(value, ValueStop) && (value != "" ==> value[0] != '"' && value[0] != '\'') && Follows(rest)
    ensures ReadValue(value + rest) == (value, rest)
  {
    var s := value + rest;
    SpanTo(value, rest, ValueStop);
    assert s[0..] == s;
    UnquotedAt(s, 0, |value|);
    assert s[..|value|] == value && s[|value|..] == rest;
  }

  lemma ScanNamed(name: string, v: string, src: Option<string>)
    requires NoneOf(name, NameStop) && (name != "" ==> name[0] != '/')
    ensures ScanSrc(name + ("=" + v), src)
         == ScanSrc(ReadValue(v).1, if name == "src" then Some(ReadValue(v).0) else src)
  {
    hide ReadValue, Span;
    var named := name + ("=" + v);
    SpanTo(name, "=" + v, NameStop);
    assert named[|name| + 1..] == v && named[..|name|] == name;
  }

  lemma ScanFlag(name: string, rest: string, src: Option<string>)
    requires NoneOf(name, NameStop) && name != "" && name[0] != '/' && Follows(rest)
    ensures ScanSrc(name + rest, src) == ScanSrc(rest, src)
  {
    hide Span;
    SpanTo(name, rest, NameStop);
    assert (name + rest)[|name|..] == rest;
  }

  lemma ScanAttr(a: Attr, rest: string, src: Option<string>)
    requires AttrOk(a) && Follows(rest)
    ensures ScanSrc(AttrThen(a, rest), src) == ScanSrc(rest, SrcOf(a).Or(src))
  {
    hide ScanSrc, ReadValue, Follows, NoneOf;
    match a {
      case Quoted(name, quote, value) =>
        ReadQuoted(quote, value, rest);
        ScanNamed(name, [quote] + (value + ([quote] + rest)), src);
      case Bare(name, value) =>
        ReadBare(value, rest);
        ScanNamed(name, value + rest, src);
      case Flag(name) => ScanFlag(name, rest, src);
    }
  }

  lemma {:induction false} ScanGap(gap: string, rest: string, src: Option<string>)
    requires forall i :: 0 <= i < |gap| ==> IsSpace(gap[i])
    ensures ScanSrc(gap + rest, src) == ScanSrc(rest, src)
  {
    if gap == "" {
      assert gap + rest == rest;
    } else {
      assert (gap + rest)[1..] == gap[1..] + rest;
      ScanGap(gap[1..], rest, src);
      assert gap[0] != '>' && gap[0] != '/';
    }
  }

  lemma {:induction false} ScanCloses(rest: string, src: Option<string>)
    requires Closes(rest)
    ensures ScanSrc(rest, src) == src
  {
    if rest != "" && rest[0] != '>' && rest[0] != '/' {
      ScanCloses(rest[1..], src);
    }
  }

  lemma {:induction false} ScanPrinted(attrs: seq<Written>, tail: string, src: Option<string>)
    requires (forall w :: w in attrs ==> WrittenOk(w)) && Follows(tail) && Closes(tail)
    ensures ScanSrc(AttrsText(attrs, tail), src) == LastSrc(attrs).Or(src)
  {
    hide ScanSrc, AttrThen, Closes;
    if attrs == [] {
      ScanCloses(tail, src);
    } else {
      var rest := AttrsText(attrs[1..], tail);
      assert WrittenOk(attrs[0]);
      assert Follows(rest) by {
        if attrs[1..] != [] {
          assert WrittenOk(attrs[1..][0]);
          assert rest[0] == attrs[1].gap[0];
        }
      }
      ScanGap(attrs[0].gap, AttrThen(attrs[0].attr, rest), src);
      ScanAttr(attrs[0].attr, rest, src);
      ScanPrinted(attrs[1..], tail, SrcOf(attrs[0].attr).Or(src));
    }
  }

  lemma ScanStops(s: string, src: Option<string>)
    requires s == "" || s[0] == '>' || s[0] == '/'
    ensures ScanSrc(s, src) == src
  {
  }

  lemma StartsWithPrefix(opening: string, rest: string, prefix: string)
    requires |opening| == |prefix| && StartsWith(opening, prefix)
    ensures StartsWith(opening + rest, prefix) && (opening + rest)[|opening|..] == rest
  {
  }

  /** Of the attributes of a frame or a video, however they are written, exactly the last `src` with a value is
      kept; the case of the tag does not matter. */
  lemma OnlySrcIsKept(html: string, video: bool, opening: string, attrs: seq<Written>, tail: string)
    requires (forall w :: w in attrs ==> WrittenOk(w)) && Follows(tail) && Closes(tail)
    requires |opening| == (if video then 6 else 7) && StartsWith(opening, if video then "<video" else "<iframe")
    requires Trim(html) == opening + AttrsText(attrs, tail)
    ensures IframeOrVideo(html)
         == Some(N.Element(if video then "video" else "iframe", SrcAttrs(LastSrc(attrs)), []))
  {
    StartsWithPrefix(opening, AttrsText(attrs, tail), if video then "<video" else "<iframe");
    ScanPrinted(attrs, tail, None);
    if video {
      NotBoth(Trim(html));
    }
    hide ScanSrc, AttrsText, Trim, StartsWith, WrittenOk;
  }

  lemma NotBoth(s: string)
    requires StartsWith(s, "<video")
    ensures !StartsWith(s, "<iframe")
  {
    assert "<video"[1] == 'v' && "<iframe"[1] == 'i';
  }

  /** A fragment is kept if and only if, trimmed, it starts with one of the two tags, each letter in either case. */
  lemma KeptIff(html: string)
    ensures IframeOrVideo(html).Some? <==>
            var t := Trim(html);
            || (|t| >= 7 && forall i :: 0 <= i < 7 ==> t[i] == "<iframe"[i] || t[i] == "<IFRAME"[i])
            || (|t| >= 6 && forall i :: 0 <= i < 6 ==> t[i] == "<video"[i] || t[i] == "<VIDEO"[i])
  {
    hide Trim, ScanSrc;
    var t := Trim(html);
    if |t| >= 7 {
      forall i | 0 <= i < 7 ensures LowerAscii(t[i]) == "<iframe"[i] <==> t[i] == "<iframe"[i] || t[i] == "<IFRAME"[i] {
      }
    }
    if |t| >= 6 {
      forall i | 0 <= i < 6 ensures LowerAscii(t[i]) == "<video"[i] <==> t[i] == "<video"[i] || t[i] == "<VIDEO"[i] {
      }
    }
  }

  /** Whatever the fragment, what is kept passes validation. */
  lemma FragmentIsOk(html: string)
    ensures IframeOrVideo(html).Some? ==> N.NodeOk(IframeOrVideo(html).value)
  {
    hide ScanSrc, Trim, StartsWith;
  }
}
