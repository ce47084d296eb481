/** What the Markdown converter produces: the denotation of balanced events, their text, valid nodes. */
module MarkdownTrees {
  import opened Core
  import opened Markdown
  import N = NodeJson
  import H = HtmlFragment

  // ----- Balanced events are trees ---------------------------------------------------------------

  datatype Tree = Leaf(e: Event) | Wrap(tag: Tag, children: seq<Tree>)

  /** The leaves of a tree neither open nor close anything. */
  predicate Proper(t: Tree) {
    match t
    case Leaf(e) => !e.Start? && !e.End?
    case Wrap(_, children) => forall c :: c in children ==> Proper(c)
  }

  predicate AllProper(trees: seq<Tree>) {
    forall t :: t in trees ==> Proper(t)
  }

  function TreeEvents(t: Tree): seq<Event> {
    match t
    case Leaf(e) => [e]
    case Wrap(tag, children) => [Start(tag)] + Events(children) + [End]
  }

  function Events(trees: seq<Tree>): seq<Event> {
    if trees == [] then [] else TreeEvents(trees[0]) + Events(trees[1..])
  }

  /** How many constructs are open after `events`, starting with `depth`; `None` when one is closed that
      was not opened. */
  function Level(events: seq<Event>, depth: nat): Option<nat> {
    if events == [] then Some(depth)
    else
      match events[0]
      case Start(_) => Level(events[1..], depth + 1)
      case End => if depth == 0 then None else Level(events[1..], depth - 1)
      case _ => Level(events[1..], depth)
  }

  predicate Balanced(events: seq<Event>) {
    Level(events, 0) == Some(0)
  }

  lemma {:induction false} LevelOfTree(t: Tree, more: seq<Event>, depth: nat)
    requires Proper(t)
    ensures Level(TreeEvents(t) + more, depth) == Level(more, depth)
  {
    match t {
      case Leaf(e) => assert (TreeEvents(t) + more)[1..] == more;
      case Wrap(tag, children) =>
        LevelOfTrees(children, [End] + more, depth + 1);
        assert (TreeEvents(t) + more)[1..] == Events(children) + ([End] + more);
        assert ([End] + more)[1..] == more;
    }
  }

  lemma {:induction false} LevelOfTrees(trees: seq<Tree>, more: seq<Event>, depth: nat)
    requires AllProper(trees)
    ensures Level(Events(trees) + more, depth) == Level(more, depth)
  {
    if trees == [] {
      assert Events(trees) + more == more;
    } else {
      LevelOfTree(trees[0], Events(trees[1..]) + more, depth);
      LevelOfTrees(trees[1..], more, depth);
      assert Events(trees) + more == TreeEvents(trees[0]) + (Events(trees[1..]) + more);
    }
  }

  /** The trees at the front of balanced events, and the closing event of the construct around them. */
  lemma {:induction false} ParseTrees(events: seq<Event>, depth: nat) returns (trees: seq<Tree>, rest: seq<Event>)
    requires Level(events, depth) == Some(0)
    ensures AllProper(trees) && events == Events(trees) + rest && Level(rest, depth) == Some(0)
    ensures if depth == 0 then rest == [] else rest != [] && rest[0].End?
    decreases |events|
  {
    if events == [] || events[0].End? {
      trees, rest := [], events;
    } else if events[0].Start? {
      var children, after := ParseTrees(events[1..], depth + 1);
      var more;
      more, rest := ParseTrees(after[1..], depth);
      trees := [Wrap(events[0].tag, children)] + more;
      assert after == [End] + after[1..];
      WrapEvents(events[0].tag, children, more, rest);
      assert events == [events[0]] + events[1..];
    } else {
      var more;
      more, rest := ParseTrees(events[1..], depth);
      trees := [Leaf(events[0])] + more;
      assert trees[1..] == more;
      assert events == [events[0]] + events[1..];
    }
  }

  lemma WrapEvents(tag: Tag, children: seq<Tree>, more: seq<Tree>, rest: seq<Event>)
    ensures Events([Wrap(tag, children)] + more) + rest
         == [Start(tag)] + (Events(children) + ([End] + (Events(more) + rest)))
  {
    assert ([Wrap(tag, children)] + more)[1..] == more;
  }

  /** An event stream is balanced if and only if it is the traversal of some trees. */
  lemma BalancedIffTrees(events: seq<Event>)
    ensures Balanced(events) <==> exists trees :: AllProper(trees) && Events(trees) == events
  {
    if Balanced(events) {
      var trees, rest := ParseTrees(events, 0);
      assert Events(trees) + rest == Events(trees);
    }
    forall trees | AllProper(trees) && Events(trees) == events ensures Balanced(events) {
      LevelOfTrees(trees, [], 0);
      assert Events(trees) + [] == events;
    }
  }

  // ----- The machine computes the denotation -----------------------------------------------------

  /** A construct becomes an element around its content; an unsupported one only its content. */
  function TreeNodes(t: Tree): seq<N.Node> {
    match t
    case Leaf(e) => LeafNodes(e)
    case Wrap(tag, children) =>
      if tag.Unsupported? then Nodes(children)
      else [N.Element(Opening(tag).tag, Opening(tag).attrs, Nodes(children))]
  }

  function Nodes(trees: seq<Tree>): seq<N.Node> {
    if trees == [] then [] else TreeNodes(trees[0]) + Nodes(trees[1..])
  }

  lemma AppendTwice(s: State, a: seq<N.Node>, b: seq<N.Node>)
    ensures Append(Append(s, a), b) == Append(s, a + b)
  {
    if s.stack == [] {
      assert s.output + a + b == s.output + (a + b);
    } else {
      var top := s.stack[|s.stack| - 1];
      assert top.children + a + b == top.children + (a + b);
    }
  }

  lemma OpeningDrops(tag: Tag)
    ensures Opening(tag).tag == DROP <==> tag.Unsupported?
    ensures Opening(tag).children == []
  {
    assert DROP[0] == '_';
  }

  lemma WrapCloses(s: State, tag: Tag, nodes: seq<N.Node>)
    ensures Step(Append(Step(s, Start(tag)), nodes), End)
         == Append(s, if tag.Unsupported? then nodes else [N.Element(Opening(tag).tag, Opening(tag).attrs, nodes)])
  {
    OpeningDrops(tag);
    hide Opening;
    var entered := Step(s, Start(tag));
    var filled := Append(entered, nodes);
    assert entered.stack[..|s.stack|] == s.stack;
    assert [] + nodes == nodes;
    assert filled.stack == s.stack + [Opening(tag).(children := nodes)];
    assert filled.stack[..|s.stack|] == s.stack;
  }

  lemma {:induction false} RunTree(s: State, t: Tree)
    requires Proper(t)
    ensures RunEvents(s, TreeEvents(t)) == Append(s, TreeNodes(t))
    decreases t
  {
    hide Append, LeafNodes;
    match t {
      case Leaf(e) =>
        assert RunEvents(s, [e]) == Step(s, e);
      case Wrap(tag, children) =>
        var inner := Step(s, Start(tag));
        RunTrees(inner, children);
        assert TreeEvents(t)[1..] == Events(children) + [End];
        RunAppends(inner, Events(children), [End]);
        var filled := Append(inner, Nodes(children));
        assert RunEvents(filled, [End]) == Step(filled, End) by { RunOne(filled, End); }
        WrapCloses(s, tag, Nodes(children));
    }
  }

  lemma RunOne(s: State, e: Event)
    ensures RunEvents(s, [e]) == Step(s, e)
  {
  }

  lemma {:induction false} RunTrees(s: State, trees: seq<Tree>)
    requires AllProper(trees)
    ensures RunEvents(s, Events(trees)) == Append(s, Nodes(trees))
    decreases trees
  {
    if trees == [] {
      AppendNothing(s);
    } else {
      hide Append;
      RunTree(s, trees[0]);
      RunAppends(s, TreeEvents(trees[0]), Events(trees[1..]));
      RunTrees(Append(s, TreeNodes(trees[0])), trees[1..]);
      AppendTwice(s, TreeNodes(trees[0]), Nodes(trees[1..]));
    }
  }

  /** On the events of any trees the converter returns exactly their denotation. */
  lemma ConverterIsDenotation(trees: seq<Tree>)
    requires AllProper(trees)
    ensures Converted(Events(trees)) == Nodes(trees)
    ensures RunEvents(START, Events(trees)).stack == []
  {
    RunTrees(START, trees);
    assert [] + Nodes(trees) == Nodes(trees);
  }

  // ----- The elements, construct by construct ------------------------------------------------------
  // These equations leave no freedom: every balanced stream is built from leaves, constructs and siblings.

  lemma WrapConverts(tag: Tag, content: seq<Event>)
    requires Balanced(content)
    ensures Converted([Start(tag)] + content + [End])
         == if tag.Unsupported? then Converted(content)
            else [N.Element(Opening(tag).tag, Opening(tag).attrs, Converted(content))]
  {
    hide Balanced, Converted, Opening;
    BalancedIffTrees(content);
    var trees :| AllProper(trees) && Events(trees) == content;
    ConverterIsDenotation(trees);
    ConverterIsDenotation([Wrap(tag, trees)]);
    assert [Wrap(tag, trees)][1..] == [];
    assert Events([Wrap(tag, trees)]) == [Start(tag)] + Events(trees) + [End];
    assert Nodes([Wrap(tag, trees)]) == TreeNodes(Wrap(tag, trees));
  }

  /** A block becomes its element around what its content becomes; headings down to level 3 share one tag, the
      others another. */
  lemma BlocksConvert(content: seq<Event>, level: nat)
    requires Balanced(content)
    ensures var inner := Converted(content);
            && Converted([Start(Paragraph)] + content + [End]) == [N.Element("p", map[], inner)]
            && Converted([Start(Heading(level))] + content + [End])
               == [N.Element(if level <= 3 then "h3" else "h4", map[], inner)]
            && Converted([Start(BlockQuote)] + content + [End]) == [N.Element("blockquote", map[], inner)]
            && Converted([Start(CodeBlock)] + content + [End]) == [N.Element("pre", map[], inner)]
            && Converted([Start(OrderedList)] + content + [End]) == [N.Element("ol", map[], inner)]
            && Converted([Start(BulletList)] + content + [End]) == [N.Element("ul", map[], inner)]
            && Converted([Start(Item)] + content + [End]) == [N.Element("li", map[], inner)]
  {
    hide Converted, Balanced;
    WrapConverts(Paragraph, content);
    WrapConverts(Heading(level), content);
    WrapConverts(BlockQuote, content);
    WrapConverts(CodeBlock, content);
    WrapConverts(OrderedList, content);
    WrapConverts(BulletList, content);
    WrapConverts(Item, content);
  }

  /** The inline constructs: a link keeps its target, an image its source and, when it has one, its title as the
      alternative text; an unsupported construct leaves only its content. */
  lemma InlinesConvert(content: seq<Event>, url: string, title: string)
    requires Balanced(content)
    ensures var inner := Converted(content);
            && Converted([Start(Emphasis)] + content + [End]) == [N.Element("em", map[], inner)]
            && Converted([Start(Strong)] + content + [End]) == [N.Element("strong", map[], inner)]
            && Converted([Start(Strikethrough)] + content + [End]) == [N.Element("s", map[], inner)]
            && Converted([Start(Link(url))] + content + [End]) == [N.Element("a", map["href" := url], inner)]
            && Converted([Start(Image(url, title))] + content + [End])
               == [N.Element("img", if title == "" then map["src" := url] else map["src" := url, "alt" := title], inner)]
            && Converted([Start(Unsupported)] + content + [End]) == inner
  {
    hide Converted, Balanced;
    WrapConverts(Emphasis, content);
    WrapConverts(Strong, content);
    WrapConverts(Strikethrough, content);
    WrapConverts(Link(url), content);
    WrapConverts(Image(url, title), content);
    WrapConverts(Unsupported, content);
  }

  lemma LeafConverts(e: Event)
    requires !e.Start? && !e.End?
    ensures Converted([e]) == LeafNodes(e)
  {
    ConverterIsDenotation([Leaf(e)]);
    assert [Leaf(e)][1..] == [];
    assert Events([Leaf(e)]) == [e];
    assert Nodes([Leaf(e)]) == LeafNodes(e);
  }

  /** Text that is not empty, a code span, and the breaks; of raw HTML what the fragment scanner keeps. */
  lemma LeavesConvert(text: string)
    ensures Converted([Event.Text(text)]) == if text == "" then [] else [N.Text(text)]
    ensures Converted([Code(text)]) == [N.Element("code", map[], [N.Text(text)])]
    ensures Converted([Html(text)])
         == if H.IframeOrVideo(text).Some? then [H.IframeOrVideo(text).value] else []
    ensures Converted([SoftBreak]) == [N.Text(" ")]
    ensures Converted([HardBreak]) == [N.Element("br", map[], [])]
    ensures Converted([Rule]) == [N.Element("hr", map[], [])]
    ensures Converted([Other]) == []
  {
    hide Converted, H.IframeOrVideo;
    LeafConverts(Event.Text(text));
    LeafConverts(Code(text));
    LeafConverts(Html(text));
    LeafConverts(SoftBreak);
    LeafConverts(HardBreak);
    LeafConverts(Rule);
    LeafConverts(Other);
  }

  lemma {:induction false} NodesAppend(a: seq<Tree>, b: seq<Tree>)
    ensures Nodes(a + b) == Nodes(a) + Nodes(b)
    ensures Events(a + b) == Events(a) + Events(b)
    decreases |a|
  {
    if a == [] {
      assert a + b == b;
    } else {
      NodesAppend(a[1..], b);
      ConsAppends(a[0], a[1..], b);
      assert a == [a[0]] + a[1..];
    }
  }

  lemma ConsAppends(t: Tree, rest: seq<Tree>, b: seq<Tree>)
    requires Nodes(rest + b) == Nodes(rest) + Nodes(b) && Events(rest + b) == Events(rest) + Events(b)
    ensures Nodes([t] + rest + b) == Nodes([t] + rest) + Nodes(b)
    ensures Events([t] + rest + b) == Events([t] + rest) + Events(b)
  {
    hide Nodes, Events, TreeNodes, TreeEvents;
    assert [t] + rest + b == [t] + (rest + b);
    ConsNodes(t, rest + b);
    ConsNodes(t, rest);
    assert TreeNodes(t) + (Nodes(rest) + Nodes(b)) == TreeNodes(t) + Nodes(rest) + Nodes(b);
    assert TreeEvents(t) + (Events(rest) + Events(b)) == TreeEvents(t) + Events(rest) + Events(b);
  }

  lemma ConsNodes(t: Tree, rest: seq<Tree>)
    ensures Nodes([t] + rest) == TreeNodes(t) + Nodes(rest)
    ensures Events([t] + rest) == TreeEvents(t) + Events(rest)
  {
    hide TreeNodes, TreeEvents;
    assert ([t] + rest)[1..] == rest;
  }

  /** What follows a balanced stream is converted on its own. */
  lemma SiblingsConvert(a: seq<Event>, b: seq<Event>)
    requires Balanced(a) && Balanced(b)
    ensures Balanced(a + b) && Converted(a + b) == Converted(a) + Converted(b)
  {
    hide Balanced, Converted;
    BalancedIffTrees(a);
    BalancedIffTrees(b);
    var s :| AllProper(s) && Events(s) == a;
    var t :| AllProper(t) && Events(t) == b;
    NodesAppend(s, t);
    ConverterIsDenotation(s);
    ConverterIsDenotation(t);
    ConverterIsDenotation(s + t);
    BalancedIffTrees(a + b);
  }

  // ----- No text is lost or moved ----------------------------------------------------------------

  function NodeText(n: N.Node): seq<string> {
    match n
    case Blank => []
    case Text(t) => [t]
    case Element(_, _, children) => TextLeaves(children)
  }

  /** The text leaves in document order. */
  function TextLeaves(nodes: seq<N.Node>): seq<string> {
    if nodes == [] then [] else NodeText(nodes[0]) + TextLeaves(nodes[1..])
  }

  function EventText(e: Event): seq<string> {
    match e
    case Text(t) => if t == "" then [] else [t]
    case Code(t) => [t]
    case SoftBreak => [" "]
    case _ => []
  }

  function EventTexts(events: seq<Event>): seq<string> {
    if events == [] then [] else EventText(events[0]) + EventTexts(events[1..])
  }

  lemma {:induction false} TextLeavesAppend(a: seq<N.Node>, b: seq<N.Node>)
    ensures TextLeaves(a + b) == TextLeaves(a) + TextLeaves(b)
    decreases |a|
  {
    hide NodeText;
    if a == [] {
      assert a + b == b;
    } else {
      TextLeavesAppend(a[1..], b);
      assert (a + b)[1..] == a[1..] + b;
    }
  }

  lemma TextOfOne(n: N.Node)
    ensures TextLeaves([n]) == NodeText(n)
  {
    assert NodeText(n) + [] == NodeText(n);
  }

  function StackText(stack: seq<Frame>): seq<string> {
    if stack == [] then [] else StackText(stack[..|stack| - 1]) + TextLeaves(stack[|stack| - 1].children)
  }

  /** The text the machine holds, outermost first. */
  function Held(s: State): seq<string> {
    TextLeaves(s.output) + StackText(s.stack)
  }

  lemma AppendHolds(s: State, nodes: seq<N.Node>)
    ensures Held(Append(s, nodes)) == Held(s) + TextLeaves(nodes)
  {
    if s.stack == [] {
      TextLeavesAppend(s.output, nodes);
    } else {
      var top := s.stack[|s.stack| - 1];
      TextLeavesAppend(top.children, nodes);
      assert Append(s, nodes).stack[..|s.stack| - 1] == s.stack[..|s.stack| - 1];
    }
  }

  lemma LeafText(e: Event)
    requires !e.Start? && !e.End?
    ensures TextLeaves(LeafNodes(e)) == EventText(e)
  {
    if LeafNodes(e) != [] {
      TextOfOne(LeafNodes(e)[0]);
      if e.Code? {
        TextOfOne(N.Text(e.text));
      }
    }
  }

  lemma StepHolds(s: State, e: Event)
    ensures Held(Step(s, e)) == Held(s) + EventText(e)
  {
    hide LeafNodes, Append, TextLeaves, Opening;
    match e {
      case Start(tag) =>
        OpeningDrops(tag);
        assert (s.stack + [Opening(tag)])[..|s.stack|] == s.stack;
        NoText();
      case End =>
        if s.stack != [] {
          var top := s.stack[|s.stack| - 1];
          AppendHolds(s.(stack := s.stack[..|s.stack| - 1]), ClosedNodes(top));
          TextOfOne(N.Element(top.tag, top.attrs, top.children));
        }
      case _ =>
        LeafText(e);
        AppendHolds(s, LeafNodes(e));
    }
  }

  lemma NoText()
    ensures TextLeaves([]) == []
  {
  }

  lemma {:induction false} RunHolds(s: State, events: seq<Event>)
    ensures Held(RunEvents(s, events)) == Held(s) + EventTexts(events)
    decreases |events|
  {
    hide Held, Step, EventText;
    if events != [] {
      StepHolds(s, events[0]);
      RunHolds(Step(s, events[0]), events[1..]);
    }
  }

  lemma {:induction false} CloseHolds(s: State)
    ensures TextLeaves(CloseAll(s)) == Held(s)
    decreases |s.stack|
  {
    hide TextLeaves, Append;
    if s.stack != [] {
      var top := s.stack[|s.stack| - 1];
      var popped := s.(stack := s.stack[..|s.stack| - 1]);
      var node := N.Element(top.tag, top.attrs, top.children);
      AppendHolds(popped, [node]);
      TextOfOne(node);
      AppendKeepsDepth(popped, [node]);
      CloseHolds(Append(popped, [node]));
    }
  }

  lemma AppendKeepsDepth(s: State, nodes: seq<N.Node>)
    ensures |Append(s, nodes).stack| == |s.stack|
  {
  }

  /** For every event stream, balanced or not: the text leaves of the result are the texts, code spans and
      soft breaks of the events, in order. Image and dropped content counts like any other. */
  lemma TextIsKept(events: seq<Event>)
    ensures TextLeaves(Converted(events)) == EventTexts(events)
  {
    RunHolds(START, events);
    CloseHolds(RunEvents(START, events));
  }

  // ----- The result is valid content -------------------------------------------------------------

  function FrameNode(f: Frame): N.Node {
    N.Element(f.tag, f.attrs, f.children)
  }

  ghost predicate FramesOk(stack: seq<Frame>) {
    forall f :: f in stack ==> N.NodeOk(FrameNode(f))
  }

  ghost predicate AllOk(s: State) {
    N.NodesOk(s.output) && FramesOk(s.stack)
  }

  lemma ElementOk(f: Frame, more: seq<N.Node>)
    ensures N.NodeOk(FrameNode(f.(children := f.children + more))) <==> N.NodeOk(FrameNode(f)) && N.NodesOk(more)
  {
    var both := f.children + more;
    forall c ensures c in both <==> c in f.children || c in more {
    }
    if N.NodeOk(FrameNode(f.(children := both))) {
      forall c | c in f.children ensures N.NodeOk(c) { assert c in both; }
      forall c | c in more ensures N.NodeOk(c) { assert c in both; }
    }
  }

  lemma FramesOkSplit(stack: seq<Frame>)
    requires stack != []
    ensures FramesOk(stack) <==> FramesOk(stack[..|stack| - 1]) && N.NodeOk(FrameNode(stack[|stack| - 1]))
  {
    var init, last := stack[..|stack| - 1], stack[|stack| - 1];
    assert stack == init + [last];
    forall f ensures f in stack <==> f in init || f == last {
    }
  }

  lemma NodesOkSplit(a: seq<N.Node>, b: seq<N.Node>)
    ensures N.NodesOk(a + b) <==> N.NodesOk(a) && N.NodesOk(b)
  {
    if N.NodesOk(a + b) {
      forall c | c in a ensures N.NodeOk(c) { assert c in a + b; }
      forall c | c in b ensures N.NodeOk(c) { assert c in a + b; }
    }
  }

  lemma AppendOkIff(s: State, nodes: seq<N.Node>)
    ensures AllOk(Append(s, nodes)) <==> AllOk(s) && N.NodesOk(nodes)
  {
    if s.stack == [] {
      NodesOkSplit(s.output, nodes);
    } else {
      hide FramesOk, N.NodesOk, N.NodeOk;
      var top := s.stack[|s.stack| - 1];
      ElementOk(top, nodes);
      FramesOkSplit(s.stack);
      FramesOkSplit(Append(s, nodes).stack);
      assert Append(s, nodes).stack[..|s.stack| - 1] == s.stack[..|s.stack| - 1];
    }
  }

  lemma SingleOk(n: N.Node)
    ensures N.NodesOk([n]) <==> N.NodeOk(n)
  {
    assert n in [n];
  }

  lemma {:induction false} CloseOkIff(s: State)
    ensures N.NodesOk(CloseAll(s)) <==> AllOk(s)
    decreases |s.stack|
  {
    if s.stack == [] {
    } else {
      hide FramesOk, N.NodesOk, N.NodeOk, Append;
      var top := s.stack[|s.stack| - 1];
      var popped := s.(stack := s.stack[..|s.stack| - 1]);
      AppendOkIff(popped, [FrameNode(top)]);
      SingleOk(FrameNode(top));
      FramesOkSplit(s.stack);
      AppendKeepsDepth(popped, [FrameNode(top)]);
      CloseOkIff(Append(popped, [FrameNode(top)]));
    }
  }

  ghost predicate NothingDropped(stack: seq<Frame>) {
    forall f :: f in stack ==> f.tag != DROP
  }

  /** An open element is valid, a wrapper that will be dropped has valid content. */
  predicate FrameFits(f: Frame) {
    if f.tag == DROP then N.NodesOk(f.children) else N.NodeOk(FrameNode(f))
  }

  ghost predicate Fits(s: State) {
    N.NodesOk(s.output) && forall f :: f in s.stack ==> FrameFits(f)
  }

  lemma OpeningFits(tag: Tag)
    ensures FrameFits(Opening(tag))
  {
  }

  lemma LeafNodesOk(e: Event)
    ensures N.NodesOk(LeafNodes(e))
  {
    hide H.IframeOrVideo;
    match e {
      case Html(h) => H.FragmentIsOk(h);
      case Code(t) =>
        assert forall n :: n in [N.Text(t)] ==> N.NodeOk(n);
        SingleOk(N.Element("code", map[], [N.Text(t)]));
      case _ =>
    }
  }

  lemma AppendFits(s: State, nodes: seq<N.Node>)
    requires Fits(s) && N.NodesOk(nodes)
    ensures Fits(Append(s, nodes))
  {
    if s.stack == [] {
      NodesOkSplit(s.output, nodes);
    } else {
      hide N.NodesOk, N.NodeOk;
      var top := s.stack[|s.stack| - 1];
      assert FrameFits(top);
      ElementOk(top, nodes);
      NodesOkSplit(top.children, nodes);
    }
  }

  lemma StepFits(s: State, e: Event)
    requires Fits(s)
    ensures Fits(Step(s, e))
  {
    hide FrameFits, N.NodesOk, N.NodeOk, LeafNodes, Append, Opening;
    match e {
      case Start(tag) => OpeningFits(tag);
      case End =>
        if s.stack != [] {
          var top := s.stack[|s.stack| - 1];
          var popped := s.(stack := s.stack[..|s.stack| - 1]);
          assert FrameFits(top);
          ClosedNodesOk(top);
          AppendFits(popped, ClosedNodes(top));
        }
      case _ =>
        LeafNodesOk(e);
        AppendFits(s, LeafNodes(e));
    }
  }

  lemma ClosedNodesOk(f: Frame)
    requires FrameFits(f)
    ensures N.NodesOk(ClosedNodes(f))
  {
    hide N.NodesOk, N.NodeOk;
    if f.tag != DROP {
      SingleOk(FrameNode(f));
    }
  }

  lemma {:induction false} RunFits(s: State, events: seq<Event>)
    requires Fits(s)
    ensures Fits(RunEvents(s, events))
    decreases |events|
  {
    hide Fits, Step;
    if events != [] {
      StepFits(s, events[0]);
      RunFits(Step(s, events[0]), events[1..]);
    }
  }

  lemma FitsOkIff(s: State)
    requires Fits(s)
    ensures AllOk(s) <==> NothingDropped(s.stack)
  {
    hide N.NodesOk;
    forall f | f in s.stack ensures N.NodeOk(FrameNode(f)) <==> f.tag != DROP {
      DropIsNotAllowed();
      assert FrameFits(f);
    }
  }

  lemma DropIsNotAllowed()
    ensures DROP !in N.ALLOWED_TAGS
  {
    assert DROP[0] == '_';
  }

  /** For every event stream: the result passes the article service's validation if and only if no
      unsupported construct is still open at the end. */
  lemma OutputIsValidIff(events: seq<Event>)
    ensures N.NodesOk(Converted(events)) <==> NothingDropped(RunEvents(START, events).stack)
  {
    hide RunEvents, N.NodesOk;
    assert Fits(START) by { EmptyFits(); }
    RunFits(START, events);
    FitsOkIff(RunEvents(START, events));
    CloseOkIff(RunEvents(START, events));
  }

  lemma EmptyFits()
    ensures Fits(START)
  {
  }

  /** Balanced streams leave nothing open, so their result is always valid: no dropped wrapper survives. */
  lemma BalancedOutputIsValid(events: seq<Event>)
    requires Balanced(events)
    ensures N.NodesOk(Converted(events))
    ensures exists trees :: AllProper(trees) && Events(trees) == events && Converted(events) == Nodes(trees)
  {
    hide Balanced;
    BalancedIffTrees(events);
    var trees :| AllProper(trees) && Events(trees) == events;
    ConverterIsDenotation(trees);
    OutputIsValidIff(events);
  }
}
