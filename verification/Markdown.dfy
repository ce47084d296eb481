/** The Markdown converter: a stack machine over parser events against the tree it denotes. */
module Markdown {
  import opened Core
  import N = NodeJson
  import H = HtmlFragment

  /** The Markdown constructs that open and close. */
  datatype Tag =
    | Paragraph
    | Heading(level: nat)
    | BlockQuote
    | CodeBlock
    | OrderedList
    | BulletList
    | Item
    | Emphasis
    | Strong
    | Strikethrough
    | Link(destUrl: string)
    | Image(destUrl: string, title: string)
    | Unsupported

  /** `Html` stands for block and inline HTML, `Other` for the events that are dropped. */
  datatype Event =
    | Start(tag: Tag)
    | End
    | Text(text: string)
    | Code(text: string)
    | Html(text: string)
    | SoftBreak
    | HardBreak
    | Rule
    | Other

  /** A `NodeElement` under construction. */
  datatype Frame = Frame(tag: string, attrs: map<string, string>, children: seq<N.Node>)

  const DROP := "__drop__"

  /** The element a construct opens; unsupported ones open a wrapper that is dropped when it closes. */
  function Opening(tag: Tag): Frame {
    match tag
    case Paragraph => Frame("p", map[], [])
    case Heading(level) => Frame(if level <= 3 then "h3" else "h4", map[], [])
    case BlockQuote => Frame("blockquote", map[], [])
    case CodeBlock => Frame("pre", map[], [])
    case OrderedList => Frame("ol", map[], [])
    case BulletList => Frame("ul", map[], [])
    case Item => Frame("li", map[], [])
    case Emphasis => Frame("em", map[], [])
    case Strong => Frame("strong", map[], [])
    case Strikethrough => Frame("s", map[], [])
    case Link(url) => Frame("a", map["href" := url], [])
    case Image(url, title) =>
      Frame("img", if title == "" then map["src" := url] else map["src" := url, "alt" := title], [])
    case Unsupported => Frame(DROP, map[], [])
  }

  /** What an event that neither opens nor closes adds: nothing or one node. */
  function LeafNodes(e: Event): seq<N.Node> {
    match e
    case Text(t) => if t == "" then [] else [N.Text(t)]
    case Code(t) => [N.Element("code", map[], [N.Text(t)])]
    case Html(h) => (match H.IframeOrVideo(h) case Some(node) => [node] case None => [])
    case SoftBreak => [N.Text(" ")]
    case HardBreak => [N.Element("br", map[], [])]
    case Rule => [N.Element("hr", map[], [])]
    case _ => []
  }

  // ----- The machine -----------------------------------------------------------------------------

  datatype State = State(stack: seq<Frame>, output: seq<N.Node>)

  /** Nodes go to the innermost open element, or to the output when none is open. */
  function Append(s: State, nodes: seq<N.Node>): State {
    if s.stack == [] then s.(output := s.output + nodes)
    else
      var top := s.stack[|s.stack| - 1];
      s.(stack := s.stack[..|s.stack| - 1] + [top.(children := top.children + nodes)])
  }

  function ClosedNodes(f: Frame): seq<N.Node> {
    if f.tag == DROP then f.children else [N.Element(f.tag, f.attrs, f.children)]
  }

  function Step(s: State, e: Event): State {
    match e
    case Start(tag) => s.(stack := s.stack + [Opening(tag)])
    case End =>
      if s.stack == [] then s
      else Append(s.(stack := s.stack[..|s.stack| - 1]), ClosedNodes(s.stack[|s.stack| - 1]))
    case _ => Append(s, LeafNodes(e))
  }

  function RunEvents(s: State, events: seq<Event>): State
    decreases |events|
  {
    if events == [] then s else RunEvents(Step(s, events[0]), events[1..])
  }

  /** Elements still open at the end are closed as they are, a dropped wrapper included. */
  function CloseAll(s: State): seq<N.Node>
    decreases |s.stack|
  {
    if s.stack == [] then s.output
    else
      var top := s.stack[|s.stack| - 1];
      CloseAll(Append(s.(stack := s.stack[..|s.stack| - 1]), [N.Element(top.tag, top.attrs, top.children)]))
  }

  const START := State([], [])

  function Converted(events: seq<Event>): seq<N.Node> {
    CloseAll(RunEvents(START, events))
  }

  lemma {:induction false} RunAppends(s: State, events: seq<Event>, more: seq<Event>)
    ensures RunEvents(s, events + more) == RunEvents(RunEvents(s, events), more)
    decreases |events|
  {
    if events == [] {
      assert events + more == more;
    } else {
      assert (events + more)[1..] == events[1..] + more;
      RunAppends(Step(s, events[0]), events[1..], more);
    }
  }

  method MarkdownToNodes(events: seq<Event>) returns (output: seq<N.Node>)
    ensures output == Converted(events)
  {
    var stack: seq<Frame> := [];
    output := [];
    for i := 0 to |events|
      invariant State(stack, output) == RunEvents(START, events[..i])
    {
      RunAppends(START, events[..i], [events[i]]);
      assert events[..i + 1] == events[..i] + [events[i]];
      ghost var before := State(stack, output);
      match events[i] {
        case Start(tag) => stack := stack + [Opening(tag)];
        case End =>
          if stack != [] {
            var top := stack[|stack| - 1];
            stack := stack[..|stack| - 1];
            if top.tag == DROP {
              stack, output := PushAll(stack, output, top.children);
            } else {
              stack, output := PushAll(stack, output, [N.Element(top.tag, top.attrs, top.children)]);
            }
          }
        case Text(t) =>
          if t != "" {
            stack, output := PushAll(stack, output, [N.Text(t)]);
          } else {
            AppendNothing(before);
          }
        case Code(t) => stack, output := PushAll(stack, output, [N.Element("code", map[], [N.Text(t)])]);
        case Html(h) =>
          var node := H.ParseIframeOrVideo(h);
          if node.Some? {
            stack, output := PushAll(stack, output, [node.value]);
          } else {
            AppendNothing(before);
          }
        case SoftBreak => stack, output := PushAll(stack, output, [N.Text(" ")]);
        case HardBreak => stack, output := PushAll(stack, output, [N.Element("br", map[], [])]);
        case Rule => stack, output := PushAll(stack, output, [N.Element("hr", map[], [])]);
        case Other => AppendNothing(before);
      }
      assert State(stack, output) == Step(before, events[i]);
      assert RunEvents(before, [events[i]]) == Step(before, events[i]);
    }
    assert events[..|events|] == events;
    while stack != []
      invariant CloseAll(State(stack, output)) == Converted(events)
      decreases |stack|
    {
      var top := stack[|stack| - 1];
      stack := stack[..|stack| - 1];
      stack, output := PushAll(stack, output, [N.Element(top.tag, top.attrs, top.children)]);
    }
  }

  lemma AppendNothing(s: State)
    ensures Append(s, []) == s
  {
    if s.stack != [] {
      var top := s.stack[|s.stack| - 1];
      assert top.children + [] == top.children;
      assert s.stack == s.stack[..|s.stack| - 1] + [top];
    }
  }

  /** Pushes each node in turn onto the innermost open element or the output. */
  method PushAll(stack: seq<Frame>, output: seq<N.Node>, nodes: seq<N.Node>)
    returns (stack': seq<Frame>, output': seq<N.Node>)
    ensures State(stack', output') == Append(State(stack, output), nodes)
    ensures |stack'| == |stack|
  {
    stack', output' := stack, output;
    AppendNothing(State(stack, output));
    for i := 0 to |nodes|
      invariant State(stack', output') == Append(State(stack, output), nodes[..i])
      invariant |stack'| == |stack|
    {
      assert nodes[..i + 1] == nodes[..i] + [nodes[i]];
      if stack' != [] {
        var top := stack'[|stack'| - 1];
        ghost var before := stack[|stack| - 1].children;
        assert before + nodes[..i + 1] == before + nodes[..i] + [nodes[i]];
        stack' := stack'[..|stack'| - 1] + [top.(children := top.children + [nodes[i]])];
      } else {
        output' := output' + [nodes[i]];
      }
    }
    assert nodes[..|nodes|] == nodes;
  }
}
