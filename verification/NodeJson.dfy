/** Article content: node trees, their JSON form in storage, and the validation of tags and attributes. */
module NodeJson {
  import opened Core

  /** A proto `Node`: no kind, text, or an element. */
  datatype Node =
    | Blank
    | Text(text: string)
    | Element(tag: string, attrs: map<string, string>, children: seq<Node>)

  // ----- Printing --------------------------------------------------------------------------------

  function AttrsToJson(attrs: map<string, string>): map<string, Json> {
    map k | k in attrs :: String(attrs[k])
  }

  function NodesToJson(nodes: seq<Node>): Json
    decreases nodes, 1
  {
    Array(NodeItems(nodes))
  }

  function NodeItems(nodes: seq<Node>): seq<Json>
    decreases nodes, 0
  {
    if nodes == [] then [] else [NodeToJson(nodes[0])] + NodeItems(nodes[1..])
  }

  /** Empty attributes and children are left out of the object. */
  function NodeToJson(node: Node): Json {
    match node
    case Blank => Null
    case Text(t) => Object(map["text" := String(t)])
    case Element(tag, attrs, children) =>
      var fields := map["tag" := String(tag)];
      var withAttrs := if attrs == map[] then fields else fields["attrs" := Object(AttrsToJson(attrs))];
      Object(if children == [] then withAttrs else withAttrs["children" := NodesToJson(children)])
  }

  // ----- Reading ---------------------------------------------------------------------------------

  function Get(fields: map<string, Json>, name: string): Option<Json> {
    if name in fields then Some(fields[name]) else None
  }

  /** Attribute values that are not strings are dropped. */
  function JsonToAttrs(value: Option<Json>): map<string, string> {
    if value.Some? && value.value.Object? then
      var m := value.value.fields;
      map k | k in m && m[k].String? :: m[k].s
    else map[]
  }

  function JsonToNodes(value: Json): seq<Node> {
    if value.Array? then ItemNodes(value.items) else []
  }

  function ItemNodes(items: seq<Json>): seq<Node> {
    if items == [] then [] else [JsonToNode(items[0])] + ItemNodes(items[1..])
  }

  /** A string under `text` makes a text node whatever else the object holds. */
  function JsonToNode(value: Json): Node {
    if !value.Object? then Blank
    else
      var fields := value.fields;
      if "text" in fields && fields["text"].String? then Text(fields["text"].s)
      else
        Element(if "tag" in fields && fields["tag"].String? then fields["tag"].s else "",
                JsonToAttrs(Get(fields, "attrs")),
                if "children" in fields then JsonToNodes(fields["children"]) else [])
  }

  // ----- Round trip ------------------------------------------------------------------------------

  /** Node trees of any depth come back from their stored form. */
  lemma {:induction false} JsonRoundTrips(nodes: seq<Node>)
    ensures JsonToNodes(NodesToJson(nodes)) == nodes
  {
    if nodes != [] {
      NodeRoundTrips(nodes[0]);
      JsonRoundTrips(nodes[1..]);
      assert NodeItems(nodes)[1..] == NodeItems(nodes[1..]);
      assert nodes == [nodes[0]] + nodes[1..];
    }
  }

  lemma {:induction false} NodeRoundTrips(node: Node)
    ensures JsonToNode(NodeToJson(node)) == node
  {
    if node.Element? {
      JsonRoundTrips(node.children);
      AttrsRoundTrip(node.attrs);
    }
  }

  lemma AttrsRoundTrip(attrs: map<string, string>)
    ensures JsonToAttrs(Some(Object(AttrsToJson(attrs)))) == attrs
  {
  }

  /** The stored object of an element, key by key. */
  lemma StoredElement(tag: string, attrs: map<string, string>, children: seq<Node>)
    ensures var j := NodeToJson(Element(tag, attrs, children));
            && j.Object? && "text" !in j.fields
            && (forall k :: k in j.fields <==>
                  k == "tag" || (k == "attrs" && attrs != map[]) || (k == "children" && children != []))
            && j.fields["tag"] == String(tag)
            && (attrs != map[] ==>
                  && j.fields["attrs"].Object? && j.fields["attrs"].fields.Keys == attrs.Keys
                  && forall k :: k in attrs ==> j.fields["attrs"].fields[k] == String(attrs[k]))
            && (children != [] ==>
                  && j.fields["children"].Array? && |j.fields["children"].items| == |children|
                  && forall i :: 0 <= i < |children| ==> j.fields["children"].items[i] == NodeToJson(children[i]))
    ensures NodeToJson(Node.Text(tag)) == Object(map["text" := String(tag)]) && NodeToJson(Blank) == Null
  {
    ItemsAt(children);
  }

  lemma {:induction false} ItemsAt(nodes: seq<Node>)
    ensures |NodeItems(nodes)| == |nodes| && forall i :: 0 <= i < |nodes| ==> NodeItems(nodes)[i] == NodeToJson(nodes[i])
  {
    hide NodeToJson;
    if nodes != [] {
      ItemsAt(nodes[1..]);
    }
  }

  /** Reading any stored object: a string under `text` decides; otherwise it is an element, whose tag is empty unless
      it is a string, whose attributes are those that are strings, and whose children are read in order. */
  lemma ReadObject(fields: map<string, Json>)
    ensures var n := JsonToNode(Object(fields));
            if "text" in fields && fields["text"].String? then n == Node.Text(fields["text"].s)
            else
              && n.Element?
              && n.tag == (if "tag" in fields && fields["tag"].String? then fields["tag"].s else "")
              && (forall k :: k in n.attrs <==> && "attrs" in fields && fields["attrs"].Object?
                                                && k in fields["attrs"].fields && fields["attrs"].fields[k].String?)
              && (forall k :: k in n.attrs ==> n.attrs[k] == fields["attrs"].fields[k].s)
              && (if "children" in fields && fields["children"].Array? then
                    && |n.children| == |fields["children"].items|
                    && forall i :: 0 <= i < |n.children| ==> n.children[i] == JsonToNode(fields["children"].items[i])
                  else n.children == [])
    ensures forall value: Json :: !value.Object? ==> JsonToNode(value) == Blank
  {
    if "children" in fields && fields["children"].Array? {
      ReadItemsAt(fields["children"].items);
    }
  }

  lemma {:induction false} ReadItemsAt(items: seq<Json>)
    ensures |ItemNodes(items)| == |items| && forall i :: 0 <= i < |items| ==> ItemNodes(items)[i] == JsonToNode(items[i])
  {
    hide JsonToNode;
    if items != [] {
      ReadItemsAt(items[1..]);
    }
  }

  /** The maps are filled in place, attributes in key order, which the result does not show. */
  method EncodeNode(node: Node) returns (j: Json)
    ensures j == NodeToJson(node)
    decreases node, 0
  {
    match node {
      case Blank => j := Null;
      case Text(t) =>
        var obj: map<string, Json> := map[];
        obj := obj["text" := String(t)];
        j := Object(obj);
      case Element(tag, attrs, children) =>
        var obj: map<string, Json> := map[];
        obj := obj["tag" := String(tag)];
        if attrs != map[] {
          var encoded := EncodeAttrs(attrs);
          obj := obj["attrs" := Object(encoded)];
        }
        if children != [] {
          var items := EncodeNodes(children);
          obj := obj["children" := items];
        }
        j := Object(obj);
    }
  }

  method EncodeAttrs(attrs: map<string, string>) returns (obj: map<string, Json>)
    ensures obj == AttrsToJson(attrs)
  {
    obj := map[];
    var keys := attrs.Keys;
    while keys != {}
      invariant keys <= attrs.Keys
      invariant obj.Keys == attrs.Keys - keys
      invariant forall k :: k in obj ==> obj[k] == String(attrs[k])
      decreases |keys|
    {
      var k :| k in keys;
      obj := obj[k := String(attrs[k])];
      keys := keys - {k};
    }
  }

  method EncodeNodes(nodes: seq<Node>) returns (j: Json)
    ensures j == NodesToJson(nodes)
    decreases nodes, 1
  {
    var items: seq<Json> := [];
    for i := 0 to |nodes|
      invariant items == NodeItems(nodes[..i])
    {
      var item := EncodeNode(nodes[i]);
      NodeItemsAppend(nodes[..i], nodes[i]);
      assert nodes[..i + 1] == nodes[..i] + [nodes[i]];
      items := items + [item];
    }
    assert nodes[..|nodes|] == nodes;
    j := Array(items);
  }

  lemma {:induction false} NodeItemsAppend(nodes: seq<Node>, node: Node)
    ensures NodeItems(nodes + [node]) == NodeItems(nodes) + [NodeToJson(node)]
  {
    if nodes == [] {
      assert NodeItems([node]) == [NodeToJson(node)] + NodeItems([]);
    } else {
      NodeItemsAppend(nodes[1..], node);
      assert (nodes + [node])[1..] == nodes[1..] + [node];
    }
  }

  // ----- Validation ------------------------------------------------------------------------------

  const ALLOWED_TAGS: set<string> := {
    "p", "h3", "h4", "a", "img", "figure", "figcaption", "blockquote", "aside", "pre", "code", "em", "strong",
    "s", "u", "iframe", "video", "br", "hr", "ul", "ol", "li"}

  function AllowedAttrs(tag: string): set<string> {
    if tag == "a" then {"href"}
    else if tag == "img" then {"src", "alt"}
    else if tag == "iframe" || tag == "video" then {"src"}
    else {}
  }

  datatype NodeError = InvalidNodeTag(tag: string) | InvalidNodeAttr(tag: string, attr: string)

  /** Every element of the tree has an allowed tag and only attributes allowed for it. */
  predicate NodeOk(node: Node) {
    node.Element? ==>
      && node.tag in ALLOWED_TAGS && node.attrs.Keys <= AllowedAttrs(node.tag)
      && forall child :: child in node.children ==> NodeOk(child)
  }

  predicate NodesOk(nodes: seq<Node>) {
    forall node :: node in nodes ==> NodeOk(node)
  }

  /** The attributes that are allowed, tag by tag. */
  lemma AllowedPairs(tag: string, attr: string)
    ensures attr in AllowedAttrs(tag) <==>
            (tag, attr) in {("a", "href"), ("img", "src"), ("img", "alt"), ("iframe", "src"), ("video", "src")}
    ensures AllowedAttrs(tag) != {} ==> tag in ALLOWED_TAGS
  {
    var pairs := {("a", "href"), ("img", "src"), ("img", "alt"), ("iframe", "src"), ("video", "src")};
    assert AllowedAttrs(tag) != {} ==> tag == "a" || tag == "img" || tag == "iframe" || tag == "video";
  }

  /** `e` names the first fault of the tree in document order; among the attributes of one element any. */
  ghost predicate Fault(node: Node, e: NodeError) {
    && node.Element?
    && if node.tag !in ALLOWED_TAGS then e == InvalidNodeTag(node.tag)
       else if node.attrs.Keys <= AllowedAttrs(node.tag) then
         exists i :: 0 <= i < |node.children| && NodesOk(node.children[..i]) && Fault(node.children[i], e)
       else e.InvalidNodeAttr? && e.tag == node.tag && e.attr in node.attrs && e.attr !in AllowedAttrs(node.tag)
  }

  method ValidateNode(node: Node) returns (r: Result<(), NodeError>)
    ensures r.Ok? <==> NodeOk(node)
    ensures r.Err? ==> Fault(node, r.error)
    decreases node
  {
    if !node.Element? {
      return Ok(());
    }
    if node.tag !in ALLOWED_TAGS {
      return Err(InvalidNodeTag(node.tag));
    }
    var allowed := AllowedAttrs(node.tag);
    var keys := node.attrs.Keys;
    while keys != {}
      invariant keys <= node.attrs.Keys && node.attrs.Keys - keys <= allowed
      decreases |keys|
    {
      var k :| k in keys;
      if k !in allowed {
        return Err(InvalidNodeAttr(node.tag, k));
      }
      keys := keys - {k};
    }
    for i := 0 to |node.children|
      invariant NodesOk(node.children[..i])
    {
      var r' := ValidateNode(node.children[i]);
      if r'.Err? {
        assert node.children[i] in node.children;
        return r';
      }
      assert node.children[..i + 1] == node.children[..i] + [node.children[i]];
    }
    assert node.children[..|node.children|] == node.children;
    return Ok(());
  }
}
