/** What the DOM walkers emit, stated without a walker: the events of a forest
  * in document order, their text, and the pruned forest. */
module Serialise {
  import opened Wrappers
  import opened Text
  import opened Dom

  /** An opening tag carries the element it opens. */
  datatype Event = Open(node: Node) | Close(tag: string) | Chars(text: string) | Doc(name: string)

  function NodeEvents(node: Node): seq<Event>
    decreases node, 1
  {
    match node
    case Element(tag, _, children) => [Open(node)] + Events(children) + [Close(tag)]
    case TextNode(t) => [Chars(t)]
    case Doctype(name) => [Doc(name)]
    case _ => []
  }

  function Events(forest: seq<Node>): seq<Event>
    decreases forest, 0
  {
    if forest == [] then [] else NodeEvents(forest[0]) + Events(forest[1..])
  }

  // ----- the text of an event -----

  function EscapeChar(c: char): string {
    if c == '&' then "&amp;" else if c == '"' then "&quot;"
    else if c == '<' then "&lt;" else if c == '>' then "&gt;" else [c]
  }

  function Escape(v: string): string {
    if v == "" then "" else EscapeChar(v[0]) + Escape(v[1..])
  }

  function RenderAttr(attr: Attr): string {
    if IsStyle(attr) then ""
    else " " + attr.name + if attr.value == "" then "" else "=\"" + Escape(attr.value) + "\""
  }

  function RenderAttrs(attrs: seq<Attr>): string {
    if attrs == [] then "" else RenderAttr(attrs[0]) + RenderAttrs(attrs[1..])
  }

  const SELF_CLOSING: seq<string> := ["br", "img", "hr", "meta", "link", "input"]

  function RenderOpen(tag: string, attrs: seq<Attr>): string {
    "<" + tag + RenderAttrs(attrs) + if tag in SELF_CLOSING then " />" else ">"
  }

  function RenderEvent(event: Event): string {
    match event
    case Open(node) => if node.Element? then RenderOpen(node.tag, node.attrs) else ""
    case Close(tag) => "</" + tag + ">"
    case Chars(t) => t
    case Doc(name) => "<!DOCTYPE " + name + ">"
  }

  function Render(events: seq<Event>): string {
    if events == [] then "" else RenderEvent(events[0]) + Render(events[1..])
  }

  lemma {:induction false} RenderAppends(a: seq<Event>, b: seq<Event>)
    ensures Render(a + b) == Render(a) + Render(b)
  {
    if a == [] {
      assert a + b == b;
    } else {
      assert (a + b)[1..] == a[1..] + b;
      RenderAppends(a[1..], b);
    }
  }

  lemma {:induction false} DroppedStylesRenderAlike(attrs: seq<Attr>)
    ensures RenderAttrs(DropStyle(attrs)) == RenderAttrs(attrs)
  {
    if attrs != [] {
      DroppedStylesRenderAlike(attrs[1..]);
    }
  }

  // ----- pruning -----

  /** The forest without unwanted elements, whose wanted descendants move up in
    * their place, without styles and comments, and without any text that had an
    * unwanted ancestor (`dead`). */
  function PruneNode(node: Node, dead: bool): seq<Node>
    decreases node, 1
  {
    match node
    case Element(tag, attrs, children) =>
      if IsUnwanted(tag, attrs) then Prune(children, true)
      else [Element(tag, DropStyle(attrs), Prune(children, dead))]
    case TextNode(_) => if dead then [] else [node]
    case Doctype(_) => if dead then [] else [node]
    case _ => []
  }

  function Prune(forest: seq<Node>, dead: bool): seq<Node>
    decreases forest, 0
  {
    if forest == [] then [] else PruneNode(forest[0], dead) + Prune(forest[1..], dead)
  }

  lemma {:induction false} PruneAppends(a: seq<Node>, b: seq<Node>, dead: bool)
    ensures Prune(a + b, dead) == Prune(a, dead) + Prune(b, dead)
  {
    if a == [] {
      assert a + b == b;
    } else {
      assert (a + b)[1..] == a[1..] + b;
      PruneAppends(a[1..], b, dead);
    }
  }

  lemma EventsOfOne(node: Node)
    ensures Events([node]) == NodeEvents(node)
  {
    assert [node][1..] == [];
    assert Events([node]) == NodeEvents(node) + [];
  }

  lemma {:induction false} EventsAppend(a: seq<Node>, b: seq<Node>)
    ensures Events(a + b) == Events(a) + Events(b)
  {
    if a == [] {
      assert a + b == b;
    } else {
      assert (a + b)[1..] == a[1..] + b;
      EventsAppend(a[1..], b);
    }
  }

  /** Pruning twice is pruning once: nothing kept is unwanted the second time. */
  lemma {:induction false} PruneTwice(forest: seq<Node>, dead: bool)
    ensures Prune(Prune(forest, dead), false) == Prune(forest, dead)
    decreases forest, 0
  {
    if forest != [] {
      PruneNodeTwice(forest[0], dead);
      PruneTwice(forest[1..], dead);
      PruneAppends(PruneNode(forest[0], dead), Prune(forest[1..], dead), false);
    }
  }

  lemma {:induction false} PruneNodeTwice(node: Node, dead: bool)
    ensures Prune(PruneNode(node, dead), false) == PruneNode(node, dead)
    decreases node, 1
  {
    var kept := PruneNode(node, dead);
    match node {
      case Element(tag, attrs, children) =>
        if IsUnwanted(tag, attrs) {
          PruneTwice(children, true);
        } else {
          PruneTwice(children, dead);
          DropStyleKeepsWanted(tag, attrs);
          DropStyleTwice(attrs);
          PruneOne(kept[0], false);
        }
      case _ =>
        if kept != [] { PruneOne(node, false); }
    }
  }

  lemma PruneOne(node: Node, dead: bool)
    ensures Prune([node], dead) == PruneNode(node, dead)
  {
    assert [node][1..] == [];
    assert Prune([node][1..], dead) == [];
  }

  // ----- nesting -----

  /** The elements still open after the events, or None where a closing tag
    * does not name the innermost open element. */
  function OpenElements(events: seq<Event>, stack: seq<Node>): Option<seq<Node>> {
    if events == [] then Some(stack)
    else match events[0]
      case Open(node) => OpenElements(events[1..], stack + [node])
      case Close(tag) =>
        if stack != [] && stack[|stack| - 1].Element? && stack[|stack| - 1].tag == tag
        then OpenElements(events[1..], stack[..|stack| - 1]) else None
      case _ => OpenElements(events[1..], stack)
  }

  predicate WellNested(events: seq<Event>) {
    OpenElements(events, []) == Some([])
  }

  lemma {:induction false} OpenElementsAppend(a: seq<Event>, b: seq<Event>, stack: seq<Node>)
    ensures OpenElements(a + b, stack) ==
      match OpenElements(a, stack) case None => None case Some(mid) => OpenElements(b, mid)
  {
    if a == [] {
      assert a + b == b;
    } else {
      assert (a + b)[1..] == a[1..] + b;
      match a[0] {
        case Open(node) => OpenElementsAppend(a[1..], b, stack + [node]);
        case Close(tag) => if stack != [] { OpenElementsAppend(a[1..], b, stack[..|stack| - 1]); }
        case _ => OpenElementsAppend(a[1..], b, stack);
      }
    }
  }

  lemma {:induction false} EventsBalance(forest: seq<Node>, stack: seq<Node>)
    ensures OpenElements(Events(forest), stack) == Some(stack)
    decreases forest, 0
  {
    if forest != [] {
      NodeEventsBalance(forest[0], stack);
      EventsBalance(forest[1..], stack);
      OpenElementsAppend(NodeEvents(forest[0]), Events(forest[1..]), stack);
    }
  }

  lemma {:induction false} NodeEventsBalance(node: Node, stack: seq<Node>)
    ensures OpenElements(NodeEvents(node), stack) == Some(stack)
    decreases node, 1
  {
    match node {
      case Element(tag, _, children) =>
        var inner := stack + [node];
        var body := Events(children) + [Close(tag)];
        assert NodeEvents(node) == [Open(node)] + body;
        assert ([Open(node)] + body)[1..] == body;
        EventsBalance(children, inner);
        OpenElementsAppend(Events(children), [Close(tag)], inner);
        assert inner[..|inner| - 1] == stack;
      case _ =>
    }
  }

  /** The events of every forest, pruned or not, are well nested. */
  lemma EventsAreWellNested(forest: seq<Node>)
    ensures WellNested(Events(forest))
  {
    EventsBalance(forest, []);
  }
}
