/** What the content extractor keeps of a document, stated by a walk of the
  * document itself: no pruning, no events, no buffer.  And a builder that shows
  * the events of a forest to lose nothing. */
module Kept {
  import opened Wrappers
  import opened Text
  import opened Dom
  import opened Serialise

  datatype Token = OpenTag(tag: string, attrs: seq<Attr>) | CloseTag(tag: string) | Text(text: string) | DocType(name: string)

  // ----- the reference -----

  /** The attributes other than the inline style, in order. */
  function Styleless(attrs: seq<Attr>): seq<Attr> {
    if attrs == [] then []
    else
      var last := attrs[|attrs| - 1];
      Styleless(attrs[..|attrs| - 1]) + if ToAsciiLower(last.name) == "style" then [] else [last]
  }

  /** The document in order: a wanted element keeps its tags, whatever it is in; an
    * unwanted one loses them; text is kept if no element around it is unwanted. */
  function KeptTokens(forest: seq<Node>, dead: bool): seq<Token>
    decreases forest, 0
  {
    if forest == [] then [] else KeptOf(forest[0], dead) + KeptTokens(forest[1..], dead)
  }

  function KeptOf(node: Node, dead: bool): seq<Token>
    decreases node, 1
  {
    match node
    case Element(tag, attrs, children) =>
      if IsUnwanted(tag, attrs) then KeptTokens(children, true)
      else [OpenTag(tag, Styleless(attrs))] + KeptTokens(children, dead) + [CloseTag(tag)]
    case TextNode(t) => if dead then [] else [Text(t)]
    case Doctype(name) => if dead then [] else [DocType(name)]
    case _ => []
  }

  /** The wanted elements in document order, those under unwanted ones included. */
  function KeptElements(forest: seq<Node>): seq<(string, seq<Attr>)>
    decreases forest
  {
    if forest == [] then []
    else (match forest[0]
          case Element(tag, attrs, children) =>
            (if IsUnwanted(tag, attrs) then [] else [(tag, Styleless(attrs))]) + KeptElements(children)
          case _ => []) + KeptElements(forest[1..])
  }

  function SpellOne(token: Token): string {
    match token
    case OpenTag(tag, attrs) => RenderOpen(tag, attrs)
    case CloseTag(tag) => "</" + tag + ">"
    case Text(t) => t
    case DocType(name) => "<!DOCTYPE " + name + ">"
  }

  function Spell(tokens: seq<Token>): string {
    if tokens == [] then "" else SpellOne(tokens[0]) + Spell(tokens[1..])
  }

  // ----- events as tokens -----

  function TokenOf(event: Event): seq<Token> {
    match event
    case Open(node) => if node.Element? then [OpenTag(node.tag, node.attrs)] else []
    case Close(tag) => [CloseTag(tag)]
    case Chars(t) => [Text(t)]
    case Doc(name) => [DocType(name)]
  }

  function TokensOf(events: seq<Event>): seq<Token> {
    if events == [] then [] else TokenOf(events[0]) + TokensOf(events[1..])
  }

  lemma {:induction false} TokensAppend(a: seq<Event>, b: seq<Event>)
    ensures TokensOf(a + b) == TokensOf(a) + TokensOf(b)
  {
    if a == [] {
      assert a + b == b;
    } else {
      assert (a + b)[1..] == a[1..] + b;
      TokensAppend(a[1..], b);
    }
  }

  lemma {:induction false} DropStyleIsStyleless(attrs: seq<Attr>)
    ensures DropStyle(attrs) == Styleless(attrs)
  {
    if attrs != [] {
      var last := |attrs| - 1;
      DropStyleIsStyleless(attrs[..last]);
      assert attrs == attrs[..last] + [attrs[last]];
      DropStyleAppends(attrs[..last], attrs[last]);
      StyleName();
    }
  }

  lemma StyleName()
    ensures ToAsciiLower("style") == "style"
  {
  }

  lemma {:induction false} DropStyleAppends(attrs: seq<Attr>, last: Attr)
    ensures DropStyle(attrs + [last]) == DropStyle(attrs) + if IsStyle(last) then [] else [last]
  {
    if attrs == [] {
      assert [last][1..] == [] && attrs + [last] == [last];
    } else {
      assert (attrs + [last])[1..] == attrs[1..] + [last];
      DropStyleAppends(attrs[1..], last);
    }
  }

  /** The pruned forest's events are the kept tokens, nesting and all. */
  lemma {:induction false} PrunedEventsAreKept(forest: seq<Node>, dead: bool)
    ensures TokensOf(Events(Prune(forest, dead))) == KeptTokens(forest, dead)
    decreases forest, 0
  {
    if forest != [] {
      hide IsUnwanted, DropStyle, Styleless;
      PrunedNodeIsKept(forest[0], dead);
      PrunedEventsAreKept(forest[1..], dead);
      EventsAppend(PruneNode(forest[0], dead), Prune(forest[1..], dead));
      TokensAppend(Events(PruneNode(forest[0], dead)), Events(Prune(forest[1..], dead)));
    }
  }

  lemma {:induction false} PrunedNodeIsKept(node: Node, dead: bool)
    ensures TokensOf(Events(PruneNode(node, dead))) == KeptOf(node, dead)
    decreases node, 1
  {
    hide IsUnwanted, DropStyle, Styleless;
    match node {
      case Element(tag, attrs, children) =>
        if IsUnwanted(tag, attrs) {
          PrunedEventsAreKept(children, true);
        } else {
          PrunedEventsAreKept(children, dead);
          DropStyleIsStyleless(attrs);
          ElementTokens(Element(tag, DropStyle(attrs), Prune(children, dead)));
        }
      case _ =>
        if PruneNode(node, dead) != [] { LeafTokens(node); }
    }
  }

  lemma ElementTokens(node: Node)
    requires node.Element?
    ensures TokensOf(Events([node])) == [OpenTag(node.tag, node.attrs)] + TokensOf(Events(node.children)) + [CloseTag(node.tag)]
  {
    EventsOfOne(node);
    var inner, close := Events(node.children), [Close(node.tag)];
    assert NodeEvents(node) == [Open(node)] + (inner + close);
    TokensAppend([Open(node)], inner + close);
    TokensAppend(inner, close);
    assert [Open(node)][1..] == [] && close[1..] == [];
    assert TokensOf([Open(node)]) == [OpenTag(node.tag, node.attrs)] + [] && TokensOf(close) == [CloseTag(node.tag)] + [];
  }

  lemma LeafTokens(node: Node)
    requires node.TextNode? || node.Doctype?
    ensures TokensOf(Events([node])) == if node.TextNode? then [Text(node.text)] else [DocType(node.name)]
  {
    EventsOfOne(node);
    var event := NodeEvents(node)[0];
    assert NodeEvents(node) == [event] && [event][1..] == [];
    assert TokensOf([event]) == TokenOf(event) + [];
  }

  lemma {:induction false} EventsSpellTokens(events: seq<Event>)
    ensures Render(events) == Spell(TokensOf(events))
  {
    if events != [] {
      hide RenderEvent, TokenOf, SpellOne;
      EventsSpellTokens(events[1..]);
      SpellAppends(TokenOf(events[0]), TokensOf(events[1..]));
      OneEventSpelled(events[0]);
    }
  }

  lemma OneEventSpelled(event: Event)
    ensures RenderEvent(event) == Spell(TokenOf(event))
  {
    hide RenderOpen;
    if TokenOf(event) != [] {
      assert TokenOf(event)[1..] == [];
    }
  }

  lemma {:induction false} SpellAppends(a: seq<Token>, b: seq<Token>)
    ensures Spell(a + b) == Spell(a) + Spell(b)
  {
    hide SpellOne;
    if a == [] {
      assert a + b == b;
    } else {
      assert (a + b)[1..] == a[1..] + b;
      SpellAppends(a[1..], b);
    }
  }

  /** The text that `strip_unwanted` returns, by the reference alone. */
  lemma PrunedTextIsKept(forest: seq<Node>)
    ensures Render(Events(Prune(forest, false))) == Spell(KeptTokens(forest, false))
  {
    EventsSpellTokens(Events(Prune(forest, false)));
    PrunedEventsAreKept(forest, false);
  }

  // ----- which tags are kept -----

  function TagOf(token: Token): seq<(string, seq<Attr>)> {
    if token.OpenTag? then [(token.tag, token.attrs)] else []
  }

  function OpenTags(tokens: seq<Token>): seq<(string, seq<Attr>)> {
    if tokens == [] then [] else TagOf(tokens[0]) + OpenTags(tokens[1..])
  }

  lemma {:induction false} OpenTagsAppend(a: seq<Token>, b: seq<Token>)
    ensures OpenTags(a + b) == OpenTags(a) + OpenTags(b)
  {
    hide TagOf;
    if a == [] {
      assert a + b == b;
    } else {
      assert (a + b)[1..] == a[1..] + b;
      OpenTagsAppend(a[1..], b);
    }
  }

  /** The tags kept are exactly the wanted elements', in document order, whatever
    * they are in. */
  lemma {:induction false} KeptTagsAreWantedElements(forest: seq<Node>, dead: bool)
    ensures OpenTags(KeptTokens(forest, dead)) == KeptElements(forest)
    decreases forest
  {
    if forest != [] {
      hide OpenTags, KeptOf;
      var node := forest[0];
      KeptTagsAreWantedElements(forest[1..], dead);
      OpenTagsAppend(KeptOf(node, dead), KeptTokens(forest[1..], dead));
      if node.Element? {
        KeptTagsAreWantedElements(node.children, dead || IsUnwanted(node.tag, node.attrs));
      }
      TagsOfKept(node, dead);
    } else {
      NoTags();
    }
  }

  lemma NoTags()
    ensures OpenTags([]) == []
  {
  }

  lemma TagsOfKept(node: Node, dead: bool)
    ensures OpenTags(KeptOf(node, dead)) ==
      if !node.Element? then []
      else (if IsUnwanted(node.tag, node.attrs) then [] else [(node.tag, Styleless(node.attrs))])
           + OpenTags(KeptTokens(node.children, dead || IsUnwanted(node.tag, node.attrs)))
  {
    hide IsUnwanted, Styleless, KeptTokens;
    match node {
      case Element(tag, attrs, children) =>
        var first, inner, last := [OpenTag(tag, Styleless(attrs))], KeptTokens(children, dead), [CloseTag(tag)];
        OpenTagsAppend(first + inner, last);
        OpenTagsAppend(first, inner);
        OneTag(first[0]);
        OneTag(last[0]);
      case TextNode(t) => OneTag(Text(t));
      case Doctype(name) => OneTag(DocType(name));
      case _ =>
    }
  }

  lemma OneTag(token: Token)
    ensures OpenTags([token]) == if token.OpenTag? then [(token.tag, token.attrs)] else []
  {
    assert [token][1..] == [];
  }

  // ----- reading the events of a forest back -----

  /** The forest without the nodes that print nothing. */
  function Audible(forest: seq<Node>): seq<Node>
    decreases forest, 0
  {
    if forest == [] then [] else AudibleNode(forest[0]) + Audible(forest[1..])
  }

  function AudibleNode(node: Node): seq<Node>
    decreases node, 1
  {
    match node
    case Element(tag, attrs, children) => [Element(tag, attrs, Audible(children))]
    case TextNode(_) => [node]
    case Doctype(_) => [node]
    case _ => []
  }

  /** An element still open, and the trees that came before it under its parent. */
  datatype Frame = Frame(before: seq<Node>, tag: string, attrs: seq<Attr>)

  /** Builds the trees that a token stream spells: an opening tag starts a level, a
    * closing tag of the same name ends it. */
  function Build(tokens: seq<Token>, stack: seq<Frame>, done: seq<Node>): Option<seq<Node>> {
    if tokens == [] then (if stack == [] then Some(done) else None)
    else match tokens[0]
      case OpenTag(tag, attrs) => Build(tokens[1..], stack + [Frame(done, tag, attrs)], [])
      case CloseTag(tag) =>
        if stack == [] || stack[|stack| - 1].tag != tag then None
        else
          var top := stack[|stack| - 1];
          Build(tokens[1..], stack[..|stack| - 1], top.before + [Element(tag, top.attrs, done)])
      case Text(t) => Build(tokens[1..], stack, done + [TextNode(t)])
      case DocType(name) => Build(tokens[1..], stack, done + [Doctype(name)])
  }

  lemma {:induction false} BuildConsumes(forest: seq<Node>, rest: seq<Token>, stack: seq<Frame>, done: seq<Node>)
    ensures Build(TokensOf(Events(forest)) + rest, stack, done) == Build(rest, stack, done + Audible(forest))
    decreases forest, 0
  {
    hide Build, TokensOf;
    if forest == [] {
      NoTokens();
      assert TokensOf(Events(forest)) + rest == rest && done + Audible(forest) == done;
    } else {
      var node, tail := forest[0], forest[1..];
      var more := TokensOf(Events(tail)) + rest;
      TokensAppend(NodeEvents(node), Events(tail));
      assert TokensOf(Events(forest)) + rest == TokensOf(NodeEvents(node)) + more;
      BuildNode(node, more, stack, done);
      BuildConsumes(tail, rest, stack, done + AudibleNode(node));
      assert (done + AudibleNode(node)) + Audible(tail) == done + Audible(forest);
    }
  }

  lemma NoTokens()
    ensures TokensOf([]) == []
  {
  }

  lemma {:induction false} BuildNode(node: Node, more: seq<Token>, stack: seq<Frame>, done: seq<Node>)
    ensures Build(TokensOf(NodeEvents(node)) + more, stack, done) == Build(more, stack, done + AudibleNode(node))
    decreases node, 1
  {
    hide TokensOf, Audible;
    EventsOfOne(node);
    match node {
      case Element(tag, attrs, children) =>
        var rest, pushed := [CloseTag(tag)] + more, stack + [Frame(done, tag, attrs)];
        var inner := TokensOf(Events(children)) + rest;
        ElementTokens(node);
        assert TokensOf(NodeEvents(node)) + more == [OpenTag(tag, attrs)] + inner;
        BuildOpens(OpenTag(tag, attrs), inner, stack, done);
        BuildConsumes(children, rest, pushed, []);
        assert [] + Audible(children) == Audible(children);
        BuildCloses(tag, attrs, more, stack, done, Audible(children));
      case TextNode(t) =>
        LeafTokens(node);
        assert ([Text(t)] + more)[1..] == more;
      case Doctype(name) =>
        LeafTokens(node);
        assert ([DocType(name)] + more)[1..] == more;
      case _ =>
        NoTokens();
        assert TokensOf(NodeEvents(node)) + more == more && done + [] == done;
    }
  }

  lemma BuildOpens(token: Token, inner: seq<Token>, stack: seq<Frame>, done: seq<Node>)
    requires token.OpenTag?
    ensures Build([token] + inner, stack, done) == Build(inner, stack + [Frame(done, token.tag, token.attrs)], [])
  {
    assert ([token] + inner)[1..] == inner;
  }

  lemma BuildCloses(tag: string, attrs: seq<Attr>, more: seq<Token>, stack: seq<Frame>, done: seq<Node>, children: seq<Node>)
    ensures Build([CloseTag(tag)] + more, stack + [Frame(done, tag, attrs)], children)
         == Build(more, stack, done + [Element(tag, attrs, children)])
  {
    var pushed := stack + [Frame(done, tag, attrs)];
    assert pushed[..|pushed| - 1] == stack && pushed[|pushed| - 1] == Frame(done, tag, attrs);
    assert ([CloseTag(tag)] + more)[1..] == more;
  }

  /** The events of a forest lose nothing but the silent nodes: the forest can be
    * built back from them. */
  lemma EventsReadBack(forest: seq<Node>)
    ensures Build(TokensOf(Events(forest)), [], []) == Some(Audible(forest))
  {
    BuildConsumes(forest, [], [], []);
    assert TokensOf(Events(forest)) + [] == TokensOf(Events(forest)) && [] + Audible(forest) == Audible(forest);
  }
}
