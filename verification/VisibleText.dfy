/** The character scanner `visible_text_len` against the text that survives
  * pruning. */
module VisibleText {
  import opened Wrappers
  import opened Text
  import opened Dom
  import opened Serialise

  // ----- the scanner -----

  function ScanCount(s: string, inTag: bool): nat {
    if s == "" then 0
    else if s[0] == '<' then ScanCount(s[1..], true)
    else if s[0] == '>' then ScanCount(s[1..], false)
    else (if !inTag && !IsWhitespace(s[0]) then 1 else 0) + ScanCount(s[1..], inTag)
  }

  function ScanEnd(s: string, inTag: bool): bool {
    if s == "" then inTag
    else ScanEnd(s[1..], if s[0] == '<' then true else if s[0] == '>' then false else inTag)
  }

  method VisibleTextLen(html: string) returns (count: nat)
    ensures count == ScanCount(html, false)
  {
    var inTag := false;
    count := 0;
    for i := 0 to |html|
      invariant count + ScanCount(html[i..], inTag) == ScanCount(html, false)
    {
      var c := html[i];
      assert html[i..][1..] == html[i + 1..];
      if c == '<' {
        inTag := true;
      } else if c == '>' {
        inTag := false;
      } else if !inTag && !IsWhitespace(c) {
        count := count + 1;
      }
    }
  }

  lemma {:induction false} ScanAppends(a: string, b: string, inTag: bool)
    ensures ScanCount(a + b, inTag) == ScanCount(a, inTag) + ScanCount(b, ScanEnd(a, inTag))
    ensures ScanEnd(a + b, inTag) == ScanEnd(b, ScanEnd(a, inTag))
  {
    if a == "" {
      assert a + b == b;
    } else {
      assert (a + b)[1..] == a[1..] + b;
      ScanAppends(a[1..], b, if a[0] == '<' then true else if a[0] == '>' then false else inTag);
    }
  }

  // ----- what a reader counts -----

  function NonWhitespace(s: string): nat {
    if s == "" then 0 else (if IsWhitespace(s[0]) then 0 else 1) + NonWhitespace(s[1..])
  }

  function AngleBrackets(s: string): nat {
    if s == "" then 0 else (if s[0] == '<' || s[0] == '>' then 1 else 0) + AngleBrackets(s[1..])
  }

  predicate NoAngleBracket(s: string) {
    '<' !in s && '>' !in s
  }

  /** The text of the nodes that have no unwanted ancestor, in document order. */
  function SurvivingText(forest: seq<Node>, dead: bool): string
    decreases forest, 0
  {
    if forest == [] then "" else NodeSurvivingText(forest[0], dead) + SurvivingText(forest[1..], dead)
  }

  function NodeSurvivingText(node: Node, dead: bool): string
    decreases node, 1
  {
    match node
    case Element(tag, attrs, children) => SurvivingText(children, dead || IsUnwanted(tag, attrs))
    case TextNode(t) => if dead then "" else t
    case _ => ""
  }

  function TextOf(events: seq<Event>): string {
    if events == [] then ""
    else (match events[0] case Chars(t) => t case _ => "") + TextOf(events[1..])
  }

  lemma {:induction false} CountsAppend(a: string, b: string)
    ensures NonWhitespace(a + b) == NonWhitespace(a) + NonWhitespace(b)
    ensures AngleBrackets(a + b) == AngleBrackets(a) + AngleBrackets(b)
  {
    if a == "" {
      assert a + b == b;
    } else {
      assert (a + b)[1..] == a[1..] + b;
      CountsAppend(a[1..], b);
    }
  }

  lemma {:induction false} NoneCounted(s: string)
    ensures AngleBrackets(s) == 0 <==> NoAngleBracket(s)
  {
    if s != "" {
      assert s == [s[0]] + s[1..];
      NoneCounted(s[1..]);
    }
  }

  lemma {:induction false} TextOfAppends(a: seq<Event>, b: seq<Event>)
    ensures TextOf(a + b) == TextOf(a) + TextOf(b)
  {
    if a == [] {
      assert a + b == b;
    } else {
      assert (a + b)[1..] == a[1..] + b;
      TextOfAppends(a[1..], b);
    }
  }

  lemma {:induction false} PrunedTextSurvives(forest: seq<Node>, dead: bool)
    ensures TextOf(Events(Prune(forest, dead))) == SurvivingText(forest, dead)
    decreases forest, 0
  {
    if forest != [] {
      var first, rest := PruneNode(forest[0], dead), Prune(forest[1..], dead);
      PrunedNodeTextSurvives(forest[0], dead);
      PrunedTextSurvives(forest[1..], dead);
      EventsAppend(first, rest);
      TextOfAppends(Events(first), Events(rest));
    }
  }

  lemma {:induction false} PrunedNodeTextSurvives(node: Node, dead: bool)
    ensures TextOf(Events(PruneNode(node, dead))) == NodeSurvivingText(node, dead)
    decreases node, 1
  {
    match node {
      case Element(tag, attrs, children) =>
        if IsUnwanted(tag, attrs) {
          PrunedTextSurvives(children, true);
        } else {
          PrunedTextSurvives(children, dead);
          SingleElementText(Element(tag, DropStyle(attrs), Prune(children, dead)));
        }
      case TextNode(t) =>
        if !dead { SingleLeafText(node); }
      case _ =>
        if PruneNode(node, dead) != [] { SingleLeafText(node); }
    }
  }

  lemma SingleLeafText(node: Node)
    requires !node.Element?
    ensures TextOf(Events([node])) == if node.TextNode? then node.text else ""
  {
    assert [node][1..] == [];
    assert Events([node]) == NodeEvents(node);
    if node.TextNode? {
      assert [Chars(node.text)][1..] == [];
    }
  }

  lemma SingleElementText(node: Node)
    requires node.Element?
    ensures TextOf(Events([node])) == TextOf(Events(node.children))
  {
    var body := Events(node.children) + [Close(node.tag)];
    assert [node][1..] == [];
    assert Events([node]) == [Open(node)] + body;
    assert ([Open(node)] + body)[1..] == body;
    TextOfAppends(Events(node.children), [Close(node.tag)]);
  }

  // ----- tags are invisible -----

  predicate NoCloser(s: string) {
    '>' !in s
  }

  /** Names as an HTML parser produces them: none contains '>'. */
  predicate CleanNames(attrs: seq<Attr>) {
    forall a | a in attrs :: NoCloser(a.name)
  }

  predicate CleanForest(forest: seq<Node>) {
    forest == [] ||
    ((match forest[0]
      case Element(tag, attrs, children) => NoCloser(tag) && CleanNames(attrs) && CleanForest(children)
      case Doctype(name) => NoCloser(name)
      case _ => true) && CleanForest(forest[1..]))
  }

  predicate CleanEvent(event: Event) {
    match event
    case Open(node) => node.Element? && NoCloser(node.tag) && CleanNames(node.attrs)
    case Close(tag) => NoCloser(tag)
    case Doc(name) => NoCloser(name)
    case Chars(_) => true
  }

  predicate CleanEvents(events: seq<Event>) {
    forall e | e in events :: CleanEvent(e)
  }

  lemma {:induction false} EscapeRemovesBrackets(v: string)
    ensures NoAngleBracket(Escape(v))
  {
    if v != "" {
      EscapeRemovesBrackets(v[1..]);
    }
  }

  lemma {:induction false} AttrsHaveNoCloser(attrs: seq<Attr>)
    requires CleanNames(attrs)
    ensures NoCloser(RenderAttrs(attrs))
  {
    if attrs != [] {
      assert attrs[0] in attrs && forall a | a in attrs[1..] :: a in attrs;
      EscapeRemovesBrackets(attrs[0].value);
      AttrsHaveNoCloser(attrs[1..]);
    }
  }

  lemma {:induction false} InsideTag(s: string)
    requires NoCloser(s)
    ensures ScanCount(s, true) == 0 && ScanEnd(s, true)
  {
    if s != "" {
      InsideTag(s[1..]);
    }
  }

  /** A tag counts for nothing and leaves the scanner outside, wherever it was. */
  lemma TagIsInvisible(body: string, inTag: bool)
    requires NoCloser(body)
    ensures ScanCount("<" + body + ">", inTag) == 0 && !ScanEnd("<" + body + ">", inTag)
  {
    var tag := "<" + body + ">";
    assert tag[1..] == body + ">";
    InsideTag(body);
    ScanAppends(body, ">", true);
    assert ">"[1..] == "";
  }

  lemma EventIsInvisible(event: Event, inTag: bool)
    requires CleanEvent(event) && !event.Chars?
    ensures ScanCount(RenderEvent(event), inTag) == 0 && !ScanEnd(RenderEvent(event), inTag)
  {
    match event {
      case Open(node) => OpenTagIsInvisible(node.tag, node.attrs, inTag);
      case Close(tag) =>
        Regroup("</", tag, "/");
        TagIsInvisible("/" + tag, inTag);
      case Doc(name) =>
        Regroup("<!DOCTYPE ", name, "!DOCTYPE ");
        TagIsInvisible("!DOCTYPE " + name, inTag);
    }
  }

  lemma Regroup(start: string, name: string, prefix: string)
    requires start == "<" + prefix
    ensures start + name + ">" == "<" + (prefix + name) + ">"
  {
  }

  lemma OpenTagIsInvisible(tag: string, attrs: seq<Attr>, inTag: bool)
    requires NoCloser(tag) && CleanNames(attrs)
    ensures ScanCount(RenderOpen(tag, attrs), inTag) == 0 && !ScanEnd(RenderOpen(tag, attrs), inTag)
  {
    AttrsHaveNoCloser(attrs);
    var closer := if tag in SELF_CLOSING then " /" else "";
    RegroupTag(tag, RenderAttrs(attrs), closer);
    assert " />" == " /" + ">" && ">" == "" + ">";
    TagIsInvisible(tag + RenderAttrs(attrs) + closer, inTag);
  }

  lemma RegroupTag(tag: string, attrs: string, closer: string)
    ensures "<" + tag + attrs + (closer + ">") == "<" + (tag + attrs + closer) + ">"
  {
  }

  /** Scanning text misses at least its angle brackets, and nothing else when
    * there are none and the scanner is outside a tag. */
  lemma {:induction false} ScanText(t: string, inTag: bool)
    ensures ScanCount(t, inTag) + AngleBrackets(t) <= NonWhitespace(t)
    ensures AngleBrackets(t) == 0 ==> ScanEnd(t, inTag) == inTag
    ensures AngleBrackets(t) == 0 && !inTag ==> ScanCount(t, inTag) == NonWhitespace(t)
  {
    if t != "" {
      ScanText(t[1..], if t[0] == '<' then true else if t[0] == '>' then false else inTag);
    }
  }

  lemma {:induction false} ScanEvents(events: seq<Event>, inTag: bool)
    requires CleanEvents(events)
    ensures ScanCount(Render(events), inTag) + AngleBrackets(TextOf(events)) <= NonWhitespace(TextOf(events))
    ensures AngleBrackets(TextOf(events)) == 0 && !inTag ==>
      ScanCount(Render(events), inTag) == NonWhitespace(TextOf(events))
  {
    if events != [] {
      var first, rest := events[0], events[1..];
      assert first in events && forall e | e in rest :: e in events;
      var text := RenderEvent(first);
      ScanAppends(text, Render(rest), inTag);
      ScanEvents(rest, ScanEnd(text, inTag));
      if first.Chars? {
        ScanText(text, inTag);
        CountsAppend(text, TextOf(rest));
      } else {
        EventIsInvisible(first, inTag);
        assert TextOf(events) == TextOf(rest);
      }
    }
  }

  lemma {:induction false} PrunedEventsAreClean(forest: seq<Node>, dead: bool)
    requires CleanForest(forest)
    ensures CleanEvents(Events(Prune(forest, dead)))
    decreases forest
  {
    if forest != [] {
      var node, rest := forest[0], Prune(forest[1..], dead);
      PrunedEventsAreClean(forest[1..], dead);
      EventsAppend(PruneNode(node, dead), rest);
      match node {
        case Element(tag, attrs, children) =>
          PrunedEventsAreClean(children, true);
          PrunedEventsAreClean(children, dead);
          if !IsUnwanted(tag, attrs) {
            DropStyleIsSubset(attrs);
            EventsOfOne(Element(tag, DropStyle(attrs), Prune(children, dead)));
          }
        case _ =>
          if PruneNode(node, dead) != [] { EventsOfOne(node); }
      }
    }
  }

  lemma {:induction false} DropStyleIsSubset(attrs: seq<Attr>)
    ensures forall a | a in DropStyle(attrs) :: a in attrs
  {
    if attrs != [] {
      DropStyleIsSubset(attrs[1..]);
    }
  }

  /** The scanner never over-counts, whatever the attribute values; and it
    * counts exactly the surviving text if and only if that text contains no
    * angle bracket. */
  lemma VisibleTextIsSurvivingText(forest: seq<Node>)
    requires CleanForest(forest)
    ensures var counted, text := ScanCount(Render(Events(Prune(forest, false))), false), SurvivingText(forest, false);
      && counted <= NonWhitespace(text)
      && (counted == NonWhitespace(text) <==> NoAngleBracket(text))
  {
    var events := Events(Prune(forest, false));
    PrunedEventsAreClean(forest, false);
    PrunedTextSurvives(forest, false);
    ScanEvents(events, false);
    NoneCounted(TextOf(events));
  }
}
