/** The two recursive DOM walkers, with the buffer, the ancestor stack and the
  * cut flag that they update in place. */
module Walker {
  import opened Wrappers
  import opened Dom
  import opened Serialise
  import Kept

  // ----- the tail cut, stated on events -----

  predicate OpensTail(event: Event) {
    event.Open? && IsTailHeading(event.node)
  }

  predicate HasTail(events: seq<Event>) {
    exists e | e in events :: OpensTail(e)
  }

  /** The events before the first tail heading opens. */
  function UntilTail(events: seq<Event>): seq<Event> {
    if events == [] || OpensTail(events[0]) then [] else [events[0]] + UntilTail(events[1..])
  }

  lemma HasTailAppends(a: seq<Event>, b: seq<Event>)
    ensures HasTail(a + b) == (HasTail(a) || HasTail(b))
  {
    hide OpensTail;
    assert forall e :: e in a + b <==> e in a || e in b;
  }

  lemma HasTailUnfolds(events: seq<Event>)
    requires events != []
    ensures HasTail(events) == (OpensTail(events[0]) || HasTail(events[1..]))
  {
    hide OpensTail;
    assert forall e :: e in events <==> e == events[0] || e in events[1..];
  }

  lemma HeadOfAppend(a: seq<Event>, b: seq<Event>)
    requires a != []
    ensures (a + b)[0] == a[0] && (a + b)[1..] == a[1..] + b && [a[0]] + (a[1..] + b) == a + b
  {
  }

  lemma TailOfNone()
    ensures UntilTail([]) == [] && !HasTail([])
  {
  }

  lemma {:induction false} UntilTailAppends(a: seq<Event>, b: seq<Event>)
    ensures UntilTail(a + b) == if HasTail(a) then UntilTail(a) else a + UntilTail(b)
    ensures HasTail(a + b) == (HasTail(a) || HasTail(b))
  {
    hide OpensTail, HasTail, UntilTail;
    HasTailAppends(a, b);
    if a == [] {
      assert a + b == b && a + UntilTail(b) == UntilTail(b);
      TailOfNone();
    } else {
      HeadOfAppend(a, b);
      HeadOfAppend(a, UntilTail(b));
      UntilTailAppends(a[1..], b);
      UntilTailUnfolds(a);
      UntilTailUnfolds(a + b);
      HasTailUnfolds(a);
    }
  }

  lemma UntilTailUnfolds(events: seq<Event>)
    requires events != []
    ensures UntilTail(events) == if OpensTail(events[0]) then [] else [events[0]] + UntilTail(events[1..])
  {
  }

  /** UntilTail is a prefix, none of its events opens a tail heading, and the
    * next event, if there is one, does. */
  lemma {:induction false} UntilTailIsLongestPrefix(events: seq<Event>)
    ensures UntilTail(events) <= events
    ensures !HasTail(UntilTail(events))
    ensures HasTail(events) <==> |UntilTail(events)| < |events|
    ensures HasTail(events) ==> OpensTail(events[|UntilTail(events)|])
  {
    hide OpensTail;
    if events != [] {
      UntilTailIsLongestPrefix(events[1..]);
      assert forall e :: e in events <==> e == events[0] || e in events[1..];
      assert OpensTail(events[0]) ==> events[0] in events;
      if !OpensTail(events[0]) {
        var rest := UntilTail(events[1..]);
        assert forall e :: e in UntilTail(events) <==> e == events[0] || e in rest;
      }
    }
  }

  /** What is kept is a prefix of the uncut text as well. */
  lemma KeptTextIsPrefix(events: seq<Event>)
    ensures Render(UntilTail(events)) <= Render(events)
  {
    hide OpensTail, Render, HasTail;
    var kept := UntilTail(events);
    UntilTailIsLongestPrefix(events);
    RenderAppends(kept, events[|kept|..]);
    assert events == kept + events[|kept|..];
  }

  /** `chain` leads from a root of the forest down to the parent of `node`. */
  predicate IsChain(chain: seq<Node>, forest: seq<Node>, node: Node) {
    if chain == [] then node in forest
    else chain[0] in forest && chain[0].Element? && IsChain(chain[1..], chain[0].children, node)
  }

  /** Where the walk is cut, the open elements are exactly the heading's ancestors. */
  lemma {:induction false} OpenElementsAreAncestors(forest: seq<Node>, stack: seq<Node>) returns (chain: seq<Node>)
    requires HasTail(Events(forest))
    ensures var events, kept := Events(forest), UntilTail(Events(forest));
      && OpenElements(kept, stack) == Some(stack + chain)
      && |kept| < |events| && OpensTail(events[|kept|])
      && IsChain(chain, forest, events[|kept|].node)
    decreases forest
  {
    hide IsTailHeading, UntilTail, OpenElements, IsChain;
    var node, rest := forest[0], forest[1..];
    var first := NodeEvents(node);
    UntilTailAppends(first, Events(rest));
    UntilTailIsLongestPrefix(Events(forest));
    if !HasTail(first) {
      chain := OpenElementsAreAncestors(rest, stack);
      NodeEventsBalance(node, stack);
      OpenElementsAppend(first, UntilTail(Events(rest)), stack);
      ChainWidens(chain, rest, forest, Events(rest)[|UntilTail(Events(rest))|].node);
    } else {
      UntilTailIsLongestPrefix(first);
      if IsTailHeading(node) {
        UntilTailOfElement(node);
        chain := [];
        HeadingAtRoot(node, forest, stack);
      } else if node.Element? {
        UntilTailOfElement(node);
        chain := OpenElementsAreAncestors(node.children, stack + [node]);
        AncestorsOfChild(node, forest, stack, chain);
        assert UntilTail(first) == [Open(node)] + UntilTail(Events(node.children));
        chain := [node] + chain;
      } else {
        UntilTailOfLeaf(node);
      }
    }
  }

  lemma HeadingAtRoot(node: Node, forest: seq<Node>, stack: seq<Node>)
    requires forest != [] && forest[0] == node && node.Element?
    ensures OpenElements([], stack) == Some(stack + []) && IsChain([], forest, node)
    ensures NodeEvents(node)[0] == Open(node)
  {
    hide IsTailHeading;
    assert stack + [] == stack;
  }

  lemma AncestorsOfChild(node: Node, forest: seq<Node>, stack: seq<Node>, chain: seq<Node>)
    requires node.Element? && node in forest
    requires var inside := Events(node.children);
      && HasTail(inside) && |UntilTail(inside)| < |inside| && inside[|UntilTail(inside)|].Open?
      && OpenElements(UntilTail(inside), stack + [node]) == Some(stack + [node] + chain)
      && IsChain(chain, node.children, inside[|UntilTail(inside)|].node)
    ensures var inside := Events(node.children);
      && OpenElements([Open(node)] + UntilTail(inside), stack) == Some(stack + ([node] + chain))
      && IsChain([node] + chain, forest, inside[|UntilTail(inside)|].node)
  {
    hide IsTailHeading;
    var before := UntilTail(Events(node.children));
    assert ([Open(node)] + before)[1..] == before;
    assert stack + [node] + chain == stack + ([node] + chain);
    assert ([node] + chain)[1..] == chain;
  }

  lemma ChainWidens(chain: seq<Node>, rest: seq<Node>, forest: seq<Node>, node: Node)
    requires IsChain(chain, rest, node) && forall n | n in rest :: n in forest
    ensures IsChain(chain, forest, node)
  {
  }

  // ----- one iteration of each loop -----

  lemma EscapeStep(v: string, i: nat, done: string)
    requires i < |v|
    ensures (done + EscapeChar(v[i])) + Escape(v[i + 1..]) == done + Escape(v[i..])
  {
    assert v[i..][1..] == v[i + 1..];
  }

  lemma RenderAttrsStep(attrs: seq<Attr>, i: nat, done: string)
    requires i < |attrs|
    ensures (done + RenderAttr(attrs[i])) + RenderAttrs(attrs[i + 1..]) == done + RenderAttrs(attrs[i..])
  {
    assert attrs[i..][1..] == attrs[i + 1..];
  }

  lemma RenderOneMore(events: seq<Event>, event: Event)
    ensures Render(events + [event]) == Render(events) + RenderEvent(event)
  {
    RenderAppends(events, [event]);
    assert [event][1..] == [];
    assert Render([event]) == RenderEvent(event) + Render([]);
  }

  function PrunedEvents(forest: seq<Node>, dead: bool): seq<Event> {
    Events(Prune(forest, dead))
  }

  /** `done` is what pruning the first i trees emits. */
  ghost predicate PrunedFrom(forest: seq<Node>, dead: bool, i: nat, done: seq<Event>)
    requires i <= |forest|
  {
    done + PrunedEvents(forest[i..], dead) == PrunedEvents(forest, dead)
  }

  lemma PrunedEventsStep(forest: seq<Node>, i: nat, dead: bool, done: seq<Event>)
    requires i < |forest| && PrunedFrom(forest, dead, i, done)
    ensures PrunedFrom(forest, dead, i + 1, done + Events(PruneNode(forest[i], dead)))
  {
    assert forest[i..][1..] == forest[i + 1..];
    EventsAppend(PruneNode(forest[i], dead), Prune(forest[i + 1..], dead));
  }

  lemma EventsOfKeptElement(node: Node)
    requires node.Element?
    ensures Events([node]) == [Open(node)] + Events(node.children) + [Close(node.tag)]
  {
    EventsOfOne(node);
  }

  lemma EventsOfPrunedLeaf(node: Node, dead: bool)
    requires !node.Element?
    ensures Events(PruneNode(node, dead)) == if dead then [] else NodeEvents(node)
  {
    EventsOfOne(node);
  }

  lemma StyleFreeTag(tag: string, attrs: seq<Attr>)
    ensures RenderOpen(tag, DropStyle(attrs)) == RenderOpen(tag, attrs)
  {
    DroppedStylesRenderAlike(attrs);
  }

  lemma UntilTailOfElement(node: Node)
    requires node.Element?
    ensures var inside := Events(node.children);
      if IsTailHeading(node) then HasTail(NodeEvents(node)) && UntilTail(NodeEvents(node)) == []
      else
        && HasTail(NodeEvents(node)) == HasTail(inside)
        && UntilTail(NodeEvents(node)) ==
           [Open(node)] + UntilTail(inside) + if HasTail(inside) then [] else [Close(node.tag)]
  {
    hide IsTailHeading;
    var events, close := NodeEvents(node), [Close(node.tag)];
    var body := Events(node.children) + close;
    assert events == [Open(node)] + body && events[0] == Open(node) && events[1..] == body;
    assert Open(node) in events && (OpensTail(Open(node)) <==> IsTailHeading(node));
    assert forall e :: e in events <==> e == Open(node) || e in body;
    UntilTailAppends(Events(node.children), close);
    assert UntilTail(close) == close by { assert close[1..] == []; }
    UntilTailIsLongestPrefix(Events(node.children));
  }

  lemma UntilTailOfLeaf(node: Node)
    requires !node.Element?
    ensures !HasTail(NodeEvents(node)) && UntilTail(NodeEvents(node)) == NodeEvents(node)
  {
    hide IsTailHeading;
    UntilTailIsLongestPrefix(NodeEvents(node));
  }

  /** Where the cutting walk stands after i trees: cut or not, and what it emitted. */
  ghost predicate CutSoFar(forest: seq<Node>, i: nat, wasCut: bool, cut: bool, done: seq<Event>)
    requires i <= |forest|
  {
    && (cut || HasTail(Events(forest[i..])) <==> wasCut || HasTail(Events(forest)))
    && done + (if cut then [] else UntilTail(Events(forest[i..])))
       == if wasCut then [] else UntilTail(Events(forest))
  }

  lemma CutStarts(forest: seq<Node>, cut: bool)
    ensures CutSoFar(forest, 0, cut, cut, [])
  {
    assert forest[0..] == forest;
  }

  lemma CutEnds(forest: seq<Node>, wasCut: bool, cut: bool, done: seq<Event>)
    requires CutSoFar(forest, |forest|, wasCut, cut, done)
    ensures cut == (wasCut || HasTail(Events(forest)))
    ensures done == if wasCut then [] else UntilTail(Events(forest))
  {
    assert forest[|forest|..] == [];
  }

  lemma CutStep(forest: seq<Node>, i: nat, wasCut: bool, cut: bool, done: seq<Event>)
    requires i < |forest| && CutSoFar(forest, i, wasCut, cut, done)
    ensures var first := NodeEvents(forest[i]);
      CutSoFar(forest, i + 1, wasCut, cut || HasTail(first), done + if cut then [] else UntilTail(first))
  {
    hide IsTailHeading;
    var first, rest := NodeEvents(forest[i]), Events(forest[i + 1..]);
    assert forest[i..][1..] == forest[i + 1..];
    assert Events(forest[i..]) == first + rest;
    UntilTailAppends(first, rest);
    UntilTailIsLongestPrefix(first);
  }

  predicate AnyTrue(flags: seq<bool>) {
    exists b | b in flags :: b
  }

  lemma AnyTruePushed(flags: seq<bool>, b: bool)
    ensures AnyTrue(flags + [b]) == (AnyTrue(flags) || b)
  {
    assert b in flags + [b];
    assert forall f | f in flags :: f in flags + [b];
  }

  // ----- the walkers -----

  class Walk {
    var out: string
    var ancestorUnwanted: seq<bool>
    var cut: bool
    ghost var events: seq<Event>

    constructor ()
      ensures out == "" && ancestorUnwanted == [] && !cut && events == []
    {
      out, ancestorUnwanted, cut, events := "", [], false, [];
    }

    method PushEscapedAttr(v: string)
      modifies this`out
      ensures out == old(out) + Escape(v)
    {
      hide EscapeChar;
      ghost var done := "";
      for i := 0 to |v|
        invariant out == old(out) + done && done + Escape(v[i..]) == Escape(v)
      {
        EscapeStep(v, i, done);
        done := done + EscapeChar(v[i]);
        PushEscapedChar(v[i]);
      }
      assert v[|v|..] == "";
    }

    method PushEscapedChar(ch: char)
      modifies this`out
      ensures out == old(out) + EscapeChar(ch)
    {
      match ch {
        case '&' => out := out + "&amp;";
        case '"' => out := out + "&quot;";
        case '<' => out := out + "&lt;";
        case '>' => out := out + "&gt;";
        case c => out := out + [c];
      }
    }

    method PushAttr(attr: Attr)
      modifies this`out
      ensures out == old(out) + RenderAttr(attr)
    {
      if IsStyle(attr) {
        return;
      }
      out := out + " ";
      out := out + attr.name;
      if attr.value != "" {
        out := out + "=\"";
        PushEscapedAttr(attr.value);
        out := out + "\"";
      }
    }

    method PushAttrs(attrs: seq<Attr>)
      modifies this`out
      ensures out == old(out) + RenderAttrs(attrs)
    {
      hide RenderAttr;
      ghost var done := "";
      for i := 0 to |attrs|
        invariant out == old(out) + done && done + RenderAttrs(attrs[i..]) == RenderAttrs(attrs)
      {
        RenderAttrsStep(attrs, i, done);
        done := done + RenderAttr(attrs[i]);
        PushAttr(attrs[i]);
      }
      assert attrs[|attrs|..] == [];
    }

    method SerialiseOpen(tag: string, attrs: seq<Attr>)
      modifies this`out
      ensures out == old(out) + RenderOpen(tag, attrs)
    {
      hide RenderAttrs;
      out := out + "<" + tag;
      PushAttrs(attrs);
      assert out == old(out) + ("<" + tag + RenderAttrs(attrs));
      if tag in SELF_CLOSING {
        out := out + " />";
        return;
      }
      out := out + ">";
    }

    ghost predicate Emits()
      reads this`out, this`events
    {
      out == Render(events)
    }

    /** Appends one event's text, with the event in the history. */
    method EmitOpen(node: Node, ghost emitted: Node)
      requires Emits() && node.Element?
      requires emitted.Element? && RenderOpen(emitted.tag, emitted.attrs) == RenderOpen(node.tag, node.attrs)
      modifies this`out, this`events
      ensures Emits() && events == old(events) + [Open(emitted)]
    {
      SerialiseOpen(node.tag, node.attrs);
      RenderOneMore(events, Open(emitted));
      events := events + [Open(emitted)];
    }

    method EmitClose(tag: string)
      requires Emits()
      modifies this`out, this`events
      ensures Emits() && events == old(events) + [Close(tag)]
    {
      RenderOneMore(events, Close(tag));
      out := out + ("</" + tag + ">");
      events := events + [Close(tag)];
    }

    /** The non-element nodes: text and doctypes are printed, the rest is not. */
    method EmitLeaf(node: Node)
      requires Emits() && !node.Element?
      modifies this`out, this`events
      ensures Emits() && events == old(events) + NodeEvents(node)
    {
      match node {
        case TextNode(t) =>
          RenderOneMore(events, Chars(t));
          out := out + t;
          events := events + [Chars(t)];
        case Doctype(name) =>
          RenderOneMore(events, Doc(name));
          out := out + ("<!DOCTYPE " + name + ">");
          events := events + [Doc(name)];
        case _ =>
      }
    }

    /** Emits exactly the events of the pruned node, and leaves the stack as it was. */
    method WalkAndSerialise(node: Node)
      requires Emits()
      modifies this`out, this`ancestorUnwanted, this`events
      ensures Emits() && ancestorUnwanted == old(ancestorUnwanted)
      ensures events == old(events) + Events(PruneNode(node, AnyTrue(old(ancestorUnwanted))))
      decreases node, 1
    {
      hide IsUnwanted, RenderOpen, Emits, NodeEvents;
      ghost var dead := AnyTrue(ancestorUnwanted);
      if node.Element? {
        var isTagUnwanted := IsUnwanted(node.tag, node.attrs);
        ghost var kept := Element(node.tag, DropStyle(node.attrs), Prune(node.children, dead));
        AnyTruePushed(ancestorUnwanted, isTagUnwanted);
        ancestorUnwanted := ancestorUnwanted + [isTagUnwanted];
        if !isTagUnwanted {
          StyleFreeTag(node.tag, node.attrs);
          EmitOpen(node, kept);
        }
        WalkChildren(node.children);
        if !isTagUnwanted {
          EmitClose(node.tag);
          EventsOfKeptElement(kept);
        }
        ancestorUnwanted := ancestorUnwanted[..|ancestorUnwanted| - 1];
      } else if !AnyTrue(ancestorUnwanted) {
        EventsOfPrunedLeaf(node, dead);
        EmitLeaf(node);
      } else {
        EventsOfPrunedLeaf(node, dead);
      }
    }

    method WalkChildren(children: seq<Node>)
      requires Emits()
      modifies this`out, this`ancestorUnwanted, this`events
      ensures Emits() && ancestorUnwanted == old(ancestorUnwanted)
      ensures events == old(events) + PrunedEvents(children, AnyTrue(old(ancestorUnwanted)))
      decreases children, 0
    {
      hide PruneNode, Emits, AnyTrue;
      ghost var dead, done := AnyTrue(ancestorUnwanted), [];
      for i := 0 to |children|
        invariant Emits() && ancestorUnwanted == old(ancestorUnwanted)
        invariant events == old(events) + done && PrunedFrom(children, dead, i, done)
      {
        PrunedEventsStep(children, i, dead, done);
        done := done + Events(PruneNode(children[i], dead));
        WalkAndSerialise(children[i]);
      }
      assert children[|children|..] == [];
    }

    /** Emits the node's events up to the first tail heading, none once cut. */
    method WalkWithCut(node: Node)
      requires Emits()
      modifies this`out, this`cut, this`events
      ensures Emits() && cut == (old(cut) || HasTail(NodeEvents(node)))
      ensures events == old(events) + if old(cut) then [] else UntilTail(NodeEvents(node))
      decreases node, 1
    {
      hide IsTailHeading, UntilTail, HasTail, Events, NodeEvents, RenderOpen, Emits;
      if node.Element? {
        UntilTailOfElement(node);
        if IsTailHeading(node) {
          cut := true;
          return;
        }
        if !cut {
          EmitOpen(node, node);
        }
        WalkChildrenWithCut(node.children);
        if !cut {
          EmitClose(node.tag);
        }
      } else {
        UntilTailOfLeaf(node);
        if !cut {
          EmitLeaf(node);
        }
      }
    }

    method WalkChildrenWithCut(children: seq<Node>)
      requires Emits()
      modifies this`out, this`cut, this`events
      ensures Emits() && cut == (old(cut) || HasTail(Events(children)))
      ensures events == old(events) + if old(cut) then [] else UntilTail(Events(children))
      decreases children, 0
    {
      hide UntilTail, HasTail, CutSoFar;
      ghost var done := [];
      CutStarts(children, cut);
      for i := 0 to |children|
        invariant Emits() && events == old(events) + done
        invariant CutSoFar(children, i, old(cut), cut, done)
      {
        CutStep(children, i, old(cut), cut, done);
        ghost var emitted := if cut then [] else UntilTail(NodeEvents(children[i]));
        WalkWithCut(children[i]);
        done := done + emitted;
      }
      CutEnds(children, old(cut), cut, done);
    }
  }

  /** `strip_unwanted`, given the parsed fragment. */
  method StripUnwanted(forest: seq<Node>) returns (html: string)
    ensures html == Render(Events(Prune(forest, false)))
    ensures html == Kept.Spell(Kept.KeptTokens(forest, false))
  {
    var walk := new Walk();
    walk.WalkChildren(forest);
    Kept.PrunedTextIsKept(forest);
    assert walk.events == PrunedEvents(forest, false);
    html := walk.out;
  }

  /** `strip_wikipedia_tail`, given the text and its parse. */
  method StripWikipediaTail(html: string, forest: seq<Node>) returns (stripped: string)
    ensures var kept := Render(UntilTail(Events(forest)));
      stripped == if html == "" || kept == "" then html else kept
  {
    hide UntilTail, HasTail;
    if html == "" {
      return html;
    }
    var walk := new Walk();
    walk.WalkChildrenWithCut(forest);
    assert walk.events == UntilTail(Events(forest));
    if walk.out == "" {
      return html;
    }
    stripped := walk.out;
  }
}
