/** Parsed HTML and the tests the content extractor makes on an element. */
module Dom {
  import opened Wrappers
  import opened Text

  datatype Attr = Attr(name: string, value: string)

  /** `Other` stands for processing instructions and fragment roots. */
  datatype Node =
    | Element(tag: string, attrs: seq<Attr>, children: seq<Node>)
    | TextNode(text: string)
    | Comment(text: string)
    | Doctype(name: string)
    | Other

  function GetAttr(attrs: seq<Attr>, name: string): Option<string> {
    if attrs == [] then None
    else if attrs[0].name == name then Some(attrs[0].value)
    else GetAttr(attrs[1..], name)
  }

  // ----- string helpers of the tests -----

  function FirstWord(s: string): string {
    if s == "" || IsWhitespace(s[0]) then "" else [s[0]] + FirstWord(s[1..])
  }

  lemma FirstWordIsPrefix(s: string)
    ensures FirstWord(s) <= s
  {
  }

  function SplitWhitespace(s: string): seq<string> {
    if s == "" then []
    else if IsWhitespace(s[0]) then SplitWhitespace(s[1..])
    else
      FirstWordIsPrefix(s);
      [FirstWord(s)] + SplitWhitespace(s[|FirstWord(s)|..])
  }

  function Concat(words: seq<string>, separator: string): string {
    if words == [] then "" else if |words| == 1 then words[0] else words[0] + separator + Concat(words[1..], separator)
  }

  function ReplaceChar(s: string, old': char, by': char): string {
    seq(|s|, i requires 0 <= i < |s| => if s[i] == old' then by' else s[i])
  }

  predicate EqualsIgnoreCase(s: string, t: string) {
    ToAsciiLower(s) == ToAsciiLower(t)
  }

  // ----- unwanted elements -----

  const UNWANTED_TAGS: seq<string> := [
    "script", "style", "noscript", "iframe", "svg", "link", "meta", "title", "head", "nav",
    "header", "footer", "aside", "form", "button", "input", "select", "textarea", "object",
    "embed", "applet", "audio", "video", "source", "track", "canvas", "template", "slot"]

  const NOISE_SUBSTRINGS: seq<string> := [
    "sidebar", "table-of-contents", "infobox", "navbox", "breadcrumb", "cookie", "consent", "banner",
    "disqus", "advert", "popup", "modal", "newsletter", "subscribe", "printfooter", "catlinks",
    "mw-panel", "mw-navigation", "sitesub", "jump-to-nav", "mw-editsection", "mw-jump-link",
    "mw-empty-elt", "mw-cite-backlink", "thumbcaption", "mw-metadata", "vertical-navbox", "reflist",
    "mw-references", "authority-control", "mw-indicators", "sistersitebox", "mbox", "ambox", "ombox",
    "hatnote", "shortdescription", "sphinxsidebar", "sphinxfooter", "copyright", "dropdown", "skip-to",
    "skip-link", "skiplinks", "promo", "promotional", "widget", "site-footer", "site-header",
    "page-footer", "page-header", "global-nav", "global-footer", "global-header", "main-nav",
    "primary-nav", "secondary-nav", "social-share", "social-links", "social-icons", "follow-us",
    "site-map", "sitemap", "references", "bibliography", "external-links", "further-reading",
    "see-also", "navigation", "edit-section", "collapsible", "collapsibletable", "metadata", "portal",
    "sister-project", "articlefooter", "pagefooter", "endnote", "citation"]

  const NOISE_EXACT_TOKENS: seq<string> := [
    "toc", "share", "social", "related", "recommended", "comments", "comment", "footer", "sidebar",
    "navbox", "infobox", "hatnote", "ambox", "ombox", "mbox", "mbox-small", "catlinks", "reference",
    "references", "reflist", "bibliography", "navigation", "advert", "advertisement", "promo",
    "sponsored", "mw-empty-elt", "mw-jump-link", "thumbcaption", "metadata"]

  const NOISE_PREFIXES: seq<string> := ["ad-", "ads-", "adv-", "sponsor"]

  const HIDDEN_MARKERS: seq<string> := [
    "hidden", "display-none", "d-none", "invisible", "visually-hidden", "sr-only", "offscreen",
    "screen-reader", "collapse", "collapsed", "is-hidden", "js-hidden", "no-display", "no-print"]

  const HIDING_STYLES: seq<string> := ["display:none", "visibility:hidden", "visibility:collapse"]

  const HEADINGS: seq<string> := ["h1", "h2", "h3", "h4", "h5", "h6"]

  function NormalizedTokens(value: Option<string>): seq<string> {
    match value
    case None => []
    case Some(v) =>
      var words := SplitWhitespace(v);
      seq(|words|, i requires 0 <= i < |words| => ReplaceChar(ToAsciiLower(words[i]), '_', '-'))
  }

  predicate IsNoise(tag: string, attrs: seq<Attr>) {
    if tag in HEADINGS then false
    else
      var tokens := NormalizedTokens(GetAttr(attrs, "class")) + NormalizedTokens(GetAttr(attrs, "id"));
      if exists t | t in tokens :: t in NOISE_EXACT_TOKENS || exists p | p in NOISE_PREFIXES :: p <= t then true
      else if exists needle | needle in NOISE_SUBSTRINGS :: Contains(Concat(tokens, " "), needle) then
        !(tag == "main" || tag == "article" || AttrIs(attrs, "role", ["main"]))
      else false
  }

  predicate AttrIs(attrs: seq<Attr>, name: string, values: seq<string>) {
    match GetAttr(attrs, name)
    case None => false
    case Some(v) => exists w | w in values :: EqualsIgnoreCase(v, w)
  }

  predicate HasHiddenClass(value: Option<string>) {
    value.Some? && exists t | t in SplitWhitespace(ToAsciiLower(value.value)) :: t in HIDDEN_MARKERS
  }

  predicate HasHidingStyle(value: Option<string>) {
    && value.Some?
    && var compact := Concat(SplitWhitespace(ToAsciiLower(value.value)), "");
       exists needle | needle in HIDING_STYLES :: Contains(compact, needle)
  }

  predicate IsHidden(attrs: seq<Attr>) {
    || HasHiddenClass(GetAttr(attrs, "class"))
    || AttrIs(attrs, "aria-hidden", ["true"])
    || HasHidingStyle(GetAttr(attrs, "style"))
    || GetAttr(attrs, "hidden").Some?
    || AttrIs(attrs, "data-state", ["hidden", "collapsed"])
  }

  predicate IsDataImage(tag: string, attrs: seq<Attr>) {
    tag == "img" && GetAttr(attrs, "src").Some? && "data:image/" <= GetAttr(attrs, "src").value
  }

  predicate IsUnwanted(tag: string, attrs: seq<Attr>) {
    tag in UNWANTED_TAGS || IsHidden(attrs) || IsDataImage(tag, attrs) || IsNoise(tag, attrs)
  }

  // ----- dropping inline styles -----

  predicate IsStyle(attr: Attr) {
    EqualsIgnoreCase(attr.name, "style")
  }

  function DropStyle(attrs: seq<Attr>): seq<Attr> {
    if attrs == [] then []
    else if IsStyle(attrs[0]) then DropStyle(attrs[1..])
    else [attrs[0]] + DropStyle(attrs[1..])
  }

  lemma {:induction false} DropStyleKeepsOthers(attrs: seq<Attr>, name: string)
    ensures GetAttr(DropStyle(attrs), name) ==
      if EqualsIgnoreCase(name, "style") then None else GetAttr(attrs, name)
  {
    if attrs != [] {
      DropStyleKeepsOthers(attrs[1..], name);
    }
  }

  /** Losing its style can only make an element wanted, never unwanted. */
  lemma DropStyleKeepsWanted(tag: string, attrs: seq<Attr>)
    requires !IsUnwanted(tag, attrs)
    ensures !IsUnwanted(tag, DropStyle(attrs))
  {
    DifferentNames();
    DropStyleKeepsOthers(attrs, "class");
    DropStyleKeepsOthers(attrs, "id");
    DropStyleKeepsOthers(attrs, "role");
    DropStyleKeepsOthers(attrs, "src");
    DropStyleKeepsOthers(attrs, "style");
    DropStyleKeepsOthers(attrs, "hidden");
    DropStyleKeepsOthers(attrs, "aria-hidden");
    DropStyleKeepsOthers(attrs, "data-state");
  }

  lemma DifferentNames()
    ensures forall name | name in ["class", "id", "role", "src", "hidden", "aria-hidden", "data-state"] ::
      !EqualsIgnoreCase(name, "style")
  {
    forall name | name in ["class", "id", "role", "src", "hidden", "aria-hidden", "data-state"]
      ensures !EqualsIgnoreCase(name, "style")
    {
      if |name| == 5 {
        assert ToAsciiLower(name)[0] == 'c' && ToAsciiLower("style")[0] == 's';
      }
    }
  }

  lemma {:induction false} DropStyleTwice(attrs: seq<Attr>)
    ensures DropStyle(DropStyle(attrs)) == DropStyle(attrs)
  {
    if attrs != [] {
      DropStyleTwice(attrs[1..]);
    }
  }

  // ----- tail headings -----

  const TAIL_HEADING_ID_SUBSTRINGS: seq<string> := [
    "references", "see-also", "external-links", "further-reading", "notes", "bibliography", "cite-net"]

  const TAIL_HEADING_TEXT_EXACT: seq<string> := [
    "references", "see also", "external links", "further reading", "notes", "bibliography"]

  /** All text below the given nodes, in document order. */
  function TextContent(nodes: seq<Node>): string {
    if nodes == [] then ""
    else (match nodes[0]
          case Element(_, _, children) => TextContent(children)
          case TextNode(t) => t
          case _ => "") + TextContent(nodes[1..])
  }

  predicate IsTailHeading(node: Node) {
    && node.Element?
    && node.tag in HEADINGS
    && (|| (var id := GetAttr(node.attrs, "id");
            id.Some? && exists needle | needle in TAIL_HEADING_ID_SUBSTRINGS ::
              Contains(ReplaceChar(ToAsciiLower(id.value), '_', '-'), needle))
        || ToAsciiLower(Trim(TextContent(node.children))) in TAIL_HEADING_TEXT_EXACT)
  }

  // ----- what the tests mean -----

  function WithoutWhitespace(s: string): string {
    if s == "" then "" else (if IsWhitespace(s[0]) then "" else [s[0]]) + WithoutWhitespace(s[1..])
  }

  /** The words of a text hold its characters other than white space, in order. */
  lemma {:induction false} WordsKeepLetters(s: string)
    ensures Concat(SplitWhitespace(s), "") == WithoutWhitespace(s)
    ensures forall w | w in SplitWhitespace(s) :: w != "" && forall i | 0 <= i < |w| :: !IsWhitespace(w[i])
    decreases |s|
  {
    hide IsWhitespace;
    if s != "" {
      if IsWhitespace(s[0]) {
        WordsKeepLetters(s[1..]);
      } else {
        FirstWordIsPrefix(s);
        var rest := s[|FirstWord(s)|..];
        WordsKeepLetters(rest);
        FirstWordLetters(s);
        FirstWordIsVisible(s);
        ConcatFirst(FirstWord(s), SplitWhitespace(rest));
      }
    }
  }

  lemma {:induction false} FirstWordLetters(s: string)
    ensures FirstWord(s) <= s && WithoutWhitespace(s) == FirstWord(s) + WithoutWhitespace(s[|FirstWord(s)|..])
  {
    hide IsWhitespace, FirstWord, WithoutWhitespace;
    FirstWordIsPrefix(s);
    if s != "" && !IsWhitespace(s[0]) {
      var rest := s[1..];
      FirstWordIsPrefix(rest);
      FirstWordLetters(rest);
      WordUnfolds(s);
      var first, tail := FirstWord(rest), WithoutWhitespace(rest[|FirstWord(rest)|..]);
      assert s[|FirstWord(s)|..] == rest[|first|..];
      assert [s[0]] + (first + tail) == ([s[0]] + first) + tail;
    } else {
      NoFirstWord(s);
      assert s[0..] == s && "" + WithoutWhitespace(s) == WithoutWhitespace(s);
    }
  }

  lemma NoFirstWord(s: string)
    requires s == "" || IsWhitespace(s[0])
    ensures FirstWord(s) == ""
  {
  }

  lemma {:induction false} FirstWordIsVisible(s: string)
    ensures forall i | 0 <= i < |FirstWord(s)| :: !IsWhitespace(FirstWord(s)[i])
  {
    hide IsWhitespace;
    if s != "" && !IsWhitespace(s[0]) {
      FirstWordIsVisible(s[1..]);
    }
  }

  lemma WordUnfolds(s: string)
    requires s != "" && !IsWhitespace(s[0])
    ensures FirstWord(s) == [s[0]] + FirstWord(s[1..]) && WithoutWhitespace(s) == [s[0]] + WithoutWhitespace(s[1..])
  {
  }

  lemma ConcatFirst(word: string, words: seq<string>)
    ensures Concat([word] + words, "") == word + Concat(words, "")
  {
    assert ([word] + words)[1..] == words;
  }

  /** An inline style hides an element whatever its spacing and case. */
  lemma HidingStyleIff(value: string)
    ensures HasHidingStyle(Some(value)) <==>
      var compact := WithoutWhitespace(ToAsciiLower(value));
      Contains(compact, "display:none") || Contains(compact, "visibility:hidden") || Contains(compact, "visibility:collapse")
  {
    hide Contains;
    WordsKeepLetters(ToAsciiLower(value));
    assert HIDING_STYLES[0] == "display:none" && HIDING_STYLES[1] == "visibility:hidden" && HIDING_STYLES[2] == "visibility:collapse";
  }

  /** A heading is never noise: it is unwanted exactly when it is hidden. */
  lemma HeadingUnwantedIffHidden(tag: string, attrs: seq<Attr>)
    requires tag in ["h1", "h2", "h3", "h4", "h5", "h6"]
    ensures IsUnwanted(tag, attrs) <==> IsHidden(attrs)
  {
    hide IsHidden, GetAttr;
    assert tag[0] == 'h' && |tag| == 2;
    forall t | t in UNWANTED_TAGS ensures t != tag {
      assert |t| > 2;
    }
    assert tag != "img";
  }

  /** The words of an attribute, in lower case and with hyphens for underscores. */
  predicate HasWord(attrs: seq<Attr>, name: string, word: string) {
    var value := GetAttr(attrs, name);
    value.Some? && exists w | w in SplitWhitespace(value.value) :: ReplaceChar(ToAsciiLower(w), '_', '-') == word
  }

  /** A listed word, or one with a listed prefix, among the classes or the id makes any
    * element but a heading noise. */
  lemma ListedWordIsNoise(tag: string, attrs: seq<Attr>, word: string)
    requires tag !in ["h1", "h2", "h3", "h4", "h5", "h6"] && (HasWord(attrs, "class", word) || HasWord(attrs, "id", word))
    requires word in NOISE_EXACT_TOKENS || "ad-" <= word || "ads-" <= word || "adv-" <= word || "sponsor" <= word
    ensures IsUnwanted(tag, attrs)
  {
    hide NormalizedTokens, ToAsciiLower, SplitWhitespace, GetAttr, IsHidden, Contains, ReplaceChar;
    WordIsToken(GetAttr(attrs, if HasWord(attrs, "class", word) then "class" else "id"), word);
    var tokens := NormalizedTokens(GetAttr(attrs, "class")) + NormalizedTokens(GetAttr(attrs, "id"));
    assert word in tokens;
    if word !in NOISE_EXACT_TOKENS {
      PrefixesListed(word);
    }
    assert IsNoise(tag, attrs);
  }

  lemma PrefixesListed(word: string)
    requires "ad-" <= word || "ads-" <= word || "adv-" <= word || "sponsor" <= word
    ensures exists p | p in NOISE_PREFIXES :: p <= word
  {
    var p := if "ad-" <= word then "ad-" else if "ads-" <= word then "ads-" else if "adv-" <= word then "adv-" else "sponsor";
    assert p in NOISE_PREFIXES;
  }

  lemma WordIsToken(value: Option<string>, word: string)
    requires value.Some? && exists w | w in SplitWhitespace(value.value) :: ReplaceChar(ToAsciiLower(w), '_', '-') == word
    ensures word in NormalizedTokens(value)
  {
    hide ToAsciiLower, ReplaceChar, SplitWhitespace;
    var words := SplitWhitespace(value.value);
    var w :| w in words && ReplaceChar(ToAsciiLower(w), '_', '-') == word;
    var i :| 0 <= i < |words| && words[i] == w;
    assert NormalizedTokens(value)[i] == word;
  }

  /** An image with its data in place is unwanted, whatever else it says. */
  lemma DataImageIsUnwanted(attrs: seq<Attr>, data: string)
    requires GetAttr(attrs, "src") == Some("data:image/" + data)
    ensures IsUnwanted("img", attrs)
  {
    hide GetAttr, IsHidden, IsNoise;
    assert "data:image/" <= "data:image/" + data;
  }

  /** Which headings open the tail of an article: by id, case and underscores aside, or
    * by their whole text, case and surrounding blanks aside. */
  lemma TailHeadingIff(node: Node)
    ensures IsTailHeading(node) <==>
      && node.Element? && node.tag in ["h1", "h2", "h3", "h4", "h5", "h6"]
      && (|| (GetAttr(node.attrs, "id").Some?
              && exists needle | needle in ["references", "see-also", "external-links", "further-reading", "notes", "bibliography", "cite-net"] ::
                   Contains(ReplaceChar(ToAsciiLower(GetAttr(node.attrs, "id").value), '_', '-'), needle))
          || ToAsciiLower(Trim(TextContent(node.children)))
             in ["references", "see also", "external links", "further reading", "notes", "bibliography"])
  {
    hide GetAttr, Contains, ReplaceChar, ToAsciiLower, Trim, TextContent;
  }

  /** Each of the explicit ways to hide an element makes it unwanted. */
  lemma HiddenIsUnwanted(tag: string, attrs: seq<Attr>)
    requires || GetAttr(attrs, "hidden").Some?
      || (GetAttr(attrs, "aria-hidden").Some? && ToAsciiLower(GetAttr(attrs, "aria-hidden").value) == ToAsciiLower("true"))
      || (GetAttr(attrs, "data-state").Some? && ToAsciiLower(GetAttr(attrs, "data-state").value) in [ToAsciiLower("hidden"), ToAsciiLower("collapsed")])
      || (GetAttr(attrs, "class").Some? && exists w | w in SplitWhitespace(ToAsciiLower(GetAttr(attrs, "class").value)) :: w in HIDDEN_MARKERS)
      || HasHidingStyle(GetAttr(attrs, "style"))
    ensures IsUnwanted(tag, attrs)
  {
    hide HasHidingStyle, IsNoise, GetAttr, ToAsciiLower, SplitWhitespace;
    assert "true" in ["true"] && "hidden" in ["hidden", "collapsed"] && "collapsed" in ["hidden", "collapsed"];
  }
}
