/** A reader of printed opening tags: what the walkers print of an element can be
  * read back, whatever characters its attribute values hold. */
module TagReader {
  import opened Wrappers
  import opened Text
  import opened Dom
  import opened Serialise
  import opened Kept

  // ----- reading a printed opening tag back -----

  predicate IsDelimiter(c: char) {
    c in " =>/\"<"
  }

  /** Names as an HTML parser produces them. */
  predicate CleanName(name: string) {
    name != "" && forall i | 0 <= i < |name| :: !IsDelimiter(name[i])
  }

  /** The first name of the text, and what follows it. */
  function ReadName(s: string): (r: (string, string))
    ensures s == r.0 + r.1
  {
    if s == "" || IsDelimiter(s[0]) then ("", s)
    else var (name, rest) := ReadName(s[1..]); ([s[0]] + name, rest)
  }

  /** The text up to the first quote, and what follows the quote. */
  function ReadQuoted(s: string): (r: Option<(string, string)>)
    ensures r.Some? ==> |r.value.1| < |s|
  {
    if s == "" then None
    else if s[0] == '"' then Some(("", s[1..]))
    else
      match ReadQuoted(s[1..])
      case None => None
      case Some((value, rest)) => Some(([s[0]] + value, rest))
  }

  /** Character references undone. */
  function Unescape(s: string): string {
    if s == "" then ""
    else if "&amp;" <= s then "&" + Unescape(s[5..])
    else if "&quot;" <= s then "\"" + Unescape(s[6..])
    else if "&lt;" <= s then "<" + Unescape(s[4..])
    else if "&gt;" <= s then ">" + Unescape(s[4..])
    else [s[0]] + Unescape(s[1..])
  }

  /** The attributes up to the end of the tag, and what follows the tag. */
  function ReadAttrs(s: string): Option<(seq<Attr>, string)>
    decreases |s|
  {
    if ">" <= s then Some(([], s[1..]))
    else if " />" <= s then Some(([], s[3..]))
    else if s == "" || s[0] != ' ' then None
    else
      var (name, rest) := ReadName(s[1..]);
      if "=\"" <= rest then
        (match ReadQuoted(rest[2..])
         case None => None
         case Some((value, more)) => WithAttr(Attr(name, Unescape(value)), ReadAttrs(more)))
      else if rest == s then None
      else WithAttr(Attr(name, ""), ReadAttrs(rest))
  }

  function WithAttr(attr: Attr, rest: Option<(seq<Attr>, string)>): Option<(seq<Attr>, string)> {
    match rest
    case None => None
    case Some((attrs, more)) => Some(([attr] + attrs, more))
  }

  function ReadOpen(s: string): Option<(string, seq<Attr>, string)> {
    if s == "" || s[0] != '<' then None
    else
      var (tag, rest) := ReadName(s[1..]);
      match ReadAttrs(rest)
      case None => None
      case Some((attrs, more)) => Some((tag, attrs, more))
  }

  lemma UnescapeOne(c: char, rest: string)
    ensures Unescape(EscapeChar(c) + rest) == [c] + Unescape(rest)
  {
    var first := EscapeChar(c);
    var s := first + rest;
    assert s[|first|..] == rest && first <= s && s[0] == first[0];
    assert |first| > 1 ==> s[1] == first[1];
    assert |first| > 3 ==> s[2] == first[2];
  }

  /** Escaping loses nothing, and leaves no quote in the value. */
  lemma {:induction false} UnescapeInvertsEscape(v: string)
    ensures Unescape(Escape(v)) == v
    ensures '"' !in Escape(v)
  {
    if v != "" {
      hide Unescape;
      UnescapeInvertsEscape(v[1..]);
      UnescapeOne(v[0], Escape(v[1..]));
      assert [v[0]] + v[1..] == v;
    } else {
      assert Unescape(Escape(v)) == v;
    }
  }

  lemma {:induction false} ReadNameOf(name: string, rest: string)
    requires forall i | 0 <= i < |name| :: !IsDelimiter(name[i])
    requires rest != "" && IsDelimiter(rest[0])
    ensures ReadName(name + rest) == (name, rest)
  {
    if name == "" {
      assert name + rest == rest;
    } else {
      assert (name + rest)[1..] == name[1..] + rest;
      ReadNameOf(name[1..], rest);
      assert [name[0]] + name[1..] == name;
    }
  }

  lemma {:induction false} ReadQuotedOf(value: string, rest: string)
    requires '"' !in value
    ensures ReadQuoted(value + "\"" + rest) == Some((value, rest))
  {
    var s := value + "\"" + rest;
    if value == "" {
      assert s[1..] == rest;
    } else {
      assert s[1..] == value[1..] + "\"" + rest;
      ReadQuotedOf(value[1..], rest);
      assert [value[0]] + value[1..] == value;
    }
  }

  function TagEnd(tag: string): string {
    if tag in ["br", "img", "hr", "meta", "link", "input"] then " />" else ">"
  }

  /** What can follow an attribute: another one, or the end of the tag. */
  predicate EndsAttr(s: string) {
    s != "" && (s[0] == ' ' || s[0] == '>')
  }

  lemma {:induction false} AttrsReadBack(attrs: seq<Attr>, tag: string, rest: string)
    requires forall a | a in attrs :: CleanName(a.name)
    ensures ReadAttrs(RenderAttrs(attrs) + (TagEnd(tag) + rest)) == Some((DropStyle(attrs), rest))
    ensures EndsAttr(RenderAttrs(attrs) + (TagEnd(tag) + rest))
  {
    hide ReadAttrs, RenderAttr, CleanName, IsStyle;
    var end := TagEnd(tag) + rest;
    if attrs == [] {
      assert RenderAttrs(attrs) + end == end;
      EndReadsBack(tag, rest);
    } else {
      assert forall a | a in attrs[1..] :: a in attrs;
      AttrsReadBack(attrs[1..], tag, rest);
      var tail := RenderAttrs(attrs[1..]) + end;
      assert RenderAttrs(attrs) + end == RenderAttr(attrs[0]) + tail;
      assert attrs[0] in attrs;
      OneAttrReadsBack(attrs[0], tail);
    }
  }

  lemma EndReadsBack(tag: string, rest: string)
    ensures ReadAttrs(TagEnd(tag) + rest) == Some(([], rest)) && EndsAttr(TagEnd(tag) + rest)
  {
    var end := TagEnd(tag) + rest;
    assert end[|TagEnd(tag)|..] == rest && TagEnd(tag) <= end && end[0] == TagEnd(tag)[0];
  }

  lemma OneAttrReadsBack(attr: Attr, tail: string)
    requires CleanName(attr.name) && EndsAttr(tail)
    ensures ReadAttrs(RenderAttr(attr) + tail) == if IsStyle(attr) then ReadAttrs(tail) else WithAttr(attr, ReadAttrs(tail))
    ensures EndsAttr(RenderAttr(attr) + tail)
  {
    hide ToAsciiLower, Escape, ReadAttrs;
    if IsStyle(attr) {
      assert "" + tail == tail;
    } else if attr.value == "" {
      BareAttrReadsBack(attr.name, tail);
      assert RenderAttr(attr) + tail == " " + attr.name + tail;
    } else {
      QuotedAttrReadsBack(attr.name, attr.value, tail);
      assert RenderAttr(attr) + tail == " " + (attr.name + ("=\"" + (Escape(attr.value) + "\"" + tail)));
    }
  }

  lemma BareAttrReadsBack(name: string, tail: string)
    requires CleanName(name) && EndsAttr(tail)
    ensures ReadAttrs(" " + name + tail) == WithAttr(Attr(name, ""), ReadAttrs(tail))
  {
    hide WithAttr, ReadName;
    var s := " " + name + tail;
    assert s[0] == ' ' && s[1] == name[0] && s[1..] == name + tail && |s| > |tail|;
    ReadNameOf(name, tail);
    assert !("=\"" <= tail);
  }

  lemma QuotedAttrReadsBack(name: string, value: string, tail: string)
    requires CleanName(name)
    ensures ReadAttrs(" " + (name + ("=\"" + (Escape(value) + "\"" + tail)))) == WithAttr(Attr(name, value), ReadAttrs(tail))
  {
    hide WithAttr, ReadName, ReadQuoted, Unescape, Escape;
    var quoted := Escape(value) + "\"" + tail;
    var after := "=\"" + quoted;
    var s := " " + (name + after);
    assert s[0] == ' ' && s[1] == name[0] && s[1..] == name + after;
    ReadNameOf(name, after);
    assert after[2..] == quoted && "=\"" <= after;
    UnescapeInvertsEscape(value);
    ReadQuotedOf(Escape(value), tail);
  }

  /** An opening tag, as printed, reads back as the tag and its attributes other than
    * style, each with its value, whatever characters those hold. */
  lemma OpenTagReadsBack(tag: string, attrs: seq<Attr>, rest: string)
    requires CleanName(tag) && forall a | a in attrs :: CleanName(a.name)
    ensures ReadOpen(RenderOpen(tag, attrs) + rest) == Some((tag, Styleless(attrs), rest))
  {
    hide Styleless, DropStyle, ReadAttrs, RenderAttrs, ReadName;
    DropStyleIsStyleless(attrs);
    AttrsReadBack(attrs, tag, rest);
    var body := RenderAttrs(attrs) + (TagEnd(tag) + rest);
    assert (RenderOpen(tag, attrs) + rest)[1..] == tag + body;
    ReadNameOf(tag, body);
  }
}
