/** Cookie text: the `Cookie:` header printer against the two parsers that read
  * such text, the solve form's and the browser read-back's. */
module CookieText {
  import opened Wrappers
  import opened Text
  import CookieJar
  import Hosts

  datatype Cookie = Cookie(name: string, value: string)

  // ----- printing -----

  function Pair(c: Cookie): string {
    c.name + "=" + c.value
  }

  function Print(cookies: seq<Cookie>): string {
    if cookies == [] then ""
    else if |cookies| == 1 then Pair(cookies[0])
    else Pair(cookies[0]) + "; " + Print(cookies[1..])
  }

  function CookiesOf(parts: seq<CookieJar.Part>): seq<Cookie> {
    seq(|parts|, i requires 0 <= i < |parts| => Cookie(parts[i].name, parts[i].value))
  }

  /** The header text of the collected parts: none, or the pairs joined by "; ". */
  function HeaderText(parts: seq<CookieJar.Part>): Option<string> {
    if parts == [] then None else Some(Print(CookiesOf(parts)))
  }

  // ----- parsing -----

  /** The solve form also splits at newlines and skips empty names. */
  datatype Reader = SolveForm | ReadBack

  predicate IsSeparator(c: char, reader: Reader) {
    c == ';' || (reader.SolveForm? && c == '\n')
  }

  function Split(s: string, reader: Reader): (pieces: seq<string>)
    ensures pieces != []
  {
    if s == "" then [""]
    else
      var rest := Split(s[1..], reader);
      if IsSeparator(s[0], reader) then [""] + rest else [[s[0]] + rest[0]] + rest[1..]
  }

  function SplitOnce(s: string): Option<(string, string)> {
    if s == "" then None
    else if s[0] == '=' then Some(("", s[1..]))
    else match SplitOnce(s[1..])
      case None => None
      case Some((n, v)) => Some(([s[0]] + n, v))
  }

  function ParsePiece(raw: string, reader: Reader): seq<Cookie> {
    match SplitOnce(Trim(raw))
    case None => []
    case Some((n, v)) =>
      if reader.SolveForm? && Trim(n) == "" then [] else [Cookie(Trim(n), Trim(v))]
  }

  function ParsePieces(pieces: seq<string>, reader: Reader): seq<Cookie> {
    if pieces == [] then [] else ParsePiece(pieces[0], reader) + ParsePieces(pieces[1..], reader)
  }

  function Parse(text: string, reader: Reader): seq<Cookie> {
    ParsePieces(Split(text, reader), reader)
  }

  datatype Parsed = Cookies(cookies: seq<Cookie>) | JsonArray(text: string) | Invalid(error: string)

  function ParseText(text: string): Parsed {
    var trimmed := Trim(text);
    if trimmed == "" then Invalid("cookies field is empty")
    else if trimmed[0] == '[' then JsonArray(trimmed)
    else if Parse(trimmed, SolveForm) == [] then Invalid("no valid name=value cookie pairs found in input")
    else Cookies(Parse(trimmed, SolveForm))
  }

  /** `parse_cookies_text`; a JSON array is handed on unread. */
  method ParseCookiesText(text: string) returns (parsed: Parsed)
    ensures parsed == ParseText(text)
  {
    var trimmed := Trim(text);
    if trimmed == "" {
      return Invalid("cookies field is empty");
    }
    if trimmed[0] == '[' {
      return JsonArray(trimmed);
    }
    var out: seq<Cookie> := [];
    var pieces := Split(trimmed, SolveForm);
    for i := 0 to |pieces|
      invariant ParsedSoFar(pieces, i, out, SolveForm)
    {
      ParseOneMore(pieces, i, out, SolveForm);
      var entry := ParseEntry(pieces[i]);
      if entry.Some? {
        out := out + [entry.value];
      }
    }
    AllParsed(pieces, out, SolveForm);
    if out == [] {
      return Invalid("no valid name=value cookie pairs found in input");
    }
    return Cookies(out);
  }

  /** One entry of the solve form: blank, malformed and nameless ones are skipped. */
  method ParseEntry(raw: string) returns (cookie: Option<Cookie>)
    ensures ParsePiece(raw, SolveForm) == match cookie case None => [] case Some(c) => [c]
  {
    hide Trim;
    var entry := Trim(raw);
    if entry == "" {
      return None;
    }
    var pair := SplitOnce(entry);
    if pair.None? {
      return None;
    }
    var (n, v) := pair.value;
    var name, value := Trim(n), Trim(v);
    if name == "" {
      return None;
    }
    return Some(Cookie(name, value));
  }

  /** `done` is what the first i pieces hold. */
  ghost predicate ParsedSoFar(pieces: seq<string>, i: nat, done: seq<Cookie>, reader: Reader)
    requires i <= |pieces|
  {
    done + ParsePieces(pieces[i..], reader) == ParsePieces(pieces, reader)
  }

  lemma ParseOneMore(pieces: seq<string>, i: nat, done: seq<Cookie>, reader: Reader)
    requires i < |pieces| && ParsedSoFar(pieces, i, done, reader)
    ensures ParsedSoFar(pieces, i + 1, done + ParsePiece(pieces[i], reader), reader)
    ensures ParsePiece(pieces[i], reader) == [] ==> ParsedSoFar(pieces, i + 1, done, reader)
  {
    hide ParsePiece;
    assert pieces[i..][1..] == pieces[i + 1..];
    assert done + (ParsePiece(pieces[i], reader) + ParsePieces(pieces[i + 1..], reader))
        == (done + ParsePiece(pieces[i], reader)) + ParsePieces(pieces[i + 1..], reader);
    assert done + [] == done;
  }

  lemma AllParsed(pieces: seq<string>, done: seq<Cookie>, reader: Reader)
    requires ParsedSoFar(pieces, |pieces|, done, reader)
    ensures done == ParsePieces(pieces, reader)
  {
    assert pieces[|pieces|..] == [] && done + [] == done;
  }

  /** The CDP read-back loop: each pair of `document.cookie` goes into the jar as
    * a session cookie of the page's host. */
  method ReadBackCookies(jar: CookieJar.Jar, host: string, text: string, now: CookieJar.Clock)
    modifies jar`cookies
    ensures jar.cookies == StoreAll(old(jar.cookies), Hosts.NormalizeHost(host), Parse(text, ReadBack))
  {
    hide Trim, SplitOnce, Hosts.NormalizeHost, CookieJar.Store, ParsedSoFar, Split;
    var pieces := Split(text, ReadBack);
    ghost var key, done := Hosts.NormalizeHost(host), [];
    assert ParsedSoFar(pieces, 0, done, ReadBack) by { NothingParsed(pieces, ReadBack); }
    for i := 0 to |pieces|
      invariant jar.cookies == StoreAll(old(jar.cookies), key, done)
      invariant ParsedSoFar(pieces, i, done, ReadBack)
    {
      ParseOneMore(pieces, i, done, ReadBack);
      var pair := SplitOnce(Trim(pieces[i]));
      if pair.Some? {
        var c := Cookie(Trim(pair.value.0), Trim(pair.value.1));
        assert (done + [c])[..|done|] == done;
        jar.SetCookie(host, c.name, c.value, None, now);
        done := done + [c];
      }
    }
    AllParsed(pieces, done, ReadBack);
  }

  lemma NothingParsed(pieces: seq<string>, reader: Reader)
    ensures ParsedSoFar(pieces, 0, [], reader)
  {
    assert pieces[0..] == pieces;
  }

  function StoreAll(jar: CookieJar.Cookies, host: string, cookies: seq<Cookie>): CookieJar.Cookies {
    if cookies == [] then jar
    else
      var c := cookies[|cookies| - 1];
      CookieJar.Store(StoreAll(jar, host, cookies[..|cookies| - 1]), host, c.name, CookieJar.Entry(c.value, None))
  }

  // ----- what a reader can read back -----

  predicate NoSeparator(s: string, reader: Reader) {
    forall i | 0 <= i < |s| :: !IsSeparator(s[i], reader)
  }

  predicate Readable(c: Cookie, reader: Reader) {
    && IsTrimmed(c.name) && IsTrimmed(c.value)
    && '=' !in c.name && NoSeparator(c.name, reader) && NoSeparator(c.value, reader)
    && (reader.SolveForm? ==> c.name != "")
  }

  predicate AllReadable(cookies: seq<Cookie>, reader: Reader) {
    forall c | c in cookies :: Readable(c, reader)
  }

  // ----- printing, then parsing -----

  lemma {:induction false} SplitAfterPiece(piece: string, rest: string, reader: Reader)
    requires NoSeparator(piece, reader)
    ensures Split(piece + ";" + rest, reader) == [piece] + Split(rest, reader)
    ensures Split(piece, reader) == [piece]
  {
    var s := piece + ";" + rest;
    if piece == "" {
      assert s[1..] == rest;
    } else {
      assert s[0] == piece[0] && s[1..] == piece[1..] + ";" + rest;
      SplitAfterPiece(piece[1..], rest, reader);
      assert piece == [piece[0]] + piece[1..];
      assert ([piece[1..]] + Split(rest, reader))[1..] == Split(rest, reader);
    }
  }

  lemma {:induction false} SplitOnceAtName(name: string, value: string)
    requires '=' !in name
    ensures SplitOnce(name + "=" + value) == Some((name, value))
  {
    var s := name + "=" + value;
    if name == "" {
      assert s[1..] == value;
    } else {
      assert s[0] == name[0] && s[1..] == name[1..] + "=" + value;
      SplitOnceAtName(name[1..], value);
      assert name == [name[0]] + name[1..];
    }
  }

  lemma PairIsTrimmed(c: Cookie, reader: Reader)
    requires Readable(c, reader)
    ensures IsTrimmed(Pair(c)) && Pair(c) != "" && NoSeparator(Pair(c), reader)
  {
  }

  lemma TrimLeadingSpace(s: string)
    requires s != "" && IsTrimmed(s)
    ensures Trim(" " + s) == s
  {
    assert (" " + s)[1..] == s;
    TrimKeepsTrimmed(s);
  }

  /** One printed pair, with or without the space after the separator, is read back. */
  lemma PieceReadsBack(c: Cookie, lead: string, reader: Reader)
    requires Readable(c, reader) && (lead == "" || lead == " ")
    ensures ParsePiece(lead + Pair(c), reader) == [c]
  {
    PairIsTrimmed(c, reader);
    TrimKeepsTrimmed(Pair(c));
    TrimLeadingSpace(Pair(c));
    assert lead == "" ==> lead + Pair(c) == Pair(c);
    SplitOnceAtName(c.name, c.value);
    TrimKeepsTrimmed(c.name);
    TrimKeepsTrimmed(c.value);
  }

  lemma RegroupPrinted(lead: string, pair: string, rest: string)
    ensures lead + (pair + "; " + rest) == (lead + pair) + ";" + (" " + rest)
  {
  }

  lemma ParseSplit(piece: string, rest: string, reader: Reader)
    requires NoSeparator(piece, reader)
    ensures Parse(piece + ";" + rest, reader) == ParsePiece(piece, reader) + Parse(rest, reader)
    ensures Parse(piece, reader) == ParsePiece(piece, reader)
  {
    hide ParsePiece;
    SplitAfterPiece(piece, rest, reader);
    assert ([piece] + Split(rest, reader))[1..] == Split(rest, reader);
    assert [piece][1..] == [];
  }

  /** The first printed pair is read back, whatever follows it. */
  lemma ParseFirst(c: Cookie, rest: string, lead: string, reader: Reader)
    requires Readable(c, reader) && (lead == "" || lead == " ")
    ensures Parse(lead + (Pair(c) + "; " + rest), reader) == [c] + Parse(" " + rest, reader)
    ensures Parse(lead + Pair(c), reader) == [c]
  {
    PairIsTrimmed(c, reader);
    PieceReadsBack(c, lead, reader);
    assert NoSeparator(lead + Pair(c), reader);
    hide Parse, ParsePiece, Readable, Pair, NoSeparator;
    ParseSplit(lead + Pair(c), " " + rest, reader);
    RegroupPrinted(lead, Pair(c), rest);
  }

  lemma {:induction false} ParsePrinted(cookies: seq<Cookie>, lead: string, reader: Reader)
    requires cookies != [] && AllReadable(cookies, reader) && (lead == "" || lead == " ")
    ensures Parse(lead + Print(cookies), reader) == cookies
  {
    hide Parse, Readable, Pair;
    var c, rest := cookies[0], cookies[1..];
    assert c in cookies && forall d | d in rest :: d in cookies;
    ParseFirst(c, Print(rest), lead, reader);
    assert cookies == [c] + rest;
    if rest != [] {
      ParsePrinted(rest, " ", reader);
    }
  }

  // ----- whatever is parsed is readable -----

  lemma {:induction false} PiecesHaveNoSeparator(s: string, reader: Reader)
    ensures forall p | p in Split(s, reader) :: NoSeparator(p, reader)
  {
    if s != "" {
      PiecesHaveNoSeparator(s[1..], reader);
      var rest := Split(s[1..], reader);
      assert rest[0] in rest && forall p | p in rest[1..] :: p in rest;
    }
  }

  lemma {:induction false} SplitOnceParts(s: string)
    ensures SplitOnce(s).Some? ==>
      var (n, v) := SplitOnce(s).value; s == n + "=" + v && '=' !in n
  {
    if s != "" && s[0] != '=' {
      SplitOnceParts(s[1..]);
    }
  }

  lemma TrimKeepsFreeness(s: string, reader: Reader)
    ensures NoSeparator(s, reader) ==> NoSeparator(Trim(s), reader)
    ensures '=' !in s ==> '=' !in Trim(s)
  {
    TrimStartShape(s);
    TrimEndShape(TrimStart(s));
    var t := TrimStart(s);
    assert forall i | 0 <= i < |Trim(s)| :: Trim(s)[i] == t[i] == s[|s| - |t| + i];
  }

  lemma ParsedPieceIsReadable(raw: string, reader: Reader)
    requires NoSeparator(raw, reader)
    ensures AllReadable(ParsePiece(raw, reader), reader)
  {
    hide Trim;
    TrimKeepsFreeness(raw, reader);
    SplitOnceParts(Trim(raw));
    match SplitOnce(Trim(raw)) {
      case None =>
      case Some((n, v)) =>
        var s := n + "=" + v;
        assert forall i | 0 <= i < |n| :: n[i] == s[i];
        assert forall i | 0 <= i < |v| :: v[i] == s[|n| + 1 + i];
        TrimKeepsFreeness(n, reader);
        TrimKeepsFreeness(v, reader);
        TrimIsTrimmed(n);
        TrimIsTrimmed(v);
    }
  }

  lemma {:induction false} ParsedIsReadable(pieces: seq<string>, reader: Reader)
    requires forall p | p in pieces :: NoSeparator(p, reader)
    ensures AllReadable(ParsePieces(pieces, reader), reader)
  {
    if pieces != [] {
      assert pieces[0] in pieces && forall p | p in pieces[1..] :: p in pieces;
      ParsedPieceIsReadable(pieces[0], reader);
      ParsedIsReadable(pieces[1..], reader);
    }
  }

  lemma EveryParseIsReadable(text: string, reader: Reader)
    ensures AllReadable(Parse(text, reader), reader)
  {
    PiecesHaveNoSeparator(text, reader);
    ParsedIsReadable(Split(text, reader), reader);
  }

  // ----- the exact round trips -----

  /** The browser read-back returns the printed pairs, in order, exactly when
    * each pair is readable; nothing else survives the trip. */
  lemma ReadBackRoundTrip(cookies: seq<Cookie>)
    ensures Parse(Print(cookies), ReadBack) == cookies <==> AllReadable(cookies, ReadBack)
  {
    EveryParseIsReadable(Print(cookies), ReadBack);
    if cookies == [] {
      assert Split("", ReadBack) == [""] && [""][1..] == [];
      assert ParsePieces([""], ReadBack) == ParsePiece("", ReadBack) + [];
    } else if AllReadable(cookies, ReadBack) {
      ParsePrinted(cookies, "", ReadBack);
      assert "" + Print(cookies) == Print(cookies);
    }
  }

  /** The cookies a request to `host` carries, each once, longest host first. */
  ghost predicate HeaderParts(jar: CookieJar.Cookies, host: string, now: CookieJar.Clock, parts: seq<CookieJar.Part>) {
    && (forall p :: p in parts <==> CookieJar.Carries(jar, host, now, p))
    && CookieJar.NoRepeats(parts) && CookieJar.HostsShorten(parts)
  }

  ghost predicate CarriesReadable(jar: CookieJar.Cookies, host: string, now: CookieJar.Clock) {
    forall p | CookieJar.Carries(jar, host, now, p) :: Readable(Cookie(p.name, p.value), ReadBack)
  }

  lemma PartsReadable(jar: CookieJar.Cookies, host: string, now: CookieJar.Clock, parts: seq<CookieJar.Part>)
    requires HeaderParts(jar, host, now, parts)
    ensures AllReadable(CookiesOf(parts), ReadBack) <==> CarriesReadable(jar, host, now)
  {
    hide CookieJar.Carries, Readable;
    var cookies := CookiesOf(parts);
    forall p | p in parts ensures Cookie(p.name, p.value) in cookies {
      var i :| 0 <= i < |parts| && parts[i] == p;
      assert cookies[i] == Cookie(p.name, p.value);
    }
    forall c | c in cookies ensures exists p | p in parts :: c == Cookie(p.name, p.value) {
      var i :| 0 <= i < |cookies| && cookies[i] == c;
      assert parts[i] in parts;
    }
  }

  /** What `cookie_header_for` returns: no header if no cookie is carried, else the
    * carried pairs, joined; and the browser loop reads the header back as those
    * pairs, in order, exactly when each carried cookie is readable. */
  ghost predicate IsHeader(jar: CookieJar.Cookies, host: string, now: CookieJar.Clock, header: Option<string>) {
    exists parts | HeaderParts(jar, host, now, parts) ::
      && header == HeaderText(parts)
      && (header.Some? ==> (Parse(header.value, ReadBack) == CookiesOf(parts) <==> CarriesReadable(jar, host, now)))
  }

  method CookieHeaderFor(jar: CookieJar.Jar, host: string, now: CookieJar.Clock) returns (header: Option<string>)
    ensures IsHeader(jar.cookies, host, now, header)
    ensures header.None? <==> forall p :: !CookieJar.Carries(jar.cookies, host, now, p)
  {
    hide CookieJar.Carries, AllReadable, CarriesReadable, Parse, Print;
    var parts := jar.CookieHeaderFor(host, now);
    assert parts != [] ==> parts[0] in parts;
    PartsReadable(jar.cookies, host, now, parts);
    ReadBackRoundTrip(CookiesOf(parts));
    header := HeaderText(parts);
  }

  predicate OpensBracket(cookies: seq<Cookie>) {
    cookies != [] && "[" <= cookies[0].name
  }

  lemma {:induction false} PrintedIsTrimmed(cookies: seq<Cookie>)
    requires cookies != [] && AllReadable(cookies, SolveForm)
    ensures IsTrimmed(Print(cookies)) && Print(cookies) != ""
    ensures Print(cookies)[0] == '[' <==> OpensBracket(cookies)
  {
    assert cookies[0] in cookies;
    PairIsTrimmed(cookies[0], SolveForm);
    if |cookies| > 1 {
      assert forall d | d in cookies[1..] :: d in cookies;
      PrintedIsTrimmed(cookies[1..]);
    }
  }

  /** The solve form returns the printed pairs, in order, exactly when there is
    * one, each is readable, and the text does not look like a JSON array. */
  lemma SolveFormRoundTrip(cookies: seq<Cookie>)
    ensures ParseText(Print(cookies)) == Cookies(cookies) <==>
      cookies != [] && AllReadable(cookies, SolveForm) && !OpensBracket(cookies)
  {
    var text := Print(cookies);
    EveryParseIsReadable(Trim(text), SolveForm);
    if cookies != [] && AllReadable(cookies, SolveForm) {
      PrintedIsTrimmed(cookies);
      TrimKeepsTrimmed(text);
      ParsePrinted(cookies, "", SolveForm);
      assert "" + text == text;
    }
  }

  /** Reading any text, printing what was read and reading again changes nothing
    * further, unless the first name opens with a bracket. */
  lemma ParsingIsStable(text: string)
    requires ParseText(text).Cookies?
    ensures var cookies := ParseText(text).cookies;
      cookies != [] && AllReadable(cookies, SolveForm)
      && (ParseText(Print(cookies)) == Cookies(cookies) <==> !OpensBracket(cookies))
  {
    EveryParseIsReadable(Trim(text), SolveForm);
    SolveFormRoundTrip(ParseText(text).cookies);
  }

  // ----- what the parser does with any text -----

  /** What one character does to the pieces of the rest. */
  function Prepend(c: char, pieces: seq<string>, reader: Reader): seq<string>
    requires pieces != []
  {
    if IsSeparator(c, reader) then [""] + pieces else [[c] + pieces[0]] + pieces[1..]
  }

  lemma SplitUnfolds(c: char, s: string, reader: Reader)
    ensures Split([c] + s, reader) == Prepend(c, Split(s, reader), reader)
    ensures Split("", reader) == [""]
  {
    assert ([c] + s)[1..] == s;
  }

  lemma PrependAppends(c: char, a: seq<string>, b: seq<string>, reader: Reader)
    requires a != []
    ensures Prepend(c, a + b, reader) == Prepend(c, a, reader) + b
  {
    assert (a + b)[0] == a[0] && (a + b)[1..] == a[1..] + b;
  }

  lemma {:induction false} SplitAt(a: string, c: char, b: string, reader: Reader)
    requires IsSeparator(c, reader)
    ensures Split(a + [c] + b, reader) == Split(a, reader) + Split(b, reader)
  {
    hide Split;
    if a == "" {
      assert a + [c] + b == [c] + b;
      SplitUnfolds(c, b, reader);
    } else {
      var rest := a[1..];
      assert a + [c] + b == [a[0]] + (rest + [c] + b) && a == [a[0]] + rest;
      SplitUnfolds(a[0], rest + [c] + b, reader);
      SplitUnfolds(a[0], rest, reader);
      SplitAt(rest, c, b, reader);
      PrependAppends(a[0], Split(rest, reader), Split(b, reader), reader);
    }
  }

  lemma {:induction false} ParsePiecesAppends(a: seq<string>, b: seq<string>, reader: Reader)
    ensures ParsePieces(a + b, reader) == ParsePieces(a, reader) + ParsePieces(b, reader)
  {
    hide ParsePiece;
    if a == [] {
      assert a + b == b;
    } else {
      assert (a + b)[1..] == a[1..] + b;
      ParsePiecesAppends(a[1..], b, reader);
    }
  }

  /** Both readers take a text apart at every semicolon, the solve form at every
    * newline as well; the parts are read one by one. */
  lemma ParseTakesApart(a: string, c: char, b: string, reader: Reader)
    requires c == ';' || (reader == SolveForm && c == '\n')
    ensures Parse(a + [c] + b, reader) == Parse(a, reader) + Parse(b, reader)
  {
    SplitAt(a, c, b, reader);
    ParsePiecesAppends(Split(a, reader), Split(b, reader), reader);
  }

  predicate OnePart(s: string, reader: Reader) {
    forall i | 0 <= i < |s| :: s[i] != ';' && (reader == SolveForm ==> s[i] != '\n')
  }

  /** A part without such a character: without an equals sign it is skipped; otherwise
    * the first one parts the name from the value, both trimmed, and only the solve form
    * skips an empty name. */
  lemma ParseReadsPair(name: string, value: string, reader: Reader)
    requires '=' !in name && OnePart(name, reader) && OnePart(value, reader)
    ensures Parse(name, reader) == []
    ensures Parse(name + "=" + value, reader) ==
      if reader == SolveForm && Trim(name) == "" then [] else [Cookie(Trim(name), Trim(value))]
  {
    hide Parse, ParsePiece, Trim;
    ParseSplit(name, "", reader);
    PartWithoutEquals(name, reader);
    assert NoSeparator(name + "=" + value, reader);
    ParseSplit(name + "=" + value, "", reader);
    PartWithEquals(name, value, reader);
  }

  lemma PartWithoutEquals(part: string, reader: Reader)
    requires '=' !in part
    ensures ParsePiece(part, reader) == []
  {
    TrimKeepsFreeness(part, reader);
    hide Trim;
    NoEqualsNoSplit(Trim(part));
  }

  lemma PartWithEquals(name: string, value: string, reader: Reader)
    requires '=' !in name
    ensures ParsePiece(name + "=" + value, reader) ==
      if reader == SolveForm && Trim(name) == "" then [] else [Cookie(Trim(name), Trim(value))]
  {
    EqualsIsVisible();
    hide IsWhitespace, Trim, TrimStart, TrimEnd, SplitOnce;
    TrimAround(name, '=', value);
    TrimStartShape(name);
    assert '=' !in TrimStart(name);
    SplitOnceAtName(TrimStart(name), TrimEnd(value));
    TrimOneSideFirst(name);
    TrimOneSideFirst(value);
  }

  lemma EqualsIsVisible()
    ensures !IsWhitespace('=')
  {
  }

  lemma {:induction false} NoEqualsNoSplit(s: string)
    requires '=' !in s
    ensures SplitOnce(s) == None
  {
    if s != "" {
      NoEqualsNoSplit(s[1..]);
    }
  }

  // ----- the printed header, and the stored read-back -----

  /** Printed cookies are joined by a semicolon and a space. */
  lemma {:induction false} PrintJoins(a: seq<Cookie>, b: seq<Cookie>)
    requires a != [] && b != []
    ensures Print(a + b) == Print(a) + "; " + Print(b)
    ensures |a| == 1 ==> Print(a) == a[0].name + "=" + a[0].value
  {
    hide Pair;
    assert |a| == 1 ==> Print(a) == a[0].name + "=" + a[0].value by { OnePrinted(a[0]); }
    if |a| == 1 {
      assert (a + b)[1..] == b;
    } else {
      assert (a + b)[1..] == a[1..] + b;
      PrintJoins(a[1..], b);
      assert Pair(a[0]) + "; " + (Print(a[1..]) + "; " + Print(b)) == Pair(a[0]) + "; " + Print(a[1..]) + "; " + Print(b);
    }
  }

  lemma OnePrinted(c: Cookie)
    ensures Print([c]) == c.name + "=" + c.value
  {
  }

  /** Every cookie read back is stored for good under the page's host, unless a later
    * one of its name replaced it, and nothing else changes. */
  lemma {:induction false} ReadBackIsStored(jar: CookieJar.Cookies, host: string, cookies: seq<Cookie>, i: nat)
    requires i < |cookies| && forall k | i < k < |cookies| :: cookies[k].name != cookies[i].name
    ensures CookieJar.Lookup(StoreAll(jar, host, cookies), host, cookies[i].name) == Some(CookieJar.Entry(cookies[i].value, None))
  {
    hide CookieJar.Store, CookieJar.Lookup;
    var last := |cookies| - 1;
    CookieJar.LookupAfterStore(StoreAll(jar, host, cookies[..last]), host, cookies[last].name, CookieJar.Entry(cookies[last].value, None));
    if i < last {
      ReadBackIsStored(jar, host, cookies[..last], i);
    }
  }

  lemma {:induction false} ReadBackLeavesTheRest(jar: CookieJar.Cookies, host: string, cookies: seq<Cookie>, h: string, n: string)
    requires h != host || forall c | c in cookies :: c.name != n
    ensures CookieJar.Lookup(StoreAll(jar, host, cookies), h, n) == CookieJar.Lookup(jar, h, n)
  {
    hide CookieJar.Store, CookieJar.Lookup;
    if cookies != [] {
      var last := |cookies| - 1;
      assert cookies[last] in cookies && forall c | c in cookies[..last] :: c in cookies;
      ReadBackLeavesTheRest(jar, host, cookies[..last], h, n);
      CookieJar.LookupAfterStore(StoreAll(jar, host, cookies[..last]), host, cookies[last].name, CookieJar.Entry(cookies[last].value, None));
    }
  }
}
