/** The crawl path filter: a glob pattern is compiled to the text of a regular
  * expression, which is then matched against the whole URL path.  The compiler
  * is the loop of the program; the regular-expression engine is modelled by
  * reading the emitted text back into a list of items and giving those items
  * their usual meaning ('.' is any character except a newline). */
module Glob {
  import opened Wrappers

  // ----- the compiler -----

  predicate IsMeta(c: char) {
    c in "()[]{}+|^$\\"
  }

  function CompileChar(c: char): string {
    if c == '*' then ".*"
    else if c == '?' || c == '.' then "."
    else if IsMeta(c) then ['\\', c]
    else [c]
  }

  function CompileBody(pattern: string): string {
    if pattern == "" then "" else CompileChar(pattern[0]) + CompileBody(pattern[1..])
  }

  lemma CompileStep(pattern: string, i: nat, done: string)
    requires i < |pattern|
    ensures (done + CompileChar(pattern[i])) + CompileBody(pattern[i + 1..]) == done + CompileBody(pattern[i..])
  {
    assert pattern[i..][1..] == pattern[i + 1..];
  }

  /** The text handed to the regular-expression engine. */
  method Compile(pattern: string) returns (re: string)
    ensures re == "^" + CompileBody(pattern) + "$"
  {
    re := "^";
    for i := 0 to |pattern|
      invariant re + CompileBody(pattern[i..]) == "^" + CompileBody(pattern)
    {
      hide CompileBody;
      var ch := pattern[i];
      CompileStep(pattern, i, re);
      if ch == '*' {
        re := re + ".*";
      } else if ch == '?' {
        re := re + ".";
      } else if ch == '.' {
        re := re + ".";
      } else if ch in "()[]{}+|^$\\" {
        re := re + "\\";
        re := re + [ch];
      } else {
        re := re + [ch];
      }
    }
    assert pattern[|pattern|..] == "";
    re := re + "$";
  }

  // ----- the regular expressions that the compiler can emit -----

  datatype Item = Literal(c: char) | AnyChar | AnyRun

  /** The characters that mean something to the engine. */
  predicate IsOperator(c: char) {
    c in ".+*?()|[]{}^$\\"
  }

  /** Reads the body of an anchored expression.  An escape makes an operator
    * literal, a dot is a wildcard, a star repeats the dot before it; any other
    * escape or bare operator is outside this fragment. */
  function ReadBody(re: string): Option<seq<Item>> {
    if re == "" then Some([])
    else if re[0] == '\\' then
      if |re| == 1 || !IsOperator(re[1]) then None else Then(Literal(re[1]), ReadBody(re[2..]))
    else if re[0] == '.' then
      if |re| > 1 && re[1] == '*' then Then(AnyRun, ReadBody(re[2..]))
      else Then(AnyChar, ReadBody(re[1..]))
    else if IsOperator(re[0]) then None
    else Then(Literal(re[0]), ReadBody(re[1..]))
  }

  function Then(item: Item, rest: Option<seq<Item>>): Option<seq<Item>> {
    match rest
    case None => None
    case Some(items) => Some([item] + items)
  }

  function Read(re: string): Option<seq<Item>> {
    if |re| >= 2 && re[0] == '^' && re[|re| - 1] == '$' then ReadBody(re[1..|re| - 1]) else None
  }

  predicate NoNewline(text: string) {
    forall i | 0 <= i < |text| :: text[i] != '\n'
  }

  /** The texts an item list matches from end to end. */
  predicate Accepts(items: seq<Item>, text: string)
    decreases |items|
  {
    if items == [] then text == ""
    else match items[0]
      case Literal(c) => text != "" && text[0] == c && Accepts(items[1..], text[1..])
      case AnyChar => text != "" && text[0] != '\n' && Accepts(items[1..], text[1..])
      case AnyRun => exists k | 0 <= k <= |text| :: NoNewline(text[..k]) && Accepts(items[1..], text[k..])
  }

  /** `glob_match`: compile, hand to the engine, match the whole text; an
    * expression that the engine rejects matches nothing. */
  predicate Matches(pattern: string, text: string) {
    match Read("^" + CompileBody(pattern) + "$")
    case None => false
    case Some(items) => Accepts(items, text)
  }

  method GlobMatch(pattern: string, text: string) returns (matched: bool)
    ensures matched == Matches(pattern, text)
  {
    var re := Compile(pattern);
    match Read(re) {
      case None => matched := false;
      case Some(items) => matched := Accepts(items, text);
    }
  }

  // ----- the meaning a reader of the pattern expects -----

  /** A backtracking glob matcher that never mentions regular expressions:
    * '*' takes nothing or one more character, '?' and '.' take one
    * character, everything else stands for itself.  `anyChar` says whether
    * the wildcards take newlines too. */
  predicate Glob(pattern: string, text: string, anyChar: bool)
    decreases |pattern| + |text|
  {
    if pattern == "" then text == ""
    else if pattern[0] == '*' then
      || Glob(pattern[1..], text, anyChar)
      || (text != "" && (anyChar || text[0] != '\n') && Glob(pattern, text[1..], anyChar))
    else if pattern[0] == '?' || pattern[0] == '.' then
      text != "" && (anyChar || text[0] != '\n') && Glob(pattern[1..], text[1..], anyChar)
    else
      text != "" && text[0] == pattern[0] && Glob(pattern[1..], text[1..], anyChar)
  }

  function ItemOf(c: char): Item {
    if c == '*' then AnyRun else if c == '?' || c == '.' then AnyChar else Literal(c)
  }

  function ItemsOf(pattern: string): seq<Item> {
    if pattern == "" then [] else [ItemOf(pattern[0])] + ItemsOf(pattern[1..])
  }

  /** The first character the compiler emits is never a star, so a dot it
    * emitted for one pattern character is never captured by the next. */
  lemma BodyStart(pattern: string)
    ensures CompileBody(pattern) == "" || CompileBody(pattern)[0] != '*'
  {
  }

  /** Reading the emitted text back loses nothing: no pattern makes the engine
    * reject the expression, and each pattern character yields its own item. */
  lemma {:induction false} ReadBodyInvertsCompile(pattern: string)
    ensures ReadBody(CompileBody(pattern)) == Some(ItemsOf(pattern))
  {
    if pattern != "" {
      var c, rest := pattern[0], CompileBody(pattern[1..]);
      ReadBodyInvertsCompile(pattern[1..]);
      BodyStart(pattern[1..]);
      var re := CompileChar(c) + rest;
      if |CompileChar(c)| == 2 {
        assert re[2..] == rest;
      } else {
        assert re[1..] == rest;
      }
    }
  }

  lemma CompiledPatternIsReadable(pattern: string)
    ensures Read("^" + CompileBody(pattern) + "$") == Some(ItemsOf(pattern))
  {
    var re := "^" + CompileBody(pattern) + "$";
    assert re[1..|re| - 1] == CompileBody(pattern);
    ReadBodyInvertsCompile(pattern);
  }

  /** A run item that takes k characters. */
  predicate RunTakes(items: seq<Item>, text: string, k: nat)
    requires items != []
  {
    k <= |text| && NoNewline(text[..k]) && Accepts(items[1..], text[k..])
  }

  lemma RunTakesOneMore(items: seq<Item>, text: string, k: nat)
    requires items != [] && text != ""
    ensures RunTakes(items, text, k + 1) <==> text[0] != '\n' && RunTakes(items, text[1..], k)
  {
    hide Accepts;
    if k < |text| {
      assert text[..k + 1] == [text[0]] + text[1..][..k];
      assert text[1..][k..] == text[k + 1..];
    }
  }

  /** A run item matches by giving up now or by eating one character. */
  lemma RunUnfolds(items: seq<Item>, text: string)
    requires items != [] && items[0] == AnyRun
    ensures Accepts(items, text)
       <==> Accepts(items[1..], text) || (text != "" && text[0] != '\n' && Accepts(items, text[1..]))
  {
    AcceptsRun(items, text);
    hide Accepts;
    assert text[..0] == "" && text[0..] == text;
    assert RunTakes(items, text, 0) <==> Accepts(items[1..], text);
    if text != "" {
      AcceptsRun(items, text[1..]);
      hide RunTakes;
      if k: nat :| RunTakes(items, text, k) && k > 0 {
        RunTakesOneMore(items, text, k - 1);
      }
      if k: nat :| RunTakes(items, text[1..], k) {
        RunTakesOneMore(items, text, k);
      }
    }
  }

  lemma AcceptsRun(items: seq<Item>, text: string)
    requires items != [] && items[0] == AnyRun
    ensures Accepts(items, text) <==> exists k: nat :: RunTakes(items, text, k)
  {
    if Accepts(items, text) {
      var k :| 0 <= k <= |text| && NoNewline(text[..k]) && Accepts(items[1..], text[k..]);
      assert RunTakes(items, text, k);
    }
    if k: nat :| RunTakes(items, text, k) {
      assert NoNewline(text[..k]);
    }
  }

  lemma {:induction false} ItemsMeanGlob(pattern: string, text: string)
    ensures Accepts(ItemsOf(pattern), text) == Glob(pattern, text, false)
    decreases |pattern| + |text|
  {
    if pattern != "" {
      var items := ItemsOf(pattern);
      assert items[1..] == ItemsOf(pattern[1..]);
      if pattern[0] == '*' {
        RunUnfolds(items, text);
        ItemsMeanGlob(pattern[1..], text);
      }
      if text != "" {
        ItemsMeanGlob(if pattern[0] == '*' then pattern else pattern[1..], text[1..]);
      }
    }
  }

  lemma {:induction false} NewlineFreeTextsDoNotTellApart(pattern: string, text: string)
    requires NoNewline(text)
    ensures Glob(pattern, text, false) == Glob(pattern, text, true)
    decreases |pattern| + |text|
  {
    if pattern != "" {
      if pattern[0] == '*' {
        NewlineFreeTextsDoNotTellApart(pattern[1..], text);
      }
      if text != "" {
        NewlineFreeTextsDoNotTellApart(if pattern[0] == '*' then pattern else pattern[1..], text[1..]);
      }
    }
  }

  /** Compilation preserves meaning for every pattern and every text: the
    * wildcards of the compiled filter are the wildcards of the pattern, except
    * that they refuse a newline; without one in the text nothing is lost. */
  lemma CompilationPreservesMeaning(pattern: string, text: string)
    ensures Matches(pattern, text) == Glob(pattern, text, false)
    ensures NoNewline(text) ==> Matches(pattern, text) == Glob(pattern, text, true)
  {
    CompiledPatternIsReadable(pattern);
    ItemsMeanGlob(pattern, text);
    if NoNewline(text) {
      NewlineFreeTextsDoNotTellApart(pattern, text);
    }
  }

  /** The newline proviso is needed. */
  lemma WildcardsRefuseNewline()
    ensures Glob("*", "\n", true) && !Matches("*", "\n")
  {
    CompilationPreservesMeaning("*", "\n");
    assert Glob("*", "\n"[1..], true);
  }
}
