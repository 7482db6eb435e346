/** The string operations of the source language that the program relies on. */
module Text {

  /** The characters with the Unicode White_Space property. */
  predicate IsWhitespace(c: char) {
    var n := c as int;
    || 9 <= n <= 13 || n == 0x20 || n == 0x85 || n == 0xA0 || n == 0x1680
    || 0x2000 <= n <= 0x200A || n == 0x2028 || n == 0x2029 || n == 0x202F
    || n == 0x205F || n == 0x3000
  }

  predicate EndsWith(s: string, suffix: string) {
    |suffix| <= |s| && s[|s| - |suffix|..] == suffix
  }

  predicate OccursAt(s: string, needle: string, i: nat)
    requires i <= |s|
  {
    needle <= s[i..]
  }

  predicate Contains(s: string, needle: string) {
    exists i | 0 <= i <= |s| :: OccursAt(s, needle, i)
  }

  function TrimStart(s: string): string {
    if s != "" && IsWhitespace(s[0]) then TrimStart(s[1..]) else s
  }

  function TrimEnd(s: string): string {
    if s != "" && IsWhitespace(s[|s| - 1]) then TrimEnd(s[..|s| - 1]) else s
  }

  function Trim(s: string): string {
    TrimEnd(TrimStart(s))
  }

  function TrimStartOf(s: string, c: char): string {
    if s != "" && s[0] == c then TrimStartOf(s[1..], c) else s
  }

  function LowerChar(c: char): char {
    if 'A' <= c <= 'Z' then ((c as int) + 32) as char else c
  }

  function ToAsciiLower(s: string): string {
    seq(|s|, i requires 0 <= i < |s| => LowerChar(s[i]))
  }

  /** A string that trimming leaves alone. */
  predicate IsTrimmed(s: string) {
    s != "" ==> !IsWhitespace(s[0]) && !IsWhitespace(s[|s| - 1])
  }

  lemma TrimKeepsTrimmed(s: string)
    requires IsTrimmed(s)
    ensures Trim(s) == s
  {
  }

  lemma TrimEndShape(s: string)
    ensures TrimEnd(s) <= s
    ensures TrimEnd(s) != "" ==> !IsWhitespace(TrimEnd(s)[|TrimEnd(s)| - 1])
  {
  }

  lemma {:induction false} TrimStartShape(s: string)
    ensures EndsWith(s, TrimStart(s))
    ensures TrimStart(s) != "" ==> !IsWhitespace(TrimStart(s)[0])
  {
    if s != "" && IsWhitespace(s[0]) {
      TrimStartShape(s[1..]);
      var t := TrimStart(s[1..]);
      assert s[|s| - |t|..] == s[1..][|s| - 1 - |t|..];
    }
  }

  lemma TrimIsTrimmed(s: string)
    ensures IsTrimmed(Trim(s))
  {
    TrimStartShape(s);
    TrimEndShape(TrimStart(s));
  }

  predicate AllWhitespace(s: string) {
    forall i | 0 <= i < |s| :: IsWhitespace(s[i])
  }

  /** Trimming removes white space at both ends, all of it and nothing else. */
  lemma TrimRemovesOnlyBlanks(s: string) returns (before: string, after: string)
    ensures s == before + Trim(s) + after && AllWhitespace(before) && AllWhitespace(after) && IsTrimmed(Trim(s))
  {
    hide IsWhitespace;
    before := TrimStartRemoves(s);
    after := TrimEndRemoves(TrimStart(s));
    assert s == before + (Trim(s) + after) == before + Trim(s) + after;
    TrimIsTrimmed(s);
  }

  lemma {:induction false} TrimStartRemoves(s: string) returns (before: string)
    ensures s == before + TrimStart(s) && AllWhitespace(before)
  {
    hide IsWhitespace;
    if s != "" && IsWhitespace(s[0]) {
      before := TrimStartRemoves(s[1..]);
      before := [s[0]] + before;
    } else {
      before := "";
    }
  }

  lemma {:induction false} TrimEndRemoves(s: string) returns (after: string)
    ensures s == TrimEnd(s) + after && AllWhitespace(after)
  {
    hide IsWhitespace;
    if s != "" && IsWhitespace(s[|s| - 1]) {
      after := TrimEndRemoves(s[..|s| - 1]);
      after := after + [s[|s| - 1]];
    } else {
      after := "";
    }
  }

  /** Trimming a character from the start removes all of its leading copies and
    * nothing else. */
  lemma {:induction false} TrimStartOfRemoves(s: string, c: char) returns (n: nat)
    ensures n <= |s| && TrimStartOf(s, c) == s[n..] && (forall i | 0 <= i < n :: s[i] == c) && (n < |s| ==> s[n] != c)
  {
    if s != "" && s[0] == c {
      n := TrimStartOfRemoves(s[1..], c);
      n := n + 1;
    } else {
      n := 0;
    }
  }

  /** Lower-casing maps each capital to its small letter and keeps every other character. */
  lemma LowerLetters(i: nat, c: char)
    requires i < 26
    ensures LowerChar("ABCDEFGHIJKLMNOPQRSTUVWXYZ"[i]) == "abcdefghijklmnopqrstuvwxyz"[i]
    ensures c < 'A' || c > 'Z' ==> LowerChar(c) == c
  {
  }

  /** Blanks around a trimmed text are what trimming removes. */
  lemma TrimStrips(before: string, core: string, after: string)
    requires AllWhitespace(before) && AllWhitespace(after) && core != "" && IsTrimmed(core)
    ensures Trim(before + core + after) == core
  {
    hide IsWhitespace;
    TrimStartStrips(before, core + after);
    assert before + core + after == before + (core + after);
    TrimEndStrips(core, after);
  }

  lemma {:induction false} TrimStartStrips(before: string, rest: string)
    requires AllWhitespace(before) && rest != "" && !IsWhitespace(rest[0])
    ensures TrimStart(before + rest) == rest
  {
    hide IsWhitespace;
    if before == "" {
      assert before + rest == rest;
    } else {
      assert (before + rest)[1..] == before[1..] + rest;
      TrimStartStrips(before[1..], rest);
    }
  }

  lemma {:induction false} TrimEndStrips(core: string, after: string)
    requires AllWhitespace(after) && core != "" && !IsWhitespace(core[|core| - 1])
    ensures TrimEnd(core + after) == core
  {
    hide IsWhitespace;
    if after == "" {
      assert core + after == core;
    } else {
      var shorter := after[..|after| - 1];
      assert (core + after)[..|core + after| - 1] == core + shorter;
      TrimEndStrips(core, shorter);
    }
  }

  lemma {:induction false} TrimStartOfStrips(lead: string, c: char, core: string)
    requires (forall i | 0 <= i < |lead| :: lead[i] == c) && core != "" && core[0] != c
    ensures TrimStartOf(lead + core, c) == core
  {
    if lead == "" {
      assert lead + core == core;
    } else {
      assert (lead + core)[1..] == lead[1..] + core;
      TrimStartOfStrips(lead[1..], c, core);
    }
  }

  /** Trimming a text around a character that is not white space trims its two sides. */
  lemma TrimAround(left: string, c: char, right: string)
    requires !IsWhitespace(c)
    ensures Trim(left + [c] + right) == TrimStart(left) + [c] + TrimEnd(right)
  {
    hide IsWhitespace;
    TrimStartAround(left, [c] + right);
    assert left + [c] + right == left + ([c] + right);
    TrimEndAround(TrimStart(left) + [c], right);
    assert TrimStart(left) + ([c] + right) == TrimStart(left) + [c] + right;
  }

  lemma {:induction false} TrimStartAround(left: string, rest: string)
    requires rest != "" && !IsWhitespace(rest[0])
    ensures TrimStart(left + rest) == TrimStart(left) + rest
  {
    hide IsWhitespace;
    if left == "" {
      assert left + rest == rest;
    } else if IsWhitespace(left[0]) {
      assert (left + rest)[1..] == left[1..] + rest;
      TrimStartAround(left[1..], rest);
    }
  }

  lemma {:induction false} TrimEndAround(core: string, right: string)
    requires core != "" && !IsWhitespace(core[|core| - 1])
    ensures TrimEnd(core + right) == core + TrimEnd(right)
  {
    hide IsWhitespace;
    if right == "" {
      assert core + right == core;
    } else if IsWhitespace(right[|right| - 1]) {
      assert (core + right)[..|core + right| - 1] == core + right[..|right| - 1];
      TrimEndAround(core, right[..|right| - 1]);
    }
  }

  /** Trimming one side first changes nothing. */
  lemma TrimOneSideFirst(s: string)
    ensures Trim(TrimStart(s)) == Trim(s) && Trim(TrimEnd(s)) == Trim(s)
  {
    hide IsWhitespace;
    TrimStartShape(s);
    var before, after := TrimRemovesOnlyBlanks(s);
    var core := Trim(s);
    if core != "" {
      assert s == (before + core) + after;
      assert !IsWhitespace((before + core)[|before + core| - 1]);
      TrimEndStrips(before + core, after);
      TrimStrips(before, core, "");
      assert before + core + "" == before + core;
    } else {
      BlankTrims(s);
    }
  }

  lemma BlankTrims(s: string)
    requires Trim(s) == ""
    ensures TrimStart(s) == "" && TrimEnd(s) == ""
  {
    hide IsWhitespace;
    TrimStartShape(s);
    TrimEndShape(TrimStart(s));
    var before, after := TrimRemovesOnlyBlanks(s);
    assert AllWhitespace(s) by { assert s == before + after; }
    AllBlankTrims(s);
  }

  lemma {:induction false} AllBlankTrims(s: string)
    requires AllWhitespace(s)
    ensures TrimStart(s) == "" && TrimEnd(s) == ""
  {
    hide IsWhitespace;
    if s != "" {
      AllBlankTrims(s[1..]);
      AllBlankTrims(s[..|s| - 1]);
    }
  }
}
