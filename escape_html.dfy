// escapeHTML of utilsPrivate/utilsPrivate.js: five global replacements
// applied one after the other, '&' first.

module EscapeHtml {

  /** s.replace(/c/g, rep) for a single-character pattern. */
  function ReplaceAll(s: string, c: char, rep: string): string {
    if s == [] then [] else (if s[0] == c then rep else [s[0]]) + ReplaceAll(s[1..], c, rep)
  }

  /** The replacements escapeHTML chains, in the order it applies them. */
  const Replacements: seq<(char, string)> :=
    [('&', "&amp;"), ('<', "&lt;"), ('>', "&gt;"), ('"', "&quot;"), ('\'', "&#039;")]

  /** s.replace(p0, r0).replace(p1, r1)...: the replacements applied one
      after the other to the whole string. */
  function Chain(s: string, rs: seq<(char, string)>): string
    decreases |rs|
  {
    if rs == [] then s else Chain(ReplaceAll(s, rs[0].0, rs[0].1), rs[1..])
  }

  /** escapeHTML(html). */
  function EscapeHTML(html: string): string {
    Chain(html, Replacements)
  }

  /** The entity each character is written as. */
  function EscapeChar(c: char): string {
    match c
    case '&' => "&amp;"
    case '<' => "&lt;"
    case '>' => "&gt;"
    case '"' => "&quot;"
    case '\'' => "&#039;"
    case _ => [c]
  }

  /** Escaping character by character. */
  function EscapeEach(s: string): string {
    if s == [] then [] else EscapeChar(s[0]) + EscapeEach(s[1..])
  }

  lemma {:induction false} ReplaceAllConcat(a: string, b: string, c: char, rep: string)
    ensures ReplaceAll(a + b, c, rep) == ReplaceAll(a, c, rep) + ReplaceAll(b, c, rep)
  {
    if a != [] {
      ReplaceAllConcat(a[1..], b, c, rep);
      assert (a + b)[1..] == a[1..] + b;
    } else {
      assert a + b == b;
    }
  }

  lemma {:induction false} ChainConcat(a: string, b: string, rs: seq<(char, string)>)
    ensures Chain(a + b, rs) == Chain(a, rs) + Chain(b, rs)
    decreases |rs|
  {
    if rs != [] {
      ReplaceAllConcat(a, b, rs[0].0, rs[0].1);
      ChainConcat(ReplaceAll(a, rs[0].0, rs[0].1), ReplaceAll(b, rs[0].0, rs[0].1), rs[1..]);
    }
  }

  /** Replacements none of whose patterns occur change nothing. */
  lemma {:induction false} ChainKeep(s: string, rs: seq<(char, string)>)
    requires forall i :: 0 <= i < |rs| ==> rs[i].0 !in s
    ensures Chain(s, rs) == s
  {
    if rs != [] {
      Keep(s, rs[0].0, rs[0].1);
      ChainKeep(s, rs[1..]);
    }
  }

  /** The replacement the first matching pattern gives a character. */
  function FirstRep(c: char, rs: seq<(char, string)>): string {
    if rs == [] then [c] else if c == rs[0].0 then rs[0].1 else FirstRep(c, rs[1..])
  }

  /** When no replacement writes a pattern that a later one looks for, a
      character is replaced at most once. */
  lemma {:induction false} ChainOfChar(c: char, rs: seq<(char, string)>)
    requires forall i, j :: 0 <= i < j < |rs| ==> rs[j].0 !in rs[i].1
    ensures Chain([c], rs) == FirstRep(c, rs)
  {
    if rs != [] {
      ReplaceOne(c, rs[0].0, rs[0].1);
      if c == rs[0].0 {
        forall j | 0 <= j < |rs[1..]| ensures rs[1..][j].0 !in rs[0].1 {
          assert rs[1..][j] == rs[j + 1];
        }
        ChainKeep(rs[0].1, rs[1..]);
      } else {
        forall i, j | 0 <= i < j < |rs[1..]| ensures rs[1..][j].0 !in rs[1..][i].1 {
          assert rs[1..][j] == rs[j + 1] && rs[1..][i] == rs[i + 1];
        }
        ChainOfChar(c, rs[1..]);
      }
    }
  }

  /** '&' comes first, so no later replacement finds its pattern in an
      entity an earlier one wrote. */
  lemma ReplacementsDoNotInterfere()
    ensures forall i, j :: 0 <= i < j < |Replacements| ==> Replacements[j].0 !in Replacements[i].1
  {
  }

  lemma EscapeCharIsFirstRep(c: char)
    ensures FirstRep(c, Replacements) == EscapeChar(c)
  {
    if c != '&' && c != '<' && c != '>' && c != '"' && c != '\'' {
      var r5: seq<(char, string)> := [];
      var r4 := [('\'', "&#039;")] + r5;
      var r3 := [('"', "&quot;")] + r4;
      var r2 := [('>', "&gt;")] + r3;
      var r1 := [('<', "&lt;")] + r2;
      assert Replacements == [('&', "&amp;")] + r1;
      assert FirstRep(c, r4) == FirstRep(c, r5) == [c];
      assert FirstRep(c, r2) == FirstRep(c, r3) == FirstRep(c, r4);
      assert FirstRep(c, Replacements) == FirstRep(c, r1) == FirstRep(c, r2);
    }
  }

  /** On one character the chain produces that character's entity. */
  lemma EscapeHTMLChar(c: char)
    ensures EscapeHTML([c]) == EscapeChar(c)
  {
    ReplacementsDoNotInterfere();
    ChainOfChar(c, Replacements);
    EscapeCharIsFirstRep(c);
  }

  lemma ReplaceOne(x: char, c: char, rep: string)
    ensures ReplaceAll([x], c, rep) == if x == c then rep else [x]
  {
    assert [x][1..] == [];
  }

  /** A replacement whose pattern does not occur changes nothing. */
  lemma {:induction false} Keep(s: string, c: char, rep: string)
    requires c !in s
    ensures ReplaceAll(s, c, rep) == s
  {
    if s != [] {
      assert s[0] != c;
      assert forall x :: x in s[1..] ==> x in s;
      Keep(s[1..], c, rep);
    }
  }

  /** Because '&' is replaced first, the chain escapes each character on its
      own: the five special characters become their entities and every
      other character is copied. */
  lemma {:induction false} EscapeHTMLIsPerChar(s: string)
    ensures EscapeHTML(s) == EscapeEach(s)
  {
    if s != [] {
      assert s == [s[0]] + s[1..];
      ChainConcat([s[0]], s[1..], Replacements);
      EscapeHTMLChar(s[0]);
      EscapeHTMLIsPerChar(s[1..]);
      calc {
        EscapeHTML(s);
        EscapeHTML([s[0]]) + EscapeHTML(s[1..]);
        EscapeChar(s[0]) + EscapeEach(s[1..]);
      }
    }
  }

  /** The character an escaped text starts with, and how many characters
      of the text spell it: one of the five entities, or a single character. */
  function EntityAt(s: string): (r: (char, nat))
    requires s != []
    ensures 1 <= r.1 <= |s|
  {
    if |s| >= 5 && s[..5] == "&amp;" then ('&', 5)
    else if |s| >= 4 && s[..4] == "&lt;" then ('<', 4)
    else if |s| >= 4 && s[..4] == "&gt;" then ('>', 4)
    else if |s| >= 6 && s[..6] == "&quot;" then ('"', 6)
    else if |s| >= 6 && s[..6] == "&#039;" then ('\'', 6)
    else (s[0], 1)
  }

  /** Reading entities back: the inverse of escaping. */
  function Unescape(s: string): string
    decreases |s|
  {
    if s == [] then [] else [EntityAt(s).0] + Unescape(s[EntityAt(s).1..])
  }

  lemma UnescapeChar(c: char, rest: string)
    ensures Unescape(EscapeChar(c) + rest) == [c] + Unescape(rest)
  {
    var e := EscapeChar(c);
    EntityOf(c, rest);
    assert (e + rest)[|e|..] == rest;
  }

  lemma EntityOf(c: char, rest: string)
    ensures EntityAt(EscapeChar(c) + rest) == (c, |EscapeChar(c)|)
  {
    if c == '&' {
      EntityAmp(rest);
    } else if c == '<' {
      EntityLt(rest);
    } else if c == '>' {
      EntityGt(rest);
    } else if c == '"' {
      EntityQuot(rest);
    } else if c == '\'' {
      EntityApos(rest);
    } else {
      assert ([c] + rest)[0] == c;
    }
  }

  lemma EntityAmp(rest: string)
    ensures EntityAt("&amp;" + rest) == ('&', 5)
  {
    assert ("&amp;" + rest)[..5] == "&amp;";
  }

  lemma EntityLt(rest: string)
    ensures EntityAt("&lt;" + rest) == ('<', 4)
  {
    var s := "&lt;" + rest;
    assert s[..4] == "&lt;" && s[1] == 'l';
  }

  lemma EntityGt(rest: string)
    ensures EntityAt("&gt;" + rest) == ('>', 4)
  {
    var s := "&gt;" + rest;
    assert s[..4] == "&gt;" && s[1] == 'g';
  }

  lemma EntityQuot(rest: string)
    ensures EntityAt("&quot;" + rest) == ('"', 6)
  {
    var s := "&quot;" + rest;
    assert s[..6] == "&quot;" && s[1] == 'q';
  }

  lemma EntityApos(rest: string)
    ensures EntityAt("&#039;" + rest) == ('\'', 6)
  {
    var s := "&#039;" + rest;
    assert s[..6] == "&#039;" && s[1] == '#';
  }

  /** Escaping loses nothing: the escaped text reads back as the original. */
  lemma {:induction false} EscapeRoundTrip(s: string)
    ensures Unescape(EscapeHTML(s)) == s
  {
    EscapeHTMLIsPerChar(s);
    EscapeEachRoundTrip(s);
  }

  lemma {:induction false} EscapeEachRoundTrip(s: string)
    ensures Unescape(EscapeEach(s)) == s
  {
    if s != [] {
      UnescapeChar(s[0], EscapeEach(s[1..]));
      EscapeEachRoundTrip(s[1..]);
    }
  }

  /** The escaped text holds no markup character: '<', '>', '"' and '\''
      occur only inside entities, which use none of them. */
  lemma {:induction false} EscapedHasNoMarkup(s: string)
    ensures forall i :: 0 <= i < |EscapeHTML(s)| ==> EscapeHTML(s)[i] !in "<>\"'"
  {
    EscapeHTMLIsPerChar(s);
    EscapeEachNoMarkup(s);
  }

  lemma {:induction false} EscapeEachNoMarkup(s: string)
    ensures forall i :: 0 <= i < |EscapeEach(s)| ==> EscapeEach(s)[i] !in "<>\"'"
  {
    if s != [] {
      EscapeEachNoMarkup(s[1..]);
      var e := EscapeChar(s[0]);
      assert forall i :: 0 <= i < |e| ==> e[i] !in "<>\"'";
      assert EscapeEach(s) == e + EscapeEach(s[1..]);
    }
  }
}
