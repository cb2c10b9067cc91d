/** `escapeHtml` of scripts/build.mjs: five global replacements, `&` first,
    then `<`, `>`, `"` and `'`. */
module Escaping {
  import opened Text

  /** The five replacements in the order the source chains them. */
  function EscapeHtml(s: string): (r: string) {
    ReplaceChar(ReplaceChar(ReplaceChar(ReplaceChar(ReplaceChar(
      s, '&', "&amp;"), '<', "&lt;"), '>', "&gt;"), '"', "&quot;"), '\'', "&#039;")
  }

  /** The entity for one character, or the character itself. */
  function EscapeChar(c: char): (r: string)
    ensures |r| >= 1
  {
    match c
    case '&' => "&amp;"
    case '<' => "&lt;"
    case '>' => "&gt;"
    case '"' => "&quot;"
    case '\'' => "&#039;"
    case _ => [c]
  }

  /** Escaping character by character: the reference the chain of
      replacements is proved against. */
  function EscapeEach(s: string): (r: string)
    ensures forall k :: 0 <= k < |r| ==> r[k] !in {'<', '>', '"', '\''}
  {
    if s == [] then "" else EscapeChar(s[0]) + EscapeEach(s[1..])
  }

  /** Characters `escapeHtml` rewrites. */
  predicate IsSpecial(c: char) {
    c == '&' || c == '<' || c == '>' || c == '"' || c == '\''
  }

  /** Replacing a character that does not occur changes nothing. */
  lemma {:induction false} ReplaceCharAbsent(s: string, c: char, rep: string)
    requires c !in s
    ensures ReplaceChar(s, c, rep) == s
  {
    if s != [] {
      assert s == [s[0]] + s[1..];
      ReplaceCharAbsent(s[1..], c, rep);
    }
  }

  lemma ReplaceCharSingle(c: char, d: char, rep: string)
    ensures ReplaceChar([c], d, rep) == if c == d then rep else [c]
  {
    assert [c][1..] == [];
  }

  /** The last four replacements leave alone a text holding none of `<`,
      `>`, `"` and `'`; the shorter tails likewise. */
  lemma AbsentFrom2(e: string)
    requires '<' !in e && '>' !in e && '"' !in e && '\'' !in e
    ensures ReplaceChar(ReplaceChar(ReplaceChar(ReplaceChar(
      e, '<', "&lt;"), '>', "&gt;"), '"', "&quot;"), '\'', "&#039;") == e
  {
    ReplaceCharAbsent(e, '<', "&lt;");
    AbsentFrom3(e);
  }

  lemma AbsentFrom3(e: string)
    requires '>' !in e && '"' !in e && '\'' !in e
    ensures ReplaceChar(ReplaceChar(ReplaceChar(
      e, '>', "&gt;"), '"', "&quot;"), '\'', "&#039;") == e
  {
    ReplaceCharAbsent(e, '>', "&gt;");
    AbsentFrom4(e);
  }

  lemma AbsentFrom4(e: string)
    requires '"' !in e && '\'' !in e
    ensures ReplaceChar(ReplaceChar(e, '"', "&quot;"), '\'', "&#039;") == e
  {
    ReplaceCharAbsent(e, '"', "&quot;");
    ReplaceCharAbsent(e, '\'', "&#039;");
  }

  /** A special character is replaced by its own step and left alone by the
      others. */
  lemma EscapeHtmlSpecial(c: char)
    requires IsSpecial(c)
    ensures EscapeHtml([c]) == EscapeChar(c)
  {
    var e := EscapeChar(c);
    assert EscapeEach([c]) == e + EscapeEach([]);
    assert forall k :: 0 <= k < |e| ==> e[k] !in {'<', '>', '"', '\''};
    ReplaceCharSingle(c, '&', "&amp;");
    if c == '&' {
      AbsentFrom2(e);
    } else {
      ReplaceCharSingle(c, '<', "&lt;");
      if c == '<' {
        AbsentFrom3(e);
      } else {
        ReplaceCharSingle(c, '>', "&gt;");
        if c == '>' {
          AbsentFrom4(e);
        } else {
          ReplaceCharSingle(c, '"', "&quot;");
          if c == '"' {
            ReplaceCharAbsent(e, '\'', "&#039;");
          } else {
            ReplaceCharSingle(c, '\'', "&#039;");
          }
        }
      }
    }
  }

  lemma EscapeHtmlPlain(c: char)
    requires !IsSpecial(c)
    ensures EscapeHtml([c]) == [c]
  {
    ReplaceCharSingle(c, '&', "&amp;");
    ReplaceCharSingle(c, '<', "&lt;");
    ReplaceCharSingle(c, '>', "&gt;");
    ReplaceCharSingle(c, '"', "&quot;");
    ReplaceCharSingle(c, '\'', "&#039;");
  }

  /** The chain of replacements on a single character. */
  lemma EscapeHtmlOne(c: char)
    ensures EscapeHtml([c]) == EscapeChar(c)
  {
    if IsSpecial(c) {
      EscapeHtmlSpecial(c);
    } else {
      EscapeHtmlPlain(c);
    }
  }

  /** Chaining the five global replacements is the same as escaping each
      character on its own: no replacement touches what an earlier one
      produced. */
  lemma {:induction false} EscapeHtmlPerChar(s: string)
    ensures EscapeHtml(s) == EscapeEach(s)
  {
    if s != [] {
      var c, rest := s[0], s[1..];
      assert s == [c] + rest;
      var a1 := ReplaceChar([c], '&', "&amp;");
      var b1 := ReplaceChar(rest, '&', "&amp;");
      ReplaceCharAppend([c], rest, '&', "&amp;");
      var a2 := ReplaceChar(a1, '<', "&lt;");
      var b2 := ReplaceChar(b1, '<', "&lt;");
      ReplaceCharAppend(a1, b1, '<', "&lt;");
      var a3 := ReplaceChar(a2, '>', "&gt;");
      var b3 := ReplaceChar(b2, '>', "&gt;");
      ReplaceCharAppend(a2, b2, '>', "&gt;");
      var a4 := ReplaceChar(a3, '"', "&quot;");
      var b4 := ReplaceChar(b3, '"', "&quot;");
      ReplaceCharAppend(a3, b3, '"', "&quot;");
      ReplaceCharAppend(a4, b4, '\'', "&#039;");
      assert EscapeHtml(s) == EscapeHtml([c]) + EscapeHtml(rest);
      EscapeHtmlOne(c);
      EscapeHtmlPerChar(rest);
    }
  }

  /** The output of `escapeHtml` holds no raw `<`, `>`, `"` or `'`. */
  lemma EscapeHtmlSafe(s: string)
    ensures forall k :: 0 <= k < |EscapeHtml(s)| ==> EscapeHtml(s)[k] !in {'<', '>', '"', '\''}
  {
    EscapeHtmlPerChar(s);
  }

  /** Text without any of the five special characters is left alone. */
  lemma EscapeHtmlIdentity(s: string)
    requires forall k :: 0 <= k < |s| ==> !IsSpecial(s[k])
    ensures EscapeHtml(s) == s
  {
    EscapeHtmlPerChar(s);
    EscapeEachIdentity(s);
  }

  lemma {:induction false} EscapeEachIdentity(s: string)
    requires forall k :: 0 <= k < |s| ==> !IsSpecial(s[k])
    ensures EscapeEach(s) == s
  {
    if s != [] {
      EscapeEachIdentity(s[1..]);
    }
  }

  /** Decoding the five entities `escapeHtml` writes: the inverse used to
      show that nothing is lost. */
  function Unescape(s: string): (r: string)
    ensures |r| <= |s|
  {
    if s == [] then ""
    else if StartsWith(s, "&amp;") then "&" + Unescape(s[5..])
    else if StartsWith(s, "&lt;") then "<" + Unescape(s[4..])
    else if StartsWith(s, "&gt;") then ">" + Unescape(s[4..])
    else if StartsWith(s, "&quot;") then "\"" + Unescape(s[6..])
    else if StartsWith(s, "&#039;") then "'" + Unescape(s[6..])
    else [s[0]] + Unescape(s[1..])
  }

  lemma Differs(e: string, p: string, k: nat)
    requires k < |p| && k < |e| && e[k] != p[k]
    ensures !StartsWith(e, p)
  {
  }

  /** An entity at the front of the text decodes to its character. */
  lemma UnescapeEntity(ent: string, c: char, rest: string)
    requires ent == EscapeChar(c) && IsSpecial(c)
    ensures Unescape(ent + rest) == [c] + Unescape(rest)
  {
    var e := ent + rest;
    assert e[..|ent|] == ent && e[|ent|..] == rest;
    assert e[1] == ent[1];
    if c != '&' {
      Differs(e, "&amp;", 1);
    }
    if c != '<' {
      Differs(e, "&lt;", 1);
    }
    if c != '>' {
      Differs(e, "&gt;", 1);
    }
    if c != '"' {
      Differs(e, "&quot;", 1);
    }
  }

  lemma UnescapeOne(c: char, rest: string)
    ensures Unescape(EscapeChar(c) + rest) == [c] + Unescape(rest)
  {
    if IsSpecial(c) {
      UnescapeEntity(EscapeChar(c), c, rest);
    } else {
      assert EscapeChar(c) == [c];
      UnescapePlain(c, rest);
    }
  }

  /** A character that is not one of the five decodes to itself. */
  lemma UnescapePlain(c: char, rest: string)
    requires !IsSpecial(c)
    ensures Unescape([c] + rest) == [c] + Unescape(rest)
  {
    var e := [c] + rest;
    assert e[0] == c && e[1..] == rest;
    Differs(e, "&amp;", 0);
    Differs(e, "&lt;", 0);
    Differs(e, "&gt;", 0);
    Differs(e, "&quot;", 0);
    Differs(e, "&#039;", 0);
  }

  /** Escaping loses nothing: decoding the entities gives the text back. */
  lemma {:induction false} UnescapeEscapeHtml(s: string)
    ensures Unescape(EscapeHtml(s)) == s
  {
    EscapeHtmlPerChar(s);
    UnescapeEscapeEach(s);
  }

  lemma {:induction false} UnescapeEscapeEach(s: string)
    ensures Unescape(EscapeEach(s)) == s
  {
    if s != [] {
      UnescapeOne(s[0], EscapeEach(s[1..]));
      UnescapeEscapeEach(s[1..]);
      assert s == [s[0]] + s[1..];
    }
  }
}
