/** HTML escaping of text placed inside card markup (`escapeHtml` in script/main.js).
    Each of the four characters `&`, `<`, `>` and `"` is replaced by its entity;
    every other character, the apostrophe included, is copied unchanged. */
module Escape {

  /** The characters the escaper rewrites. */
  predicate IsSpecial(c: char) {
    c == '&' || c == '<' || c == '>' || c == '"'
  }

  /** The replacement of one character: its entity, or the character itself. */
  function EscapeChar(c: char): string {
    match c
    case '&' => "&amp;"
    case '<' => "&lt;"
    case '>' => "&gt;"
    case '"' => "&quot;"
    case _ => [c]
  }

  /** True when the `&` at position `i` of `s` opens one of the four entities. */
  predicate EntityAt(s: string, i: nat)
    requires i < |s|
  {
    var t := s[i..];
    (|t| >= 5 && t[..5] == "&amp;") ||
    (|t| >= 4 && t[..4] == "&lt;") ||
    (|t| >= 4 && t[..4] == "&gt;") ||
    (|t| >= 6 && t[..6] == "&quot;")
  }

  /** Every `&` in `s` opens an entity: the text holds no bare ampersand. */
  predicate NoBareAmpersand(s: string) {
    forall i :: 0 <= i < |s| && s[i] == '&' ==> EntityAt(s, i)
  }

  /** The escaped text, character by character. The result can never close or
      open a tag or an attribute value, and it holds no bare ampersand. */
  function EscapeHtml(s: string): (r: string)
    ensures '<' !in r && '>' !in r && '"' !in r
    ensures NoBareAmpersand(r)
    ensures |r| >= |s|
  {
    if s == [] then []
    else
      var tail := EscapeHtml(s[1..]);
      EscapedCons(s[0], tail);
      EscapeChar(s[0]) + tail
  }

  /** Putting the replacement of one character in front of text without a
      bare ampersand leaves none. */
  lemma EscapedCons(c: char, tail: string)
    requires NoBareAmpersand(tail)
    ensures NoBareAmpersand(EscapeChar(c) + tail)
    ensures '<' !in tail && '>' !in tail && '"' !in tail ==>
      '<' !in EscapeChar(c) + tail && '>' !in EscapeChar(c) + tail && '"' !in EscapeChar(c) + tail
  {
    var head := EscapeChar(c);
    forall i | 0 <= i < |head + tail| && (head + tail)[i] == '&'
      ensures EntityAt(head + tail, i)
    {
      if i < |head| {
        assert i == 0 && (head + tail)[0..] == head + tail;
      } else {
        assert (head + tail)[i..] == tail[i - |head|..];
        assert EntityAt(tail, i - |head|);
      }
    }
  }

  /** Decoding of the four entities that `EscapeHtml` produces; any other
      character, including an `&` that opens none of them, is copied. */
  function Unescape(s: string): string
    decreases |s|
  {
    if s == [] then []
    else if s[0] != '&' then [s[0]] + Unescape(s[1..])
    else if |s| >= 5 && s[..5] == "&amp;" then ['&'] + Unescape(s[5..])
    else if |s| >= 4 && s[..4] == "&lt;" then ['<'] + Unescape(s[4..])
    else if |s| >= 4 && s[..4] == "&gt;" then ['>'] + Unescape(s[4..])
    else if |s| >= 6 && s[..6] == "&quot;" then ['"'] + Unescape(s[6..])
    else ['&'] + Unescape(s[1..])
  }

  /** The replacement table: the four special characters become their entities
      and every other character, the apostrophe among them, stands for itself. */
  lemma EscapeTable(c: char)
    ensures c == '&' ==> EscapeHtml([c]) == "&amp;"
    ensures c == '<' ==> EscapeHtml([c]) == "&lt;"
    ensures c == '>' ==> EscapeHtml([c]) == "&gt;"
    ensures c == '"' ==> EscapeHtml([c]) == "&quot;"
    ensures !IsSpecial(c) ==> EscapeHtml([c]) == [c]
    ensures EscapeHtml("'") == "'"
  {
    assert [c][1..] == [];
    assert "'"[1..] == [];
  }

  /** Escaping works character by character, so it distributes over concatenation. */
  lemma {:induction false} EscapeAppend(a: string, b: string)
    ensures EscapeHtml(a + b) == EscapeHtml(a) + EscapeHtml(b)
    decreases |a|
  {
    if a == [] {
      assert a + b == b;
    } else {
      assert (a + b)[0] == a[0];
      assert (a + b)[1..] == a[1..] + b;
      EscapeAppend(a[1..], b);
    }
  }

  /** A text without any of the four special characters is left exactly as it is. */
  lemma {:induction false} EscapeIdentity(s: string)
    requires forall i :: 0 <= i < |s| ==> !IsSpecial(s[i])
    ensures EscapeHtml(s) == s
    decreases |s|
  {
    if s != [] {
      EscapeIdentity(s[1..]);
      assert [s[0]] + s[1..] == s;
    }
  }

  /** Decoding the entity (or plain character) that escapes `c` gives `c` back,
      whatever escaped text follows it. */
  lemma UnescapeChar(c: char, rest: string)
    ensures Unescape(EscapeChar(c) + rest) == [c] + Unescape(rest)
  {
    var e := EscapeChar(c) + rest;
    if c == '&' {
      assert e[..5] == "&amp;" && e[5..] == rest;
    } else if c == '<' || c == '>' || c == '"' {
      UnescapeEntity(c, rest);
    } else {
      assert e[0] == c && e[1..] == rest;
    }
  }

  /** Decoding the entity that escapes `<`, `>` or `"` gives the character
      back, whatever escaped text follows it. */
  lemma UnescapeEntity(c: char, rest: string)
    requires c == '<' || c == '>' || c == '"'
    ensures Unescape(EscapeChar(c) + rest) == [c] + Unescape(rest)
  {
    var entity := EscapeChar(c);
    var e := entity + rest;
    assert e[1] == entity[1] && e[..|entity|] == entity && e[|entity|..] == rest;
  }

  /** Decoding the four entities undoes the escaping: nothing is lost or altered. */
  lemma {:induction false} EscapeRoundTrip(s: string)
    ensures Unescape(EscapeHtml(s)) == s
    decreases |s|
  {
    if s != [] {
      EscapeRoundTrip(s[1..]);
      UnescapeChar(s[0], EscapeHtml(s[1..]));
      assert [s[0]] + s[1..] == s;
    }
  }
}
