/** The client's HTML escaping of a timer's name and location before they are
    placed in a table cell: '&', then '<', then '>' are replaced everywhere. */
module Html {
  import opened Wrappers
  import opened Timers

  /** Every occurrence of `c` in `s` replaced by `rep` (a global regular-expression
      replace of a single character). */
  function ReplaceAll(s: string, c: char, rep: string): (r: string)
    ensures c !in rep ==> c !in r
    ensures forall d :: d in r ==> d in s || d in rep
    ensures c !in s ==> r == s
  {
    if s == [] then []
    else (if s[0] == c then rep else [s[0]]) + ReplaceAll(s[1..], c, rep)
  }

  lemma {:induction false} ReplaceAllAppend(a: string, b: string, c: char, rep: string)
    ensures ReplaceAll(a + b, c, rep) == ReplaceAll(a, c, rep) + ReplaceAll(b, c, rep)
    decreases |a|
  {
    if a == [] {
      assert a + b == b;
    } else {
      var head := if a[0] == c then rep else [a[0]];
      assert (a + b)[0] == a[0] && (a + b)[1..] == a[1..] + b;
      assert ReplaceAll(a + b, c, rep) == head + ReplaceAll(a[1..] + b, c, rep);
      assert ReplaceAll(a, c, rep) == head + ReplaceAll(a[1..], c, rep);
      ReplaceAllAppend(a[1..], b, c, rep);
      ConcatAssoc(head, ReplaceAll(a[1..], c, rep), ReplaceAll(b, c, rep));
    }
  }

  /** `escapeHtml`: empty for a missing or empty value, otherwise the three
      replacements applied in order, '&' first so that the entities it
      introduces are not escaped again. */
  function EscapeHtml(s: Option<string>): (r: string)
    ensures '<' !in r && '>' !in r
    ensures s.None? ==> r == []
  {
    if s.None? || s.value == [] then []
    else ReplaceAll(ReplaceAll(ReplaceAll(s.value, '&', "&amp;"), '<', "&lt;"), '>', "&gt;")
  }

  /** The entity one character stands for in the escaped text. */
  function EscapeChar(c: char): string
  {
    if c == '&' then "&amp;" else if c == '<' then "&lt;" else if c == '>' then "&gt;" else [c]
  }

  /** Escaping stated character by character, independently of the order of the
      replacements. */
  function EscapeChars(s: string): string
  {
    if s == [] then [] else EscapeChar(s[0]) + EscapeChars(s[1..])
  }

  /** Reading the entities back. */
  function Unescape(s: string): string
    decreases |s|
  {
    if s == [] then []
    else if "&amp;" <= s then "&" + Unescape(s[5..])
    else if "&lt;" <= s then "<" + Unescape(s[4..])
    else if "&gt;" <= s then ">" + Unescape(s[4..])
    else [s[0]] + Unescape(s[1..])
  }

  /** The three ordered replacements escape every character on its own. */
  lemma {:induction false} EscapeIsPerCharacter(s: string)
    requires s != []
    ensures EscapeHtml(Some(s)) == EscapeChars(s)
  {
    ChainIsPerCharacter(s);
  }

  function Chain(s: string): string
  {
    ReplaceAll(ReplaceAll(ReplaceAll(s, '&', "&amp;"), '<', "&lt;"), '>', "&gt;")
  }

  lemma ReplaceOne(c: char, d: char, rep: string)
    ensures ReplaceAll([c], d, rep) == if c == d then rep else [c]
  {
    assert [c][1..] == [];
  }

  lemma ChainOne(c: char)
    ensures Chain([c]) == EscapeChar(c)
  {
    ReplaceOne(c, '&', "&amp;");
    if c == '&' {
      ChainOfEntity("&amp;");
    } else {
      ReplaceOne(c, '<', "&lt;");
      if c == '<' {
        assert '>' !in "&lt;";
      } else {
        ReplaceOne(c, '>', "&gt;");
      }
    }
  }

  /** The ampersand's entity passes the two later replacements untouched. */
  lemma ChainOfEntity(e: string)
    requires '<' !in e && '>' !in e
    ensures ReplaceAll(ReplaceAll(e, '<', "&lt;"), '>', "&gt;") == e
  {
  }

  lemma ChainAppend(a: string, b: string)
    ensures Chain(a + b) == Chain(a) + Chain(b)
  {
    ReplaceAllAppend(a, b, '&', "&amp;");
    var a1, b1 := ReplaceAll(a, '&', "&amp;"), ReplaceAll(b, '&', "&amp;");
    ReplaceAllAppend(a1, b1, '<', "&lt;");
    ReplaceAllAppend(ReplaceAll(a1, '<', "&lt;"), ReplaceAll(b1, '<', "&lt;"), '>', "&gt;");
  }

  lemma {:induction false} ChainIsPerCharacter(s: string)
    ensures Chain(s) == EscapeChars(s)
    decreases |s|
  {
    if s != [] {
      assert s == [s[0]] + s[1..];
      ChainAppend([s[0]], s[1..]);
      ChainOne(s[0]);
      ChainIsPerCharacter(s[1..]);
    }
  }

  /** Unescape reads one escaped character off the front. */
  lemma UnescapeOne(c: char, rest: string)
    ensures Unescape(EscapeChar(c) + rest) == [c] + Unescape(rest)
  {
    var e := EscapeChar(c) + rest;
    if c == '&' {
      assert "&amp;" <= e && e[5..] == rest;
    } else if c == '<' {
      assert e[1] == 'l';
      assert !("&amp;" <= e);
      assert "&lt;" <= e && e[4..] == rest;
    } else if c == '>' {
      assert e[1] == 'g';
      assert !("&amp;" <= e);
      assert !("&lt;" <= e);
      assert "&gt;" <= e && e[4..] == rest;
    } else {
      assert e[0] == c && e[1..] == rest;
    }
  }

  /** Unescaping the escaped text gives the original back, so escaping loses nothing. */
  lemma {:induction false} UnescapeEscape(s: string)
    ensures Unescape(EscapeChars(s)) == s
    decreases |s|
  {
    if s != [] {
      UnescapeOne(s[0], EscapeChars(s[1..]));
      UnescapeEscape(s[1..]);
      assert [s[0]] + s[1..] == s;
    }
  }

  /** The client's escaping of a non-empty value can be undone. */
  lemma EscapeHtmlRoundTrip(s: string)
    ensures Unescape(EscapeHtml(Some(s))) == s
  {
    if s != [] {
      EscapeIsPerCharacter(s);
      UnescapeEscape(s);
    }
  }
}
