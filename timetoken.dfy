/** How the client picks the acquired time out of recognised text. Three regular
    expressions are tried in turn, and the first that matches anywhere decides:
      1. /acquired[^\d]*(\d{1,2}[:.]\d{2}\s?(AM|PM|am|pm)?)/i
      2. /(obtained|received)[^\d]*(\d{1,2}[:.]\d{2}\s?(AM|PM|am|pm)?)/i
      3. /(\d{1,2}[:.]\d{2}\s?(AM|PM|am|pm)?)/
    Each is modelled as the leftmost match of a backtracking matcher. The captured
    token has its first '.' turned into ':' and is trimmed before it is parsed. */
module TimeToken {
  import opened Wrappers
  import opened Text

  predicate IsDigit(c: char) { '0' <= c <= '9' }

  predicate IsSeparator(c: char) { c == ':' || c == '.' }

  /** `\d{1,2}[:.]\d{2}` spans exactly `s[p..e]`: one or two digits, a separator and
      two digits. */
  predicate ClockShape(s: string, p: nat, e: nat)
  {
    (e == p + 4 || e == p + 5) && e <= |s|
    && (forall k :: p <= k < e - 3 ==> IsDigit(s[k]))
    && IsSeparator(s[e - 3]) && IsDigit(s[e - 2]) && IsDigit(s[e - 1])
  }

  /** End of `\d{1,2}[:.]\d{2}` matched at `p`. The greedy `\d{1,2}` tries two
      digits first; a second digit and a separator cannot both stand at `p + 1`,
      so at most one of the two tries succeeds, and the match is found whenever
      the text has that shape at `p`. */
  function ClockEnd(s: string, p: nat): (r: Option<nat>)
    ensures r.Some? ==> ClockShape(s, p, r.value)
    ensures r.Some? ==> r.value <= |s| && (r.value == p + 4 || r.value == p + 5)
    ensures r.Some? ==> IsDigit(s[p]) && IsSeparator(s[r.value - 3])
                        && IsDigit(s[r.value - 2]) && IsDigit(s[r.value - 1])
    ensures r == Some(p + 5) ==> IsDigit(s[p + 1])
  {
    if p + 5 <= |s| && IsDigit(s[p]) && IsDigit(s[p + 1]) && IsSeparator(s[p + 2])
       && IsDigit(s[p + 3]) && IsDigit(s[p + 4]) then Some(p + 5)
    else if p + 4 <= |s| && IsDigit(s[p]) && IsSeparator(s[p + 1])
       && IsDigit(s[p + 2]) && IsDigit(s[p + 3]) then Some(p + 4)
    else None
  }

  /** Whenever the text has the clock's shape at `p`, the clock is matched there,
      ending where the shape ends. */
  lemma ClockEndFinds(s: string, p: nat, e: nat)
    requires ClockShape(s, p, e)
    ensures ClockEnd(s, p) == Some(e)
  {
    if e == p + 4 {
      assert IsSeparator(s[p + 1]) && !IsDigit(s[p + 1]);
    }
  }

  /** `(AM|PM|am|pm)` at `p`; with the `i` flag any mix of cases. */
  predicate MeridiemAt(s: string, p: nat, ignoreCase: bool)
  {
    p + 2 <= |s| &&
    var m := s[p..p + 2];
    if ignoreCase then Lower(m) == "am" || Lower(m) == "pm"
    else m == "AM" || m == "PM" || m == "am" || m == "pm"
  }

  /** Neither character of an AM/PM marker is a '.'. */
  lemma MeridiemHasNoDot(s: string, p: nat, ignoreCase: bool)
    requires MeridiemAt(s, p, ignoreCase)
    ensures s[p] != '.' && s[p + 1] != '.'
  {
    var m := s[p..p + 2];
    assert m[0] == s[p] && m[1] == s[p + 1];
    if ignoreCase {
      assert Lower(m)[0] == LowerChar(m[0]) && Lower(m)[1] == LowerChar(m[1]);
    }
  }

  /** End of the whole token `\d{1,2}[:.]\d{2}\s?(AM|PM|am|pm)?` matched at `p`. Both
      optional parts are greedy and nothing follows them in the pattern, so the match
      takes them whenever they are there. */
  function TokenEnd(s: string, p: nat, ignoreCase: bool): (r: Option<nat>)
    ensures r.Some? <==> ClockEnd(s, p).Some?
    ensures r.Some? ==> ClockEnd(s, p).value <= r.value <= |s|
    ensures r.Some? ==> forall k :: ClockEnd(s, p).value <= k < r.value ==> s[k] != '.'
  {
    match ClockEnd(s, p)
    case None => None
    case Some(e) =>
      var e1 := if e < |s| && IsSpace(s[e]) then e + 1 else e;
      assert e1 == e + 1 ==> s[e] != '.';
      if MeridiemAt(s, e1, ignoreCase) then
        MeridiemHasNoDot(s, e1, ignoreCase);
        Some(e1 + 2)
      else Some(e1)
  }

  /** Where the token ends: after the clock, a white-space character is always
      taken, and then an AM/PM marker whenever one follows. */
  lemma TokenEndExact(s: string, p: nat, ignoreCase: bool)
    requires ClockEnd(s, p).Some?
    ensures var e := ClockEnd(s, p).value;
      if e < |s| && IsSpace(s[e]) then
        TokenEnd(s, p, ignoreCase) == Some(if MeridiemAt(s, e + 1, ignoreCase) then e + 3 else e + 1)
      else
        TokenEnd(s, p, ignoreCase) == Some(if MeridiemAt(s, e, ignoreCase) then e + 2 else e)
  {
  }

  /** First position at or after `q` that holds a digit, or the end: where the
      greedy `[^\d]*` stops. */
  function SkipNonDigits(s: string, q: nat): (r: nat)
    requires q <= |s|
    ensures q <= r <= |s|
    ensures r < |s| ==> IsDigit(s[r])
    ensures forall k :: q <= k < r ==> !IsDigit(s[k])
    decreases |s| - q
  {
    if q == |s| || IsDigit(s[q]) then q else SkipNonDigits(s, q + 1)
  }

  /** A lower-case `label` stands at `p`, ignoring case. */
  predicate LabelAt(s: string, p: nat, lab: string)
  {
    p + |lab| <= |s| && Lower(s[p..p + |lab|]) == lab
  }

  /** No digit stands in `s[a..b]`. */
  predicate NoDigits(s: string, a: nat, b: nat)
    requires a <= b <= |s|
  {
    forall k :: a <= k < b ==> !IsDigit(s[k])
  }

  /** The token captured when the pattern `label[^\d]*TOKEN` (with `i`) is tried at
      `p`: after the label the run of non-digits is skipped, and since the token
      starts with a digit, giving back any of that run cannot help. */
  function LabelledAt(s: string, p: nat, lab: string): (r: Option<(nat, nat)>)
    ensures r.Some? ==> LabelAt(s, p, lab) && p + |lab| <= r.value.0 < r.value.1 <= |s|
    ensures r.Some? ==> TokenEnd(s, r.value.0, true) == Some(r.value.1)
    ensures r.Some? ==> NoDigits(s, p + |lab|, r.value.0)
  {
    if LabelAt(s, p, lab) then
      var q := SkipNonDigits(s, p + |lab|);
      match TokenEnd(s, q, true)
      case Some(e) => Some((q, e))
      case None => None
    else None
  }

  /** Whenever the label stands at `p` and is followed by non-digits and then a
      token, the pattern matches at `p` and captures exactly that token. */
  lemma LabelledAtFinds(s: string, p: nat, lab: string, q: nat)
    requires LabelAt(s, p, lab) && p + |lab| <= q <= |s| && NoDigits(s, p + |lab|, q)
    requires TokenEnd(s, q, true).Some?
    ensures LabelledAt(s, p, lab) == Some((q, TokenEnd(s, q, true).value))
  {
    assert IsDigit(s[q]);
  }

  /** The alternatives of the label group tried in order at `p`. */
  function AnyLabelledAt(s: string, p: nat, labels: seq<string>): (r: Option<(nat, nat)>)
    ensures r.Some? ==> r.value.0 < r.value.1 <= |s| && TokenEnd(s, r.value.0, true) == Some(r.value.1)
    ensures r.Some? ==> p <= r.value.0
  {
    if labels == [] then None
    else match LabelledAt(s, p, labels[0])
      case Some(m) => Some(m)
      case None => AnyLabelledAt(s, p, labels[1..])
  }

  /** The first label whose pattern matches at `p` decides, and there is a match
      exactly when one of the labels has one. */
  lemma {:induction false} AnyLabelledAtIsFirst(s: string, p: nat, labels: seq<string>)
    ensures AnyLabelledAt(s, p, labels).None? <==> forall i :: 0 <= i < |labels| ==> LabelledAt(s, p, labels[i]).None?
    ensures AnyLabelledAt(s, p, labels).Some? ==>
              exists i :: 0 <= i < |labels| && LabelAt(s, p, labels[i])
                && LabelledAt(s, p, labels[i]) == AnyLabelledAt(s, p, labels)
                && forall j :: 0 <= j < i ==> LabelledAt(s, p, labels[j]).None?
  {
    if labels != [] && LabelledAt(s, p, labels[0]).None? {
      var tail := labels[1..];
      var r := AnyLabelledAt(s, p, tail);
      assert AnyLabelledAt(s, p, labels) == r;
      AnyLabelledAtIsFirst(s, p, tail);
      assert forall i :: 0 <= i < |tail| ==> tail[i] == labels[i + 1];
      if r.Some? {
        var i :| 0 <= i < |tail| && LabelAt(s, p, tail[i]) && LabelledAt(s, p, tail[i]) == r
                 && forall j :: 0 <= j < i ==> LabelledAt(s, p, tail[j]).None?;
        forall j | 0 <= j < i + 1 ensures LabelledAt(s, p, labels[j]).None? {
          if j > 0 { assert labels[j] == tail[j - 1]; }
        }
        assert LabelledAt(s, p, labels[i + 1]) == r;
      } else {
        forall j | 0 <= j < |labels| ensures LabelledAt(s, p, labels[j]).None? {
          if j > 0 { assert labels[j] == tail[j - 1]; }
        }
      }
    } else if labels != [] {
      assert LabelAt(s, p, labels[0]);
    }
  }

  /** The leftmost match of `(label1|label2|...)[^\d]*TOKEN`, searching from `p`:
      the start of the label and the captured token's bounds. */
  function FindLabelled(s: string, p: nat, labels: seq<string>): (r: Option<(nat, nat, nat)>)
    ensures r.Some? ==> p <= r.value.0 && AnyLabelledAt(s, r.value.0, labels) == Some((r.value.1, r.value.2))
    ensures r.Some? ==> forall q :: p <= q < r.value.0 ==> AnyLabelledAt(s, q, labels).None?
    ensures r.None? ==> forall q :: p <= q <= |s| ==> AnyLabelledAt(s, q, labels).None?
    decreases |s| - p
  {
    if p > |s| then None
    else match AnyLabelledAt(s, p, labels)
      case Some(m) => Some((p, m.0, m.1))
      case None => FindLabelled(s, p + 1, labels)
  }

  /** The leftmost match of the bare token pattern (without `i`), searching from `p`. */
  function FindBare(s: string, p: nat): (r: Option<(nat, nat)>)
    ensures r.Some? ==> p <= r.value.0 < r.value.1 <= |s| && TokenEnd(s, r.value.0, false) == Some(r.value.1)
    ensures r.Some? ==> forall q :: p <= q < r.value.0 ==> TokenEnd(s, q, false).None?
    ensures r.None? ==> forall q :: p <= q <= |s| ==> TokenEnd(s, q, false).None?
    decreases |s| - p
  {
    if p > |s| then None
    else match TokenEnd(s, p, false)
      case Some(e) => Some((p, e))
      case None => FindBare(s, p + 1)
  }

  const AcquiredLabels: seq<string> := ["acquired"]
  const AlternativeLabels: seq<string> := ["obtained", "received"]

  /** A token match starts with a digit and spans four to eight characters: the
      clock, at most one white-space character and at most an AM/PM marker. */
  lemma TokenLength(s: string, a: nat, b: nat, ci: bool)
    requires TokenEnd(s, a, ci) == Some(b)
    ensures a < |s| && IsDigit(s[a]) && a + 4 <= b <= a + 8
  {
    var e := ClockEnd(s, a).value;
    assert a + 4 <= e <= a + 5;
    TokenEndExact(s, a, ci);
  }

  /** The token of the first of the three patterns that matches the text, if any. */
  function ChosenToken(text: string): (r: Option<string>)
    ensures r.Some? ==> 4 <= |r.value| <= 8 && IsDigit(r.value[0])
  {
    match FindLabelled(text, 0, AcquiredLabels)
    case Some(m) => LabelledToken(text, AcquiredLabels)
    case None =>
      match FindLabelled(text, 0, AlternativeLabels)
      case Some(m) => LabelledToken(text, AlternativeLabels)
      case None =>
        match FindBare(text, 0)
        case Some(m) =>
          TokenLength(text, m.0, m.1, false);
          Some(text[m.0..m.1])
        case None => None
  }

  /** The token captured by the leftmost match of a labelled pattern. */
  function LabelledToken(text: string, labels: seq<string>): (r: Option<string>)
    requires FindLabelled(text, 0, labels).Some?
    ensures r.Some? && 4 <= |r.value| <= 8 && IsDigit(r.value[0])
    ensures r.value == text[FindLabelled(text, 0, labels).value.1..FindLabelled(text, 0, labels).value.2]
  {
    var m := FindLabelled(text, 0, labels).value;
    var a := AnyLabelledAt(text, m.0, labels).value;
    assert a == (m.1, m.2);
    TokenLength(text, m.1, m.2, true);
    var t := text[m.1..m.2];
    assert t[0] == text[m.1];
    Some(t)
  }

  /** `token.replace('.', ':').trim()`: every character kept is one of the token's
      or the ':' that replaced its first '.', and no white space is left at either
      end. */
  function Normalize(token: string): (r: string)
    ensures forall x :: x in r ==> x in token || x == ':'
    ensures |r| <= |token|
    ensures r != [] ==> !IsSpace(r[0]) && !IsSpace(r[|r| - 1])
  {
    var replaced := ReplaceFirst(token, '.', ":");
    assert |replaced| == |token|;
    TrimKeeps(replaced);
    Trim(replaced)
  }

  /** The acquired time: the parse of the chosen token, or `now` when no pattern
      matched or the token does not parse. A matching pattern is never passed over
      for a later one, even when its token does not parse. The date parser is a
      parameter. */
  function AcquiredTime(text: string, now: int, parse: string -> Option<int>): (r: int)
    ensures ChosenToken(text).None? ==> r == now
    ensures ChosenToken(text).Some? && parse(Normalize(ChosenToken(text).value)).None? ==> r == now
    ensures ChosenToken(text).Some? && parse(Normalize(ChosenToken(text).value)).Some? ==>
              r == parse(Normalize(ChosenToken(text).value)).value
  {
    match ChosenToken(text)
    case Some(token) => parse(Normalize(token)).GetOr(now)
    case None => now
  }

  /** A token is chosen exactly when the text holds a clock time `h:mm`/`hh:mm`
      (with ':' or '.') somewhere, since every labelled match is also a bare one. */
  lemma ChosenIffClock(text: string)
    ensures ChosenToken(text).Some? <==> exists q :: 0 <= q <= |text| && ClockEnd(text, q).Some?
  {
    if ChosenToken(text).Some? {
      ChosenTokenIsClock(text);
    } else {
      assert FindBare(text, 0).None?;
      forall q | 0 <= q <= |text| ensures ClockEnd(text, q).None? {
        assert TokenEnd(text, q, false).None?;
      }
    }
  }

  /** A chosen token is a piece of the text matched by the token pattern. */
  lemma ChosenTokenIsClock(text: string)
    requires ChosenToken(text).Some?
    ensures exists a, b, ci :: 0 <= a < b <= |text| && ChosenToken(text).value == text[a..b]
                               && TokenEnd(text, a, ci) == Some(b)
  {
    var l := FindLabelled(text, 0, AcquiredLabels);
    if l.Some? {
      assert TokenEnd(text, l.value.1, true) == Some(l.value.2);
    } else {
      var l2 := FindLabelled(text, 0, AlternativeLabels);
      if l2.Some? {
        assert TokenEnd(text, l2.value.1, true) == Some(l2.value.2);
      } else {
        var m := FindBare(text, 0);
        assert TokenEnd(text, m.value.0, false) == Some(m.value.1);
      }
    }
  }

  /** In text matched by the token pattern, only the clock's separator can be a '.'. */
  lemma TokenDots(s: string, a: nat, b: nat, ci: bool)
    requires TokenEnd(s, a, ci) == Some(b)
    ensures forall j :: a <= j < b && j != ClockEnd(s, a).value - 3 ==> s[j] != '.'
  {
    var e := ClockEnd(s, a).value;
    forall j | a <= j < b && j != e - 3
      ensures s[j] != '.'
    {
      if j < e {
        assert j == a || j == e - 2 || j == e - 1 || (j == a + 1 && e == a + 5);
      }
    }
  }

  /** The only '.' a chosen token can hold is its clock's separator. */
  lemma AtMostOneDot(text: string) returns (sep: nat)
    requires ChosenToken(text).Some?
    ensures sep < |ChosenToken(text).value|
    ensures forall k :: 0 <= k < |ChosenToken(text).value| && k != sep ==> ChosenToken(text).value[k] != '.'
  {
    ChosenTokenIsClock(text);
    var a, b, ci :| 0 <= a < b <= |text| && ChosenToken(text).value == text[a..b] && TokenEnd(text, a, ci) == Some(b);
    sep := MatchDots(text, a, b, ci);
  }

  /** The same, for the matched piece of text itself. */
  lemma MatchDots(text: string, a: nat, b: nat, ci: bool) returns (sep: nat)
    requires TokenEnd(text, a, ci) == Some(b)
    ensures a < b <= |text| && sep < b - a
    ensures forall k :: 0 <= k < b - a && k != sep ==> text[a..b][k] != '.'
  {
    TokenLength(text, a, b, ci);
    TokenDots(text, a, b, ci);
    sep := ClockEnd(text, a).value - 3 - a;
    forall k | 0 <= k < b - a && k != sep
      ensures text[a..b][k] != '.'
    {
      assert text[a..b][k] == text[a + k];
    }
  }

  /** After normalizing, the clock's separator is ':' and no '.' is left. */
  lemma NormalizedHasNoDot(text: string)
    requires ChosenToken(text).Some?
    ensures '.' !in Normalize(ChosenToken(text).value)
  {
    var sep := AtMostOneDot(text);
    var token := ChosenToken(text).value;
    var replaced := ReplaceFirst(token, '.', ":");
    if '.' in token {
      var i := IndexOf(token, '.');
      assert i == sep;
      assert '.' !in token[..i] && '.' !in token[i + 1..];
    }
    assert '.' !in replaced;
  }
}
