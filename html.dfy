/** The card renderer's basic HTML escaping (script.js0.js:110-115): three
    global replacements, of `&`, then `<`, then `>`, applied one after the other. */
module Html {

  /** Every non-overlapping occurrence of `pat`, scanned from the left, replaced
      by `rep`: what `String.prototype.replace` does with a global pattern. */
  function Replace(s: string, pat: string, rep: string): (r: string)
    requires |pat| > 0
    decreases |s|
  {
    if s == [] then []
    else if pat <= s then rep + Replace(s[|pat|..], pat, rep)
    else [s[0]] + Replace(s[1..], pat, rep)
  }

  /** `escapeHtml`: `&` first, so that the ampersands of `&lt;` and `&gt;` are not escaped
      again. Escaping never shortens the text. */
  function EscapeHtml(s: string): (r: string)
    ensures |r| >= |s|
  {
    EscapeHtmlIsEncode(s);
    EncodeLength(s);
    Replace(Replace(Replace(s, "&", "&amp;"), "<", "&lt;"), ">", "&gt;")
  }

  /** The three replacements undone in the opposite order, `&amp;` last. */
  function Unescape(t: string): (r: string)
  {
    Replace(Replace(Replace(t, "&gt;", ">"), "&lt;", "<"), "&amp;", "&")
  }

  // A per-character reference for the escaping. The special characters are ranked
  // in the order their replacements run; stage k has replaced the first k of them.

  function Rank(c: char): (k: nat)
  {
    if c == '&' then 0 else if c == '<' then 1 else if c == '>' then 2 else 3
  }

  function Special(k: nat): (c: char)
    requires k < 3
  {
    if k == 0 then '&' else if k == 1 then '<' else '>'
  }

  function Entity(k: nat): (e: string)
    requires k < 3
    ensures |e| >= 2 && e[0] == '&' && e[|e| - 1] == ';'
    ensures forall i :: 1 <= i < |e| ==> e[i] != '&' && e[i] != '<' && e[i] != '>'
    ensures forall i :: 0 <= i < |e| ==> e[i] != '"'
  {
    if k == 0 then "&amp;" else if k == 1 then "&lt;" else "&gt;"
  }

  /** How character `c` looks once the first `k` replacements have run. */
  function EncodeChar(c: char, k: nat): (r: string)
  {
    if Rank(c) < k && Rank(c) < 3 then Entity(Rank(c)) else [c]
  }

  /** How `s` looks once the first `k` replacements have run. */
  function Encode(s: string, k: nat): (r: string)
    decreases |s|
  {
    if s == [] then [] else EncodeChar(s[0], k) + Encode(s[1..], k)
  }

  /** Replacing a pattern whose first character does not occur in `u` leaves `u` as it is. */
  lemma {:induction false} ReplaceSkips(u: string, rest: string, pat: string, rep: string)
    requires |pat| > 0
    requires forall i :: 0 <= i < |u| ==> u[i] != pat[0]
    ensures Replace(u + rest, pat, rep) == u + Replace(rest, pat, rep)
  {
    if u != [] {
      assert !(pat <= u + rest) by { assert (u + rest)[0] == u[0]; }
      assert (u + rest)[1..] == u[1..] + rest;
      ReplaceSkips(u[1..], rest, pat, rep);
    } else {
      assert u + rest == rest;
    }
  }

  /** The first replacement turns the input into its stage-1 encoding. */
  lemma {:induction false} ReplaceAmpersand(s: string)
    ensures Replace(s, "&", "&amp;") == Encode(s, 1)
  {
    if s != [] {
      ReplaceAmpersand(s[1..]);
      if s[0] == '&' {
        assert "&" <= s;
      } else {
        assert !("&" <= s);
      }
    }
  }

  /** Replacement k + 1 (k = 1, 2) takes the stage-k encoding to the stage-(k + 1) one. */
  lemma {:induction false} ReplaceForward(s: string, k: nat)
    requires 1 <= k < 3
    ensures Replace(Encode(s, k), [Special(k)], Entity(k)) == Encode(s, k + 1)
  {
    if s != [] {
      var c, pat, rep := s[0], [Special(k)], Entity(k);
      var tail := Encode(s[1..], k);
      ReplaceForward(s[1..], k);
      if Rank(c) < k {
        var e := Entity(Rank(c));
        assert e[0] != pat[0];
        ReplaceSkips(e, tail, pat, rep);
      } else if Rank(c) == k {
        assert pat <= [c] + tail;
        assert ([c] + tail)[1..] == tail;
      } else {
        ReplaceSkips([c], tail, pat, rep);
      }
    }
  }

  /** Escaping is the per-character encoding. */
  lemma EscapeHtmlIsEncode(s: string)
    ensures Replace(Replace(Replace(s, "&", "&amp;"), "<", "&lt;"), ">", "&gt;") == Encode(s, 3)
  {
    ReplaceAmpersand(s);
    ReplaceForward(s, 1);
    ReplaceForward(s, 2);
  }

  /** Replacing at a match emits the replacement and goes on after the match. */
  lemma ReplaceAtMatch(pat: string, rep: string, tail: string)
    requires |pat| > 0
    ensures Replace(pat + tail, pat, rep) == rep + Replace(tail, pat, rep)
  {
    assert pat <= pat + tail;
    assert (pat + tail)[|pat|..] == tail;
  }

  /** An entity is passed over whole when a different entity is being replaced. */
  lemma ReplaceOtherEntity(j: nat, m: nat, tail: string)
    requires j < 3 && m < 3 && j != m
    ensures Replace(Entity(j) + tail, Entity(m), [Special(m)]) == Entity(j) + Replace(tail, Entity(m), [Special(m)])
  {
    var e, pat, rep := Entity(j), Entity(m), [Special(m)];
    var whole := e + tail;
    assert !(pat <= whole) by { assert whole[1] == e[1] != pat[1]; }
    assert whole[1..] == e[1..] + tail;
    ReplaceSkips(e[1..], tail, pat, rep);
    assert [e[0]] + e[1..] == e;
  }

  /** Undoing replacement k - 1 (k = 1, 2, 3) takes the stage-k encoding back to stage k - 1. */
  lemma {:induction false} ReplaceBackward(s: string, k: nat)
    requires 1 <= k <= 3
    ensures Replace(Encode(s, k), Entity(k - 1), [Special(k - 1)]) == Encode(s, k - 1)
  {
    if s != [] {
      var c, pat, rep := s[0], Entity(k - 1), [Special(k - 1)];
      var tail := Encode(s[1..], k);
      ReplaceBackward(s[1..], k);
      if Rank(c) == k - 1 {
        ReplaceAtMatch(pat, rep, tail);
      } else if Rank(c) < k {
        ReplaceOtherEntity(Rank(c), k - 1, tail);
      } else {
        ReplaceSkips([c], tail, pat, rep);
      }
    }
  }

  /** Before any replacement has run, the encoding is the text itself. */
  lemma {:induction false} EncodeZero(s: string)
    ensures Encode(s, 0) == s
  {
    if s != [] {
      EncodeZero(s[1..]);
    }
  }

  /** Round trip: reversing the three replacements, `&amp;` last, gives back the input. */
  lemma UnescapeEscapeHtml(s: string)
    ensures Unescape(EscapeHtml(s)) == s
  {
    EscapeHtmlIsEncode(s);
    ReplaceBackward(s, 3);
    ReplaceBackward(s, 2);
    ReplaceBackward(s, 1);
    EncodeZero(s);
  }

  /** A string with no `<` or `>`, in which each `&` begins an entity. */
  ghost predicate Markupless(t: string)
  {
    && (forall i :: 0 <= i < |t| ==> t[i] != '<' && t[i] != '>')
    && (forall i :: 0 <= i < |t| && t[i] == '&' ==>
          "&amp;" <= t[i..] || "&lt;" <= t[i..] || "&gt;" <= t[i..])
  }

  lemma {:induction false} EncodeMarkupless(s: string)
    ensures Markupless(Encode(s, 3))
  {
    if s != [] {
      EncodeMarkupless(s[1..]);
      var e, tail := EncodeChar(s[0], 3), Encode(s[1..], 3);
      var t := e + tail;
      forall i | 0 <= i < |t|
        ensures t[i] != '<' && t[i] != '>'
        ensures t[i] == '&' ==> "&amp;" <= t[i..] || "&lt;" <= t[i..] || "&gt;" <= t[i..]
      {
        if i >= |e| {
          assert t[i] == tail[i - |e|];
          assert t[i..] == tail[i - |e|..];
        } else if Rank(s[0]) < 3 {
          if i == 0 {
            assert e <= t[i..];
          }
        }
      }
    }
  }

  /** Escaped text contains no `<` or `>`, and every `&` in it starts `&amp;`, `&lt;` or `&gt;`. */
  lemma EscapeHtmlMarkupless(s: string)
    ensures forall i :: 0 <= i < |EscapeHtml(s)| ==> EscapeHtml(s)[i] != '<' && EscapeHtml(s)[i] != '>'
    ensures forall i :: 0 <= i < |EscapeHtml(s)| && EscapeHtml(s)[i] == '&' ==>
              "&amp;" <= EscapeHtml(s)[i..] || "&lt;" <= EscapeHtml(s)[i..] || "&gt;" <= EscapeHtml(s)[i..]
  {
    EscapeHtmlIsEncode(s);
    EncodeMarkupless(s);
  }

  lemma {:induction false} EncodePlain(s: string)
    requires forall i :: 0 <= i < |s| ==> Rank(s[i]) == 3
    ensures Encode(s, 3) == s
  {
    if s != [] {
      EncodePlain(s[1..]);
    }
  }

  /** Text without `&`, `<` or `>` is left as it is. */
  lemma EscapeHtmlPlain(s: string)
    requires forall i :: 0 <= i < |s| ==> s[i] != '&' && s[i] != '<' && s[i] != '>'
    ensures EscapeHtml(s) == s
  {
    EscapeHtmlIsEncode(s);
    EncodePlain(s);
  }

  lemma {:induction false} EncodeLength(s: string)
    ensures |Encode(s, 3)| == |s| + 4 * multiset(s)['&'] + 3 * multiset(s)['<'] + 3 * multiset(s)['>']
  {
    if s != [] {
      EncodeLength(s[1..]);
      assert |Encode(s, 3)| == |EncodeChar(s[0], 3)| + |Encode(s[1..], 3)|;
      assert multiset(s) == multiset{s[0]} + multiset(s[1..]) by {
        assert s == [s[0]] + s[1..];
      }
    }
  }

  /** Each `&` grows by four characters and each `<` or `>` by three; nothing shrinks. */
  lemma EscapeHtmlLength(s: string)
    ensures |EscapeHtml(s)| == |s| + 4 * multiset(s)['&'] + 3 * multiset(s)['<'] + 3 * multiset(s)['>']
    ensures |EscapeHtml(s)| >= |s|
  {
    EscapeHtmlIsEncode(s);
    EncodeLength(s);
  }

  /** A character's encoding holds a double quote exactly when the character is one. */
  lemma EncodeCharQuotes(c: char)
    ensures multiset(EncodeChar(c, 3))['"'] == if c == '"' then 1 else 0
  {
    var e := EncodeChar(c, 3);
    if Rank(c) < 3 {
      assert '"' !in e;
    } else {
      assert e == [c];
    }
  }

  lemma {:induction false} EncodeKeepsQuotes(s: string)
    ensures multiset(Encode(s, 3))['"'] == multiset(s)['"']
  {
    if s != [] {
      var c, e, tail := s[0], EncodeChar(s[0], 3), Encode(s[1..], 3);
      EncodeKeepsQuotes(s[1..]);
      EncodeCharQuotes(c);
      assert Encode(s, 3) == e + tail;
      assert multiset(e + tail) == multiset(e) + multiset(tail);
      assert multiset(s) == multiset{c} + multiset(s[1..]) by {
        assert s == [c] + s[1..];
      }
    }
  }

  /** Every double quote of the input survives escaping, and none is added, although the
      renderer places escaped titles inside a double-quoted `alt` attribute. */
  lemma EscapeHtmlKeepsQuote(s: string)
    ensures multiset(EscapeHtml(s))['"'] == multiset(s)['"']
  {
    EscapeHtmlIsEncode(s);
    EncodeKeepsQuotes(s);
  }
}
