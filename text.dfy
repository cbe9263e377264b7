/** `String.prototype.trim`, used by the add handler on the title and author
    fields (script.js0.js:142-143). */
module Text {

  /** JavaScript's WhiteSpace and LineTerminator characters: the ones `trim` removes. */
  const WHITESPACE: set<char> := {
    '\t', '\n', '\U{000B}', '\U{000C}', '\r', ' ', '\U{00A0}', '\U{1680}',
    '\U{2000}', '\U{2001}', '\U{2002}', '\U{2003}', '\U{2004}', '\U{2005}',
    '\U{2006}', '\U{2007}', '\U{2008}', '\U{2009}', '\U{200A}',
    '\U{2028}', '\U{2029}', '\U{202F}', '\U{205F}', '\U{3000}', '\U{FEFF}'
  }

  predicate IsWhitespace(c: char)
  {
    c in WHITESPACE
  }

  /** The number of whitespace characters `s` starts with. */
  function Lead(s: string): (n: nat)
    ensures n <= |s|
    ensures forall i :: 0 <= i < n ==> IsWhitespace(s[i])
    ensures n < |s| ==> !IsWhitespace(s[n])
    decreases |s|
  {
    if s != [] && IsWhitespace(s[0]) then
      var n := 1 + Lead(s[1..]);
      assert forall i :: 1 <= i < n ==> s[i] == s[1..][i - 1];
      n
    else 0
  }

  /** Where `s[lo..hi]` ends once its trailing whitespace is dropped. */
  function End(s: string, lo: nat, hi: nat): (e: nat)
    requires lo <= hi <= |s|
    ensures lo <= e <= hi
    ensures forall i :: e <= i < hi ==> IsWhitespace(s[i])
    ensures e > lo ==> !IsWhitespace(s[e - 1])
    decreases hi
  {
    if hi > lo && IsWhitespace(s[hi - 1]) then End(s, lo, hi - 1) else hi
  }

  /** `s.trim()`: `s` without the whitespace it starts and ends with. */
  function Trim(s: string): (r: string)
    ensures r == [] <==> forall i :: 0 <= i < |s| ==> IsWhitespace(s[i])
    ensures r != [] ==> !IsWhitespace(r[0]) && !IsWhitespace(r[|r| - 1])
    ensures Lead(s) + |r| <= |s| && r == s[Lead(s)..Lead(s) + |r|]
    ensures forall i :: Lead(s) + |r| <= i < |s| ==> IsWhitespace(s[i])
  {
    var lo := Lead(s);
    var hi := End(s, lo, |s|);
    s[lo..hi]
  }

  /** Trimming again changes nothing. */
  lemma TrimIdempotent(s: string)
    ensures Trim(Trim(s)) == Trim(s)
  {
    var r := Trim(s);
    if r != [] {
      assert Lead(r) == 0;
      assert End(r, 0, |r|) == |r|;
      assert r[0..|r|] == r;
    }
  }
}
