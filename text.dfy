/** String primitives that the front end takes from JavaScript: `String.prototype.trim`,
    `startsWith`, and the ASCII case folding that a regular expression with the `i` flag
    (and without the `u` flag) applies to an all-ASCII pattern. */
module Text {

  /** The code points ECMAScript calls WhiteSpace or LineTerminator; `trim` strips these. */
  predicate IsJsSpace(c: char) {
    var n := c as int;
    n == 0x09 || n == 0x0A || n == 0x0B || n == 0x0C || n == 0x0D || n == 0x20 || n == 0xA0
    || n == 0x1680 || (0x2000 <= n <= 0x200A) || n == 0x2028 || n == 0x2029 || n == 0x202F
    || n == 0x205F || n == 0x3000 || n == 0xFEFF
  }

  /** A string that `trim` turns into "" (and therefore falsy in JavaScript). */
  predicate Blank(s: string) {
    forall i :: 0 <= i < |s| ==> IsJsSpace(s[i])
  }

  /** A string with no white space at either end, i.e. one that `trim` leaves alone. */
  predicate Trimmed(s: string) {
    s == [] || (!IsJsSpace(s[0]) && !IsJsSpace(s[|s| - 1]))
  }

  function TrimStart(s: string): (r: string)
    ensures |r| <= |s| && r == s[|s| - |r|..]
    ensures r == [] || !IsJsSpace(r[0])
    ensures forall i :: 0 <= i < |s| - |r| ==> IsJsSpace(s[i])
  {
    if |s| > 0 && IsJsSpace(s[0]) then TrimStart(s[1..]) else s
  }

  function TrimEnd(s: string): (r: string)
    ensures |r| <= |s| && r == s[..|r|]
    ensures r == [] || !IsJsSpace(r[|r| - 1])
    ensures forall i :: |r| <= i < |s| ==> IsJsSpace(s[i])
  {
    if |s| > 0 && IsJsSpace(s[|s| - 1]) then TrimEnd(s[..|s| - 1]) else s
  }

  /** `s.trim()`: the result has no white space at either end, and it is empty exactly
      when `s` is all white space. */
  function Trim(s: string): (r: string)
    ensures Trimmed(r)
    ensures r == [] <==> Blank(s)
  {
    var t := TrimStart(s);
    var r := TrimEnd(t);
    assert r != [] ==> r[0] == t[0];
    r
  }

  /** The number of white-space characters `trim` removes from the start of `s`. */
  function Lead(s: string): nat
    ensures Lead(s) <= |s|
  {
    |s| - |TrimStart(s)|
  }

  /** `trim` removes white space at the two ends of `s` and nothing else: the result is the
      slice of `s` between a blank prefix and a blank suffix. */
  lemma TrimSlice(s: string)
    ensures Lead(s) + |Trim(s)| <= |s|
    ensures Trim(s) == s[Lead(s)..Lead(s) + |Trim(s)|]
    ensures Blank(s[..Lead(s)]) && Blank(s[Lead(s) + |Trim(s)|..])
  {
    TrimIsSlice(s);
    LeadBlank(s);
    TrailBlank(s);
  }

  lemma TrimIsSlice(s: string)
    ensures Lead(s) + |Trim(s)| <= |s|
    ensures Trim(s) == s[Lead(s)..Lead(s) + |Trim(s)|]
  {
    var t := TrimStart(s);
    var r := TrimEnd(t);
    assert s[Lead(s)..] == t;
    assert r == t[..|r|];
  }

  lemma LeadBlank(s: string)
    ensures Blank(s[..Lead(s)])
  {
    var t := TrimStart(s);
    assert forall k :: 0 <= k < |s| - |t| ==> IsJsSpace(s[k]);
  }

  lemma TrailBlank(s: string)
    ensures Lead(s) + |Trim(s)| <= |s|
    ensures Blank(s[Lead(s) + |Trim(s)|..])
  {
    var t := TrimStart(s);
    var r := TrimEnd(t);
    assert s[Lead(s)..] == t;
    assert s[Lead(s) + |r|..] == t[|r|..];
  }

  /** `trim` changes nothing in a string without white space at its ends; in particular
      it is idempotent. */
  lemma {:induction false} TrimOfTrimmed(s: string)
    requires Trimmed(s)
    ensures Trim(s) == s
  {
    assert TrimStart(s) == s;
    assert TrimEnd(s) == s;
  }

  /** ASCII case folding: the only folding a case-insensitive JavaScript regular expression
      without the `u` flag applies between an ASCII pattern letter and the input. */
  function Lower(c: char): (r: char)
    ensures ('A' <= c <= 'Z') == (r != c)
    ensures 'a' <= r <= 'z' <==> ('a' <= c <= 'z' || 'A' <= c <= 'Z')
  {
    if 'A' <= c <= 'Z' then (c as int + 32) as char else c
  }

  predicate IsDigit(c: char) {
    '0' <= c <= '9'
  }

  /** `s.startsWith(p)`, case-sensitive. */
  predicate StartsWith(s: string, p: string) {
    |p| <= |s| && s[..|p|] == p
  }

  /** The lower-case ASCII pattern `pat` occurs in `s` at index `i`, letters compared
      without regard to case. */
  predicate MatchesAt(s: string, i: nat, pat: string) {
    i + |pat| <= |s| && forall k :: 0 <= k < |pat| ==> Lower(s[i + k]) == pat[k]
  }

  /** `/^https?:\/\//i.test(s)`. */
  predicate HasHttpScheme(s: string) {
    MatchesAt(s, 0, "http://") || MatchesAt(s, 0, "https://")
  }
}
