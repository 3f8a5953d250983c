/** The part of ECMAScript's String.prototype.trim that the add form relies on.
    A JavaScript string is modelled as a sequence of characters. */
module JsString {

  /** WhiteSpace and LineTerminator code points as ECMAScript defines them:
      tab, vertical tab, form feed, space, no-break space, byte order mark,
      the space separators of category Zs, line feed, carriage return,
      line separator and paragraph separator. */
  const Whitespace: set<char> := {
    '\t', '\n', '\U{000B}', '\U{000C}', '\r', ' ', '\U{00A0}', '\U{1680}',
    '\U{2000}', '\U{2001}', '\U{2002}', '\U{2003}', '\U{2004}', '\U{2005}',
    '\U{2006}', '\U{2007}', '\U{2008}', '\U{2009}', '\U{200A}',
    '\U{2028}', '\U{2029}', '\U{202F}', '\U{205F}', '\U{3000}', '\U{FEFF}'
  }

  predicate IsWhitespace(c: char) {
    c in Whitespace
  }

  /** True of a string made of whitespace only (the empty string included). */
  predicate Blank(s: string) {
    forall i :: 0 <= i < |s| ==> IsWhitespace(s[i])
  }

  /** String.prototype.trimStart: drops the longest all-whitespace prefix. */
  function TrimStart(s: string): (r: string)
    ensures |r| <= |s| && r == s[|s| - |r|..]
    ensures forall k :: 0 <= k < |s| - |r| ==> IsWhitespace(s[k])
    ensures r == [] || !IsWhitespace(r[0])
    decreases |s|
  {
    if s != [] && IsWhitespace(s[0]) then
      var r := TrimStart(s[1..]);
      assert forall k :: 1 <= k < |s| - |r| ==> s[k] == s[1..][k - 1];
      r
    else s
  }

  /** String.prototype.trimEnd: drops the longest all-whitespace suffix. */
  function TrimEnd(s: string): (r: string)
    ensures |r| <= |s| && r == s[..|r|]
    ensures forall k :: |r| <= k < |s| ==> IsWhitespace(s[k])
    ensures r == [] || !IsWhitespace(r[|r| - 1])
    decreases |s|
  {
    if s != [] && IsWhitespace(s[|s| - 1]) then
      var r := TrimEnd(s[..|s| - 1]);
      assert forall k :: |r| <= k < |s| - 1 ==> s[k] == s[..|s| - 1][k];
      r
    else s
  }

  /** String.prototype.trim: drops leading and trailing whitespace, so the
      result neither starts nor ends with whitespace. */
  function Trim(s: string): (r: string)
    ensures |r| <= |s|
    ensures r == [] || (!IsWhitespace(r[0]) && !IsWhitespace(r[|r| - 1]))
  {
    TrimEnd(TrimStart(s))
  }

  /** Trim's result is the infix of the input that starts where TrimStart's
      result starts. */
  lemma TrimIsInfix(s: string)
    ensures var r := Trim(s); var i := |s| - |TrimStart(s)|;
      0 <= i <= |s| - |r| && r == s[i..i + |r|]
  {
    var t := TrimStart(s);
    var r := TrimEnd(t);
    var i := |s| - |t|;
    var infix := s[i..i + |r|];
    forall j | 0 <= j < |r| ensures r[j] == infix[j] {
      calc {
        r[j];
      ==  { assert r == t[..|r|]; }
        t[j];
      ==  { assert t == s[i..]; }
        s[i + j];
      }
    }
    assert r == infix;
  }

  /** Trim cuts only whitespace: every character of the input outside that
      infix is whitespace. */
  lemma TrimCutsOnlyWhitespace(s: string)
    ensures var r := Trim(s); var i := |s| - |TrimStart(s)|;
      (forall k :: 0 <= k < i ==> IsWhitespace(s[k])) &&
      (forall k :: i + |r| <= k < |s| ==> IsWhitespace(s[k]))
  {
    var t := TrimStart(s);
    var r := TrimEnd(t);
    var i := |s| - |t|;
    forall k | i + |r| <= k < |s| ensures IsWhitespace(s[k]) {
      assert s[k] == t[k - i];
    }
  }

  /** Trim yields the empty string exactly for blank input. */
  lemma TrimEmptyIffBlank(s: string)
    ensures Trim(s) == [] <==> Blank(s)
  {
  }

  /** Trimming a trimmed string changes nothing. */
  lemma {:induction false} TrimIdempotent(s: string)
    ensures Trim(Trim(s)) == Trim(s)
  {
    var r := Trim(s);
    if r != [] {
      assert TrimStart(r) == r;
      assert TrimEnd(r) == r;
    }
  }
}
