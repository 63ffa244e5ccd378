/**
 String helpers the AI branch relies on: the whitespace class shared by
 `String.prototype.trim` and the regular expression `\s`, trimming, and the
 first whitespace-delimited token.
 */
module Text {

  /**
   The ECMAScript WhiteSpace and LineTerminator characters: tab, line feed,
   vertical tab, form feed, carriage return, space, no-break space, the
   Unicode space separators, the line and paragraph separators and the
   byte order mark.
   */
  predicate IsSpace(c: char)
  {
    || c == '\t' || c == '\n' || c == '\U{B}' || c == '\U{C}' || c == '\r' || c == ' '
    || c == '\U{A0}' || c == '\U{1680}' || ('\U{2000}' <= c <= '\U{200A}')
    || c == '\U{2028}' || c == '\U{2029}' || c == '\U{202F}' || c == '\U{205F}'
    || c == '\U{3000}' || c == '\U{FEFF}'
  }

  /** Every character of `s` is whitespace (vacuously so for the empty string). */
  predicate IsBlank(s: string)
  {
    forall i :: 0 <= i < |s| ==> IsSpace(s[i])
  }

  /** Drops leading whitespace: the result is the suffix of `s` from its first non-space character. */
  function TrimStart(s: string): (r: string)
    ensures |r| <= |s| && r == s[|s| - |r|..]
    ensures IsBlank(s[..|s| - |r|])
    ensures r == [] || !IsSpace(r[0])
  {
    if s != [] && IsSpace(s[0]) then
      var r := TrimStart(s[1..]);
      assert s[1..][..|s| - 1 - |r|] == s[1..|s| - |r|];
      r
    else
      s
  }

  /** Drops trailing whitespace: the result is the prefix of `s` up to its last non-space character. */
  function TrimEnd(s: string): (r: string)
    ensures |r| <= |s| && r == s[..|r|]
    ensures IsBlank(s[|r|..])
    ensures r == [] || !IsSpace(r[|r| - 1])
  {
    if s != [] && IsSpace(s[|s| - 1]) then
      var r := TrimEnd(s[..|s| - 1]);
      assert s[..|s| - 1][|r|..] + [s[|s| - 1]] == s[|r|..];
      r
    else
      s
  }

  /** `String.prototype.trim`: whitespace removed at both ends. */
  function Trim(s: string): (r: string)
    ensures r == [] || (!IsSpace(r[0]) && !IsSpace(r[|r| - 1]))
    ensures exists k :: 0 <= k <= |s| - |r| && IsBlank(s[..k]) && s[k..] == r + s[k + |r|..] && IsBlank(s[k + |r|..])
  {
    var t := TrimStart(s);
    var r := TrimEnd(t);
    var k := |s| - |t|;
    assert s[k..] == t == r + t[|r|..];
    assert t[|r|..] == s[k + |r|..];
    r
  }

  /** `s.trim().length === 0` holds exactly when `s` consists of whitespace only. */
  lemma {:induction false} TrimEmptyIffBlank(s: string)
    ensures |Trim(s)| == 0 <==> IsBlank(s)
  {
    var t := TrimStart(s);
    var k := |s| - |t|;
    assert t != [] ==> t[0] == s[k];
    if |Trim(s)| == 0 {
      assert t[|TrimEnd(t)|..] == t;
      assert t == [];
      assert s == s[..k];
    }
  }

  /**
   `s.split(/\s+/)[0]`: the characters of `s` before its first whitespace
   character, or all of `s` when it has none. It is empty when `s` is empty or
   starts with whitespace.
   */
  function FirstToken(s: string): (t: string)
    ensures |t| <= |s| && t == s[..|t|]
    ensures forall i :: 0 <= i < |t| ==> !IsSpace(t[i])
    ensures |t| < |s| ==> IsSpace(s[|t|])
  {
    if s == [] || IsSpace(s[0]) then
      []
    else
      [s[0]] + FirstToken(s[1..])
  }
}
