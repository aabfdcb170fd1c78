/** The two framework string operations the engine relies on: Char.ConvertFromUtf32 and String.Trim. */
module Texts {
  import opened Wrappers

  /** A Unicode scalar value: in range and not a surrogate. */
  predicate IsScalar(v: int)
  {
    0 <= v <= 0x10FFFF && !(0xD800 <= v <= 0xDFFF)
  }

  /** Char.ConvertFromUtf32: the character with that codepoint, ArgumentOutOfRangeException for a non-scalar. */
  function ConvertFromUtf32(v: int): (r: Result<string>)
    ensures r.Ok? <==> IsScalar(v)
    ensures r.Ok? ==> |r.value| == 1 && r.value[0] as int == v
    ensures r.Err? ==> r.error == ArgumentOutOfRange(v)
  {
    if IsScalar(v) then Ok([v as char]) else Err(ArgumentOutOfRange(v))
  }

  /** Char.IsWhiteSpace: the Unicode space separators, line and paragraph separators, and the controls 9-13 and 0x85. */
  predicate IsWhiteSpace(c: char)
    ensures c == ' ' || c == '\t' || c == '\n' || c == '\r' ==> IsWhiteSpace(c)
    ensures IsWhiteSpace(c) ==> !('0' <= c <= '9' || 'A' <= c <= 'Z' || 'a' <= c <= 'z')
  {
    var n := c as int;
    (0x09 <= n <= 0x0D) || n == 0x20 || n == 0x85 || n == 0xA0 || n == 0x1680
    || (0x2000 <= n <= 0x200A) || n == 0x2028 || n == 0x2029 || n == 0x202F
    || n == 0x205F || n == 0x3000
  }

  predicate AllWhiteSpace(s: string)
  {
    forall k :: 0 <= k < |s| ==> IsWhiteSpace(s[k])
  }

  /** The number of whitespace characters in s from index `start` on, up to the first other character. */
  function WhiteSpaceFrom(s: string, start: nat): (n: nat)
    requires start <= |s|
    ensures start + n <= |s|
    ensures forall k :: start <= k < start + n ==> IsWhiteSpace(s[k])
    ensures start + n < |s| ==> !IsWhiteSpace(s[start + n])
    decreases |s| - start
  {
    if start < |s| && IsWhiteSpace(s[start]) then 1 + WhiteSpaceFrom(s, start + 1) else 0
  }

  /** The number of whitespace characters in s just before index `end`, back to the first other character. */
  function WhiteSpaceBefore(s: string, end: nat): (n: nat)
    requires end <= |s|
    ensures n <= end
    ensures forall k :: end - n <= k < end ==> IsWhiteSpace(s[k])
    ensures n < end ==> !IsWhiteSpace(s[end - n - 1])
  {
    if end > 0 && IsWhiteSpace(s[end - 1]) then 1 + WhiteSpaceBefore(s, end - 1) else 0
  }

  /** Drops the leading whitespace: what is left is a suffix of s that does not start with whitespace. */
  function TrimStart(s: string): (r: string)
    ensures |r| <= |s| && r == s[|s| - |r|..]
    ensures AllWhiteSpace(s[..|s| - |r|])
    ensures r == [] || !IsWhiteSpace(r[0])
  {
    var n := WhiteSpaceFrom(s, 0);
    s[n..]
  }

  /** Drops the trailing whitespace: what is left is a prefix of s that does not end with whitespace. */
  function TrimEnd(s: string): (r: string)
    ensures |r| <= |s| && r == s[..|r|]
    ensures AllWhiteSpace(s[|r|..])
    ensures r == [] || !IsWhiteSpace(r[|r| - 1])
  {
    var n := WhiteSpaceBefore(s, |s|);
    s[..|s| - n]
  }

  /** String.Trim: the whitespace at both ends removed; the result neither starts nor ends with whitespace. */
  function Trim(s: string): (r: string)
    ensures r == [] || (!IsWhiteSpace(r[0]) && !IsWhiteSpace(r[|r| - 1]))
  {
    TrimEnd(TrimStart(s))
  }

  /**
   * A prefix r of a suffix t of s is the slice of s that starts where t does;
   * when what t drops from s and what r drops from t is whitespace, so is what
   * lies around that slice.
   */
  lemma {:induction false} PrefixOfSuffix(s: string, t: string, r: string)
    requires |t| <= |s| && t == s[|s| - |t|..] && AllWhiteSpace(s[..|s| - |t|])
    requires |r| <= |t| && r == t[..|r|] && AllWhiteSpace(t[|r|..])
    ensures var a := |s| - |t|;
      a + |r| <= |s| && r == s[a..a + |r|]
      && AllWhiteSpace(s[..a]) && AllWhiteSpace(s[a + |r|..])
  {
    var a := |s| - |t|;
    assert s[a + |r|..] == t[|r|..];
  }

  /** What Trim removes is whitespace only: the result is the slice of s between the leading and trailing whitespace. */
  lemma {:induction false} TrimIsSlice(s: string)
    ensures var a := |s| - |TrimStart(s)|;
      var r := Trim(s);
      a + |r| <= |s| && r == s[a..a + |r|]
      && AllWhiteSpace(s[..a]) && AllWhiteSpace(s[a + |r|..])
  {
    var t := TrimStart(s);
    var r := TrimEnd(t);
    assert Trim(s) == r;
    PrefixOfSuffix(s, t, r);
  }

  /** Trimming twice trims nothing more. */
  lemma TrimIdempotent(s: string)
    ensures Trim(Trim(s)) == Trim(s)
  {
    TrimUnchanged(Trim(s));
  }

  /** A text that neither starts nor ends with whitespace is its own trim. */
  lemma TrimUnchanged(s: string)
    requires s == [] || (!IsWhiteSpace(s[0]) && !IsWhiteSpace(s[|s| - 1]))
    ensures Trim(s) == s
  {
  }

  /** A text made only of whitespace trims to the empty string. */
  lemma TrimAllWhiteSpace(s: string)
    requires AllWhiteSpace(s)
    ensures Trim(s) == []
  {
    if s != [] {
      assert IsWhiteSpace(s[0]);
    }
  }
}
