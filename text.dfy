/**
  Character classes and string helpers shared by the log scanner and the
  settlement extractor: Python's notion of whitespace (used both by the
  regular-expression class `\s` and by `str.strip()`), the class `[A-Z0-9]`,
  `str.strip()` itself and `str.startswith`.
*/
module Text {

  /**
    The characters for which Python's `str.isspace()` holds, which are also
    those `\s` matches in a `str` pattern: U+0009 to U+000D, U+001C to U+0020,
    U+0085, U+00A0, U+1680, U+2000 to U+200A, U+2028, U+2029, U+202F, U+205F
    and U+3000.
  */
  const Whitespace: set<char> := {
    '\U{9}', '\U{A}', '\U{B}', '\U{C}', '\U{D}', '\U{1C}', '\U{1D}', '\U{1E}',
    '\U{1F}', '\U{20}', '\U{85}', '\U{A0}', '\U{1680}', '\U{2000}', '\U{2001}', '\U{2002}',
    '\U{2003}', '\U{2004}', '\U{2005}', '\U{2006}', '\U{2007}', '\U{2008}', '\U{2009}', '\U{200A}',
    '\U{2028}', '\U{2029}', '\U{202F}', '\U{205F}', '\U{3000}'
  }

  predicate IsSpace(c: char)
    ensures (c == ' ' || '\t' <= c <= '\r') ==> IsSpace(c)
    ensures IsSpace(c) ==> c <= '\U{3000}'
  {
    c in Whitespace
  }

  /** The regular-expression class `[A-Z0-9]`. */
  predicate IsCodeChar(c: char) {
    ('A' <= c <= 'Z') || ('0' <= c <= '9')
  }

  /** The two character classes never overlap, so the scanner never backtracks. */
  lemma CodeCharIsNotSpace(c: char)
    ensures IsCodeChar(c) ==> !IsSpace(c)
  {
  }

  /** Drops leading whitespace. */
  function TrimStart(s: string): (r: string)
    ensures |r| <= |s| && r == s[|s| - |r|..]
    ensures forall k :: 0 <= k < |s| - |r| ==> IsSpace(s[k])
    ensures r == [] || !IsSpace(r[0])
    decreases |s|
  {
    if |s| > 0 && IsSpace(s[0]) then
      var r := TrimStart(s[1..]);
      assert s[1..][|s| - 1 - |r|..] == s[|s| - |r|..];
      assert forall k :: 1 <= k < |s| - |r| ==> IsSpace(s[k]) by {
        forall k | 1 <= k < |s| - |r| ensures IsSpace(s[k]) {
          assert s[1..][k - 1] == s[k];
        }
      }
      r
    else
      s
  }

  /** Drops trailing whitespace. */
  function TrimEnd(s: string): (r: string)
    ensures |r| <= |s| && r == s[..|r|]
    ensures forall k :: |r| <= k < |s| ==> IsSpace(s[k])
    ensures r == [] || !IsSpace(r[|r| - 1])
    decreases |s|
  {
    if |s| > 0 && IsSpace(s[|s| - 1]) then
      var r := TrimEnd(s[..|s| - 1]);
      assert s[..|s| - 1][..|r|] == s[..|r|];
      assert forall k :: |r| <= k < |s| - 1 ==> IsSpace(s[k]) by {
        forall k | |r| <= k < |s| - 1 ensures IsSpace(s[k]) {
          assert s[..|s| - 1][k] == s[k];
        }
      }
      r
    else
      s
  }

  /** Python's `str.strip()` with no argument. */
  function Strip(s: string): (r: string)
    ensures r == [] || (!IsSpace(r[0]) && !IsSpace(r[|r| - 1]))
  {
    TrimEnd(TrimStart(s))
  }

  /**
    `Strip(s)` is the unique slice of `s` that is cut from `s` by removing
    only whitespace at both ends and that neither starts nor ends with
    whitespace.
  */
  lemma StripIsSlice(s: string) returns (a: nat, b: nat)
    ensures a <= b <= |s| && Strip(s) == s[a..b]
    ensures forall k :: 0 <= k < a ==> IsSpace(s[k])
    ensures forall k :: b <= k < |s| ==> IsSpace(s[k])
  {
    var t := TrimStart(s);
    a := |s| - |t|;
    var r := TrimEnd(t);
    b := a + |r|;
    assert t == s[a..];
    assert r == t[..|r|];
    assert Strip(s) == r;
    assert t[..|r|] == s[a..b];
    forall k | b <= k < |s| ensures IsSpace(s[k]) {
      assert IsSpace(t[k - a]);
      assert t[k - a] == s[k];
    }
  }

  /** Stripping twice is stripping once. */
  lemma StripIdempotent(s: string)
    ensures Strip(Strip(s)) == Strip(s)
  {
    var r := Strip(s);
    if r != [] {
      assert TrimStart(r) == r;
      assert TrimEnd(r) == r;
    }
  }

  /** A string without surrounding whitespace is left unchanged. */
  lemma StripKeepsTrimmed(s: string)
    requires s == [] || (!IsSpace(s[0]) && !IsSpace(s[|s| - 1]))
    ensures Strip(s) == s
  {
    TrimStartKeeps(s);
    TrimEndKeeps(s);
  }

  lemma TrimStartKeeps(s: string)
    requires s == [] || !IsSpace(s[0])
    ensures TrimStart(s) == s
  {
  }

  lemma TrimEndKeeps(s: string)
    requires s == [] || !IsSpace(s[|s| - 1])
    ensures TrimEnd(s) == s
  {
  }

  /** Python's `str.startswith(prefix)`. */
  predicate StartsWith(s: string, prefix: string)
    ensures StartsWith(s, prefix) ==> |prefix| <= |s| && s == prefix + s[|prefix|..]
    ensures !StartsWith(s, prefix) ==> forall rest: string :: s != prefix + rest
  {
    |prefix| <= |s| && s[..|prefix|] == prefix
  }

}
