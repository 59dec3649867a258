/** Whitespace as Python's `str.isspace` and Go's `unicode.IsSpace` define it, and trimming
    a string at both ends. */
module Whitespace {

  /** Which runtime's notion of whitespace applies. */
  datatype SpaceRules =
    | PyStr       // Python's `str.isspace` / `str.strip()`
    | GoUnicode   // Go's `unicode.IsSpace` / `strings.TrimSpace`

  /** Whitespace characters. Both runtimes accept the C0 controls TAB..CR, SPACE, NEL,
      NBSP and the Unicode space separators; only Python also treats the four
      information separators U+001C..U+001F as whitespace. */
  predicate IsSpace(ws: SpaceRules, c: char) {
    || ('\t' <= c <= '\r')
    || c == ' ' || c == '\U{85}' || c == '\U{A0}' || c == '\U{1680}'
    || ('\U{2000}' <= c <= '\U{200A}')
    || c == '\U{2028}' || c == '\U{2029}' || c == '\U{202F}' || c == '\U{205F}' || c == '\U{3000}'
    || (ws == PyStr && '\U{1C}' <= c <= '\U{1F}')
  }

  /** The whitespace class of `ws`, in the form the trimming functions take. */
  function Spaces(ws: SpaceRules): CharClass {
    c => IsSpace(ws, c)
  }

  /** A set of characters given by its membership test. */
  type CharClass = char -> bool

  predicate AllIn(cls: CharClass, s: string) {
    forall k :: 0 <= k < |s| ==> cls(s[k])
  }

  /** The length of the longest prefix of `s` inside `cls`. */
  function LeadingCount(cls: CharClass, s: string): (n: nat)
    ensures n <= |s|
    decreases |s|
  {
    if s != "" && cls(s[0]) then 1 + LeadingCount(cls, s[1..]) else 0
  }

  lemma {:induction false} LeadingCountSpec(cls: CharClass, s: string)
    ensures var n := LeadingCount(cls, s);
            && (forall k :: 0 <= k < n ==> cls(s[k]))
            && (n < |s| ==> !cls(s[n]))
    decreases |s|
  {
    if s != "" && cls(s[0]) {
      LeadingCountSpec(cls, s[1..]);
      var n := LeadingCount(cls, s);
      forall k | 1 <= k < n
        ensures cls(s[k])
      {
        assert s[k] == s[1..][k - 1];
      }
      if n < |s| {
        assert s[n] == s[1..][n - 1];
      }
    }
  }

  /** The length of the longest suffix of `s` inside `cls`. */
  function TrailingCount(cls: CharClass, s: string): (n: nat)
    ensures n <= |s|
    decreases |s|
  {
    if s != "" && cls(s[|s| - 1]) then 1 + TrailingCount(cls, s[..|s| - 1]) else 0
  }

  lemma {:induction false} TrailingCountSpec(cls: CharClass, s: string)
    ensures var n := TrailingCount(cls, s);
            && (forall k :: |s| - n <= k < |s| ==> cls(s[k]))
            && (n < |s| ==> !cls(s[|s| - n - 1]))
    decreases |s|
  {
    if s != "" && cls(s[|s| - 1]) {
      var init := s[..|s| - 1];
      TrailingCountSpec(cls, init);
      var n := TrailingCount(cls, s);
      forall k | |s| - n <= k < |s| - 1
        ensures cls(s[k])
      {
        assert s[k] == init[k];
      }
      if n < |s| {
        assert s[|s| - n - 1] == init[|init| - (n - 1) - 1];
      }
    }
  }

  /** Removes the characters of `cls` from both ends of `s`: the leading ones first, then
      the trailing ones of what is left. Python's `s.strip()` is `Trim(Spaces(PyStr), s)`
      and Go's `strings.TrimSpace(s)` is `Trim(Spaces(GoUnicode), s)`. */
  function Trim(cls: CharClass, s: string): (r: string)
    ensures r == "" <==> AllIn(cls, s)
    ensures r != "" ==> !cls(r[0]) && !cls(r[|r| - 1])
  {
    var a := LeadingCount(cls, s);
    var b := |s| - TrailingCount(cls, s[a..]);
    TrimInfix(cls, s, a, b);
    s[a..b]
  }

  /** `s[a..b]` has only characters of `cls` on either side of it. */
  predicate IsPadding(cls: CharClass, s: string, a: int, b: int) {
    && 0 <= a <= b <= |s|
    && (forall k :: 0 <= k < a ==> cls(s[k]))
    && (forall k :: b <= k < |s| ==> cls(s[k]))
  }

  lemma TrimInfix(cls: CharClass, s: string, a: nat, b: int)
    requires a == LeadingCount(cls, s) && b == |s| - TrailingCount(cls, s[a..])
    ensures IsPadding(cls, s, a, b)
    ensures a == b <==> AllIn(cls, s)
    ensures a < b ==> !cls(s[a]) && !cls(s[b - 1])
  {
    LeadingCountSpec(cls, s);
    SuffixIn(cls, s, a);
    if a == b {
      assert AllIn(cls, s);
    }
  }

  /** Where the trailing run of `s[a..]` starts, counted in `s`. */
  lemma SuffixIn(cls: CharClass, s: string, a: nat)
    requires a <= |s|
    ensures var b := |s| - TrailingCount(cls, s[a..]);
            && (forall k :: b <= k < |s| ==> cls(s[k]))
            && (a < b ==> !cls(s[b - 1]))
  {
    var rest := s[a..];
    var b := |s| - TrailingCount(cls, rest);
    TrailingCountSpec(cls, rest);
    forall k | b <= k < |s|
      ensures cls(s[k])
    {
      assert s[k] == rest[k - a];
    }
    if a < b {
      assert s[b - 1] == rest[b - 1 - a];
    }
  }

  /** What `Trim` removes is characters of `cls` at the two ends and nothing else. */
  lemma TrimIsInfix(cls: CharClass, s: string)
    ensures exists a, b :: IsPadding(cls, s, a, b) && Trim(cls, s) == s[a..b]
  {
    var a := LeadingCount(cls, s);
    var b := |s| - TrailingCount(cls, s[a..]);
    TrimInfix(cls, s, a, b);
    assert Trim(cls, s) == s[a..b];
  }

  /** `Trim` strips exactly the padding: padding a core that neither starts nor ends
      inside `cls` and trimming gives the core back. */
  lemma TrimPadded(cls: CharClass, pre: string, core: string, post: string)
    requires AllIn(cls, pre) && AllIn(cls, post)
    requires core != "" ==> !cls(core[0]) && !cls(core[|core| - 1])
    ensures Trim(cls, pre + core + post) == core
  {
    var s := pre + core + post;
    if core == "" {
      assert s == pre + post;
      assert AllIn(cls, s);
    } else {
      assert s == pre + (core + post);
      LeadingPadded(cls, pre, core + post);
      assert s[|pre|..] == core + post;
      TrailingPadded(cls, core, post);
      assert (core + post)[..|core|] == core;
    }
  }

  lemma {:induction false} LeadingPadded(cls: CharClass, pre: string, rest: string)
    requires AllIn(cls, pre)
    requires rest != "" ==> !cls(rest[0])
    ensures LeadingCount(cls, pre + rest) == |pre|
    decreases |pre|
  {
    if pre != "" {
      var s := pre + rest;
      assert s[0] == pre[0];
      assert s[1..] == pre[1..] + rest;
      LeadingPadded(cls, pre[1..], rest);
    } else {
      assert pre + rest == rest;
    }
  }

  lemma {:induction false} TrailingPadded(cls: CharClass, core: string, post: string)
    requires AllIn(cls, post)
    requires core != "" ==> !cls(core[|core| - 1])
    ensures TrailingCount(cls, core + post) == |post|
    decreases |post|
  {
    if post != "" {
      var s := core + post;
      assert s[|s| - 1] == post[|post| - 1];
      assert s[..|s| - 1] == core + post[..|post| - 1];
      TrailingPadded(cls, core, post[..|post| - 1]);
    } else {
      assert core + post == core;
    }
  }

}
