/** String primitives the scripts rely on, with the semantics of Python's `str` and Go's
    `strings` package: substring search, `str.split(sep, maxsplit)`, `str.rstrip(c)` and
    decimal formatting of integers. */
module Text {
  import opened Wrappers

  // ---------------------------------------------------------------- search

  /** `pat` occurs in `s` starting at offset `i`. */
  predicate OccursAt(s: string, pat: string, i: nat) {
    i + |pat| <= |s| && s[i..i + |pat|] == pat
  }

  /** The first offset at which `pat` occurs in `s` (Python's `s.find(pat)`, with `None` for -1). */
  function IndexOf(s: string, pat: string): (r: Option<nat>)
    ensures r.Some? ==> OccursAt(s, pat, r.value)
    ensures r.Some? ==> forall j: nat :: j < r.value ==> !OccursAt(s, pat, j)
    ensures r.None? ==> forall j: nat :: !OccursAt(s, pat, j)
  {
    IndexFrom(s, pat, 0)
  }

  function IndexFrom(s: string, pat: string, from: nat): (r: Option<nat>)
    ensures r.Some? ==> from <= r.value && OccursAt(s, pat, r.value)
    ensures r.Some? ==> forall j: nat :: from <= j < r.value ==> !OccursAt(s, pat, j)
    ensures r.None? ==> forall j: nat :: from <= j ==> !OccursAt(s, pat, j)
    decreases |s| + 1 - from
  {
    if from + |pat| > |s| then None
    else if s[from..from + |pat|] == pat then Some(from)
    else IndexFrom(s, pat, from + 1)
  }

  /** Python's `pat in s`. */
  predicate Contains(s: string, pat: string) {
    IndexOf(s, pat).Some?
  }

  /** For a one-character pattern, substring search is character membership. */
  lemma ContainsChar(s: string, c: char)
    ensures Contains(s, [c]) <==> c in s
  {
    if c in s {
      var i :| 0 <= i < |s| && s[i] == c;
      assert OccursAt(s, [c], i);
    }
    if Contains(s, [c]) {
      var i := IndexOf(s, [c]).value;
      assert s[i..i + 1] == [c];
      assert s[i] == c;
    }
  }

  /** An occurrence inside a prefix is an occurrence in the whole string. */
  lemma OccursInPrefix(s: string, pat: string, n: nat, j: nat)
    requires n <= |s|
    ensures OccursAt(s[..n], pat, j) <==> j + |pat| <= n && OccursAt(s, pat, j)
  {
    if j + |pat| <= n {
      assert s[..n][j..j + |pat|] == s[j..j + |pat|];
    }
  }

  /** If `pat` (non-empty) does not occur before offset `n`, the prefix of length `n`
      does not contain it. */
  lemma NoOccurrenceInPrefix(s: string, pat: string, n: nat)
    requires pat != "" && n <= |s|
    requires forall j: nat :: j < n ==> !OccursAt(s, pat, j)
    ensures !Contains(s[..n], pat)
  {
    if Contains(s[..n], pat) {
      var j := IndexOf(s[..n], pat).value;
      OccursInPrefix(s, pat, n, j);
      assert false;
    }
  }

  // ---------------------------------------------------------------- split / join

  /** Python's `sep.join(parts)`. */
  function Join(parts: seq<string>, sep: string): string
    decreases |parts|
  {
    if |parts| == 0 then ""
    else if |parts| == 1 then parts[0]
    else parts[0] + sep + Join(parts[1..], sep)
  }

  /** Python's `s.split(sep, maxsplit)` for a non-empty separator: at most `maxsplit`
      splits, scanning left to right; a negative `maxsplit` means no limit. Joining the
      parts with the separator gives `s` back. */
  function Split(s: string, sep: string, maxsplit: int): (parts: seq<string>)
    requires sep != ""
    ensures |parts| >= 1
    ensures Join(parts, sep) == s
    ensures maxsplit >= 0 ==> |parts| <= maxsplit + 1
    decreases |s|
  {
    if maxsplit == 0 then [s]
    else match IndexOf(s, sep)
      case None => [s]
      case Some(i) =>
        var rest := Split(s[i + |sep|..], sep, if maxsplit > 0 then maxsplit - 1 else maxsplit);
        SplitStepJoin(s, sep, i, rest);
        [s[..i]] + rest
  }

  /** Every part but the last is free of the separator, and so is the last one when the
      split limit was not reached: each split happens at the first remaining occurrence. */
  lemma {:induction false} SplitPieces(s: string, sep: string, maxsplit: int)
    requires sep != ""
    ensures var parts := Split(s, sep, maxsplit);
            && (forall k :: 0 <= k < |parts| - 1 ==> !Contains(parts[k], sep))
            && (maxsplit < 0 || |parts| <= maxsplit ==> !Contains(parts[|parts| - 1], sep))
    decreases |s|
  {
    if maxsplit != 0 && IndexOf(s, sep).Some? {
      var i := IndexOf(s, sep).value;
      var m := if maxsplit > 0 then maxsplit - 1 else maxsplit;
      SplitPieces(s[i + |sep|..], sep, m);
      NoOccurrenceInPrefix(s, sep, i);
      SplitUnfold(s, sep, maxsplit);
      SplitStepPieces(s, sep, i, Split(s[i + |sep|..], sep, m));
    }
  }

  /** One step of `Split` puts back together: the text before the first separator,
      the separator, then the joined remainder. */
  lemma SplitStepJoin(s: string, sep: string, i: nat, rest: seq<string>)
    requires sep != "" && OccursAt(s, sep, i)
    requires |rest| >= 1 && Join(rest, sep) == s[i + |sep|..]
    ensures Join([s[..i]] + rest, sep) == s
  {
    JoinCons(s[..i], rest, sep);
    assert s[i..i + |sep|] == sep;
    assert s == s[..i] + s[i..i + |sep|] + s[i + |sep|..];
  }

  /** One step of `Split` keeps every piece but the last free of the separator. */
  lemma SplitStepPieces(s: string, sep: string, i: nat, rest: seq<string>)
    requires i <= |s| && sep != "" && !Contains(s[..i], sep)
    requires |rest| >= 1
    requires forall k :: 0 <= k < |rest| - 1 ==> !Contains(rest[k], sep)
    ensures forall k :: 0 <= k < |rest| ==> !Contains(([s[..i]] + rest)[k], sep)
  {
    var parts := [s[..i]] + rest;
    assert forall k | 1 <= k < |parts| :: parts[k] == rest[k - 1];
  }

  lemma JoinCons(a: string, rest: seq<string>, sep: string)
    requires |rest| >= 1
    ensures Join([a] + rest, sep) == a + sep + Join(rest, sep)
  {
    assert ([a] + rest)[1..] == rest;
  }

  function Min(a: int, b: int): int {
    if a < b then a else b
  }

  /** Splitting on a single character performs one split per occurrence, up to the limit:
      `s.split(c, m)` has `min(m, s.count(c)) + 1` parts. */
  lemma SplitCharCount(s: string, c: char, maxsplit: nat)
    ensures |Split(s, [c], maxsplit)| == Min(multiset(s)[c], maxsplit) + 1
    decreases |s|
  {
    if maxsplit > 0 && IndexOf(s, [c]).Some? {
      var i := IndexOf(s, [c]).value;
      assert i < |s| by { assert OccursAt(s, [c], i); }
      SplitCharCount(s[i + 1..], c, maxsplit - 1);
      SplitCharCountStep(s, c, maxsplit, i);
    } else if maxsplit > 0 {
      ContainsChar(s, c);
      SplitNone(s, [c], maxsplit);
    }
  }

  lemma SplitCharCountStep(s: string, c: char, maxsplit: nat, i: nat)
    requires maxsplit > 0 && IndexOf(s, [c]) == Some(i)
    requires |Split(s[i + 1..], [c], maxsplit - 1)| == Min(multiset(s[i + 1..])[c], maxsplit - 1) + 1
    ensures |Split(s, [c], maxsplit)| == Min(multiset(s)[c], maxsplit) + 1
  {
    CountAtFirst(s, c, i);
    SplitUnfoldLength(s, [c], maxsplit, i);
  }

  lemma SplitUnfoldLength(s: string, sep: string, maxsplit: int, i: nat)
    requires sep != "" && maxsplit != 0 && IndexOf(s, sep) == Some(i)
    ensures |Split(s, sep, maxsplit)| ==
            1 + |Split(s[i + |sep|..], sep, if maxsplit > 0 then maxsplit - 1 else maxsplit)|
  {
    SplitUnfold(s, sep, maxsplit);
  }

  /** `Split` peels off the text before the first separator, one split at a time. */
  lemma SplitUnfold(s: string, sep: string, maxsplit: int)
    requires sep != "" && maxsplit != 0 && IndexOf(s, sep).Some?
    ensures var i := IndexOf(s, sep).value;
            Split(s, sep, maxsplit) ==
            [s[..i]] + Split(s[i + |sep|..], sep, if maxsplit > 0 then maxsplit - 1 else maxsplit)
  {
  }

  /** The first occurrence of `c` accounts for one of its occurrences; none lie before it. */
  lemma CountAtFirst(s: string, c: char, i: nat)
    requires IndexOf(s, [c]) == Some(i)
    ensures i < |s| && multiset(s)[c] == 1 + multiset(s[i + 1..])[c]
  {
    assert s[i..i + 1] == [c];
    assert s == s[..i] + [c] + s[i + 1..];
    NoOccurrenceInPrefix(s, [c], i);
    ContainsChar(s[..i], c);
    assert multiset(s) == multiset(s[..i]) + multiset([c]) + multiset(s[i + 1..]);
  }

  /** When `a` is followed by the first occurrence of `sep`, splitting peels `a` off. */
  lemma SplitAtFirst(a: string, sep: string, b: string, maxsplit: int)
    requires sep != "" && maxsplit != 0
    requires IndexOf(a + sep + b, sep) == Some(|a|)
    ensures Split(a + sep + b, sep, maxsplit) ==
            [a] + Split(b, sep, if maxsplit > 0 then maxsplit - 1 else maxsplit)
  {
    var s := a + sep + b;
    assert s[..|a|] == a;
    assert s[|a| + |sep|..] == b;
  }

  /** Splitting on a character that does not occur in `a` peels `a` off. */
  lemma SplitCharPeel(a: string, c: char, b: string)
    requires c !in a
    ensures Split(a + [c] + b, [c], -1) == [a] + Split(b, [c], -1)
  {
    FirstCharAfter(a, c, b);
    SplitAtFirst(a, [c], b, -1);
  }

  /** `s.split(c, 2)` of two `c`-free fields, each followed by `c`, and a rest. */
  lemma SplitTwoFields(a: string, b: string, rest: string, c: char)
    requires c !in a && c !in b
    ensures Split(a + [c] + b + [c] + rest, [c], 2) == [a, b, rest]
  {
    var tail := b + [c] + rest;
    assert a + [c] + b + [c] + rest == a + [c] + tail;
    FirstCharAfter(a, c, tail);
    SplitAtFirst(a, [c], tail, 2);
    FirstCharAfter(b, c, rest);
    SplitAtFirst(b, [c], rest, 1);
  }

  /** Splitting undoes joining on a one-character separator, when no part contains it. */
  lemma {:induction false} SplitJoinChar(parts: seq<string>, c: char)
    requires |parts| >= 1
    requires forall k :: 0 <= k < |parts| ==> c !in parts[k]
    ensures Split(Join(parts, [c]), [c], -1) == parts
    decreases |parts|
  {
    if |parts| == 1 {
      ContainsChar(parts[0], c);
      SplitNone(parts[0], [c], -1);
    } else {
      var rest := parts[1..];
      SplitJoinChar(rest, c);
      assert Join(parts, [c]) == parts[0] + [c] + Join(rest, [c]);
      SplitCharPeel(parts[0], c, Join(rest, [c]));
      assert parts == [parts[0]] + rest;
    }
  }

  /** A string without the separator is not split. */
  lemma SplitNone(s: string, sep: string, maxsplit: int)
    requires sep != "" && !Contains(s, sep)
    ensures Split(s, sep, maxsplit) == [s]
  {
  }

  /** A character that does not occur in `a` first occurs right after `a`. */
  lemma FirstCharAfter(a: string, c: char, b: string)
    requires c !in a
    ensures IndexOf(a + [c] + b, [c]) == Some(|a|)
  {
    var s := a + [c] + b;
    assert OccursAt(s, [c], |a|) by { assert s[|a|..|a| + 1] == [c]; }
    forall j: nat | j < |a|
      ensures !OccursAt(s, [c], j)
    {
      assert s[j] == a[j];
      assert s[j..j + 1] == [a[j]];
    }
  }

  // ---------------------------------------------------------------- stripping

  /** Python's `s.rstrip(c)`: removes every trailing occurrence of `c`. */
  function RStrip(s: string, c: char): (r: string)
    ensures |r| <= |s| && r == s[..|r|]
    ensures forall k :: |r| <= k < |s| ==> s[k] == c
    ensures r == "" || r[|r| - 1] != c
    decreases |s|
  {
    if s != "" && s[|s| - 1] == c then RStrip(s[..|s| - 1], c) else s
  }

  // ---------------------------------------------------------------- decimal integers

  predicate IsDigit(c: char) {
    '0' <= c <= '9'
  }

  predicate AllDigits(s: string) {
    forall k :: 0 <= k < |s| ==> IsDigit(s[k])
  }

  function DigitChar(d: nat): (c: char)
    requires d < 10
    ensures IsDigit(c) && c as int - '0' as int == d
  {
    "0123456789"[d]
  }

  /** The number a string of decimal digits denotes. */
  function DecimalValue(ds: string): nat
    requires AllDigits(ds)
    decreases |ds|
  {
    if ds == "" then 0
    else 10 * DecimalValue(ds[..|ds| - 1]) + (ds[|ds| - 1] as int - '0' as int)
  }

  /** The shortest decimal form of a natural number. */
  function NatToDecimal(n: nat): (ds: string)
    ensures ds != "" && AllDigits(ds)
    ensures DecimalValue(ds) == n
    ensures ds[0] == '0' ==> ds == "0"
    decreases n
  {
    if n < 10 then [DigitChar(n)]
    else
      var front := NatToDecimal(n / 10);
      var ds := front + [DigitChar(n % 10)];
      assert ds[..|ds| - 1] == front;
      ds
  }

  /** Go's `%d` and Python's `str(int)`: a minus sign for negative numbers, then digits. */
  function IntToDecimal(n: int): (s: string)
    ensures s != "" && ' ' !in s && '\n' !in s
  {
    if n < 0 then "-" + NatToDecimal(-n) else NatToDecimal(n)
  }

  /** Reads back an optionally negative decimal integer; the inverse of `IntToDecimal`. */
  function ParseInt(s: string): Option<int> {
    if s != "" && s[0] == '-' then
      if |s| > 1 && AllDigits(s[1..]) then var v: int := DecimalValue(s[1..]); Some(-v) else None
    else if s != "" && AllDigits(s) then Some(DecimalValue(s))
    else None
  }

  lemma IntDecimalRoundTrip(n: int)
    ensures ParseInt(IntToDecimal(n)) == Some(n)
  {
    if n < 0 {
      assert ("-" + NatToDecimal(-n))[1..] == NatToDecimal(-n);
    }
  }
}
