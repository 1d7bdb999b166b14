/** The string operations of Python's `str` that the script relies on:
    `strip()`, `lower()`, `endswith()` and `replace(pattern, '')`. */
module Text {

  /** Python's `str.isspace()` character set, which is also the set that
      `str.strip()` removes when called without arguments. */
  predicate IsSpace(c: char) {
    || ('\t' <= c <= '\r')
    || ('\U{1C}' <= c <= '\U{1F}')
    || c == ' '
    || c == '\U{85}'
    || c == '\U{A0}'
    || c == '\U{1680}'
    || ('\U{2000}' <= c <= '\U{200A}')
    || c == '\U{2028}'
    || c == '\U{2029}'
    || c == '\U{202F}'
    || c == '\U{205F}'
    || c == '\U{3000}'
  }

  /** Every character is whitespace (the empty string included). */
  predicate IsBlank(s: string) {
    forall i | 0 <= i < |s| :: IsSpace(s[i])
  }

  /** Python's `s.lstrip()`: the longest suffix of `s` that does not start
      with whitespace. */
  function TrimStart(s: string): (r: string)
    ensures |r| <= |s| && r == s[|s| - |r|..]
    ensures forall i | 0 <= i < |s| - |r| :: IsSpace(s[i])
    ensures r != [] ==> !IsSpace(r[0])
  {
    if s != [] && IsSpace(s[0]) then TrimStart(s[1..]) else s
  }

  /** Python's `s.rstrip()`: the longest prefix of `s` that does not end
      with whitespace. */
  function TrimEnd(s: string): (r: string)
    ensures |r| <= |s| && r == s[..|r|]
    ensures forall i | |r| <= i < |s| :: IsSpace(s[i])
    ensures r != [] ==> !IsSpace(r[|r| - 1])
  {
    if s != [] && IsSpace(s[|s| - 1]) then TrimEnd(s[..|s| - 1]) else s
  }

  /** How many whitespace characters `s` starts with. */
  function LeadingSpace(s: string): (n: nat)
    ensures n <= |s|
  {
    |s| - |TrimStart(s)|
  }

  /** Python's `s.strip()`: the part of `s` between its leading and its
      trailing whitespace. It is empty exactly for blank strings, and has no
      whitespace left at either end; StripInterior says where it sits in `s`. */
  function Strip(s: string): (r: string)
    ensures r == [] <==> IsBlank(s)
    ensures r != [] ==> !IsSpace(r[0]) && !IsSpace(r[|r| - 1])
  {
    StripFacts(s);
    TrimEnd(TrimStart(s))
  }

  /** A slice of a suffix is a slice of the whole. */
  lemma SliceOfSuffix<T>(s: seq<T>, i: nat, n: nat)
    requires i + n <= |s|
    ensures s[i..][..n] == s[i..i + n]
  {
  }

  /** Where the stripped part sits in `s`: right after the leading
      whitespace, with nothing but whitespace before and after it. */
  lemma StripInterior(s: string)
    ensures var r := Strip(s); var i := LeadingSpace(s);
      && i + |r| <= |s| && r == s[i..i + |r|]
      && IsBlank(s[..i]) && IsBlank(s[i + |r|..])
  {
    var t := TrimStart(s);
    var r := TrimEnd(t);
    var i := |s| - |t|;
    assert r == Strip(s);
    SliceOfSuffix(s, i, |r|);
    assert IsBlank(s[..i]) by {
      forall k | 0 <= k < i ensures IsSpace(s[..i][k]) {
        assert s[..i][k] == s[k];
      }
    }
    var tail := s[i + |r|..];
    forall k | 0 <= k < |tail| ensures IsSpace(tail[k]) {
      assert tail[k] == t[|r| + k];
    }
  }

  /** What Strip keeps: the characters between the leading and the trailing
      whitespace of `s`, in place. */
  lemma StripFacts(s: string)
    ensures var t := TrimStart(s); var r := TrimEnd(t);
      && (r == [] <==> IsBlank(s))
      && (r != [] ==> !IsSpace(r[0]) && !IsSpace(r[|r| - 1]))
      && |r| <= |s|
      && (forall k | 0 <= k < |r| :: r[k] == s[|s| - |t| + k])
  {
    var t := TrimStart(s);
    var r := TrimEnd(t);
    if r == [] {
      assert t == [];
    } else {
      assert r[0] == t[0];
    }
    if IsBlank(s) {
      assert t == [];
    }
  }

  /** The characters Strip keeps all come from its argument. */
  lemma StripKeepsCharacters(s: string, c: char)
    requires c in Strip(s)
    ensures c in s
  {
    StripFacts(s);
    var r := Strip(s);
    var k :| 0 <= k < |r| && r[k] == c;
    assert s[|s| - |TrimStart(s)| + k] == c;
  }

  /** The lower-case ASCII letters, in alphabetical order. */
  const LowerAlphabet: string := "abcdefghijklmnopqrstuvwxyz"

  /** A character that `lower()` maps to itself or to a lower-case letter;
      only the ASCII letters are modelled: an upper-case letter becomes the
      letter at the same place in the lower-case alphabet. */
  function LowerChar(c: char): (r: char)
    ensures !('A' <= r <= 'Z')
    ensures !('A' <= c <= 'Z') ==> r == c
    ensures 'A' <= c <= 'Z' ==> r as int - 'a' as int == c as int - 'A' as int
  {
    if 'A' <= c <= 'Z' then (c as int + 32) as char else c
  }

  /** Python's `s.lower()` on the ASCII letters: each upper-case letter
      becomes its lower-case letter, and every other character stays in
      place. */
  function Lower(s: string): (r: string)
    ensures |r| == |s|
    ensures forall k | 0 <= k < |r| :: !('A' <= r[k] <= 'Z')
    ensures forall k | 0 <= k < |s| && !('A' <= s[k] <= 'Z') :: r[k] == s[k]
    ensures forall k | 0 <= k < |s| && 'A' <= s[k] <= 'Z' :: r[k] as int - 'a' as int == s[k] as int - 'A' as int
  {
    seq(|s|, i requires 0 <= i < |s| => LowerChar(s[i]))
  }

  /** Lowering read against the alphabet: an upper-case letter becomes the
      letter at the same place in the lower-case alphabet. */
  lemma LowerMatchesAlphabet(s: string)
    ensures forall k | 0 <= k < |s| && 'A' <= s[k] <= 'Z' :: Lower(s)[k] == LowerAlphabet[s[k] as int - 'A' as int]
  {
    assert forall i | 0 <= i < 26 :: LowerAlphabet[i] as int == 'a' as int + i;
  }

  /** Python's `s.endswith(suffix)`. */
  predicate EndsWith(s: string, suffix: string) {
    |suffix| <= |s| && s[|s| - |suffix|..] == suffix
  }

  /** Python's `s.replace(pattern, '')`: scans `s` from the left and deletes
      every non-overlapping occurrence of `pattern`. An empty pattern leaves
      the string as it is. */
  function RemoveAll(s: string, pattern: string): (r: string)
    ensures |r| <= |s|
    ensures pattern == [] || |s| < |pattern| ==> r == s
    decreases |s|
  {
    if pattern == [] || |s| < |pattern| then s
    else if s[..|pattern|] == pattern then RemoveAll(s[|pattern|..], pattern)
    else [s[0]] + RemoveAll(s[1..], pattern)
  }

  /** How many occurrences of the pattern RemoveAll deletes: it deletes
      whole occurrences and nothing else. */
  function RemovedCount(s: string, pattern: string): nat
    decreases |s|
  {
    if pattern == [] || |s| < |pattern| then 0
    else if s[..|pattern|] == pattern then 1 + RemovedCount(s[|pattern|..], pattern)
    else RemovedCount(s[1..], pattern)
  }

  /** RemoveAll deletes whole occurrences of the pattern and nothing else:
      the length lost is a whole number of pattern lengths. */
  lemma {:induction false} RemoveAllLength(s: string, pattern: string)
    ensures |s| == |RemoveAll(s, pattern)| + RemovedCount(s, pattern) * |pattern|
    decreases |s|
  {
    if pattern == [] || |s| < |pattern| {
    } else if s[..|pattern|] == pattern {
      var rest := s[|pattern|..];
      RemoveAllLength(rest, pattern);
      assert RemoveAll(s, pattern) == RemoveAll(rest, pattern);
      assert RemovedCount(s, pattern) == 1 + RemovedCount(rest, pattern);
      MulSucc(RemovedCount(rest, pattern), |pattern|);
    } else {
      RemoveAllLength(s[1..], pattern);
      assert RemoveAll(s, pattern) == [s[0]] + RemoveAll(s[1..], pattern);
      assert RemovedCount(s, pattern) == RemovedCount(s[1..], pattern);
    }
  }

  /** One more occurrence adds one more pattern length. */
  lemma MulSucc(c: nat, n: nat)
    ensures (1 + c) * n == n + c * n
  {
  }

  /** A string that lacks some character of the pattern holds no occurrence
      of it, so nothing is removed. */
  lemma {:induction false} RemoveAllAbsent(s: string, pattern: string, c: char)
    requires c in pattern && c !in s
    ensures RemoveAll(s, pattern) == s
    decreases |s|
  {
    if |s| >= |pattern| {
      assert s[..|pattern|] != pattern by {
        var k :| 0 <= k < |pattern| && pattern[k] == c;
        assert s[..|pattern|][k] != c;
      }
      assert c !in s[1..];
      RemoveAllAbsent(s[1..], pattern, c);
      assert s == [s[0]] + s[1..];
    }
  }

  /** A prefix without the pattern's first character cannot hold the start of
      an occurrence, so it passes through unchanged. */
  lemma {:induction false} RemoveAllKeepsPrefix(x: string, t: string, pattern: string)
    requires pattern != [] && pattern[0] !in x
    ensures RemoveAll(x + t, pattern) == x + RemoveAll(t, pattern)
    decreases |x|
  {
    if x != [] {
      var s := x + t;
      if |s| < |pattern| {
        assert RemoveAll(t, pattern) == t;
      } else {
        assert RemoveAll(s, pattern) == [x[0]] + RemoveAll(x[1..] + t, pattern) by {
          assert s[0] == x[0] != pattern[0];
          assert s[..|pattern|] != pattern;
          assert s[1..] == x[1..] + t;
        }
        RemoveAllKeepsPrefix(x[1..], t, pattern);
        assert x == [x[0]] + x[1..];
      }
    } else {
      assert x + t == t;
    }
  }

  /** The pattern occurs in `s` starting at index `i`. */
  predicate OccursAt(s: string, pattern: string, i: int) {
    0 <= i && i + |pattern| <= |s| && s[i..i + |pattern|] == pattern
  }

  /** An occurrence in `s[1..]` is one in `s`, one place further on. */
  lemma OccursAtTail(s: string, pattern: string, i: int)
    requires s != [] && 0 <= i
    ensures OccursAt(s[1..], pattern, i) <==> OccursAt(s, pattern, i + 1)
  {
    if i + |pattern| <= |s| - 1 {
      assert s[1..][i..i + |pattern|] == s[i + 1..i + 1 + |pattern|];
    }
  }

  /** A string holding no occurrence of the pattern is left as it is. */
  lemma {:induction false} RemoveAllNone(s: string, pattern: string)
    requires forall i | 0 <= i < |s| :: !OccursAt(s, pattern, i)
    ensures RemoveAll(s, pattern) == s
    decreases |s|
  {
    if pattern != [] && |s| >= |pattern| {
      assert !OccursAt(s, pattern, 0);
      var rest := s[1..];
      forall i | 0 <= i < |rest| ensures !OccursAt(rest, pattern, i) {
        OccursAtTail(s, pattern, i);
      }
      RemoveAllNone(rest, pattern);
      assert s == [s[0]] + rest;
    }
  }

  /** The first occurrence is deleted and everything before it is kept: in
      `x + pattern + t`, with no occurrence starting inside `x`, the result
      is `x` followed by the removal from `t`. With RemoveAllNone this
      determines RemoveAll for every non-empty pattern. */
  lemma {:induction false} RemoveAllFirst(x: string, pattern: string, t: string)
    requires pattern != []
    requires forall i | 0 <= i < |x| :: !OccursAt(x + pattern + t, pattern, i)
    ensures RemoveAll(x + pattern + t, pattern) == x + RemoveAll(t, pattern)
    decreases |x|
  {
    var s := x + pattern + t;
    if x == [] {
      assert s == pattern + t;
      RemoveAllLeading(pattern, t);
    } else {
      assert !OccursAt(s, pattern, 0);
      assert RemoveAll(s, pattern) == [s[0]] + RemoveAll(s[1..], pattern);
      var x' := x[1..];
      assert s[1..] == x' + pattern + t;
      forall i | 0 <= i < |x'| ensures !OccursAt(x' + pattern + t, pattern, i) {
        OccursAtTail(s, pattern, i);
      }
      RemoveAllFirst(x', pattern, t);
      assert x == [x[0]] + x';
    }
  }

  /** A leading occurrence of the pattern is deleted. */
  lemma RemoveAllLeading(pattern: string, t: string)
    ensures RemoveAll(pattern + t, pattern) == RemoveAll(t, pattern)
  {
    if pattern != [] {
      assert (pattern + t)[..|pattern|] == pattern;
      assert (pattern + t)[|pattern|..] == t;
    }
  }
}
